/** Pruning the source cache down to what templates still refer to (`do_prune_sources`). */
module Prune {

  /** A directory entry: its inode, what it is after following links, and whether it is itself a link. */
  datatype Node = Node(ino: nat, isFile: bool, isDir: bool, isLink: bool)

  /** A top-level entry with the entries below it, if it is a directory. */
  datatype Entry = Entry(node: Node, children: map<string, Node>)

  /** The cache: hard links named by checksum, and everything else by name. */
  datatype Sources = Sources(hashes: map<string, Node>, top: map<string, Entry>)

  datatype Deletion =
    | Hardlink(name: string)
    | Orphaned(name: string)
    | Spurious(name: string)
    | Untracked(dir: string, name: string)

  function Lower(s: string): (r: string)
    ensures |r| == |s|
  {
    seq(|s|, i requires 0 <= i < |s| => if 'A' <= s[i] <= 'Z' then 'a' + (s[i] - 'A') else s[i])
  }

  function ChecksumOf(name: string): string {
    Lower(if |name| > 64 then name[..64] else name)
  }

  // ---- The rules ----

  predicate KeepHash(shas: set<string>, name: string, n: Node) {
    var cks := ChecksumOf(name);
    |cks| == 64 && cks in shas && n.isFile && !n.isLink
  }

  ghost function KeptHashes(shas: set<string>, hashes: map<string, Node>): map<string, Node> {
    map n | n in hashes && KeepHash(shas, n, hashes[n]) :: hashes[n]
  }

  ghost function Inodes(hashes: map<string, Node>): set<nat> {
    set n | n in hashes :: hashes[n].ino
  }

  lemma KeptInodes(shas: set<string>, hashes: map<string, Node>)
    ensures Inodes(KeptHashes(shas, hashes))
            == set n | n in hashes.Keys && KeepHash(shas, n, hashes[n]) :: hashes[n].ino
  {
    forall n | n in hashes.Keys && KeepHash(shas, n, hashes[n])
      ensures hashes[n].ino in Inodes(KeptHashes(shas, hashes))
    {
      assert n in KeptHashes(shas, hashes);
    }
  }

  predicate Reserved(name: string) {
    name == "by_sha256" || name == "cbuild.lock"
  }

  predicate KeepEntry(exist: set<string>, name: string, e: Entry) {
    Reserved(name) || (name in exist && e.node.isDir && !e.node.isLink)
  }

  ghost function KeptChildren(inos: set<nat>, children: map<string, Node>): map<string, Node> {
    map c | c in children && children[c].ino in inos :: children[c]
  }

  ghost function KeptEntry(inos: set<nat>, name: string, e: Entry): Entry {
    if Reserved(name) then e else e.(children := KeptChildren(inos, e.children))
  }

  ghost function KeptTop(exist: set<string>, inos: set<nat>, top: map<string, Entry>): map<string, Entry> {
    map f | f in top && KeepEntry(exist, f, top[f]) :: KeptEntry(inos, f, top[f])
  }

  /** What is left of the cache. */
  ghost function Pruned(shas: set<string>, exist: set<string>, s: Sources): Sources {
    var kept := KeptHashes(shas, s.hashes);
    Sources(kept, KeptTop(exist, Inodes(kept), s.top))
  }

  ghost function EntryDeletions(exist: set<string>, inos: set<nat>, name: string, e: Entry): set<Deletion> {
    if Reserved(name) then {}
    else if name !in exist then {Orphaned(name)}
    else if !e.node.isDir || e.node.isLink then {Spurious(name)}
    else set c | c in e.children && e.children[c].ino !in inos :: Untracked(name, c)
  }

  ghost function TopDeletions(exist: set<string>, inos: set<nat>, top: map<string, Entry>): set<Deletion> {
    set f, d | f in top && d in EntryDeletions(exist, inos, f, top[f]) :: d
  }

  ghost function HashDeletions(shas: set<string>, hashes: map<string, Node>): set<Deletion> {
    set n | n in hashes && !KeepHash(shas, n, hashes[n]) :: Hardlink(n)
  }

  /** What a run deletes. */
  ghost function Deletions(shas: set<string>, exist: set<string>, s: Sources): set<Deletion> {
    HashDeletions(shas, s.hashes) + TopDeletions(exist, Inodes(KeptHashes(shas, s.hashes)), s.top)
  }

  class SourceCache {
    var hashes: map<string, Node>
    var top: map<string, Entry>
    const dryRun: bool

    constructor (s: Sources, dryRun: bool)
      ensures Now() == s && this.dryRun == dryRun
    {
      hashes, top, this.dryRun := s.hashes, s.top, dryRun;
    }

    ghost function Now(): Sources
      reads this
    {
      Sources(hashes, top)
    }

    /** First pass: collects the inodes of hard links still in use, deletes the others. */
    method PruneHashes(shas: set<string>) returns (inos: set<nat>, log: set<Deletion>)
      modifies this`hashes
      ensures hashes == if dryRun then old(hashes) else KeptHashes(shas, old(hashes))
      ensures inos == Inodes(KeptHashes(shas, old(hashes)))
      ensures log == HashDeletions(shas, old(hashes))
    {
      var listing := hashes;
      var todo := hashes.Keys;
      inos, log := {}, {};
      while todo != {}
        invariant todo <= listing.Keys
        invariant hashes == if dryRun then listing
                  else map n | n in listing && (n in todo || KeepHash(shas, n, listing[n])) :: listing[n]
        invariant inos == set n | n in listing.Keys - todo && KeepHash(shas, n, listing[n]) :: listing[n].ino
        invariant log == set n | n in listing.Keys - todo && !KeepHash(shas, n, listing[n]) :: Hardlink(n)
      {
        var name :| name in todo;
        todo := todo - {name};
        var sf := listing[name];
        var cks := ChecksumOf(name);
        if |cks| != 64 || cks !in shas || !sf.isFile || sf.isLink {
          log := log + {Hardlink(name)};
          if !dryRun {
            hashes := hashes - {name};
          }
        } else {
          inos := inos + {sf.ino};
        }
      }
      KeptInodes(shas, listing);
      assert hashes == if dryRun then listing else KeptHashes(shas, listing);
      assert log == HashDeletions(shas, listing);
    }

    /** The entries of one directory of a known version. */
    method PruneChildren(dir: string, inos: set<nat>) returns (log: set<Deletion>)
      requires dir in top
      modifies this`top
      ensures log == set c | c in old(top)[dir].children && old(top)[dir].children[c].ino !in inos :: Untracked(dir, c)
      ensures top == if dryRun then old(top)
                     else old(top)[dir := old(top)[dir].(children := KeptChildren(inos, old(top)[dir].children))]
    {
      var listing := top[dir].children;
      var todo, left := listing.Keys, listing;
      log := {};
      while todo != {}
        invariant todo <= listing.Keys
        invariant left == map c | c in listing && (c in todo || listing[c].ino in inos) :: listing[c]
        invariant log == set c | c in listing.Keys - todo && listing[c].ino !in inos :: Untracked(dir, c)
      {
        var name :| name in todo;
        todo := todo - {name};
        if listing[name].ino !in inos {
          log := log + {Untracked(dir, name)};
          left := left - {name};
        }
      }
      assert left == KeptChildren(inos, listing);
      assert log == set c | c in listing && listing[c].ino !in inos :: Untracked(dir, c);
      if !dryRun {
        top := top[dir := top[dir].(children := left)];
      }
    }

    /** One top-level entry. */
    method PruneEntry(f: string, exist: set<string>, inos: set<nat>) returns (log: set<Deletion>)
      requires f in top
      modifies this`top
      ensures log == EntryDeletions(exist, inos, f, old(top)[f])
      ensures top == if dryRun then old(top)
                     else if KeepEntry(exist, f, old(top)[f]) then old(top)[f := KeptEntry(inos, f, old(top)[f])]
                     else old(top) - {f}
    {
      if f == "by_sha256" || f == "cbuild.lock" {
        return {};
      }
      if f !in exist {
        log := {Orphaned(f)};
        if !dryRun {
          top := top - {f};
        }
        return;
      }
      if !top[f].node.isDir || top[f].node.isLink {
        log := {Spurious(f)};
        if !dryRun {
          top := top - {f};
        }
        return;
      }
      log := PruneChildren(f, inos);
    }

    /** Second pass: deletes orphaned and spurious entries, and untracked files of known versions. */
    method PruneTop(exist: set<string>, inos: set<nat>) returns (log: set<Deletion>)
      modifies this`top
      ensures top == if dryRun then old(top) else KeptTop(exist, inos, old(top))
      ensures log == TopDeletions(exist, inos, old(top))
    {
      ghost var listing := top;
      var todo := top.Keys;
      log := {};
      while todo != {}
        invariant todo <= listing.Keys && todo <= top.Keys
        invariant forall f :: f in todo ==> top[f] == listing[f]
        invariant dryRun ==> top == listing
        invariant !dryRun ==> forall f :: f in top <==> f in todo || (f in listing && KeepEntry(exist, f, listing[f]))
        invariant !dryRun ==> forall f :: f in top && f !in todo ==> top[f] == KeptEntry(inos, f, listing[f])
        invariant log == set f, d | f in listing.Keys - todo && d in EntryDeletions(exist, inos, f, listing[f]) :: d
      {
        var f :| f in todo;
        todo := todo - {f};
        var more := PruneEntry(f, exist, inos);
        log := log + more;
      }
    }

    /**
     * The whole run: what is left and what is reported are exactly what the rules say; a dry run reports the
     * same and changes nothing.
     */
    method PruneSources(shas: set<string>, exist: set<string>) returns (log: set<Deletion>)
      modifies this
      ensures Now() == if dryRun then old(Now()) else Pruned(shas, exist, old(Now()))
      ensures log == Deletions(shas, exist, old(Now()))
    {
      var inos, first := PruneHashes(shas);
      var second := PruneTop(exist, inos);
      log := first + second;
    }
  }

  /** Every surviving source file shares its inode with a surviving hard link of a checksum some template lists. */
  lemma SurvivorsAreTracked(shas: set<string>, exist: set<string>, s: Sources, f: string, c: string)
    requires var t := Pruned(shas, exist, s); f in t.top && !Reserved(f) && c in t.top[f].children
    ensures var t := Pruned(shas, exist, s);
            && f in exist
            && exists n :: n in t.hashes && ChecksumOf(n) in shas && t.hashes[n].ino == t.top[f].children[c].ino
  {
  }

  /** ASCII upper-case letters become lower-case ones; every other character stays. */
  lemma LowerExactly(s: string, i: nat)
    requires i < |s|
    ensures 'A' <= s[i] <= 'Z' ==> Lower(s)[i] as int == s[i] as int + 32
    ensures !('A' <= s[i] <= 'Z') ==> Lower(s)[i] == s[i]
  {
  }

  /**
   * The first 64 characters of a name, whatever follows them, are those of `sha` up to the case of letters. A
   * shorter name has none.
   */
  ghost predicate NamedBy(sha: string, name: string) {
    && |sha| == 64 && |name| >= 64
    && forall i :: 0 <= i < 64 ==>
         if 'A' <= name[i] <= 'Z' then sha[i] as int == name[i] as int + 32 else sha[i] == name[i]
  }

  /** A hard link survives exactly if it is a regular file, no link, and named by a listed checksum. */
  lemma SurvivingHashes(shas: set<string>, exist: set<string>, s: Sources)
    ensures forall n :: n in Pruned(shas, exist, s).hashes <==>
              n in s.hashes && s.hashes[n].isFile && !s.hashes[n].isLink && exists sha :: sha in shas && NamedBy(sha, n)
    ensures forall n :: n in Pruned(shas, exist, s).hashes ==> Pruned(shas, exist, s).hashes[n] == s.hashes[n]
  {
    forall n
      ensures (exists sha :: sha in shas && NamedBy(sha, n)) <==> |ChecksumOf(n)| == 64 && ChecksumOf(n) in shas
    {
      ChecksumIsName(shas, n);
    }
  }

  lemma ChecksumIsName(shas: set<string>, n: string)
    ensures (exists sha :: sha in shas && NamedBy(sha, n)) <==> |ChecksumOf(n)| == 64 && ChecksumOf(n) in shas
  {
    var cks := ChecksumOf(n);
    if |n| >= 64 {
      assert n[..64] == if |n| > 64 then n[..64] else n;
      forall i | 0 <= i < 64 ensures cks[i] == Lower(n[..64])[i] && n[..64][i] == n[i] {
        LowerExactly(n[..64], i);
      }
      if sha :| sha in shas && NamedBy(sha, n) {
        forall i | 0 <= i < 64 ensures sha[i] == cks[i] {
          LowerExactly(n[..64], i);
        }
        assert sha == cks;
      }
      if cks in shas {
        assert NamedBy(cks, n);
      }
    }
  }

  /**
   * A link named by a listed checksum in any case, `_` and the file name keeps itself, and every file with its
   * inode in the directory of a known version.
   */
  lemma LinkKeepsSources(shas: set<string>, exist: set<string>, s: Sources, c: string, rest: string,
                         f: string, g: string)
    requires |c| == 64 && Lower(c) in shas
    requires c + rest in s.hashes && s.hashes[c + rest].isFile && !s.hashes[c + rest].isLink
    requires f in s.top && f in exist && s.top[f].node.isDir && !s.top[f].node.isLink
    requires g in s.top[f].children && s.top[f].children[g].ino == s.hashes[c + rest].ino
    ensures var t := Pruned(shas, exist, s);
            c + rest in t.hashes && f in t.top && g in t.top[f].children && t.top[f].children[g] == s.top[f].children[g]
  {
    var name := c + rest;
    forall i | 0 <= i < 64 ensures name[i] == c[i] {
      LowerExactly(c, i);
    }
    assert NamedBy(Lower(c), name);
    SurvivingHashes(shas, exist, s);
    SurvivingSources(shas, exist, s);
  }

  /** `f` may be in the cache: one of the two reserved names, or a real directory of a known version. */
  ghost predicate MayStay(exist: set<string>, s: Sources, f: string) {
    && f in s.top
    && (f == "by_sha256" || f == "cbuild.lock" || (f in exist && s.top[f].node.isDir && !s.top[f].node.isLink))
  }

  /** The reserved entries survive as they are; of the others, the files that share an inode with a surviving link. */
  lemma SurvivingSources(shas: set<string>, exist: set<string>, s: Sources)
    ensures var t := Pruned(shas, exist, s);
            && (forall f :: f in t.top <==> MayStay(exist, s, f))
            && (forall f :: f in t.top && (f == "by_sha256" || f == "cbuild.lock") ==> t.top[f] == s.top[f])
            && (forall f :: f in t.top && f != "by_sha256" && f != "cbuild.lock" ==>
                  && t.top[f].node == s.top[f].node
                  && (forall c :: c in t.top[f].children <==>
                        c in s.top[f].children
                        && exists n :: n in t.hashes && t.hashes[n].ino == s.top[f].children[c].ino)
                  && forall c :: c in t.top[f].children ==> t.top[f].children[c] == s.top[f].children[c])
  {
  }

  /** What is reported, and as what. */
  lemma ReportedAs(shas: set<string>, exist: set<string>, s: Sources, d: Deletion)
    ensures d in Deletions(shas, exist, s) <==>
              match d
              case Hardlink(n) => n in s.hashes && n !in Pruned(shas, exist, s).hashes
              case Orphaned(f) => f in s.top && f != "by_sha256" && f != "cbuild.lock" && f !in exist
              case Spurious(f) =>
                f in s.top && f != "by_sha256" && f != "cbuild.lock" && f in exist && !MayStay(exist, s, f)
              case Untracked(f, c) =>
                && f != "by_sha256" && f != "cbuild.lock" && MayStay(exist, s, f) && c in s.top[f].children
                && forall n :: n in Pruned(shas, exist, s).hashes ==>
                     Pruned(shas, exist, s).hashes[n].ino != s.top[f].children[c].ino
  {
    var inos := Inodes(KeptHashes(shas, s.hashes));
    NamesTopEntry(exist, inos, s.top, d);
    if !d.Hardlink? {
      var f := if d.Untracked? then d.dir else d.name;
      if f in s.top {
        DueToEntry(exist, inos, s.top, f, d);
      }
    }
    var h := Pruned(shas, exist, s).hashes;
    assert inos == Inodes(h);
    forall ino ensures ino in Inodes(h) <==> exists n :: n in h && h[n].ino == ino {
      if n :| n in h && h[n].ino == ino {
        assert h[n].ino in Inodes(h);
      }
    }
  }

  lemma NamesTopEntry(exist: set<string>, inos: set<nat>, top: map<string, Entry>, d: Deletion)
    ensures d in TopDeletions(exist, inos, top) ==>
              !d.Hardlink? && (if d.Untracked? then d.dir else d.name) in top
  {
  }

  /** Pruning twice is pruning once, and the second run has nothing to delete. */
  lemma PruningIsIdempotent(shas: set<string>, exist: set<string>, s: Sources)
    ensures Pruned(shas, exist, Pruned(shas, exist, s)) == Pruned(shas, exist, s)
    ensures Deletions(shas, exist, Pruned(shas, exist, s)) == {}
  {
    var t := Pruned(shas, exist, s);
    assert KeptHashes(shas, t.hashes) == t.hashes;
    var inos := Inodes(t.hashes);
    forall f | f in t.top ensures KeptEntry(inos, f, t.top[f]) == t.top[f] && KeepEntry(exist, f, t.top[f]) {
      if !Reserved(f) {
        assert KeptChildren(inos, t.top[f].children) == t.top[f].children;
      }
    }
    assert KeptTop(exist, inos, t.top) == t.top;
  }

  /** A deletion inside the sources is due to the top-level entry it names. */
  lemma DueToEntry(exist: set<string>, inos: set<nat>, top: map<string, Entry>, f: string, d: Deletion)
    requires f in top && (d == Orphaned(f) || d == Spurious(f) || (d.Untracked? && d.dir == f))
    ensures d in TopDeletions(exist, inos, top) <==> d in EntryDeletions(exist, inos, f, top[f])
  {
    if d in TopDeletions(exist, inos, top) {
      var g :| g in top && d in EntryDeletions(exist, inos, g, top[g]);
      assert g == f;
    }
  }

  /** The report, of a dry run too, names exactly what a real run removes. */
  lemma ReportIsExact(shas: set<string>, exist: set<string>, s: Sources)
    ensures var t, log := Pruned(shas, exist, s), Deletions(shas, exist, s);
            && (forall n :: n in s.hashes ==> (Hardlink(n) in log <==> n !in t.hashes))
            && (forall f :: f in s.top ==> (Orphaned(f) in log || Spurious(f) in log <==> f !in t.top))
            && (forall f, c :: f in t.top && c in s.top[f].children ==>
                  (Untracked(f, c) in log <==> c !in t.top[f].children))
  {
    var t, log := Pruned(shas, exist, s), Deletions(shas, exist, s);
    var inos := Inodes(KeptHashes(shas, s.hashes));
    forall f | f in s.top ensures Orphaned(f) in log || Spurious(f) in log <==> f !in t.top {
      DueToEntry(exist, inos, s.top, f, Orphaned(f));
      DueToEntry(exist, inos, s.top, f, Spurious(f));
    }
    forall f, c | f in t.top && c in s.top[f].children ensures Untracked(f, c) in log <==> c !in t.top[f].children {
      DueToEntry(exist, inos, s.top, f, Untracked(f, c));
    }
  }
}
