/** Rewriting the checksums of a template after its sources changed (`do_prepare_upgrade`). */
module Upgrade {

  /** A piece of a template line: a quoted checksum, or any other text. */
  datatype Piece = Sum(sum: string) | Text(text: string)

  /** How a line starts, as far as the rewriter looks. */
  datatype Kind = PkgRel | Sha256 | Other

  datatype SourceLine = SourceLine(kind: Kind, pieces: seq<Piece>)

  const PKGREL_LINE := SourceLine(PkgRel, [Text("pkgrel = 0")])

  type Pairs = seq<(string, string)>

  /** `zip(oldsha, newsha)`. */
  function Zip(a: seq<string>, b: seq<string>): (r: Pairs)
    ensures |r| == if |a| <= |b| then |a| else |b|
    ensures forall i :: 0 <= i < |r| ==> r[i] == (a[i], b[i])
  {
    if a == [] || b == [] then [] else [(a[0], b[0])] + Zip(a[1..], b[1..])
  }

  /** `line.replace('"x"', '"y"')`. */
  function Replace(s: seq<Piece>, x: string, y: string): (r: seq<Piece>)
    ensures |r| == |s|
    ensures forall i :: 0 <= i < |s| ==> r[i] == if s[i] == Sum(x) then Sum(y) else s[i]
  {
    seq(|s|, i requires 0 <= i < |s| => if s[i] == Sum(x) then Sum(y) else s[i])
  }

  // ---- What happens to one line ----

  /** The pieces of a line, and the new checksums used up so far. */
  datatype LineState = LineState(pieces: seq<Piece>, used: set<string>)

  /** One pair: an unused new checksum replaces its old one, and is used up if that changed anything. */
  ghost function ApplyPair(s: LineState, pair: (string, string)): LineState {
    if pair.0 == pair.1 || pair.1 in s.used then s
    else
      var next := Replace(s.pieces, pair.0, pair.1);
      if next != s.pieces then LineState(next, s.used + {pair.1}) else s
  }

  ghost function ApplyPairs(s: LineState, pairs: Pairs): LineState
    decreases |pairs|
  {
    if pairs == [] then s else ApplyPairs(ApplyPair(s, pairs[0]), pairs[1..])
  }

  method RewriteLine(pieces: seq<Piece>, pairs: Pairs, used: set<string>) returns (ln: seq<Piece>, nowUsed: set<string>)
    ensures LineState(ln, nowUsed) == ApplyPairs(LineState(pieces, used), pairs)
    ensures |ln| == |pieces|
  {
    ln, nowUsed := pieces, used;
    for i := 0 to |pairs|
      invariant ApplyPairs(LineState(pieces, used), pairs) == ApplyPairs(LineState(ln, nowUsed), pairs[i..])
      invariant |ln| == |pieces|
    {
      var (oldck, newck) := pairs[i];
      assert pairs[i..][0] == pairs[i] && pairs[i..][1..] == pairs[i + 1..];
      if oldck == newck || newck in nowUsed {
        continue;
      }
      var nln := Replace(ln, oldck, newck);
      if ln != nln {
        nowUsed := nowUsed + {newck};
        ln := nln;
      }
    }
  }

  // ---- The file ----

  /** What the rewriter does with the remaining lines. */
  ghost function Rewritten(lines: seq<SourceLine>, pairs: Pairs, found: bool, used: set<string>): seq<SourceLine>
    decreases |lines|
  {
    if lines == [] then []
    else
      var ln, rest := lines[0], lines[1..];
      if ln.kind.PkgRel? then [PKGREL_LINE] + Rewritten(rest, pairs, found, used)
      else if !found && !ln.kind.Sha256? then [ln] + Rewritten(rest, pairs, false, used)
      else
        var s := ApplyPairs(LineState(ln.pieces, used), pairs);
        [ln.(pieces := s.pieces)] + Rewritten(rest, pairs, true, s.used)
  }

  lemma MoveOver<T>(a: seq<T>, x: T, b: seq<T>)
    ensures a + ([x] + b) == (a + [x]) + b
  {
  }

  /** No `sha256` line stands at position `i` or before. */
  ghost predicate NoneUpTo(lines: seq<SourceLine>, i: nat)
    requires i < |lines|
  {
    forall j :: 0 <= j <= i ==> !lines[j].kind.Sha256?
  }

  method RewriteTemplate(lines: seq<SourceLine>, oldsha: seq<string>, newsha: seq<string>)
      returns (out: seq<SourceLine>)
    ensures out == Rewritten(lines, Zip(oldsha, newsha), false, {})
    ensures |out| == |lines|
    ensures forall i :: 0 <= i < |lines| && lines[i].kind.PkgRel? ==>
              out[i] == SourceLine(PkgRel, [Text("pkgrel = 0")])
    ensures forall i :: 0 <= i < |lines| && !lines[i].kind.PkgRel? ==>
              out[i].kind == lines[i].kind && OnlySumsChange(lines[i].pieces, out[i].pieces)
    ensures forall i :: 0 <= i < |lines| && !lines[i].kind.PkgRel? && NoneUpTo(lines, i) ==> out[i] == lines[i]
  {
    hide ApplyPairs;
    hide OnlySumsChange;
    FileFrame(lines, Zip(oldsha, newsha), false, {});
    out := [];
    var pairs := Zip(oldsha, newsha);
    var foundSha, shaReplaced := false, {};
    for i := 0 to |lines|
      invariant Rewritten(lines, pairs, false, {}) == out + Rewritten(lines[i..], pairs, foundSha, shaReplaced)
    {
      var ln := lines[i];
      assert lines[i..][0] == ln && lines[i..][1..] == lines[i + 1..];
      if ln.kind.PkgRel? {
        MoveOver(out, PKGREL_LINE, Rewritten(lines[i + 1..], pairs, foundSha, shaReplaced));
        out := out + [PKGREL_LINE];
        continue;
      }
      if ln.kind.Sha256? {
        foundSha := true;
      } else if !foundSha {
        MoveOver(out, ln, Rewritten(lines[i + 1..], pairs, foundSha, shaReplaced));
        out := out + [ln];
        continue;
      }
      var pieces;
      pieces, shaReplaced := RewriteLine(ln.pieces, pairs, shaReplaced);
      MoveOver(out, ln.(pieces := pieces), Rewritten(lines[i + 1..], pairs, foundSha, shaReplaced));
      out := out + [ln.(pieces := pieces)];
    }
  }

  // ---- What stays as it was ----

  /** Pieces where `after` may differ from `before`: checksums only. */
  ghost predicate OnlySumsChange(before: seq<Piece>, after: seq<Piece>) {
    && |before| == |after|
    && forall i :: 0 <= i < |before| ==> before[i].Sum? == after[i].Sum? && (before[i].Text? ==> after[i] == before[i])
  }

  ghost predicate MentionsNone(pieces: seq<Piece>, pairs: Pairs) {
    forall i, p :: 0 <= i < |pieces| && p in pairs && p.0 != p.1 ==> pieces[i] != Sum(p.0)
  }

  lemma {:induction false} LineFrame(s: LineState, pairs: Pairs)
    ensures OnlySumsChange(s.pieces, ApplyPairs(s, pairs).pieces)
    ensures MentionsNone(s.pieces, pairs) ==> ApplyPairs(s, pairs) == s
    decreases |pairs|
  {
    if pairs != [] {
      LineFrame(ApplyPair(s, pairs[0]), pairs[1..]);
      if MentionsNone(s.pieces, pairs) {
        assert pairs[0] in pairs;
        assert pairs[0].0 != pairs[0].1 ==> Replace(s.pieces, pairs[0].0, pairs[0].1) == s.pieces;
        assert MentionsNone(s.pieces, pairs[1..]);
      }
    }
  }

  /**
   * Lines are neither added nor removed; `pkgrel` lines are reset; a line before the checksums, or without an
   * outdated checksum, is untouched; and elsewhere nothing but checksums changes.
   */
  lemma {:induction false} FileFrame(lines: seq<SourceLine>, pairs: Pairs, found: bool, used: set<string>)
    ensures var out := Rewritten(lines, pairs, found, used);
            |out| == |lines| && forall i :: 0 <= i < |lines| ==>
              if lines[i].kind.PkgRel? then out[i] == PKGREL_LINE
              else
                && out[i].kind == lines[i].kind
                && OnlySumsChange(lines[i].pieces, out[i].pieces)
                && (MentionsNone(lines[i].pieces, pairs) ==> out[i] == lines[i])
                && (!found && (forall j :: 0 <= j <= i ==> !lines[j].kind.Sha256?) ==> out[i] == lines[i])
    decreases |lines|
  {
    if lines != [] {
      var ln, rest := lines[0], lines[1..];
      var s := ApplyPairs(LineState(ln.pieces, used), pairs);
      LineFrame(LineState(ln.pieces, used), pairs);
      if ln.kind.PkgRel? || (!found && !ln.kind.Sha256?) {
        FileFrame(rest, pairs, found, used);
      } else {
        FileFrame(rest, pairs, true, s.used);
      }
    }
  }

  /** An old checksum before the section stays; in it, lines of any kind are rewritten, save `pkgrel` ones. */
  lemma SampleTemplate(a: string, b: string, c: string, d: string)
    requires a != b && c != d && a != c && a != d && b != c && b != d
    ensures var lines := [SourceLine(Other, [Sum(a)]), SourceLine(Sha256, [Text("sha256 = ["), Sum(a)]),
                          SourceLine(PkgRel, [Text("pkgrel = 3")]), SourceLine(Other, [Sum(c), Text("]")])];
            Rewritten(lines, [(a, b), (c, d)], false, {})
            == [SourceLine(Other, [Sum(a)]), SourceLine(Sha256, [Text("sha256 = ["), Sum(b)]),
                SourceLine(PkgRel, [Text("pkgrel = 0")]), SourceLine(Other, [Sum(d), Text("]")])]
  {
    var pairs := [(a, b), (c, d)];
    var one, two := SourceLine(Other, [Sum(a)]), SourceLine(Sha256, [Text("sha256 = ["), Sum(a)]);
    var three, four := SourceLine(PkgRel, [Text("pkgrel = 3")]), SourceLine(Other, [Sum(c), Text("]")]);
    SamplePairs(LineState(two.pieces, {}), a, b, c, d);
    SamplePairs(LineState(four.pieces, {b}), a, b, c, d);
    assert Replace(two.pieces, a, b) == [Text("sha256 = ["), Sum(b)];
    assert Replace([Text("sha256 = ["), Sum(b)], c, d) == [Text("sha256 = ["), Sum(b)];
    assert Replace(four.pieces, c, d) == [Sum(d), Text("]")];
    assert {} + {b} == {b};
    SampleLines(one, two, three, four, pairs);
  }

  lemma SamplePairs(s: LineState, a: string, b: string, c: string, d: string)
    ensures ApplyPairs(s, [(a, b), (c, d)]) == ApplyPair(ApplyPair(s, (a, b)), (c, d))
  {
    var t := ApplyPair(s, (a, b));
    var rest := [(a, b), (c, d)][1..];
    assert rest == [(c, d)] && rest[1..] == [];
    assert ApplyPairs(t, rest) == ApplyPairs(ApplyPair(t, rest[0]), rest[1..]);
  }

  /** Four lines, the second of which begins the section. */
  lemma SampleLines(one: SourceLine, two: SourceLine, three: SourceLine, four: SourceLine, pairs: Pairs)
    requires one.kind.Other? && two.kind.Sha256? && three.kind.PkgRel? && four.kind.Other?
    ensures var s := ApplyPairs(LineState(two.pieces, {}), pairs);
            Rewritten([one, two, three, four], pairs, false, {})
            == [one, two.(pieces := s.pieces), SourceLine(PkgRel, [Text("pkgrel = 0")]),
                four.(pieces := ApplyPairs(LineState(four.pieces, s.used), pairs).pieces)]
  {
    hide ApplyPairs;
    var s := ApplyPairs(LineState(two.pieces, {}), pairs);
    var all := [one, two, three, four];
    var from2, from3, from4 := all[1..], all[1..][1..], all[1..][1..][1..];
    assert from2 == [two, three, four] && from3 == [three, four] && from4 == [four] && from4[1..] == [];
    assert Rewritten(from4, pairs, true, s.used)
        == [four.(pieces := ApplyPairs(LineState(four.pieces, s.used), pairs).pieces)];
    assert Rewritten(from3, pairs, true, s.used) == [PKGREL_LINE] + Rewritten(from4, pairs, true, s.used);
    assert Rewritten(from2, pairs, false, {})
        == [two.(pieces := s.pieces)] + Rewritten(from3, pairs, true, s.used);
    assert Rewritten(all, pairs, false, {}) == [one] + Rewritten(from2, pairs, false, {});
  }

  // ---- The checksums ----

  ghost function SumsOf(pieces: seq<Piece>): seq<string> {
    if pieces == [] then []
    else (if pieces[0].Sum? then [pieces[0].sum] else []) + SumsOf(pieces[1..])
  }

  /** All checksums from the first `sha256` line on, in order. */
  ghost function SectionSums(lines: seq<SourceLine>, found: bool): seq<string>
    decreases |lines|
  {
    if lines == [] then []
    else if lines[0].kind.PkgRel? then SectionSums(lines[1..], found)
    else if !found && !lines[0].kind.Sha256? then SectionSums(lines[1..], false)
    else SumsOf(lines[0].pieces) + SectionSums(lines[1..], true)
  }

  ghost predicate OneSumPerLine(lines: seq<SourceLine>) {
    forall ln :: ln in lines ==> |SumsOf(ln.pieces)| <= 1
  }

  /** The same processing of a single checksum. */
  datatype Cell = Cell(cur: string, used: set<string>)

  ghost function Apply(c: Cell, pair: (string, string)): Cell {
    if pair.0 == pair.1 || pair.1 in c.used || c.cur != pair.0 then c else Cell(pair.1, c.used + {pair.1})
  }

  ghost function ApplyAll(c: Cell, pairs: Pairs): Cell
    decreases |pairs|
  {
    if pairs == [] then c else ApplyAll(Apply(c, pairs[0]), pairs[1..])
  }

  /** The new checksums, one line after the other. */
  ghost function Column(sums: seq<string>, pairs: Pairs, used: set<string>): seq<string>
    decreases |sums|
  {
    if sums == [] then []
    else
      var c := ApplyAll(Cell(sums[0], used), pairs);
      [c.cur] + Column(sums[1..], pairs, c.used)
  }

  lemma {:induction false} ReplaceSums(s: seq<Piece>, x: string, y: string)
    requires |SumsOf(s)| <= 1 && x != y
    ensures SumsOf(Replace(s, x, y)) == if SumsOf(s) == [x] then [y] else SumsOf(s)
    ensures Replace(s, x, y) != s <==> SumsOf(s) == [x]
  {
    if s != [] {
      var r := Replace(s, x, y);
      assert r[1..] == Replace(s[1..], x, y);
      if s[0].Sum? {
        NoSums(s[1..], x, y);
      } else {
        ReplaceSums(s[1..], x, y);
      }
      assert r != s <==> r[0] != s[0] || r[1..] != s[1..] by {
        assert r == [r[0]] + r[1..] && s == [s[0]] + s[1..];
      }
    }
  }

  lemma {:induction false} NoSums(s: seq<Piece>, x: string, y: string)
    requires SumsOf(s) == []
    ensures Replace(s, x, y) == s
  {
    if s != [] {
      NoSums(s[1..], x, y);
      assert Replace(s, x, y)[1..] == Replace(s[1..], x, y);
      assert s == [s[0]] + s[1..];
    }
  }

  /** A line with at most one checksum behaves like that checksum. */
  lemma {:induction false} LineAsCell(s: LineState, pairs: Pairs)
    requires |SumsOf(s.pieces)| <= 1
    ensures var t := ApplyPairs(s, pairs);
            if SumsOf(s.pieces) == [] then t == s
            else
              var c := ApplyAll(Cell(SumsOf(s.pieces)[0], s.used), pairs);
              SumsOf(t.pieces) == [c.cur] && t.used == c.used
    decreases |pairs|
  {
    if pairs != [] {
      var p := pairs[0];
      if p.0 != p.1 {
        ReplaceSums(s.pieces, p.0, p.1);
      }
      LineAsCell(ApplyPair(s, p), pairs[1..]);
    }
  }

  lemma {:induction false} FileAsColumn(lines: seq<SourceLine>, pairs: Pairs, found: bool, used: set<string>)
    requires OneSumPerLine(lines)
    ensures SectionSums(Rewritten(lines, pairs, found, used), found) == Column(SectionSums(lines, found), pairs, used)
    decreases |lines|
  {
    if lines != [] {
      var ln, rest := lines[0], lines[1..];
      assert ln in lines && OneSumPerLine(rest);
      var out := Rewritten(lines, pairs, found, used);
      if ln.kind.PkgRel? {
        FileAsColumn(rest, pairs, found, used);
        assert out[1..] == Rewritten(rest, pairs, found, used);
      } else if !found && !ln.kind.Sha256? {
        FileAsColumn(rest, pairs, false, used);
        assert out[1..] == Rewritten(rest, pairs, false, used);
      } else {
        var s := ApplyPairs(LineState(ln.pieces, used), pairs);
        LineAsCell(LineState(ln.pieces, used), pairs);
        FileAsColumn(rest, pairs, true, s.used);
        assert out[1..] == Rewritten(rest, pairs, true, s.used);
        if SumsOf(ln.pieces) != [] {
          var sums := SectionSums(lines, found);
          assert sums[1..] == SectionSums(rest, true);
        } else {
          assert SectionSums(lines, found) == SectionSums(rest, true);
        }
      }
    }
  }

  // ---- When the rewriting is right ----

  /**
   * No new checksum is the outdated checksum of a later entry, and no two changed entries get the same new
   * checksum.
   */
  ghost predicate NoClash(pairs: Pairs) {
    forall j, k :: 0 <= j < k < |pairs| && pairs[k].0 != pairs[k].1 ==>
      pairs[j].1 != pairs[k].0 && (pairs[j].0 != pairs[j].1 ==> pairs[j].1 != pairs[k].1)
  }

  function Olds(pairs: Pairs): (r: seq<string>)
    ensures |r| == |pairs| && forall i :: 0 <= i < |r| ==> r[i] == pairs[i].0
  {
    seq(|pairs|, i requires 0 <= i < |pairs| => pairs[i].0)
  }

  function News(pairs: Pairs): (r: seq<string>)
    ensures |r| == |pairs| && forall i :: 0 <= i < |r| ==> r[i] == pairs[i].1
  {
    seq(|pairs|, i requires 0 <= i < |pairs| => pairs[i].1)
  }

  /** The new checksums of the changed entries before `i`. */
  ghost function NewBefore(pairs: Pairs, i: nat): set<string>
    requires i <= |pairs|
  {
    set m | 0 <= m < i && pairs[m].0 != pairs[m].1 :: pairs[m].1
  }

  lemma {:induction false} EarlierPairsRest(pairs: Pairs, i: nat, k: nat)
    requires NoClash(pairs) && k <= i < |pairs|
    ensures ApplyAll(Cell(pairs[i].0, NewBefore(pairs, i)), pairs[k..])
              == ApplyAll(Cell(pairs[i].0, NewBefore(pairs, i)), pairs[i..])
    decreases i - k
  {
    if k < i {
      EarlierPairsRest(pairs, i, k + 1);
      assert pairs[k..][1..] == pairs[k + 1..];
      assert pairs[k].0 != pairs[k].1 ==> pairs[k].1 in NewBefore(pairs, i);
    }
  }

  lemma {:induction false} LaterPairsRest(pairs: Pairs, i: nat, k: nat, used: set<string>)
    requires NoClash(pairs) && i < k <= |pairs|
    ensures ApplyAll(Cell(pairs[i].1, used), pairs[k..]) == Cell(pairs[i].1, used)
    decreases |pairs| - k
  {
    if k < |pairs| {
      assert pairs[k..][1..] == pairs[k + 1..];
      LaterPairsRest(pairs, i, k + 1, used);
    }
  }

  /** Without clashes, entry `i` gets its own new checksum. */
  lemma OwnPairApplies(pairs: Pairs, i: nat)
    requires NoClash(pairs) && i < |pairs|
    ensures ApplyAll(Cell(pairs[i].0, NewBefore(pairs, i)), pairs) == Cell(pairs[i].1, NewBefore(pairs, i + 1))
  {
    EarlierPairsRest(pairs, i, 0);
    assert pairs[0..] == pairs && pairs[i..][1..] == pairs[i + 1..];
    var next := if pairs[i].0 == pairs[i].1 then NewBefore(pairs, i) else NewBefore(pairs, i) + {pairs[i].1};
    assert NewBefore(pairs, i + 1) == next;
    LaterPairsRest(pairs, i, i + 1, next);
  }

  lemma {:induction false} NoClashSuffices(pairs: Pairs, i: nat)
    requires NoClash(pairs) && i <= |pairs|
    ensures Column(Olds(pairs)[i..], pairs, NewBefore(pairs, i)) == News(pairs)[i..]
    decreases |pairs| - i
  {
    if i < |pairs| {
      OwnPairApplies(pairs, i);
      NoClashSuffices(pairs, i + 1);
      assert Olds(pairs)[i..][1..] == Olds(pairs)[i + 1..];
      assert News(pairs)[i..] == [News(pairs)[i]] + News(pairs)[i + 1..];
    }
  }

  // ---- When it is wrong ----

  lemma {:induction false} LastReplacement(c: Cell, pairs: Pairs)
    ensures var d := ApplyAll(c, pairs);
            c.used <= d.used && (d.cur == c.cur || (d.cur !in c.used && d.cur in d.used))
    decreases |pairs|
  {
    if pairs != [] {
      LastReplacement(Apply(c, pairs[0]), pairs[1..]);
    }
  }

  /** Pairs whose new checksums are not used up did not apply: the current checksum is none of their old ones. */
  lemma {:induction false} UnusedDidNotApply(c: Cell, pairs: Pairs)
    requires forall p :: p in pairs && p.0 != p.1 ==> p.1 !in ApplyAll(c, pairs).used
    ensures ApplyAll(c, pairs) == c
    ensures forall p :: p in pairs && p.0 != p.1 ==> p.0 != c.cur
    decreases |pairs|
  {
    if pairs != [] {
      assert pairs[0] in pairs;
      LastReplacement(Apply(c, pairs[0]), pairs[1..]);
      LastReplacement(c, pairs);
      assert Apply(c, pairs[0]) == c;
      assert forall p :: p in pairs[1..] ==> p in pairs;
      UnusedDidNotApply(c, pairs[1..]);
      assert pairs == [pairs[0]] + pairs[1..];
    }
  }

  lemma {:induction false} ApplySplit(c: Cell, pairs: Pairs, k: nat)
    requires k <= |pairs|
    ensures ApplyAll(c, pairs) == ApplyAll(ApplyAll(c, pairs[..k]), pairs[k..])
    decreases |pairs|
  {
    if k == 0 {
      assert pairs[0..] == pairs;
    } else {
      ApplySplit(Apply(c, pairs[0]), pairs[1..], k - 1);
      assert pairs[1..][..k - 1] == pairs[..k][1..] && pairs[1..][k - 1..] == pairs[k..];
    }
  }

  /** The checksums used up before line `i`. */
  ghost function UsedAt(sums: seq<string>, pairs: Pairs, i: nat): set<string>
    requires i <= |sums|
  {
    if i == 0 then {} else ApplyAll(Cell(sums[i - 1], UsedAt(sums, pairs, i - 1)), pairs).used
  }

  lemma {:induction false} ColumnAt(sums: seq<string>, pairs: Pairs, i: nat, k: nat)
    requires k <= i < |sums|
    ensures |Column(sums[k..], pairs, UsedAt(sums, pairs, k))| == |sums| - k
    ensures Column(sums[k..], pairs, UsedAt(sums, pairs, k))[i - k]
              == ApplyAll(Cell(sums[i], UsedAt(sums, pairs, i)), pairs).cur
    decreases |sums| - k
  {
    assert sums[k..][1..] == sums[k + 1..];
    ColumnLength(sums[k..], pairs, UsedAt(sums, pairs, k));
    if k < i {
      ColumnAt(sums, pairs, i, k + 1);
    }
  }

  lemma {:induction false} ColumnLength(sums: seq<string>, pairs: Pairs, used: set<string>)
    ensures |Column(sums, pairs, used)| == |sums|
    decreases |sums|
  {
    if sums != [] {
      ColumnLength(sums[1..], pairs, ApplyAll(Cell(sums[0], used), pairs).used);
    }
  }

  lemma {:induction false} UsedGrows(sums: seq<string>, pairs: Pairs, i: nat, k: nat)
    requires i <= k <= |sums|
    ensures UsedAt(sums, pairs, i) <= UsedAt(sums, pairs, k)
    decreases k - i
  {
    if i < k {
      UsedGrows(sums, pairs, i, k - 1);
      LastReplacement(Cell(sums[k - 1], UsedAt(sums, pairs, k - 1)), pairs);
    }
  }

  /** Every line ends with its own new checksum. */
  ghost predicate AllRight(pairs: Pairs) {
    forall i :: 0 <= i < |pairs| ==> RightAt(pairs, i)
  }

  ghost predicate RightAt(pairs: Pairs, i: nat)
    requires i < |pairs|
  {
    ApplyAll(Cell(pairs[i].0, UsedAt(Olds(pairs), pairs, i)), pairs).cur == pairs[i].1
  }

  /** If all lines come out right, a changed entry uses its new checksum on its own line, not before. */
  lemma UsedOnOwnLine(pairs: Pairs, k: nat)
    requires AllRight(pairs) && k < |pairs| && pairs[k].0 != pairs[k].1
    ensures pairs[k].1 !in UsedAt(Olds(pairs), pairs, k) && pairs[k].1 in UsedAt(Olds(pairs), pairs, k + 1)
  {
    assert RightAt(pairs, k);
    LastReplacement(Cell(pairs[k].0, UsedAt(Olds(pairs), pairs, k)), pairs);
  }

  lemma RightNeedsNoClash(pairs: Pairs, j: nat, k: nat)
    requires AllRight(pairs) && j < k < |pairs| && pairs[k].0 != pairs[k].1
    ensures pairs[j].1 != pairs[k].0
    ensures pairs[j].0 != pairs[j].1 ==> pairs[j].1 != pairs[k].1
  {
    var olds := Olds(pairs);
    UsedOnOwnLine(pairs, k);
    if pairs[j].0 != pairs[j].1 {
      UsedOnOwnLine(pairs, j);
      UsedGrows(olds, pairs, j + 1, k);
    }
    var c := Cell(pairs[j].0, UsedAt(olds, pairs, j));
    var mid := ApplyAll(c, pairs[..k]);
    ApplySplit(c, pairs, k);
    forall p | p in pairs[k..] && p.0 != p.1 ensures p.1 !in ApplyAll(mid, pairs[k..]).used {
      var m :| k <= m < |pairs| && pairs[m] == p;
      UsedOnOwnLine(pairs, m);
      UsedGrows(olds, pairs, j + 1, m);
    }
    UnusedDidNotApply(mid, pairs[k..]);
    assert RightAt(pairs, j);
    assert pairs[k] in pairs[k..];
  }

  /** The rewritten checksums are the new ones exactly if nothing clashes. */
  lemma ColumnExactly(pairs: Pairs)
    ensures Column(Olds(pairs), pairs, {}) == News(pairs) <==> NoClash(pairs)
  {
    var olds := Olds(pairs);
    assert olds[0..] == olds && News(pairs)[0..] == News(pairs);
    if NoClash(pairs) {
      assert NewBefore(pairs, 0) == {};
      NoClashSuffices(pairs, 0);
    }
    if Column(olds, pairs, {}) == News(pairs) {
      forall i | 0 <= i < |pairs| ensures RightAt(pairs, i) {
        ColumnAt(olds, pairs, i, 0);
      }
      forall j, k | 0 <= j < k < |pairs| && pairs[k].0 != pairs[k].1
        ensures pairs[j].1 != pairs[k].0 && (pairs[j].0 != pairs[j].1 ==> pairs[j].1 != pairs[k].1)
      {
        RightNeedsNoClash(pairs, j, k);
      }
    }
  }

  /**
   * For a template with at most one checksum per line, listing the old checksums in order, the rewritten
   * template lists the new checksums exactly if there are as many, and nothing clashes.
   */
  lemma RewritingIsRight(lines: seq<SourceLine>, oldsha: seq<string>, newsha: seq<string>)
    requires OneSumPerLine(lines) && SectionSums(lines, false) == oldsha
    ensures SectionSums(Rewritten(lines, Zip(oldsha, newsha), false, {}), false) == newsha
       <==> |oldsha| == |newsha| && NoClash(Zip(oldsha, newsha))
  {
    var pairs := Zip(oldsha, newsha);
    FileAsColumn(lines, pairs, false, {});
    ColumnLength(oldsha, pairs, {});
    if |oldsha| == |newsha| {
      assert Olds(pairs) == oldsha && News(pairs) == newsha;
      ColumnExactly(pairs);
    }
  }

  /** In particular when the changed new checksums are distinct and none of them is an outdated one. */
  lemma FreshChecksumsDoNotClash(pairs: Pairs)
    requires forall j, k :: 0 <= j < k < |pairs| && pairs[j].0 != pairs[j].1 && pairs[k].0 != pairs[k].1
              ==> pairs[j].1 != pairs[k].1
    requires forall j, k :: 0 <= j < |pairs| && 0 <= k < |pairs| && pairs[k].0 != pairs[k].1
              ==> pairs[j].1 != pairs[k].0
    ensures Column(Olds(pairs), pairs, {}) == News(pairs)
  {
    ColumnExactly(pairs);
  }

  lemma ApplyTwo(c: Cell, pairs: Pairs)
    requires |pairs| == 2
    ensures ApplyAll(c, pairs) == Apply(Apply(c, pairs[0]), pairs[1])
  {
    var q, d := pairs[1..], Apply(c, pairs[0]);
    assert q[0] == pairs[1] && q[1..] == [];
    assert ApplyAll(c, pairs) == ApplyAll(d, q);
    assert ApplyAll(d, q) == ApplyAll(Apply(d, q[0]), q[1..]);
  }

  /**
   * Two swapped checksums are not handled: the second replacement undoes the first, and the lines stay as they were.
   */
  lemma SwappedChecksumsClash(a: string, b: string)
    requires a != b
    ensures var pairs := [(a, b), (b, a)];
            Column(Olds(pairs), pairs, {}) == Olds(pairs) && News(pairs) == [b, a] && !NoClash(pairs)
  {
    var pairs := [(a, b), (b, a)];
    var used := {} + {b} + {a};
    ApplyTwo(Cell(a, {}), pairs);
    ApplyTwo(Cell(b, used), pairs);
    var olds := Olds(pairs);
    var rest := olds[1..];
    assert olds[0] == a && rest[0] == b && rest[1..] == [];
    assert Column(rest, pairs, used) == [b] + Column(rest[1..], pairs, used);
    assert Column(olds, pairs, {}) == [a] + Column(rest, pairs, used);
    assert olds == [a] + rest && rest == [b];
    assert pairs[0].1 == pairs[1].0;
  }
}
