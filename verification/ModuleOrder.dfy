/** Dependencies-first listing of kernel modules (`scripts/resolve-modules.py`). */
module ModuleOrder {
  import opened Graphs
  import opened Templates
  import opened Status

  // ---- Names ----

  predicate EndsWith(s: string, suffix: string) {
    |suffix| <= |s| && s[|s| - |suffix|..] == suffix
  }

  function RemoveSuffix(s: string, suffix: string): string {
    if EndsWith(s, suffix) then s[..|s| - |suffix|] else s
  }

  function Underscores(s: string): (r: string)
    ensures |r| == |s| && forall i :: 0 <= i < |s| ==> r[i] == if s[i] == '-' then '_' else s[i]
  {
    seq(|s|, i requires 0 <= i < |s| => if s[i] == '-' then '_' else s[i])
  }

  /** The last component of a path that is not empty or a single dot (`Path(path).name`). */
  function BaseName(path: string): string
    decreases |path|
  {
    var n := LastPart(path);
    var part := path[|path| - n..];
    if n == |path| then (if part == "." then "" else part)
    else if part == "" || part == "." then BaseName(path[..|path| - n - 1])
    else part
  }

  /** The length of what follows the last slash. */
  function LastPart(path: string): (n: nat)
    ensures n <= |path|
    ensures n < |path| ==> path[|path| - n - 1] == '/'
    ensures forall i :: |path| - n <= i < |path| ==> path[i] != '/'
  {
    if path == "" || path[|path| - 1] == '/' then 0 else 1 + LastPart(path[..|path| - 1])
  }

  const SUFFIXES: seq<string> := [".zst", ".xz", ".gz"]

  /** The name without the first compression suffix it ends with. */
  function Uncompressed(name: string, suffixes: seq<string>): string {
    if suffixes == [] then name
    else if EndsWith(name, suffixes[0]) then RemoveSuffix(name, suffixes[0])
    else Uncompressed(name, suffixes[1..])
  }

  function NameOf(path: string): string {
    Underscores(RemoveSuffix(Uncompressed(BaseName(path), SUFFIXES), ".ko"))
  }

  method ModuleName(path: string) returns (name: string)
    ensures name == NameOf(path)
    ensures exists m, ko, z :: Cut(BaseName(path), m, ko, z) && Underscored(name, m)
  {
    ghost var _, _, _ := NameExactly(path);
    name := BaseName(path);
    for i := 0 to |SUFFIXES|
      invariant Uncompressed(BaseName(path), SUFFIXES) == Uncompressed(name, SUFFIXES[i..])
    {
      var suffix := SUFFIXES[i];
      if EndsWith(name, suffix) {
        name := name[..|name| - |suffix|];
        break;
      }
    }
    if EndsWith(name, ".ko") {
      name := name[..|name| - 3];
    }
    name := Underscores(name);
  }

  /** What a requested name is looked up as. */
  function Normalized(requested: string): string {
    Underscores(RemoveSuffix(requested, ".ko"))
  }

  lemma EndsWithConcat(s: string, t: string)
    ensures EndsWith(s + t, t) && RemoveSuffix(s + t, t) == s
  {
  }

  lemma {:induction false} LastPartConcat(dir: string, file: string)
    requires dir == "" || dir[|dir| - 1] == '/'
    requires forall i :: 0 <= i < |file| ==> file[i] != '/'
    ensures LastPart(dir + file) == |file|
  {
    var p := dir + file;
    if file == "" {
      assert p == dir;
    } else {
      LastPartConcat(dir, file[..|file| - 1]);
      assert p[..|p| - 1] == dir + file[..|file| - 1];
    }
  }

  lemma BaseNameAfterSlash(dir: string, file: string)
    requires dir == "" || dir[|dir| - 1] == '/'
    requires file != "" && file != "." && forall i :: 0 <= i < |file| ==> file[i] != '/'
    ensures BaseName(dir + file) == file
  {
    var p := dir + file;
    LastPartConcat(dir, file);
    assert p[|p| - |file|..] == file;
  }

  /** Two texts that differ `k` characters before their ends. */
  lemma NotAtEnd(s: string, suffix: string, k: nat)
    requires k < |s| && k < |suffix| && s[|s| - 1 - k] != suffix[|suffix| - 1 - k]
    ensures !EndsWith(s, suffix)
  {
    if |suffix| <= |s| {
      assert s[|s| - |suffix|..][|suffix| - 1 - k] == s[|s| - 1 - k];
    }
  }

  lemma UncompressedKernelObject(m: string, suffix: string)
    requires suffix == "" || suffix == ".zst" || suffix == ".xz" || suffix == ".gz"
    ensures Uncompressed(m + ".ko" + suffix, [".zst", ".xz", ".gz"]) == m + ".ko"
  {
    var plain, file := m + ".ko", m + ".ko" + suffix;
    EndsWithConcat(plain, suffix);
    assert [".zst", ".xz", ".gz"][1..] == [".xz", ".gz"] && [".xz", ".gz"][1..] == [".gz"] && [".gz"][1..] == [];
    if suffix == "" {
      assert file == plain;
      NotAtEnd(file, ".zst", 0);
      NotAtEnd(file, ".xz", 0);
      NotAtEnd(file, ".gz", 0);
      assert Uncompressed(file, [".gz"]) == file;
    } else if suffix == ".xz" {
      NotAtEnd(file, ".zst", 0);
    } else if suffix == ".gz" {
      NotAtEnd(file, ".zst", 0);
      NotAtEnd(file, ".xz", 1);
      assert Uncompressed(file, [".gz"]) == plain;
    }
  }

  /** A module file is found under its own name, whatever its directory and compression. */
  lemma FoundUnderOwnName(dir: string, m: string, suffix: string)
    requires dir == "" || dir[|dir| - 1] == '/'
    requires forall i :: 0 <= i < |m| ==> m[i] != '/'
    requires suffix == "" || suffix == ".zst" || suffix == ".xz" || suffix == ".gz"
    ensures NameOf(dir + (m + ".ko" + suffix)) == Normalized(m + ".ko")
  {
    var file := m + ".ko" + suffix;
    assert file[|m|] == '.' && file[|m| + 1] == 'k';
    forall i | 0 <= i < |file| ensures file[i] != '/' {
    }
    BaseNameAfterSlash(dir, file);
    UncompressedKernelObject(m, suffix);
  }

  /** Without the suffix `.ko`, the same name is found. */
  lemma FoundWithoutSuffix(dir: string, m: string, suffix: string)
    requires dir == "" || dir[|dir| - 1] == '/'
    requires forall i :: 0 <= i < |m| ==> m[i] != '/'
    requires suffix == "" || suffix == ".zst" || suffix == ".xz" || suffix == ".gz"
    ensures Underscored(NameOf(dir + (m + ".ko" + suffix)), m)
    ensures !(exists w :: m == w + ".ko") ==> NameOf(dir + (m + ".ko" + suffix)) == Normalized(m)
  {
    FoundUnderOwnName(dir, m, suffix);
    EndsWithConcat(m, ".ko");
    EndsWithExactly(m, ".ko");
  }

  lemma EndsWithExactly(s: string, suffix: string)
    ensures EndsWith(s, suffix) <==> exists w :: s == w + suffix
  {
    if EndsWith(s, suffix) {
      assert s == s[..|s| - |suffix|] + suffix;
    }
  }

  /** `name` is `m` with underscores in place of dashes. */
  ghost predicate Underscored(name: string, m: string) {
    |name| == |m| && forall i :: 0 <= i < |m| ==> name[i] == if m[i] == '-' then '_' else m[i]
  }

  /** `file` is `m`, then `.ko` if it can be cut off, then one compression suffix if there is one. */
  ghost predicate Cut(file: string, m: string, ko: string, z: string) {
    && file == m + ko + z
    && (z == "" || z == ".zst" || z == ".xz" || z == ".gz")
    && (z == "" ==> !exists w :: file == w + ".zst" || file == w + ".xz" || file == w + ".gz")
    && (ko == ".ko" || (ko == "" && !exists w :: m == w + ".ko"))
  }

  /** The name of a path is what is left of its last component once both suffixes are cut off, underscored. */
  lemma NameExactly(path: string) returns (m: string, ko: string, z: string)
    ensures Cut(BaseName(path), m, ko, z) && Underscored(NameOf(path), m)
  {
    var file := BaseName(path);
    var plain := Uncompressed(file, SUFFIXES);
    z := CutsOne(file);
    EndsWithExactly(plain, ".ko");
    m := RemoveSuffix(plain, ".ko");
    ko := if EndsWith(plain, ".ko") then ".ko" else "";
  }

  lemma CutsOne(file: string) returns (z: string)
    ensures file == Uncompressed(file, SUFFIXES) + z
    ensures z == "" || z == ".zst" || z == ".xz" || z == ".gz"
    ensures z == "" ==> !exists w :: file == w + ".zst" || file == w + ".xz" || file == w + ".gz"
  {
    EndsWithExactly(file, ".zst");
    EndsWithExactly(file, ".xz");
    EndsWithExactly(file, ".gz");
    assert SUFFIXES[1..] == [".xz", ".gz"] && [".xz", ".gz"][1..] == [".gz"] && [".gz"][1..] == [];
    assert Uncompressed(file, [".gz"]) == RemoveSuffix(file, ".gz");
    z := if EndsWith(file, ".zst") then ".zst"
         else if EndsWith(file, ".xz") then ".xz"
         else if EndsWith(file, ".gz") then ".gz" else "";
  }

  /** A request is looked up without `.ko`, underscored. */
  lemma RequestExactly(q: string) returns (m: string)
    ensures q == m + ".ko" || (q == m && !exists w :: q == w + ".ko")
    ensures Underscored(Normalized(q), m)
  {
    EndsWithExactly(q, ".ko");
    m := RemoveSuffix(q, ".ko");
  }

  /** The last component: slashes and single dots at the end do not count. */
  lemma LastComponent(path: string)
    ensures BaseName("") == "" && BaseName(".") == ""
    ensures BaseName(path + "/") == BaseName(path) && BaseName(path + "/.") == BaseName(path)
  {
    var p, q := path + "/", path + "/.";
    assert p[..|p| - 1] == path && q[..|q| - 1] == p;
    assert LastPart(p) == 0 && LastPart(q) == 1;
    assert q[|q| - 1..] == "." && q[..|q| - 2] == path;
    assert LastPart(".") == 1 + LastPart("") by {
      assert "."[..0] == "";
    }
  }

  /** `w` is `m`, but for dashes and underscores. */
  ghost predicate DashesApart(w: string, m: string) {
    && |w| == |m|
    && forall i :: 0 <= i < |m| ==> w[i] == m[i] || (w[i] == '-' && m[i] == '_') || (w[i] == '_' && m[i] == '-')
  }

  /** `q` asks for the module `m`: with or without `.ko`, with dashes or underscores. */
  ghost predicate AsksFor(q: string, m: string) {
    exists w :: DashesApart(w, m) && (q == w || q == w + ".ko")
  }

  /** All these requests are looked up alike. */
  lemma RequestsAlike(q: string, m: string)
    requires AsksFor(q, m) && !exists v :: m == v + ".ko"
    ensures Normalized(q) == Normalized(m)
  {
    var w :| DashesApart(w, m) && (q == w || q == w + ".ko");
    EndsWithExactly(m, ".ko");
    EndsWithConcat(w, ".ko");
    SameEnd(w, m);
    assert Underscores(w) == Underscores(m);
  }

  lemma SameEnd(w: string, m: string)
    requires DashesApart(w, m)
    ensures EndsWith(w, ".ko") ==> EndsWith(m, ".ko")
  {
    if EndsWith(w, ".ko") {
      var k := |m| - 3;
      assert w[k..][0] == w[k] && w[k..][1] == w[k + 1] && w[k..][2] == w[k + 2];
      assert m[k..] == ".ko";
    }
  }

  // ---- Tables ----

  /** `line.partition(":")`: the length of what precedes the first colon. */
  function ColonAt(line: string): (n: nat)
    ensures n <= |line|
    ensures forall i :: 0 <= i < n ==> line[i] != ':'
    ensures n < |line| ==> line[n] == ':'
  {
    if line == "" || line[0] == ':' then 0 else 1 + ColonAt(line[1..])
  }

  function Strip(s: string): string
    decreases |s|
  {
    if s == "" then s
    else if Blank(s[0]) then Strip(s[1..])
    else if Blank(s[|s| - 1]) then Strip(s[..|s| - 1])
    else s
  }

  /** A text without blanks at its ends. */
  ghost predicate Trimmed(s: string) {
    s == "" || (!Blank(s[0]) && !Blank(s[|s| - 1]))
  }

  /** Stripping removes the blanks at both ends, all of them and nothing else. */
  lemma {:induction false} StripExactly(before: string, s: string, after: string)
    requires AllBlank(before) && AllBlank(after) && Trimmed(s)
    ensures Strip(before + s + after) == s
    decreases |before| + |after|
  {
    var t := before + s + after;
    if before != "" {
      StripExactly(before[1..], s, after);
      assert t[1..] == before[1..] + s + after;
    } else if after != "" {
      if s == "" {
        StripExactly("", "", after[1..]);
        assert t == after && t[1..] == "" + "" + after[1..];
      } else {
        StripExactly("", s, after[..|after| - 1]);
        assert t == s + after && t[..|t| - 1] == "" + s + after[..|after| - 1];
      }
    } else {
      assert t == s;
    }
  }

  /** The dependency lists by path; the last line for a path counts. */
  ghost function DependencyTable(lines: seq<string>): map<string, seq<string>> {
    if lines == [] then map[]
    else
      var line := lines[|lines| - 1];
      var rest := DependencyTable(lines[..|lines| - 1]);
      if ColonAt(line) < |line|
      then rest[Strip(line[..ColonAt(line)]) := Split(line[ColonAt(line) + 1..])] else rest
  }

  /** The path behind each module name; the last line for a name counts. */
  ghost function NameTable(lines: seq<string>): map<string, string> {
    if lines == [] then map[]
    else
      var line := lines[|lines| - 1];
      var rest := NameTable(lines[..|lines| - 1]);
      if ColonAt(line) < |line|
      then rest[NameOf(Strip(line[..ColonAt(line)])) := Strip(line[..ColonAt(line)])] else rest
  }

  /** Names lead to listed paths of that name. */
  lemma {:induction false} NamesAreListed(lines: seq<string>)
    ensures forall n :: n in NameTable(lines) ==>
              NameTable(lines)[n] in DependencyTable(lines) && NameOf(NameTable(lines)[n]) == n
    ensures forall p :: p in DependencyTable(lines) ==> NameOf(p) in NameTable(lines)
  {
    if lines != [] {
      NamesAreListed(lines[..|lines| - 1]);
    }
  }

  /** A line with a colon: the path before the first one, and the rest. */
  ghost predicate IsEntry(line: string, path: string, rest: string) {
    exists before, after :: AllBlank(before) && AllBlank(after) && line == before + path + after + (":" + rest)
  }

  lemma NoColon(before: string, path: string, after: string)
    requires AllBlank(before) && AllBlank(after) && forall i :: 0 <= i < |path| ==> path[i] != ':'
    ensures forall i :: 0 <= i < |before + path + after| ==> (before + path + after)[i] != ':'
  {
  }

  lemma FirstColon(head: string, rest: string)
    requires forall i :: 0 <= i < |head| ==> head[i] != ':'
    ensures var line := head + (":" + rest);
            ColonAt(line) == |head| < |line| && line[..|head|] == head && line[|head| + 1..] == rest
  {
    var line := head + (":" + rest);
    assert line[|head|] == ':';
    forall i | 0 <= i < |head| ensures line[i] != ':' {
      assert line[i] == head[i];
    }
  }

  /** The usual form: no blanks around the path. */
  lemma PlainEntry(path: string, rest: string)
    ensures IsEntry(path + (":" + rest), path, rest)
  {
    assert AllBlank("") && path + (":" + rest) == "" + path + "" + (":" + rest);
  }

  /** Such a line is read as an entry for the path. */
  lemma EntryIsRead(line: string, path: string, rest: string)
    requires Trimmed(path) && IsEntry(line, path, rest) && forall i :: 0 <= i < |path| ==> path[i] != ':'
    ensures ColonAt(line) < |line| && Strip(line[..ColonAt(line)]) == path && line[ColonAt(line) + 1..] == rest
  {
    var before, after :| AllBlank(before) && AllBlank(after) && line == before + path + after + (":" + rest);
    var head := before + path + after;
    NoColon(before, path, after);
    FirstColon(head, rest);
    StripExactly(before, path, after);
  }

  /** The last entry for a path counts, with the words after the colon as dependencies. */
  lemma {:induction false} DependenciesRead(lines: seq<string>, i: nat, path: string, gaps: seq<string>,
                                            words: seq<string>, end: string)
    requires i < |lines| && Trimmed(path) && forall j :: 0 <= j < |path| ==> path[j] != ':'
    requires |gaps| == |words| && Gaps(gaps) && AllBlank(end) && forall w :: w in words ==> Token(w)
    requires IsEntry(lines[i], path, Weave(gaps, words, end))
    requires forall j :: i < j < |lines| && ColonAt(lines[j]) < |lines[j]| ==>
               Strip(lines[j][..ColonAt(lines[j])]) != path
    ensures path in DependencyTable(lines) && DependencyTable(lines)[path] == words
    decreases |lines|
  {
    if i == |lines| - 1 {
      EntryIsRead(lines[i], path, Weave(gaps, words, end));
      SplitWeave(gaps, words, end);
    } else {
      var init := lines[..|lines| - 1];
      assert forall j :: 0 <= j < |init| ==> init[j] == lines[j];
      DependenciesRead(init, i, path, gaps, words, end);
    }
  }

  /** The last entry for a name counts. */
  lemma {:induction false} NameRead(lines: seq<string>, i: nat, path: string, rest: string)
    requires i < |lines| && Trimmed(path) && forall j :: 0 <= j < |path| ==> path[j] != ':'
    requires IsEntry(lines[i], path, rest)
    requires forall j :: i < j < |lines| && ColonAt(lines[j]) < |lines[j]| ==>
               NameOf(Strip(lines[j][..ColonAt(lines[j])])) != NameOf(path)
    ensures NameOf(path) in NameTable(lines) && NameTable(lines)[NameOf(path)] == path
    decreases |lines|
  {
    if i == |lines| - 1 {
      EntryIsRead(lines[i], path, rest);
    } else {
      var init := lines[..|lines| - 1];
      assert forall j :: 0 <= j < |init| ==> init[j] == lines[j];
      NameRead(init, i, path, rest);
    }
  }

  method ReadTables(lines: seq<string>) returns (dependencies: map<string, seq<string>>, byName: map<string, string>)
    ensures dependencies == DependencyTable(lines) && byName == NameTable(lines)
  {
    dependencies, byName := map[], map[];
    for i := 0 to |lines|
      invariant dependencies == DependencyTable(lines[..i]) && byName == NameTable(lines[..i])
    {
      var line := lines[i];
      assert lines[..i + 1][..i] == lines[..i];
      var n := ColonAt(line);
      if n == |line| {
        continue;
      }
      var path := Strip(line[..n]);
      dependencies := dependencies[path := Split(line[n + 1..])];
      var name := ModuleName(path);
      byName := byName[name := path];
    }
    assert lines[..|lines|] == lines;
  }

  ghost function BuiltinNames(lines: seq<string>): set<string> {
    set i | 0 <= i < |lines| :: NameOf(Strip(lines[i]))
  }

  method ReadBuiltins(lines: seq<string>) returns (builtins: set<string>)
    ensures builtins == BuiltinNames(lines)
  {
    hide NameOf;
    hide Strip;
    builtins := {};
    for i := 0 to |lines|
      invariant builtins == set j | 0 <= j < i :: NameOf(Strip(lines[j]))
    {
      var name := ModuleName(Strip(lines[i]));
      builtins := builtins + {name};
    }
  }

  // ---- The traversal ----

  ghost function TableEdges(dependencies: map<string, seq<string>>): set<(string, string)> {
    set p, d | p in dependencies.Keys && d in dependencies[p] :: (p, d)
  }

  ghost predicate From(E: set<(string, string)>, p: string, x: string) {
    x == p || Reach(E, p, x)
  }

  /** Visited paths not emitted yet: those whose dependencies are being visited. */
  ghost function Open(visited: set<string>, ordered: seq<string>): set<string> {
    visited - set x | x in ordered
  }

  /** Whatever an emitted path depends on was emitted before it, unless it depends on that path in turn. */
  ghost predicate PostOrder(E: set<(string, string)>, ordered: seq<string>) {
    forall i, d :: 0 <= i < |ordered| && (ordered[i], d) in E ==> d in ordered[..i] || Reach(E, d, ordered[i])
  }

  ghost predicate Consistent(deps: map<string, seq<string>>, visited: set<string>, ordered: seq<string>) {
    && Distinct(ordered)
    && (forall x :: x in ordered ==> x in visited)
    && visited <= deps.Keys
    && PostOrder(TableEdges(deps), ordered)
  }

  /** What a successful visit of `roots` adds: everything from them, with all its dependencies. */
  ghost predicate Adds(E: set<(string, string)>, v0: set<string>, roots: seq<string>, v1: set<string>) {
    && v0 <= v1
    && (forall r :: r in roots ==> r in v1)
    && (forall x, d :: x in v1 - v0 && (x, d) in E ==> d in v1)
    && (forall x :: x in v1 - v0 ==> FromAny(E, roots, x))
  }

  ghost predicate FromAny(E: set<(string, string)>, roots: seq<string>, x: string) {
    exists r :: r in roots && From(E, r, x)
  }

  lemma AddsThen(E: set<(string, string)>, v0: set<string>, r1: seq<string>, v1: set<string>, d: string,
                 v2: set<string>)
    requires Adds(E, v0, r1, v1) && Adds(E, v1, [d], v2)
    ensures Adds(E, v0, r1 + [d], v2)
  {
    forall x | x in v2 - v0 ensures FromAny(E, r1 + [d], x) {
      if x in v1 {
        assert FromAny(E, r1, x);
        var r :| r in r1 && From(E, r, x);
        assert r in r1 + [d];
      } else {
        assert FromAny(E, [d], x);
        assert d in r1 + [d];
      }
    }
  }

  lemma AddsSelf(E: set<(string, string)>, v0: set<string>, p: string, deps: seq<string>, v1: set<string>)
    requires p !in v0 && Adds(E, v0 + {p}, deps, v1) && forall d :: d in deps <==> (p, d) in E
    ensures Adds(E, v0, [p], v1)
  {
    assert p in [p];
    forall x | x in v1 - v0 ensures From(E, p, x) {
      if x != p {
        assert FromAny(E, deps, x);
        var r :| r in deps && From(E, r, x);
        FromBehind(E, p, r, x);
      }
    }
  }

  lemma FromBehind(E: set<(string, string)>, p: string, d: string, x: string)
    requires (p, d) in E && From(E, d, x)
    ensures Reach(E, p, x)
  {
    ReachEdge(E, p, d);
    if x != d {
      ReachTrans(E, p, d, x);
    }
  }

  /** Emitting a path once all its dependencies are visited. */
  lemma EmitKeepsOrder(deps: map<string, seq<string>>, visited: set<string>, ordered: seq<string>, p: string)
    requires Consistent(deps, visited, ordered) && p in visited && p !in ordered
    requires forall d :: (p, d) in TableEdges(deps) ==> d in visited
    requires forall g :: g in Open(visited, ordered) ==> From(TableEdges(deps), g, p)
    ensures Consistent(deps, visited, ordered + [p])
  {
    var E, next := TableEdges(deps), ordered + [p];
    DistinctConcat(ordered, [p]);
    forall i, d | 0 <= i < |next| && (next[i], d) in E ensures d in next[..i] || Reach(E, d, next[i]) {
      if i < |ordered| {
        assert next[..i] == ordered[..i];
      } else {
        assert next[..i] == ordered;
        ReachEdge(E, p, d);
        if d !in ordered {
          assert d in Open(visited, ordered);
        }
      }
    }
  }

  class Resolver {
    const dependencies: map<string, seq<string>>
    const byName: map<string, string>
    const builtins: set<string>
    var visited: set<string>
    var ordered: seq<string>

    constructor (dependencies: map<string, seq<string>>, byName: map<string, string>, builtins: set<string>)
      ensures this.dependencies == dependencies && this.byName == byName && this.builtins == builtins
      ensures Valid() && visited == {} && ordered == []
    {
      this.dependencies, this.byName, this.builtins := dependencies, byName, builtins;
      visited, ordered := {}, [];
    }

    ghost predicate Valid()
      reads this
    {
      Consistent(dependencies, visited, ordered)
    }

    ghost function E(): set<(string, string)> {
      TableEdges(dependencies)
    }

    /** Visits a path and everything it depends on; `false` if some path there has no entry. */
    method Visit(path: string) returns (ok: bool)
      requires Valid()
      requires forall g :: g in Open(visited, ordered) ==> Reach(E(), g, path)
      modifies this
      ensures ok ==> Valid() && old(ordered) <= ordered && Open(visited, ordered) == old(Open(visited, ordered))
      ensures ok ==> Adds(E(), old(visited), [path], visited)
      ensures !ok ==> exists x :: From(E(), path, x) && x !in dependencies
      decreases dependencies.Keys - visited
    {
      assert path in [path];
      if path in visited {
        return true;
      }
      if path !in dependencies {
        assert From(E(), path, path);
        return false;
      }
      ghost var v0, open := visited, Open(visited, ordered);
      visited := visited + {path};
      var deps := dependencies[path];
      for i := 0 to |deps|
        invariant Valid() && old(ordered) <= ordered && Open(visited, ordered) == open + {path}
        invariant Adds(E(), v0 + {path}, deps[..i], visited)
      {
        ghost var v1 := visited;
        var d := deps[i];
        assert (path, d) in E();
        ReachEdge(E(), path, d);
        forall g | g in Open(visited, ordered) ensures Reach(E(), g, d) {
          if g != path {
            ReachTrans(E(), g, path, d);
          }
        }
        ok := Visit(d);
        if !ok {
          ghost var x :| From(E(), d, x) && x !in dependencies;
          FromBehind(E(), path, d, x);
          return false;
        }
        AddsThen(E(), v0 + {path}, deps[..i], v1, d, visited);
        assert deps[..i + 1] == deps[..i] + [d];
      }
      assert deps[..|deps|] == deps;
      AddsSelf(E(), v0, path, deps, visited);
      EmitKeepsOrder(dependencies, visited, ordered, path);
      ordered := ordered + [path];
      return true;
    }

    predicate Known(requested: string) {
      Normalized(requested) in byName || Normalized(requested) in builtins
    }

    /** The path a request starts from; none if the module is built in. */
    function Start(requested: string): seq<string> {
      if Normalized(requested) in byName then [byName[Normalized(requested)]] else []
    }

    /** Serves one request: what was listed before stays in place. */
    method Request(requested: string) returns (ok: bool)
      requires Valid() && Open(visited, ordered) == {}
      modifies this
      ensures ok ==> Valid() && Open(visited, ordered) == {} && old(ordered) <= ordered
      ensures ok ==> Known(requested) && Adds(E(), old(visited), Start(requested), visited)
      ensures !ok ==> !Known(requested) || exists x :: FromAny(E(), Start(requested), x) && x !in dependencies
    {
      var normalized := Underscores(RemoveSuffix(requested, ".ko"));
      if normalized in byName {
        ok := Visit(byName[normalized]);
        if !ok {
          ghost var x :| From(E(), byName[normalized], x) && x !in dependencies;
          assert byName[normalized] in Start(requested);
          assert FromAny(E(), Start(requested), x);
        }
      } else {
        ok := normalized in builtins;
      }
    }
  }

  /** The starting paths of all requests. */
  ghost function Starts(byName: map<string, string>, requests: seq<string>): seq<string> {
    if requests == [] then []
    else
      var n := Normalized(requests[|requests| - 1]);
      Starts(byName, requests[..|requests| - 1]) + if n in byName then [byName[n]] else []
  }

  lemma AddsAll(E: set<(string, string)>, r1: seq<string>, v1: set<string>, r2: seq<string>, v2: set<string>)
    requires Adds(E, {}, r1, v1) && Adds(E, v1, r2, v2) && |r2| <= 1
    ensures Adds(E, {}, r1 + r2, v2)
  {
    if r2 == [] {
      assert r1 + r2 == r1;
      forall x | x in v2 ensures x in v1 {
        assert x !in v1 ==> FromAny(E, r2, x);
      }
      assert v2 == v1;
    } else {
      assert r2 == [r2[0]];
      AddsThen(E, {}, r1, v1, r2[0], v2);
    }
  }

  /** A complete traversal from nothing visits exactly what the starting paths lead to. */
  lemma AddsExactly(E: set<(string, string)>, roots: seq<string>, v: set<string>)
    requires Adds(E, {}, roots, v)
    ensures forall x :: x in v <==> FromAny(E, roots, x)
  {
    assert v - {} == v;
    forall x | FromAny(E, roots, x) ensures x in v {
      var r :| r in roots && From(E, r, x);
      if x != r {
        ClosedReach(E, v, r, x);
      }
    }
  }

  lemma StartsGrow(byName: map<string, string>, requests: seq<string>, i: nat)
    requires i < |requests|
    ensures forall s :: s in Starts(byName, requests[..i]) ==> s in Starts(byName, requests)
    ensures Normalized(requests[i]) in byName ==> byName[Normalized(requests[i])] in Starts(byName, requests)
    decreases |requests|
  {
    var last := |requests| - 1;
    if i < last {
      var shorter := requests[..last];
      StartsGrow(byName, shorter, i);
      assert shorter[..i] == requests[..i];
    }
  }

  /** Serves all requests; stops at the first that fails. */
  method ServeAll(resolver: Resolver, requests: seq<string>) returns (ok: bool)
    requires resolver.Valid() && resolver.visited == {} && resolver.ordered == []
    modifies resolver
    ensures ok ==> resolver.Valid() && Open(resolver.visited, resolver.ordered) == {}
    ensures ok ==> Adds(resolver.E(), {}, Starts(resolver.byName, requests), resolver.visited)
    ensures ok ==> forall q :: q in requests ==> resolver.Known(q)
    ensures !ok ==> (exists q :: q in requests && !resolver.Known(q))
                    || exists x :: FromAny(resolver.E(), Starts(resolver.byName, requests), x)
                                   && x !in resolver.dependencies
  {
    for i := 0 to |requests|
      invariant resolver.Valid() && Open(resolver.visited, resolver.ordered) == {}
      invariant Adds(resolver.E(), {}, Starts(resolver.byName, requests[..i]), resolver.visited)
      invariant forall q :: q in requests[..i] ==> resolver.Known(q)
    {
      ghost var v := resolver.visited;
      assert requests[..i + 1][..i] == requests[..i];
      ok := resolver.Request(requests[i]);
      if !ok {
        ServeFails(resolver, requests, i);
        return;
      }
      AddsAll(resolver.E(), Starts(resolver.byName, requests[..i]), v, resolver.Start(requests[i]), resolver.visited);
    }
    assert requests[..|requests|] == requests;
    return true;
  }

  lemma ServeFails(resolver: Resolver, requests: seq<string>, i: nat)
    requires i < |requests|
    requires !resolver.Known(requests[i])
             || exists x :: FromAny(resolver.E(), resolver.Start(requests[i]), x) && x !in resolver.dependencies
    ensures (exists q :: q in requests && !resolver.Known(q))
            || exists x :: FromAny(resolver.E(), Starts(resolver.byName, requests), x) && x !in resolver.dependencies
  {
    StartsGrow(resolver.byName, requests, i);
    if resolver.Known(requests[i]) {
      var x :| FromAny(resolver.E(), resolver.Start(requests[i]), x) && x !in resolver.dependencies;
      assert FromAny(resolver.E(), Starts(resolver.byName, requests), x);
    }
  }

  /** Every request is known, and every path the requests lead to has an entry. */
  ghost predicate Resolvable(deps: map<string, seq<string>>, byName: map<string, string>, builtins: set<string>,
                             requests: seq<string>) {
    && (forall q :: q in requests ==> Normalized(q) in byName || Normalized(q) in builtins)
    && (forall x :: FromAny(TableEdges(deps), Starts(byName, requests), x) ==> x in deps)
  }

  /**
   * Lists the requested modules, dependencies first. It succeeds exactly if every request is known and every
   * path they lead to has an entry; then the list has no duplicates and holds exactly those paths.
   */
  method ListModules(deps: map<string, seq<string>>, byName: map<string, string>, builtins: set<string>,
                     requests: seq<string>)
      returns (r: Option<seq<string>>)
    ensures r.Some? <==> Resolvable(deps, byName, builtins, requests)
    ensures r.Some? ==>
              && Distinct(r.value)
              && (forall x :: x in r.value <==> FromAny(TableEdges(deps), Starts(byName, requests), x))
              && PostOrder(TableEdges(deps), r.value)
  {
    var resolver := new Resolver(deps, byName, builtins);
    var ok := ServeAll(resolver, requests);
    if !ok {
      return None;
    }
    AddsExactly(TableEdges(deps), Starts(byName, requests), resolver.visited);
    forall x | x in resolver.visited ensures x in resolver.ordered {
      assert x !in Open(resolver.visited, resolver.ordered);
    }
    return Some(resolver.ordered);
  }

  /** The same from the text of the module files. */
  method ResolveModules(depLines: seq<string>, builtinLines: seq<string>, requests: seq<string>)
      returns (r: Option<seq<string>>)
    ensures r.Some? <==> Resolvable(DependencyTable(depLines), NameTable(depLines), BuiltinNames(builtinLines),
                                    requests)
    ensures r.Some? ==>
              && Distinct(r.value)
              && (forall x :: x in r.value
                    <==> FromAny(TableEdges(DependencyTable(depLines)), Starts(NameTable(depLines), requests), x))
              && PostOrder(TableEdges(DependencyTable(depLines)), r.value)
  {
    var deps, byName := ReadTables(depLines);
    var builtins := ReadBuiltins(builtinLines);
    r := ListModules(deps, byName, builtins, requests);
  }

  /** The file of a kernel module: `m.ko` in a directory, possibly compressed. */
  ghost predicate ModuleFile(path: string, m: string) {
    exists dir, suffix ::
      && (dir == "" || dir[|dir| - 1] == '/')
      && (forall i :: 0 <= i < |m| ==> m[i] != '/')
      && (suffix == "" || suffix == ".zst" || suffix == ".xz" || suffix == ".gz")
      && path == dir + (m + ".ko" + suffix)
  }

  /** The file and every request for its module have the same name. */
  lemma FileIsFound(path: string, m: string, q: string)
    requires ModuleFile(path, m) && AsksFor(q, m) && !exists v :: m == v + ".ko"
    ensures NameOf(path) == Normalized(q)
  {
    var dir, suffix :|
      && (dir == "" || dir[|dir| - 1] == '/')
      && (forall i :: 0 <= i < |m| ==> m[i] != '/')
      && (suffix == "" || suffix == ".zst" || suffix == ".xz" || suffix == ".gz")
      && path == dir + (m + ".ko" + suffix);
    FoundWithoutSuffix(dir, m, suffix);
    RequestsAlike(q, m);
  }

  /**
   * A module file with a line of its own is listed for every way to ask for the module, as long as no later line
   * has the same module name.
   */
  lemma ModuleIsListed(lines: seq<string>, i: nat, path: string, rest: string, m: string, requests: seq<string>,
                       q: string, out: seq<string>)
    requires ModuleFile(path, m) && !exists v :: m == v + ".ko"
    requires i < |lines| && Trimmed(path) && forall j :: 0 <= j < |path| ==> path[j] != ':'
    requires IsEntry(lines[i], path, rest)
    requires forall j :: i < j < |lines| && ColonAt(lines[j]) < |lines[j]| ==>
               NameOf(Strip(lines[j][..ColonAt(lines[j])])) != NameOf(path)
    requires q in requests && AsksFor(q, m)
    requires forall x :: x in out
                    <==> FromAny(TableEdges(DependencyTable(lines)), Starts(NameTable(lines), requests), x)
    ensures path in out && Normalized(q) in NameTable(lines)
  {
    FileIsFound(path, m, q);
    NameRead(lines, i, path, rest);
    StartsExactly(NameTable(lines), requests);
    assert From(TableEdges(DependencyTable(lines)), path, path);
  }

  /** A single module without dependencies: the run succeeds and lists its file, however it is asked for. */
  lemma SingleModule(path: string, m: string, q: string)
    requires ModuleFile(path, m) && !exists v :: m == v + ".ko"
    requires Trimmed(path) && forall j :: 0 <= j < |path| ==> path[j] != ':'
    requires AsksFor(q, m)
    ensures var lines := [path + ":"];
            && Resolvable(DependencyTable(lines), NameTable(lines), {}, [q])
            && forall x :: FromAny(TableEdges(DependencyTable(lines)), Starts(NameTable(lines), [q]), x) <==> x == path
  {
    hide Normalized;
    hide NameOf;
    var lines := [path + ":"];
    OnlyEntry(path);
    FileIsFound(path, m, q);
    OnlyStart(NameTable(lines), q);
    var E := TableEdges(DependencyTable(lines));
    forall x ensures !Reach(E, path, x) {
      if Reach(E, path, x) {
        var c := FirstStep(E, path, x);
      }
    }
    forall x ensures FromAny(E, [path], x) <==> x == path {
      assert path in [path] && From(E, path, path);
    }
  }

  lemma OnlyEntry(path: string)
    requires Trimmed(path) && forall j :: 0 <= j < |path| ==> path[j] != ':'
    ensures DependencyTable([path + ":"]) == map[path := []]
    ensures NameTable([path + ":"]) == map[NameOf(path) := path]
  {
    hide NameOf;
    var lines := [path + ":"];
    PlainEntry(path, "");
    assert ":" + "" == ":";
    EntryIsRead(lines[0], path, "");
    assert lines[..0] == [];
    assert DependencyTable(lines[..0]) == map[] && NameTable(lines[..0]) == map[];
    assert Split("") == [];
  }

  lemma OnlyStart(byName: map<string, string>, q: string)
    requires Normalized(q) in byName
    ensures Starts(byName, [q]) == [byName[Normalized(q)]]
  {
    assert [q][..0] == [];
    assert Starts(byName, [q][..0]) == [];
  }

  /** A request that leads to no path is accepted exactly if the module is built in, and adds nothing. */
  lemma BuiltinIsAccepted(deps: map<string, seq<string>>, byName: map<string, string>, builtins: set<string>, q: string)
    requires Normalized(q) !in byName
    ensures Resolvable(deps, byName, builtins, [q]) <==> Normalized(q) in builtins
    ensures forall x :: !FromAny(TableEdges(deps), Starts(byName, [q]), x)
  {
    assert [q][..0] == [];
    assert Starts(byName, [q][..0]) == [];
    assert q in [q];
  }

  /** A built-in module may be asked for in every way, too. */
  lemma BuiltinIsKnown(lines: seq<string>, i: nat, path: string, m: string, q: string)
    requires ModuleFile(path, m) && !exists v :: m == v + ".ko"
    requires Trimmed(path) && AsksFor(q, m)
    requires i < |lines|
    requires exists before, after :: AllBlank(before) && AllBlank(after) && lines[i] == before + path + after
    ensures Normalized(q) in BuiltinNames(lines)
  {
    var before, after :| AllBlank(before) && AllBlank(after) && lines[i] == before + path + after;
    StripExactly(before, path, after);
    FileIsFound(path, m, q);
  }

  /** On acyclic tables every prefix of the list is closed under dependencies. */
  lemma PrefixesAreClosed(E: set<(string, string)>, ordered: seq<string>, k: nat)
    requires PostOrder(E, ordered) && !Cyclic(E) && k <= |ordered|
    ensures Closed(E, set x | x in ordered[..k])
  {
    forall a, d | (a, d) in E && a in ordered[..k] ensures d in ordered[..k] {
      var i :| 0 <= i < k && ordered[i] == a;
      if Reach(E, d, a) {
        ReachEdge(E, a, d);
        ReachTrans(E, a, d, a);
      }
      assert d in ordered[..i];
    }
  }

  lemma StartsExactly(byName: map<string, string>, requests: seq<string>)
    ensures forall p :: p in Starts(byName, requests)
                    <==> exists q :: q in requests && Normalized(q) in byName && byName[Normalized(q)] == p
  {
    if requests != [] {
      var init, q := requests[..|requests| - 1], requests[|requests| - 1];
      StartsExactly(byName, init);
      assert requests == init + [q];
    }
  }

  /** Neither the order of the requests nor repeating them matters: same success, same set of paths. */
  lemma RequestOrder(deps: map<string, seq<string>>, byName: map<string, string>, builtins: set<string>,
                     r1: seq<string>, r2: seq<string>)
    requires forall q :: q in r1 <==> q in r2
    ensures Resolvable(deps, byName, builtins, r1) <==> Resolvable(deps, byName, builtins, r2)
    ensures forall x :: FromAny(TableEdges(deps), Starts(byName, r1), x)
                    <==> FromAny(TableEdges(deps), Starts(byName, r2), x)
  {
    StartsExactly(byName, r1);
    StartsExactly(byName, r2);
    assert forall p :: p in Starts(byName, r1) <==> p in Starts(byName, r2);
  }

  /** The listed paths are the least set that has the starting paths and is closed under dependencies. */
  lemma LeastClosed(E: set<(string, string)>, starts: seq<string>, ordered: seq<string>, S: set<string>)
    requires forall x :: x in ordered <==> FromAny(E, starts, x)
    requires Closed(E, S) && forall s :: s in starts ==> s in S
    ensures Closed(E, set x | x in ordered) && (set x | x in ordered) <= S
  {
    forall x | x in ordered ensures x in S {
      var r :| r in starts && From(E, r, x);
      if x != r {
        ClosedReach(E, S, r, x);
      }
    }
    forall a, d | (a, d) in E && a in ordered ensures d in ordered {
      var r :| r in starts && From(E, r, a);
      ReachEdge(E, a, d);
      if a != r {
        ReachTrans(E, r, a, d);
      }
      assert FromAny(E, starts, d);
    }
  }
}
