/** The search for templates that can be built at all (`_get_unbuilt`). */
module Unbuilt {
  import opened Graphs
  import opened Templates
  import opened Selection

  /** The module-level attributes of a template file; `version` is empty if a part of it is missing. */
  datatype Raw = Incomplete | Raw(pkgname: string, version: string)

  /** What full initialisation of a template gives. */
  datatype Init = Loaded(pkgname: string, version: string, broken: bool, deps: seq<Name>) | LoadError

  datatype Module = Module(raw: Raw, init: Init)

  type Modules = map<Name, Module>

  /** The cache: a template object, `True` for a broken one, `False` for one that needs no further look. */
  datatype Cached = Object | IsBroken | Settled

  predicate Loads(mods: Modules, n: Name) {
    n in mods && mods[n].init.Loaded?
  }

  predicate MarkedBroken(mods: Modules, n: Name) {
    Loads(mods, n) && mods[n].init.broken
  }

  /** A template whose dependencies are looked at: it loads, is not broken, and is not in a repository. */
  predicate LooksFurther(mods: Modules, repo: map<string, string>, n: Name) {
    Loads(mods, n) && !mods[n].init.broken && mods[n].init.pkgname !in repo
  }

  ghost function SearchEdges(mods: Modules, repo: map<string, string>): set<(Name, Name)> {
    set p, d | p in mods.Keys && LooksFurther(mods, repo, p) && d in mods[p].init.deps :: (p, d)
  }

  /** Some chain of templates that are looked into leads from `n` to a broken one. */
  ghost predicate Blocked(mods: Modules, repo: map<string, string>, n: Name) {
    exists b :: MarkedBroken(mods, b) && Reach(SearchEdges(mods, repo), n, b)
  }

  ghost predicate NoCycleBehind(E: set<(Name, Name)>, n: Name) {
    forall y :: (y == n || Reach(E, n, y)) ==> !Reach(E, y, y)
  }

  /** There is a walk of `k` edges from `n`. */
  ghost predicate DeepWalk(E: set<(Name, Name)>, n: Name, k: nat)
    decreases k
  {
    k == 0 || exists d :: (n, d) in E && DeepWalk(E, d, k - 1)
  }

  /** Every cached verdict is right. */
  ghost predicate CacheOk(mods: Modules, repo: map<string, string>, cache: map<Name, Cached>) {
    forall n :: n in cache ==>
      && (cache[n].IsBroken? <==> MarkedBroken(mods, n))
      && (cache[n].Object? ==> Loads(mods, n))
      && (cache[n].Settled? ==> Harmless(mods, repo, n))
  }

  ghost predicate Harmless(mods: Modules, repo: map<string, string>, n: Name) {
    !Blocked(mods, repo, n) && NoCycleBehind(SearchEdges(mods, repo), n)
  }

  lemma LeafIsHarmless(mods: Modules, repo: map<string, string>, n: Name)
    requires !LooksFurther(mods, repo, n)
    ensures Harmless(mods, repo, n)
  {
    var E := SearchEdges(mods, repo);
    forall y | Reach(E, n, y) ensures false {
      var c := FirstStep(E, n, y);
    }
  }

  /** If no dependency is broken and all are harmless, so is the template. */
  lemma HarmlessStep(mods: Modules, repo: map<string, string>, n: Name)
    requires LooksFurther(mods, repo, n)
    requires forall d :: d in mods[n].init.deps ==> !MarkedBroken(mods, d) && Harmless(mods, repo, d)
    ensures Harmless(mods, repo, n)
  {
    var E := SearchEdges(mods, repo);
    forall y | Reach(E, n, y) ensures !MarkedBroken(mods, y) && !Reach(E, y, y) {
      var c := FirstStep(E, n, y);
      assert c in mods[n].init.deps;
    }
  }

  lemma BlockedByBroken(mods: Modules, repo: map<string, string>, n: Name, d: Name)
    requires LooksFurther(mods, repo, n) && d in mods[n].init.deps
    requires MarkedBroken(mods, d) || Blocked(mods, repo, d)
    ensures Blocked(mods, repo, n)
  {
    var E := SearchEdges(mods, repo);
    ReachEdge(E, n, d);
    if !MarkedBroken(mods, d) {
      var b :| MarkedBroken(mods, b) && Reach(E, d, b);
      ReachTrans(E, n, d, b);
    }
  }

  // ---- Blocked templates, from the fields of the modules ----

  /**
   * Each name before the last is that of a template that loads, is not broken, is in no repository, and lists
   * the next; the last one loads and is broken.
   */
  ghost predicate BrokenChain(mods: Modules, repo: map<string, string>, chain: seq<Name>) {
    var last := |chain| - 1;
    && |chain| > 0
    && (forall i :: 0 <= i < last ==>
          && chain[i] in mods && mods[chain[i]].init.Loaded? && !mods[chain[i]].init.broken
          && mods[chain[i]].init.pkgname !in repo
          && chain[i + 1] in mods[chain[i]].init.deps)
    && chain[last] in mods && mods[chain[last]].init.Loaded? && mods[chain[last]].init.broken
  }

  ghost predicate LeadsToBroken(mods: Modules, repo: map<string, string>, n: Name) {
    exists chain :: BrokenChain(mods, repo, chain) && chain[0] == n
  }

  lemma {:induction false} PathIsChain(mods: Modules, repo: map<string, string>, n: Name, mid: seq<Name>, b: Name)
    requires Path(SearchEdges(mods, repo), n, mid, b) && MarkedBroken(mods, b)
    ensures BrokenChain(mods, repo, [n] + mid + [b])
    decreases |mid|
  {
    if mid == [] {
      assert [n] + mid + [b] == [n, b];
    } else {
      var rest := [mid[0]] + mid[1..] + [b];
      PathIsChain(mods, repo, mid[0], mid[1..], b);
      assert [n] + mid + [b] == [n] + rest;
    }
  }

  lemma {:induction false} ChainIsReach(mods: Modules, repo: map<string, string>, chain: seq<Name>)
    requires BrokenChain(mods, repo, chain) && |chain| > 1
    ensures Blocked(mods, repo, chain[0])
    decreases |chain|
  {
    var n, d := chain[0], chain[1];
    assert LooksFurther(mods, repo, n) && d in mods[n].init.deps;
    if |chain| > 2 {
      var rest := chain[1..];
      assert forall i :: 0 <= i < |rest| ==> rest[i] == chain[i + 1];
      ChainIsReach(mods, repo, rest);
    }
    BlockedByBroken(mods, repo, n, d);
  }

  /** Blocked are those that a chain of more than one template leads from. */
  lemma BlockedExactly(mods: Modules, repo: map<string, string>, n: Name)
    ensures Blocked(mods, repo, n) <==> exists chain :: BrokenChain(mods, repo, chain) && chain[0] == n && |chain| > 1
    ensures MarkedBroken(mods, n) || Blocked(mods, repo, n) <==> LeadsToBroken(mods, repo, n)
  {
    if Blocked(mods, repo, n) {
      var b :| MarkedBroken(mods, b) && Reach(SearchEdges(mods, repo), n, b);
      var mid :| Path(SearchEdges(mods, repo), n, mid, b);
      PathIsChain(mods, repo, n, mid, b);
      assert ([n] + mid + [b])[0] == n;
    }
    if chain :| BrokenChain(mods, repo, chain) && chain[0] == n && |chain| > 1 {
      ChainIsReach(mods, repo, chain);
    }
    if MarkedBroken(mods, n) {
      assert BrokenChain(mods, repo, [n]);
    }
  }

  /** A template in a repository is never blocked, whatever it lists, nor is anything searched behind it. */
  lemma InRepository(mods: Modules, repo: map<string, string>, n: Name)
    requires n in mods && mods[n].init.Loaded? && !mods[n].init.broken && mods[n].init.pkgname in repo
    ensures !LeadsToBroken(mods, repo, n) && SearchEnds(mods, repo, n)
  {
    BlockedExactly(mods, repo, n);
    LeafIsHarmless(mods, repo, n);
    LeafEnds(mods, repo, n);
  }

  // ---- Where the search ends ----

  /** A dependency after which the search goes on to the next one. */
  ghost predicate Safe(mods: Modules, repo: map<string, string>, d: Name) {
    !MarkedBroken(mods, d) && Harmless(mods, repo, d)
  }

  /** The search for `p` gets to its dependency `i`: all those before it are safe. */
  ghost predicate GetsTo(mods: Modules, repo: map<string, string>, p: Name, i: nat) {
    && LooksFurther(mods, repo, p) && i < |mods[p].init.deps|
    && forall j :: 0 <= j < i ==> Safe(mods, repo, mods[p].init.deps[j])
  }

  /** The dependencies the search gets to: of each template, those up to the first that is not safe. */
  ghost function ExploredEdges(mods: Modules, repo: map<string, string>): set<(Name, Name)> {
    set e | e in SearchEdges(mods, repo) && exists i: nat :: GetsTo(mods, repo, e.0, i) && mods[e.0].init.deps[i] == e.1
  }

  /** No cycle lies behind `n` along the dependencies the search gets to. */
  ghost predicate SearchEnds(mods: Modules, repo: map<string, string>, n: Name) {
    NoCycleBehind(ExploredEdges(mods, repo), n)
  }

  /** Where the explored dependencies have no cycle, the search ends. */
  lemma AcyclicEnds(mods: Modules, repo: map<string, string>, n: Name)
    requires NoCycleBehind(SearchEdges(mods, repo), n)
    ensures SearchEnds(mods, repo, n)
  {
    var E, F := ExploredEdges(mods, repo), SearchEdges(mods, repo);
    forall y | y == n || Reach(E, n, y) ensures !Reach(E, y, y) {
      if y != n {
        MonotoneReach(E, F, n, y);
      }
      if Reach(E, y, y) {
        MonotoneReach(E, F, y, y);
      }
    }
  }

  /** Nothing is looked at behind a template that is not looked into. */
  lemma LeafEnds(mods: Modules, repo: map<string, string>, n: Name)
    requires !LooksFurther(mods, repo, n)
    ensures SearchEnds(mods, repo, n)
  {
    LeafIsHarmless(mods, repo, n);
    AcyclicEnds(mods, repo, n);
  }

  /** If the search ends for every dependency it gets to, it ends for the template. */
  lemma EndsStep(mods: Modules, repo: map<string, string>, n: Name)
    requires forall d :: (n, d) in ExploredEdges(mods, repo) ==> SearchEnds(mods, repo, d)
    ensures SearchEnds(mods, repo, n)
  {
    var E := ExploredEdges(mods, repo);
    forall y | y == n || Reach(E, n, y) ensures !Reach(E, y, y) {
      if Reach(E, y, y) {
        var c := FirstStep(E, n, y);
      }
    }
  }

  /** The search stops at dependency `i`, the first that is not safe. */
  lemma StopsAtFirst(mods: Modules, repo: map<string, string>, n: Name, i: nat)
    requires GetsTo(mods, repo, n, i)
    requires var d := mods[n].init.deps[i]; !Safe(mods, repo, d) && SearchEnds(mods, repo, d)
    ensures SearchEnds(mods, repo, n)
  {
    var deps := mods[n].init.deps;
    forall d | (n, d) in ExploredEdges(mods, repo) ensures SearchEnds(mods, repo, d) {
      var k: nat :| GetsTo(mods, repo, n, k) && deps[k] == d;
      if k < i {
        AcyclicEnds(mods, repo, d);
      }
    }
    EndsStep(mods, repo, n);
  }

  /** A template that is neither harmless nor blocked leads on and on. */
  lemma {:induction false} TroubleGoesOn(mods: Modules, repo: map<string, string>, n: Name, k: nat)
    requires !Harmless(mods, repo, n) && !Blocked(mods, repo, n)
    ensures DeepWalk(ExploredEdges(mods, repo), n, k)
    decreases k
  {
    if k > 0 {
      if !LooksFurther(mods, repo, n) {
        LeafIsHarmless(mods, repo, n);
        return;
      }
      var i := FirstUnsafe(mods, repo, n);
      var d := mods[n].init.deps[i];
      assert (n, d) in SearchEdges(mods, repo);
      if MarkedBroken(mods, d) || Blocked(mods, repo, d) {
        BlockedByBroken(mods, repo, n, d);
      } else {
        TroubleGoesOn(mods, repo, d, k - 1);
      }
    }
  }

  lemma FirstUnsafe(mods: Modules, repo: map<string, string>, n: Name) returns (i: nat)
    requires LooksFurther(mods, repo, n) && !Harmless(mods, repo, n)
    ensures GetsTo(mods, repo, n, i) && !Safe(mods, repo, mods[n].init.deps[i])
  {
    var deps := mods[n].init.deps;
    i := 0;
    while i < |deps| && Safe(mods, repo, deps[i])
      invariant i <= |deps| && forall j :: 0 <= j < i ==> Safe(mods, repo, deps[j])
    {
      i := i + 1;
    }
    if i == |deps| {
      HarmlessStep(mods, repo, n);
    }
  }

  /** For a template that is not blocked, the search ends exactly if there is no cycle behind it at all. */
  lemma UnblockedEnds(mods: Modules, repo: map<string, string>, n: Name)
    requires !Blocked(mods, repo, n)
    ensures SearchEnds(mods, repo, n) <==> NoCycleBehind(SearchEdges(mods, repo), n)
  {
    if NoCycleBehind(SearchEdges(mods, repo), n) {
      AcyclicEnds(mods, repo, n);
    } else if SearchEnds(mods, repo, n) {
      TroubleGoesOn(mods, repo, n, |mods| + 1);
      SearchFits(mods, repo, n, |mods| + 1);
    }
  }

  class Search {
    const mods: Modules
    const repo: map<string, string>
    var cache: map<Name, Cached>
    var tvers: map<Name, string>

    constructor (mods: Modules, repo: map<string, string>)
      ensures this.mods == mods && this.repo == repo
      ensures Valid() && cache == map[]
    {
      this.mods, this.repo := mods, repo;
      cache, tvers := map[], map[];
    }

    ghost predicate Valid()
      reads this
    {
      && CacheOk(mods, repo, cache)
      && (forall n :: n in cache ==> (n in tvers <==> Loads(mods, n)))
      && (forall n :: n in tvers ==> Loads(mods, n) && tvers[n] == mods[n].init.version)
    }

    /** Verdicts are only ever added. */
    ghost predicate Extends(before: map<Name, Cached>)
      reads this
    {
      before.Keys <= cache.Keys
    }

    /** Initialises one template (`_get_tmpl`); `true` if it is marked broken. */
    method GetTmpl(pn: Name) returns (broken: bool)
      requires Valid()
      modifies this
      ensures Valid() && broken == MarkedBroken(mods, pn)
      ensures cache.Keys == old(cache).Keys + {pn}
    {
      LeafOrLoads(pn);
      if pn in mods && mods[pn].init.Loaded? {
        tvers := tvers[pn := mods[pn].init.version];
        if mods[pn].init.broken {
          cache := cache[pn := IsBroken];
          return true;
        }
        cache := cache[pn := Object];
      } else {
        cache := cache[pn := Settled];
      }
      return false;
    }

    lemma LeafOrLoads(pn: Name)
      ensures Loads(mods, pn) || Harmless(mods, repo, pn)
    {
      if !Loads(mods, pn) {
        LeafIsHarmless(mods, repo, pn);
      }
    }

    /** Whether a dependency is marked broken, from the cache if it is there. */
    method LooksBroken(dpn: Name) returns (broken: bool)
      requires Valid()
      modifies this
      ensures Valid() && Extends(old(cache)) && dpn in cache
      ensures broken == MarkedBroken(mods, dpn)
    {
      if dpn in cache {
        broken := cache[dpn].IsBroken?;
      } else {
        broken := GetTmpl(dpn);
      }
    }

    /** Caches that a template needs no further look. */
    method Settle(pn: Name)
      requires Valid() && pn in cache && !MarkedBroken(mods, pn) && Harmless(mods, repo, pn)
      modifies this`cache
      ensures Valid() && Extends(old(cache))
    {
      cache := cache[pn := Settled];
    }

    /** What a cache entry means for a template that is not broken. */
    lemma CachedMeans(pn: Name)
      requires Valid() && pn in cache
      ensures cache[pn].IsBroken? <==> MarkedBroken(mods, pn)
      ensures cache[pn].Settled? ==> Harmless(mods, repo, pn)
      ensures cache[pn].Object? ==> Loads(mods, pn)
    {
    }

    /**
     * The recursive search (`_check_tmpls`), with `limit` stack frames left: no result if they run out. It is
     * never entered for a template cached as broken. With a limit above the number of templates there is a
     * result exactly if no cycle lies behind the dependencies the search gets to.
     */
    method CheckTmpls(pn: Name, limit: nat) returns (r: Option<bool>)
      requires Valid() && pn in cache && !cache[pn].IsBroken?
      modifies this
      ensures Valid() && Extends(old(cache))
      ensures r.Some? ==> (r.value <==> Blocked(mods, repo, pn))
      ensures r == Some(false) ==> NoCycleBehind(SearchEdges(mods, repo), pn)
      ensures r.Some? ==> SearchEnds(mods, repo, pn)
      ensures r.None? ==> DeepWalk(ExploredEdges(mods, repo), pn, limit)
      ensures limit > |mods| ==> (r.Some? <==> SearchEnds(mods, repo, pn))
      decreases limit
    {
      hide SearchEnds;
      hide Blocked;
      hide NoCycleBehind;
      hide ExploredEdges;
      hide Valid;
      if limit == 0 {
        return None;
      }
      CachedMeans(pn);
      if cache[pn].Settled? {
        AcyclicEnds(mods, repo, pn);
        return Some(false);
      }
      var tmpl := mods[pn].init;
      if tmpl.pkgname in repo {
        LeafIsHarmless(mods, repo, pn);
        LeafEnds(mods, repo, pn);
        return Some(false);
      }
      for i := 0 to |tmpl.deps|
        invariant Valid() && Extends(old(cache))
        invariant forall j :: 0 <= j < i ==> Safe(mods, repo, tmpl.deps[j])
      {
        var dpn := tmpl.deps[i];
        var broken := LooksBroken(dpn);
        assert GetsTo(mods, repo, pn, i);
        if broken {
          BlockedByBroken(mods, repo, pn, dpn);
          LeafEnds(mods, repo, dpn);
          StopsAtFirst(mods, repo, pn, i);
          return Some(true);
        }
        CachedMeans(dpn);
        r := CheckTmpls(dpn, limit - 1);
        if r.None? {
          RunsOut(mods, repo, pn, i, limit);
          return None;
        } else if r.value {
          BlockedByBroken(mods, repo, pn, dpn);
          StopsAtFirst(mods, repo, pn, i);
          return Some(true);
        }
      }
      HarmlessStep(mods, repo, pn);
      AcyclicEnds(mods, repo, pn);
      Settle(pn);
      return Some(false);
    }
  }

  /** A limit exceeded below a dependency that the search gets to is exceeded. */
  lemma RunsOut(mods: Modules, repo: map<string, string>, n: Name, i: nat, limit: nat)
    requires GetsTo(mods, repo, n, i) && limit > 0
    requires DeepWalk(ExploredEdges(mods, repo), mods[n].init.deps[i], limit - 1)
    ensures DeepWalk(ExploredEdges(mods, repo), n, limit)
    ensures limit > |mods| ==> !SearchEnds(mods, repo, n)
  {
    var d := mods[n].init.deps[i];
    assert (n, d) in SearchEdges(mods, repo);
    assert (n, d) in ExploredEdges(mods, repo);
    if limit > |mods| && SearchEnds(mods, repo, n) {
      SearchFits(mods, repo, n, limit);
    }
  }

  // ---- The list ----

  /** A template whose version is not the one in the repository (or, if asked for, is not there at all). */
  predicate OutOfDate(m: Raw, repo: map<string, string>, outdated: bool)
    requires m.Raw?
  {
    if m.pkgname in repo then repo[m.pkgname] != m.version else !outdated
  }

  /** The out-of-date templates, in the order of `names`. */
  ghost function Candidates(mods: Modules, repo: map<string, string>, outdated: bool, names: seq<Name>): seq<Name>
    requires forall n :: n in names ==> n in mods && mods[n].raw.Raw?
  {
    if names == [] then []
    else
      var init, n := names[..|names| - 1], names[|names| - 1];
      Candidates(mods, repo, outdated, init) + if OutOfDate(mods[n].raw, repo, outdated) then [n] else []
  }

  /** A template to be listed: out of date, and nothing broken where a chain from it leads. */
  ghost predicate ToList(mods: Modules, repo: map<string, string>, outdated: bool, n: Name) {
    && n in mods && mods[n].raw.Raw?
    && (if mods[n].raw.pkgname in repo then repo[mods[n].raw.pkgname] != mods[n].raw.version else !outdated)
    && !LeadsToBroken(mods, repo, n)
  }

  ghost function AllToList(mods: Modules, repo: map<string, string>, outdated: bool, names: seq<Name>): set<Name> {
    set n | n in names && ToList(mods, repo, outdated, n)
  }

  /** The version that goes with a listed template, if it loads. */
  ghost predicate ListedAs(mods: Modules, n: Name, version: Option<string>) {
    version == if n in mods && mods[n].init.Loaded? then Some(mods[n].init.version) else None
  }

  ghost function Firsts(s: seq<(Name, Option<string>)>): (r: seq<Name>)
    ensures |r| == |s| && forall i :: 0 <= i < |s| ==> r[i] == s[i].0
  {
    seq(|s|, i requires 0 <= i < |s| => s[i].0)
  }

  /** A list of every occurrence of the templates to be listed, in order, each with its version. */
  ghost predicate ListRight(mods: Modules, repo: map<string, string>, outdated: bool, names: seq<Name>,
                            list: seq<(Name, Option<string>)>) {
    && Keeps(names, AllToList(mods, repo, outdated, names), Firsts(list))
    && forall i :: 0 <= i < |list| ==> ListedAs(mods, list[i].0, list[i].1)
  }

  lemma {:induction false} ListExactly(mods: Modules, repo: map<string, string>, outdated: bool, names: seq<Name>)
    requires forall n :: n in names ==> n in mods && mods[n].raw.Raw?
    ensures ListRight(mods, repo, outdated, names, Selected(mods, repo, Candidates(mods, repo, outdated, names)))
  {
    if names == [] {
      KeepsNothing(AllToList(mods, repo, outdated, []));
      assert Firsts([]) == [];
    } else {
      var init, n := names[..|names| - 1], names[|names| - 1];
      assert names == init + [n];
      ListExactly(mods, repo, outdated, init);
      ListSnoc(mods, repo, outdated, init, n);
      ListRightSnoc(mods, repo, outdated, init, Selected(mods, repo, Candidates(mods, repo, outdated, init)), n);
    }
  }

  lemma ListRightSnoc(mods: Modules, repo: map<string, string>, outdated: bool, names: seq<Name>,
                      list: seq<(Name, Option<string>)>, n: Name)
    requires ListRight(mods, repo, outdated, names, list)
    ensures ListRight(mods, repo, outdated, names + [n],
                      list + if ToList(mods, repo, outdated, n) then [(n, VersionOf(mods, n))] else [])
  {
    hide ToList;
    hide Keeps;
    hide Firsts;
    var K := AllToList(mods, repo, outdated, names + [n]);
    KeepsSame(names, AllToList(mods, repo, outdated, names), K, Firsts(list));
    KeepsSnoc(names, K, Firsts(list), n);
    FirstsSnoc(list, (n, VersionOf(mods, n)));
    assert n in K <==> ToList(mods, repo, outdated, n);
    assert list + [] == list && Firsts(list) + [] == Firsts(list);
  }

  lemma FirstsSnoc(s: seq<(Name, Option<string>)>, e: (Name, Option<string>))
    ensures Firsts(s + [e]) == Firsts(s) + [e.0]
  {
  }

  lemma ListSnoc(mods: Modules, repo: map<string, string>, outdated: bool, names: seq<Name>, n: Name)
    requires forall x :: x in names + [n] ==> x in mods && mods[x].raw.Raw?
    ensures forall x :: x in names ==> x in names + [n]
    ensures n in mods
    ensures Selected(mods, repo, Candidates(mods, repo, outdated, names + [n]))
         == Selected(mods, repo, Candidates(mods, repo, outdated, names))
            + if ToList(mods, repo, outdated, n) then [(n, VersionOf(mods, n))] else []
  {
    hide LeadsToBroken;
    hide Blocked;
    hide Selected;
    hide Candidates;
    var c := Candidates(mods, repo, outdated, names);
    CandidatesSnoc(mods, repo, outdated, names, n);
    SelectedSnoc(mods, repo, c, n);
    BlockedExactly(mods, repo, n);
    assert c + [] == c && Selected(mods, repo, c) + [] == Selected(mods, repo, c);
    assert Buildable(mods, repo, n) <==> !LeadsToBroken(mods, repo, n);
    assert ToList(mods, repo, outdated, n) <==> OutOfDate(mods[n].raw, repo, outdated) && Buildable(mods, repo, n);
  }

  lemma CandidatesSnoc(mods: Modules, repo: map<string, string>, outdated: bool, names: seq<Name>, n: Name)
    requires forall x :: x in names + [n] ==> x in mods && mods[x].raw.Raw?
    ensures forall x :: x in names ==> x in names + [n]
    ensures n in mods && mods[n].raw.Raw?
    ensures Candidates(mods, repo, outdated, names + [n])
         == Candidates(mods, repo, outdated, names) + if OutOfDate(mods[n].raw, repo, outdated) then [n] else []
  {
    assert n in names + [n] && forall x :: x in names ==> x in names + [n];
    assert (names + [n])[..|names|] == names;
  }

  lemma SelectedSnoc(mods: Modules, repo: map<string, string>, c: seq<Name>, n: Name)
    ensures Selected(mods, repo, c + [n])
         == Selected(mods, repo, c) + if Buildable(mods, repo, n) then [(n, VersionOf(mods, n))] else []
  {
    assert (c + [n])[..|c|] == c;
  }

  ghost predicate Buildable(mods: Modules, repo: map<string, string>, n: Name) {
    !MarkedBroken(mods, n) && !Blocked(mods, repo, n)
  }

  ghost function VersionOf(mods: Modules, n: Name): Option<string> {
    if Loads(mods, n) then Some(mods[n].init.version) else None
  }

  /** The buildable ones among `names`, with their versions, in order. */
  ghost function Selected(mods: Modules, repo: map<string, string>, names: seq<Name>): seq<(Name, Option<string>)> {
    if names == [] then []
    else
      var init, n := names[..|names| - 1], names[|names| - 1];
      Selected(mods, repo, init) + if Buildable(mods, repo, n) then [(n, VersionOf(mods, n))] else []
  }

  ghost function NotBroken(mods: Modules, names: seq<Name>): seq<Name> {
    if names == [] then []
    else
      var init, n := names[..|names| - 1], names[|names| - 1];
      NotBroken(mods, init) + if MarkedBroken(mods, n) then [] else [n]
  }

  lemma NotBrokenMembers(mods: Modules, names: seq<Name>)
    ensures forall n :: n in NotBroken(mods, names) <==> n in names && !MarkedBroken(mods, n)
  {
    if names != [] {
      NotBrokenMembers(mods, names[..|names| - 1]);
      assert names == names[..|names| - 1] + [names[|names| - 1]];
    }
  }

  lemma {:induction false} SelectedNotBroken(mods: Modules, repo: map<string, string>, names: seq<Name>)
    ensures Selected(mods, repo, NotBroken(mods, names)) == Selected(mods, repo, names)
  {
    if names != [] {
      var init, n := names[..|names| - 1], names[|names| - 1];
      SelectedNotBroken(mods, repo, init);
      var s := NotBroken(mods, init);
      assert (s + [n])[..|s|] == s && (s + [n])[|s|] == n;
      if MarkedBroken(mods, n) {
        assert NotBroken(mods, names) == s;
      } else {
        assert NotBroken(mods, names) == s + [n];
      }
    }
  }

  lemma CandidateMembers(mods: Modules, repo: map<string, string>, outdated: bool, names: seq<Name>)
    requires forall n :: n in names ==> n in mods && mods[n].raw.Raw?
    ensures forall n :: n in Candidates(mods, repo, outdated, names)
                    <==> n in names && OutOfDate(mods[n].raw, repo, outdated)
  {
    if names != [] {
      CandidateMembers(mods, repo, outdated, names[..|names| - 1]);
      assert names == names[..|names| - 1] + [names[|names| - 1]];
    }
  }

  /** The version comparison: no result if some template file lacks an attribute. */
  method FindCandidates(mods: Modules, repo: map<string, string>, outdated: bool, names: seq<Name>)
      returns (r: Option<seq<Name>>)
    requires forall n :: n in names ==> n in mods
    ensures r.None? <==> exists n :: n in names && mods[n].raw.Incomplete?
    ensures r.Some? ==> forall n :: n in r.value <==>
              n in names && var m := mods[n].raw; if m.pkgname in repo then repo[m.pkgname] != m.version else !outdated
    ensures r.Some? ==> r.value == Candidates(mods, repo, outdated, names)
  {
    var vers := [];
    for i := 0 to |names|
      invariant forall n :: n in names[..i] ==> n in mods && mods[n].raw.Raw?
      invariant vers == Candidates(mods, repo, outdated, names[..i])
    {
      var pn := names[i];
      assert names[..i + 1][..i] == names[..i];
      match mods[pn].raw {
        case Incomplete =>
          return None;
        case Raw(apn, prv) =>
          if outdated && apn !in repo {
            continue;
          }
          if apn in repo && repo[apn] == prv {
            continue;
          }
          vers := vers + [pn];
      }
    }
    assert names[..|names|] == names;
    CandidateMembers(mods, repo, outdated, names);
    return Some(vers);
  }

  /** First filter: load everything, leave out what is marked broken. */
  method LoadAll(search: Search, vers: seq<Name>) returns (fvers: seq<Name>)
    requires search.Valid()
    modifies search
    ensures search.Valid() && fvers == NotBroken(search.mods, vers)
    ensures forall n :: n in vers ==> n in search.cache
  {
    fvers := [];
    for i := 0 to |vers|
      invariant search.Valid() && fvers == NotBroken(search.mods, vers[..i])
      invariant forall n :: n in vers[..i] ==> n in search.cache
    {
      assert vers[..i + 1][..i] == vers[..i];
      var broken := search.GetTmpl(vers[i]);
      if broken {
        continue;
      }
      fvers := fvers + [vers[i]];
    }
    assert vers[..|vers|] == vers;
  }

  /** Second filter: leave out what a broken dependency blocks. */
  method CheckAll(search: Search, vers: seq<Name>, limit: nat) returns (r: Option<seq<(Name, Option<string>)>>)
    requires search.Valid()
    requires forall n :: n in vers ==> n in search.cache && !MarkedBroken(search.mods, n)
    modifies search
    ensures r.Some? ==> r.value == Selected(search.mods, search.repo, vers)
    ensures r.Some? ==> forall n :: n in vers ==> SearchEnds(search.mods, search.repo, n)
    ensures r.None? ==> exists n :: n in vers && DeepWalk(ExploredEdges(search.mods, search.repo), n, limit)
    ensures limit > |search.mods| ==>
              (r.Some? <==> forall n :: n in vers ==> SearchEnds(search.mods, search.repo, n))
  {
    hide SearchEnds;
    hide ExploredEdges;
    hide Blocked;
    var fvers: seq<(Name, Option<string>)> := [];
    for i := 0 to |vers|
      invariant search.Valid() && fvers == Selected(search.mods, search.repo, vers[..i])
      invariant forall n :: n in vers ==> n in search.cache
      invariant forall n :: n in vers[..i] ==> SearchEnds(search.mods, search.repo, n)
    {
      var pn := vers[i];
      assert vers[..i + 1][..i] == vers[..i];
      var check := search.CheckTmpls(pn, limit);
      if check.None? {
        return None;
      }
      if check.value {
        continue;
      }
      fvers := fvers + [(pn, if pn in search.tvers then Some(search.tvers[pn]) else None)];
    }
    assert vers[..|vers|] == vers;
    return Some(fvers);
  }

  /**
   * The search can judge every candidate: all files have their attributes, and for each candidate that is not
   * itself broken the search ends.
   */
  ghost predicate Judgeable(mods: Modules, repo: map<string, string>, outdated: bool, names: seq<Name>)
    requires forall n :: n in names ==> n in mods
  {
    && (forall n :: n in names ==> mods[n].raw.Raw?)
    && forall n :: n in Candidates(mods, repo, outdated, names) && !MarkedBroken(mods, n) ==> SearchEnds(mods, repo, n)
  }

  /**
   * The buildable out-of-date templates in their original order, each judged on its own. With a recursion limit
   * above the number of templates there is a result exactly if every candidate can be judged; with any limit
   * there is none otherwise.
   */
  method GetUnbuilt(mods: Modules, repo: map<string, string>, outdated: bool, names: seq<Name>, limit: nat)
      returns (r: Option<seq<(Name, Option<string>)>>)
    requires forall n :: n in names ==> n in mods
    ensures r.Some? ==> Judgeable(mods, repo, outdated, names)
    ensures r.Some? ==> r.value == Selected(mods, repo, Candidates(mods, repo, outdated, names))
    ensures r.Some? ==> ListRight(mods, repo, outdated, names, r.value)
    ensures limit > |mods| ==> (r.Some? <==> Judgeable(mods, repo, outdated, names))
    ensures r.None? ==>
              exists n :: n in names && (mods[n].raw.Incomplete? || DeepWalk(ExploredEdges(mods, repo), n, limit))
  {
    hide SearchEnds;
    hide ExploredEdges;
    hide Blocked;
    var vers := FindCandidates(mods, repo, outdated, names);
    if vers.None? {
      return None;
    }
    CandidateMembers(mods, repo, outdated, names);
    var search := new Search(mods, repo);
    var fvers := LoadAll(search, vers.value);
    NotBrokenMembers(mods, vers.value);
    SelectedNotBroken(mods, repo, vers.value);
    r := CheckAll(search, fvers, limit);
    ListExactly(mods, repo, outdated, names);
  }

  /** A template that needs itself would have to be listed, and has a cycle behind it. */
  lemma NeedsItself(n: Name, pkgname: string, version: string)
    ensures var mods: Modules := map[n := Module(Raw(pkgname, version), Loaded(pkgname, version, false, [n]))];
            && Candidates(mods, map[], false, [n]) == [n] && Buildable(mods, map[], n)
            && !SearchEnds(mods, map[], n)
  {
    var mods: Modules := map[n := Module(Raw(pkgname, version), Loaded(pkgname, version, false, [n]))];
    ReachEdge(SearchEdges(mods, map[]), n, n);
    assert !NoCycleBehind(SearchEdges(mods, map[]), n);
    LeafFree(mods, map[], n);
    UnblockedEnds(mods, map[], n);
    assert Candidates(mods, map[], false, []) == [];
  }

  /** Nothing is blocked where nothing is broken. */
  lemma LeafFree(mods: Modules, repo: map<string, string>, n: Name)
    requires forall b :: !MarkedBroken(mods, b)
    ensures !Blocked(mods, repo, n)
  {
  }

  /** `n` needs `deps`; `c` needs itself, and `x` is broken. */
  ghost function Tangled(n: Name, c: Name, x: Name, deps: seq<Name>): Modules {
    map[n := Module(Raw("n", ""), Loaded("n", "", false, deps)),
        c := Module(Raw("c", ""), Loaded("c", "", false, [c])),
        x := Module(Raw("x", ""), Loaded("x", "", true, []))]
  }

  /** A blocked template with a cycle behind it: whether the search ends depends on what is listed first. */
  lemma ListedFirst(n: Name, c: Name, x: Name)
    requires n != c && c != x && n != x
    ensures Blocked(Tangled(n, c, x, [c, x]), map[], n) && !SearchEnds(Tangled(n, c, x, [c, x]), map[], n)
    ensures Blocked(Tangled(n, c, x, [x, c]), map[], n) && SearchEnds(Tangled(n, c, x, [x, c]), map[], n)
  {
    var one, two := Tangled(n, c, x, [c, x]), Tangled(n, c, x, [x, c]);
    BlockedByBroken(one, map[], n, x);
    BlockedByBroken(two, map[], n, x);
    assert GetsTo(one, map[], n, 0) && GetsTo(one, map[], c, 0);
    assert (n, c) in ExploredEdges(one, map[]) && (c, c) in ExploredEdges(one, map[]);
    ReachEdge(ExploredEdges(one, map[]), n, c);
    ReachEdge(ExploredEdges(one, map[]), c, c);
    LeafEnds(two, map[], x);
    StopsAtFirst(two, map[], n, 0);
  }

  // ---- When the recursion ends ----

  lemma {:induction false} WalkBound(E: set<(Name, Name)>, S: set<Name>, n: Name, k: nat)
    requires DeepWalk(E, n, k) && NoCycleBehind(E, n)
    requires forall a, b :: (a, b) in E && (a == n || Reach(E, n, a)) ==> a in S
    ensures k <= |S|
    decreases k
  {
    if k > 0 {
      var d :| (n, d) in E && DeepWalk(E, d, k - 1);
      ReachEdge(E, n, d);
      assert !Reach(E, n, n);
      forall y | Reach(E, d, y) ensures Reach(E, n, y) {
        ReachTrans(E, n, d, y);
      }
      forall a, b | (a, b) in E && (a == d || Reach(E, d, a)) ensures a in S - {n} {
      }
      WalkBound(E, S - {n}, d, k - 1);
    }
  }

  /** Where the explored dependencies have no cycle, a limit above the number of templates is never exceeded. */
  lemma AcyclicFits(mods: Modules, repo: map<string, string>, n: Name, limit: nat)
    requires NoCycleBehind(SearchEdges(mods, repo), n) && limit > |mods|
    ensures !DeepWalk(SearchEdges(mods, repo), n, limit)
  {
    if DeepWalk(SearchEdges(mods, repo), n, limit) {
      WalkBound(SearchEdges(mods, repo), mods.Keys, n, limit);
    }
  }

  /** Where the search ends, a limit above the number of templates is never exceeded. */
  lemma SearchFits(mods: Modules, repo: map<string, string>, n: Name, limit: nat)
    requires SearchEnds(mods, repo, n) && limit > |mods|
    ensures !DeepWalk(ExploredEdges(mods, repo), n, limit)
  {
    if DeepWalk(ExploredEdges(mods, repo), n, limit) {
      WalkBound(ExploredEdges(mods, repo), mods.Keys, n, limit);
    }
  }
}
