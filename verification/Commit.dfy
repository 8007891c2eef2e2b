/** The order in which changed templates are committed (ordering part of `do_commit`). */
module Commit {
  import opened Graphs
  import opened Templates
  import opened Selection
  import opened DepGraph
  import opened BulkGraph
  import opened BulkLedger
  import opened BulkOrder
  import opened BulkBook
  import opened BulkFate
  import opened BulkEngine
  import opened BulkTheorems

  /** The templates to commit: first what the bulk run could sort, then the rest. */
  datatype Plan = Plan(sorted: seq<Name>, rest: seq<Name>)

  /** `all` without what is in `done`, in order. */
  ghost function Without(all: seq<Name>, done: seq<Name>): seq<Name> {
    if all == [] then []
    else
      var init, n := all[..|all| - 1], all[|all| - 1];
      Without(init, done) + if n in done then [] else [n]
  }

  lemma {:induction false} WithoutMembers(all: seq<Name>, done: seq<Name>)
    ensures forall x :: x in Without(all, done) <==> x in all && x !in done
    ensures Distinct(all) ==> Distinct(Without(all, done))
  {
    if all != [] {
      var init, n := all[..|all| - 1], all[|all| - 1];
      WithoutMembers(init, done);
      assert all == init + [n];
      if Distinct(all) && n !in done {
        DistinctConcat(Without(init, done), [n]);
      }
    }
  }

  /** What is left has every occurrence of the templates not done, in order. */
  lemma {:induction false} WithoutKeeps(all: seq<Name>, done: seq<Name>, K: set<Name>)
    requires forall x :: x in all ==> (x in K <==> x !in done)
    ensures Keeps(all, K, Without(all, done))
  {
    if all == [] {
      KeepsNothing(K);
    } else {
      var init, n := all[..|all| - 1], all[|all| - 1];
      assert all == init + [n];
      WithoutKeeps(init, done, K);
      KeepsSnoc(init, K, Without(init, done), n);
      assert n in all;
    }
  }

  /** In `s`, whatever a template reaches is committed before it. */
  ghost predicate DependenciesFirst(E: set<(Name, Name)>, s: seq<Name>) {
    forall i, j :: 0 <= i < |s| && 0 <= j < |s| && Reach(E, s[i], s[j]) ==> j < i
  }

  /**
   * Why a template is left for the end: it is built already, cannot be expanded, or something behind it cannot be
   * read.
   */
  ghost predicate CannotSort(cfg: Config, dep: View, n: Name) {
    || UpToDate(cfg, n)
    || !Expandable(cfg.main, n)
    || exists d :: Behind(dep, Deps(cfg.main, n), d) && !Good(dep, d)
  }

  /** A template that is not to be built has its reason. */
  lemma UnlistedReason(b: Batch, n: Name)
    requires !b.cfg.raw && !(Recorded(b, n) && !UpToDate(b.cfg, n))
    ensures CannotSort(b.cfg, b.dep, n)
  {
    if Expandable(b.cfg.main, n) && !Recorded(b, n) {
      var x :| x in Found(b, n) && !Good(b.dep, x);
      var V := Seen(b.dep, b.cfg.main, b.requested, Before(b.requested, n));
      NewlyIsFresh(b.dep, V, Deps(b.cfg.main, n));
      FreshAmong(b.dep, V, Deps(b.cfg.main, n), x);
    }
  }

  /** Templates that go by their own names are requested as they are. */
  lemma {:induction false} OwnNames(cfg: Config, itmpls: seq<Name>)
    requires forall n :: n in itmpls ==> cfg.Resolve(n) == Resolved(n)
    ensures TakeIn(cfg, itmpls) == Intake(AsSet(itmpls), {}, [])
  {
    if itmpls != [] {
      var init, n := itmpls[..|itmpls| - 1], itmpls[|itmpls| - 1];
      OwnNames(cfg, init);
      hide TakeOne;
      OwnName(cfg, AsSet(init), n);
      assert itmpls == init + [n];
      AsSetConcat(init, [n]);
      assert AsSet([n]) == {n};
    }
  }

  lemma OwnName(cfg: Config, S: set<Name>, n: Name)
    requires cfg.Resolve(n) == Resolved(n)
    ensures TakeOne(cfg, Intake(S, {}, []), n) == Intake(S + {n}, {}, [])
  {
    if n in S {
      assert S + {n} == S;
    }
  }

  /** The bulk run behind a commit. */
  ghost function CommitBatch(cfg: Config, dep: View, itmpls: seq<Name>): Batch {
    Batch(cfg, dep, AsSet(itmpls), {})
  }

  /** There is an order: base-cbuild can be read, no cycle is in the way, and no error is left standing. */
  ghost predicate Sortable(b: Batch) {
    Good(b.dep, BASE_CBUILD) && !CyclicRun(b.dep, b.cfg.main, b.requested) && !FailedAfter(b, b.requested)
  }

  /**
   * Without bulk-continue, or if no template is broken, there is an order exactly if base-cbuild can be read,
   * nothing is cyclic and nothing is wrong; in any case it is enough if nothing is wrong.
   */
  lemma SortableExactly(b: Batch)
    ensures !b.cfg.bulkCont || NoneBroken(b.cfg.main, b.requested) ==>
              (Sortable(b) <==> Good(b.dep, BASE_CBUILD) && !CyclicRun(b.dep, b.cfg.main, b.requested) && !AnyCause(b))
    ensures Good(b.dep, BASE_CBUILD) && !CyclicRun(b.dep, b.cfg.main, b.requested) && !AnyCause(b) ==> Sortable(b)
  {
    hide CyclicRun;
    hide AnyCause;
    hide Trouble;
    hide EarlyFaults;
    CausesExactly(b);
  }

  /**
   * Sorts distinct templates that go by their own names, or fails with the bulk run. The plan is a permutation
   * of them; in its first part, which has exactly the recorded templates that are not built yet, whatever a
   * template reaches comes before it, and nothing is missing there without a reason.
   */
  method CommitOrder(cfg: Config, dep: View, itmpls: seq<Name>) returns (plan: Option<Plan>)
    requires cfg.goal == List(false) && !cfg.raw
    requires Distinct(itmpls) && forall n :: n in itmpls ==> cfg.Resolve(n) == Resolved(n)
    ensures plan.Some? <==> Sortable(CommitBatch(cfg, dep, itmpls))
    ensures plan.Some? ==>
              && Distinct(plan.value.sorted + plan.value.rest)
              && (forall x :: x in plan.value.sorted + plan.value.rest <==> x in itmpls)
              && plan.value.rest == Without(itmpls, plan.value.sorted)
              && Keeps(itmpls, AsSet(itmpls) - AsSet(plan.value.sorted), plan.value.rest)
              && DependenciesFirst(RunGraph(dep, cfg.main, AsSet(itmpls)), plan.value.sorted)
              && (forall n :: n in plan.value.sorted <==>
                    n in itmpls && Recorded(CommitBatch(cfg, dep, itmpls), n) && (cfg.force || n !in cfg.built))
              && forall n :: n in itmpls && n !in plan.value.sorted ==> CannotSort(cfg, dep, n)
  {
    hide GraphOk;
    hide Ledger;
    hide ErrorsExplained;
    hide RunGraph;
    hide ToBuild;
    hide CyclicRun;
    hide FailedAfter;
    hide Stream;
    hide FaultsAfter;
    hide Recorded;
    hide TakeIn;
    OwnNames(cfg, itmpls);
    ghost var b := CommitBatch(cfg, dep, itmpls);
    var run := new BulkRun(cfg, dep);
    var out := run.Run(itmpls);
    if !out.Completed? {
      return None;
    }
    assert run.Job() == b && GoesOn(b);
    var stmpls := NamesOf(run.flist);
    var rest := Rest(itmpls, stmpls);
    WithoutKeeps(itmpls, stmpls, AsSet(itmpls) - AsSet(stmpls));
    SortedMembers(b, itmpls, run.flist);
    PlanIsPermutation(run.flist, stmpls, itmpls);
    forall n | n in itmpls && n !in stmpls ensures CannotSort(cfg, dep, n) {
      UnlistedReason(b, n);
    }
    return Some(Plan(stmpls, rest));
  }

  /** The templates that could not be sorted, in the order given. */
  method Rest(all: seq<Name>, done: seq<Name>) returns (rest: seq<Name>)
    ensures rest == Without(all, done)
    ensures Keeps(all, AsSet(all) - AsSet(done), rest)
  {
    WithoutKeeps(all, done, AsSet(all) - AsSet(done));
    rest := [];
    for i := 0 to |all|
      invariant rest == Without(all[..i], done)
    {
      assert all[..i + 1][..i] == all[..i];
      if all[i] !in done {
        rest := rest + [all[i]];
      }
    }
    assert all[..|all|] == all;
  }

  lemma SortedMembers(b: Batch, itmpls: seq<Name>, list: seq<Entry>)
    requires GoesOn(b) && !b.cfg.raw && b.requested == AsSet(itmpls) && EntryNames(list) == ToBuild(b, itmpls)
    ensures forall n :: n in NamesOf(list) <==> n in itmpls && Recorded(b, n) && !UpToDate(b.cfg, n)
  {
    hide Recorded;
    hide GoesOn;
    forall n ensures n in NamesOf(list) <==> n in EntryNames(list) {
      if n in EntryNames(list) {
        var e :| e in list && e.name == n;
        var i :| 0 <= i < |list| && list[i] == e;
        assert NamesOf(list)[i] == n;
      }
    }
  }

  lemma PlanIsPermutation(flist: seq<Entry>, sorted: seq<Name>, itmpls: seq<Name>)
    requires sorted == NamesOf(flist) && OneEntryEach(flist)
    requires forall x :: x in sorted ==> x in itmpls
    requires Distinct(itmpls)
    ensures Distinct(sorted + Without(itmpls, sorted))
    ensures forall x :: x in sorted + Without(itmpls, sorted) <==> x in itmpls
  {
    WithoutMembers(itmpls, sorted);
    DistinctConcat(sorted, Without(itmpls, sorted));
  }
}
