/** Inputs of a bulk run, and the accounts of its status lines. */
module BulkLedger {
  import opened Templates
  import opened Status
  import opened DepGraph
  import opened BulkErrors
  import opened BulkGraph

  /** What `sanitize_pkgname` makes of a requested name. */
  datatype Resolution = NotFound | Malformed | Resolved(name: Name)

  datatype BuildResult = Built | BuildSkipped | BuildRaised

  /** Build everything, or collect the list, optionally with versions. */
  datatype Goal = Build | List(version: bool)

  datatype Config = Config(resolve: map<Name, Resolution>, main: View, built: set<Name>,
                           build: map<Name, BuildResult>, bulkCont: bool, force: bool, raw: bool, goal: Goal)
  {
    function Resolve(n: Name): Resolution {
      if n in resolve then resolve[n] else NotFound
    }

    function BuildOf(n: Name): BuildResult {
      if n in build then build[n] else BuildRaised
    }
  }

  /** An element of the final list: a template name, with its version appended when that is asked for. */
  datatype Entry = Entry(name: Name, version: Option<string>)

  // ---- Accounts: every requested template is waiting, dropped, or has its one line ----

  ghost predicate HasLine(lines: seq<Line>, n: Name) {
    exists i :: 0 <= i < |lines| && lines[i].name == n
  }

  ghost predicate OneLineEach(lines: seq<Line>) {
    forall i, j :: 0 <= i < j < |lines| ==> lines[i].name != lines[j].name
  }

  ghost predicate Ledger(lines: seq<Line>, waiting: set<Name>, dropped: set<Name>, all: set<Name>) {
    && OneLineEach(lines)
    && (forall i :: 0 <= i < |lines| ==> lines[i].name in all - waiting - dropped)
    && waiting <= all && dropped <= all - waiting
    && (forall x :: x in all - waiting - dropped ==> HasLine(lines, x))
  }

  /** Two stretches of lines about different packages. */
  lemma OneLineConcat(a: seq<Line>, b: seq<Line>, A: set<Name>, B: set<Name>)
    requires OneLineEach(a) && OneLineEach(b) && A !! B
    requires forall i :: 0 <= i < |a| ==> a[i].name in A
    requires forall i :: 0 <= i < |b| ==> b[i].name in B
    ensures OneLineEach(a + b)
  {
  }

  /** Lines about unresolvable names, then the accounts of the requested templates. */
  lemma WholeStream(before: seq<Line>, lines: seq<Line>, waiting: set<Name>, dropped: set<Name>, all: set<Name>,
                    bad: set<Name>)
    requires OneLineEach(before) && Ledger(lines, waiting, dropped, all) && all !! bad
    requires forall i :: 0 <= i < |before| ==> before[i].name in bad
    ensures OneLineEach(before + lines)
  {
    OneLineConcat(before, lines, bad, all);
  }

  lemma LedgerSettle(lines: seq<Line>, waiting: set<Name>, dropped: set<Name>, all: set<Name>, l: Line)
    requires Ledger(lines, waiting, dropped, all) && l.name in waiting
    ensures Ledger(lines + [l], waiting - {l.name}, dropped, all)
  {
    var next := lines + [l];
    forall x | x in all - (waiting - {l.name}) - dropped ensures HasLine(next, x) {
      if x == l.name {
        assert next[|lines|].name == x;
      } else {
        assert HasLine(lines, x);
        var i :| 0 <= i < |lines| && lines[i].name == x;
        assert next[i].name == x;
      }
    }
  }

  // ---- What a status line says about its package ----

  /** The reason behind a line, given the events up to now. */
  ghost predicate Meant(cfg: Config, dep: View, l: Line, t: seq<Event>) {
    match l.word
    case Missing => cfg.Resolve(l.name).NotFound? && Fault(l.name) in t
    case Invalid => cfg.Resolve(l.name).Malformed? && Fault(l.name) in t
    case Skip => !cfg.bulkCont && exists n :: Fault(n) in t
    case ParseError =>
      || (Read(cfg.main, l.name).Raised? && Fault(l.name) in t)
      || (Expandable(cfg.main, l.name) && FailsBehind(cfg, dep, l.name, t))
    case Broken => Good(cfg.main, l.name) && Read(cfg.main, l.name).broken && FoundBroken(l.name) in t
    case Done => !cfg.force && l.name in cfg.built && Expandable(cfg.main, l.name)
    case Ok => cfg.BuildOf(l.name).Built? && Started(l.name) in t
    case Failed =>
      && !cfg.BuildOf(l.name).Built? && Started(l.name) in t
      && (cfg.BuildOf(l.name).BuildRaised? ==> Fault(l.name) in t)
  }

  /** A template behind `n` could not be read. */
  ghost predicate FailsBehind(cfg: Config, dep: View, n: Name, t: seq<Event>) {
    exists d :: Behind(dep, Deps(cfg.main, n), d) && Read(dep, d).Raised? && Fault(d) in t
  }

  ghost predicate AllMeant(cfg: Config, dep: View, lines: seq<Line>, t: seq<Event>) {
    forall i :: 0 <= i < |lines| ==> Meant(cfg, dep, lines[i], t)
  }

  /** Something in the world behind every recorded error, and every template found broken is a requested one. */
  ghost predicate Faulty(cfg: Config, dep: View, n: Name) {
    !cfg.Resolve(n).Resolved? || Read(cfg.main, n).Raised? || Read(dep, n).Raised? || cfg.BuildOf(n).BuildRaised?
  }

  ghost predicate EventsReal(cfg: Config, dep: View, requested: set<Name>, t: seq<Event>) {
    && (forall i :: 0 <= i < |t| && t[i].Fault? ==> Faulty(cfg, dep, t[i].name))
    && (forall i :: 0 <= i < |t| && t[i].FoundBroken? ==>
          t[i].name in requested && Good(cfg.main, t[i].name) && Read(cfg.main, t[i].name).broken)
  }

  /** Only a `SkipPackage` somewhere makes a template disappear without a line. */
  ghost predicate DropReason(cfg: Config, dep: View, n: Name) {
    Read(cfg.main, n).Skipped? || (Expandable(cfg.main, n) && SkipsBehind(cfg, dep, n))
  }

  ghost predicate SkipsBehind(cfg: Config, dep: View, n: Name) {
    exists d :: Behind(dep, Deps(cfg.main, n), d) && Read(dep, d).Skipped?
  }

  lemma LineMeantGrows(cfg: Config, dep: View, l: Line, t: seq<Event>, u: seq<Event>)
    requires Meant(cfg, dep, l, t) && t <= u
    ensures Meant(cfg, dep, l, u)
  {
    forall e | e in t ensures e in u {
      var i :| 0 <= i < |t| && t[i] == e;
      assert u[i] == e;
    }
    if l.word.Skip? {
      var n :| Fault(n) in t;
      assert Fault(n) in u;
    } else if l.word.ParseError? && !(Read(cfg.main, l.name).Raised? && Fault(l.name) in t) {
      var d :| Behind(dep, Deps(cfg.main, l.name), d) && Read(dep, d).Raised? && Fault(d) in t;
      assert Fault(d) in u;
    }
  }

  lemma MeantGrows(cfg: Config, dep: View, lines: seq<Line>, t: seq<Event>, u: seq<Event>)
    requires AllMeant(cfg, dep, lines, t) && t <= u
    ensures AllMeant(cfg, dep, lines, u)
  {
    forall i | 0 <= i < |lines| ensures Meant(cfg, dep, lines[i], u) {
      LineMeantGrows(cfg, dep, lines[i], t, u);
    }
  }

  ghost predicate ErrorsExplained(cfg: Config, dep: View, requested: set<Name>, failed: bool, lines: seq<Line>,
                                  t: seq<Event>) {
    && ErrorsOk(cfg.bulkCont, failed, t)
    && EventsReal(cfg, dep, requested, t)
    && AllMeant(cfg, dep, lines, t)
  }

  lemma ExplainMoreRequests(cfg: Config, dep: View, requested: set<Name>, more: set<Name>, failed: bool,
                            lines: seq<Line>, t: seq<Event>)
    requires ErrorsExplained(cfg, dep, requested, failed, lines, t) && requested <= more
    ensures ErrorsExplained(cfg, dep, more, failed, lines, t)
  {
  }

  lemma ExplainFault(cfg: Config, dep: View, requested: set<Name>, lines: seq<Line>, t: seq<Event>, n: Name)
    requires (!cfg.bulkCont ==> StopsAtFault(t)) && EventsReal(cfg, dep, requested, t) && AllMeant(cfg, dep, lines, t)
    requires Faulty(cfg, dep, n)
    ensures ErrorsExplained(cfg, dep, requested, true, lines, t + [Fault(n)])
  {
    AddFault(cfg.bulkCont, t, n);
    MeantGrows(cfg, dep, lines, t, t + [Fault(n)]);
  }

  lemma ExplainFaults(cfg: Config, dep: View, requested: set<Name>, lines: seq<Line>, t: seq<Event>, u: seq<Event>)
    requires (!cfg.bulkCont ==> StopsAtFault(t)) && EventsReal(cfg, dep, requested, t) && AllMeant(cfg, dep, lines, t)
    requires OnlyFaults(dep, t, u)
    ensures ErrorsExplained(cfg, dep, requested, |u| > |t| || Pending(t), lines, u)
  {
    AddFaults(dep, cfg.bulkCont, t, u);
    MeantGrows(cfg, dep, lines, t, u);
    forall i | 0 <= i < |u| && u[i].Fault? ensures Faulty(cfg, dep, u[i].name) {
      assert i < |t| ==> u[i] == t[i];
    }
  }

  lemma ExplainBroken(cfg: Config, dep: View, requested: set<Name>, failed: bool, lines: seq<Line>, t: seq<Event>,
                      n: Name)
    requires ErrorsExplained(cfg, dep, requested, failed, lines, t) && (failed ==> cfg.bulkCont)
    requires n in requested && Good(cfg.main, n) && Read(cfg.main, n).broken
    ensures ErrorsExplained(cfg, dep, requested, false, lines, t + [FoundBroken(n)])
  {
    AddBroken(cfg.bulkCont, failed, t, n);
    MeantGrows(cfg, dep, lines, t, t + [FoundBroken(n)]);
  }

  lemma ExplainStart(cfg: Config, dep: View, requested: set<Name>, failed: bool, lines: seq<Line>, t: seq<Event>,
                     n: Name)
    requires ErrorsExplained(cfg, dep, requested, failed, lines, t) && (failed ==> cfg.bulkCont)
    ensures ErrorsExplained(cfg, dep, requested, failed, lines, t + [Started(n)])
  {
    AddStart(cfg.bulkCont, failed, t, n);
    MeantGrows(cfg, dep, lines, t, t + [Started(n)]);
  }

  /** What following the dependencies of a requested template means for the failure flag. */
  lemma RecdepsErrors(cfg: Config, dep: View, requested: set<Name>, lines: seq<Line>, s0: Snap, n: Name,
                      found: set<Name>, s1: Snap, ok: bool)
    requires ErrorsExplained(cfg, dep, requested, Pending(s0.trace), lines, s0.trace)
             && !HasStart(s0.trace) && !s0.failed
    requires ExploresErrors(dep, s0, found, s1) && (ok <==> AllGood(dep, found))
    requires forall x :: x in found ==> Behind(dep, Deps(cfg.main, n), x)
    ensures ErrorsExplained(cfg, dep, requested, Pending(s1.trace), lines, s1.trace) && !HasStart(s1.trace)
    ensures s1.failed <==> |s1.trace| > |s0.trace|
    ensures s1.failed ==> Pending(s1.trace) && FailsBehind(cfg, dep, n, s1.trace)
    ensures ok ==> !s1.failed
    ensures !ok && !s1.failed ==> SkipsBehind(cfg, dep, n)
  {
    ExplainFaults(cfg, dep, requested, lines, s0.trace, s1.trace);
    PendingFaults(dep, s0.trace, s1.trace);
    ErrorsCounted(dep, s0, found, s1);
    if AnyRaised(dep, found) {
      var x :| x in found && Read(dep, x).Raised?;
      assert Fault(x) in s1.trace[|s0.trace|..];
      assert Fault(x) in s1.trace;
    }
    if !ok && !s1.failed {
      var x :| x in found && !Good(dep, x);
      assert Read(dep, x).Skipped?;
    }
  }
}
