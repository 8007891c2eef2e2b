/**
 * How a bulk run goes, as a function of its inputs: which names are taken in, what becomes of each requested
 * template, when the run fails, and how it ends.
 */
module BulkFate {
  import opened Graphs
  import opened Templates
  import opened DepGraph
  import opened Status
  import opened BulkErrors
  import opened BulkGraph
  import opened BulkLedger
  import opened BulkOrder
  import opened BulkBook
  import opened Sorting

  /** How a run ends: an unreadable base-cbuild, a cycle, "at least one bulk package failed", or normally. */
  datatype Outcome = BaseUnreadable | CycleFound | BulkFailed | Completed

  // ---- Taking in names ----

  /** The requested templates, the names that cannot be resolved, and the lines so far. */
  datatype Intake = Intake(requested: set<Name>, bad: set<Name>, lines: seq<Line>)

  /** A name adds to the requested templates if it is new, can be resolved, and the run has not stopped. */
  ghost predicate Requests(cfg: Config, known: set<Name>, stopped: bool, pn: Name) {
    pn !in known && cfg.Resolve(pn).Resolved? && cfg.Resolve(pn).name !in known && !stopped
  }

  /** The line a name gets when it is resolved, if any. */
  ghost function ResolveLines(cfg: Config, known: set<Name>, stopped: bool, pn: Name): seq<Line> {
    if pn in known then []
    else match cfg.Resolve(pn)
      case NotFound => [Line(pn, Missing)]
      case Malformed => [Line(pn, Invalid)]
      case Resolved(npn) => if npn !in known && stopped then [Line(npn, Skip)] else []
  }

  ghost function TakeOne(cfg: Config, s: Intake, pn: Name): Intake {
    var known, stopped := s.requested + s.bad, s.bad != {} && !cfg.bulkCont;
    Intake(s.requested + (if Requests(cfg, known, stopped, pn) then {cfg.Resolve(pn).name} else {}),
           s.bad + (if pn !in known && !cfg.Resolve(pn).Resolved? then {pn} else {}),
           s.lines + ResolveLines(cfg, known, stopped, pn))
  }

  ghost function TakeIn(cfg: Config, pkgs: seq<Name>): Intake {
    if pkgs == [] then Intake({}, {}, [])
    else TakeOne(cfg, TakeIn(cfg, pkgs[..|pkgs| - 1]), pkgs[|pkgs| - 1])
  }

  lemma TakeInSnoc(cfg: Config, pkgs: seq<Name>, pn: Name)
    ensures TakeIn(cfg, pkgs + [pn]) == TakeOne(cfg, TakeIn(cfg, pkgs), pn)
  {
    assert (pkgs + [pn])[..|pkgs|] == pkgs;
  }

  function BadWord(cfg: Config, n: Name): Word {
    if cfg.Resolve(n).NotFound? then Missing else Invalid
  }

  /** Every bad name has its line; other names have one only if the run stopped for a bad one. */
  ghost predicate Reported(cfg: Config, s: Intake) {
    && (forall b :: b in s.bad ==> Line(b, BadWord(cfg, b)) in s.lines)
    && (forall l :: l in s.lines ==> (l.name in s.bad && l.word == BadWord(cfg, l.name))
                                      || (l.word == Skip && !cfg.bulkCont && s.bad != {}))
    && (cfg.bulkCont ==> OneLineEach(s.lines))
  }

  lemma ReportedStep(cfg: Config, s: Intake, pn: Name)
    requires Reported(cfg, s)
    ensures Reported(cfg, TakeOne(cfg, s, pn))
  {
    var t := TakeOne(cfg, s, pn);
    var more := ResolveLines(cfg, s.requested + s.bad, s.bad != {} && !cfg.bulkCont, pn);
    assert t.lines == s.lines + more && forall l :: l in t.lines <==> l in s.lines || l in more;
    if cfg.bulkCont && more != [] {
      forall i | 0 <= i < |s.lines| ensures s.lines[i].name != pn {
        assert s.lines[i] in s.lines;
      }
    }
  }

  lemma {:induction false} BadReported(cfg: Config, pkgs: seq<Name>)
    ensures Reported(cfg, TakeIn(cfg, pkgs))
  {
    if pkgs != [] {
      var init, pn := pkgs[..|pkgs| - 1], pkgs[|pkgs| - 1];
      BadReported(cfg, init);
      ReportedStep(cfg, TakeIn(cfg, init), pn);
    }
  }

  /** Name `i` resolves to `n` after an earlier one was bad; neither is known, and the run does not go on. */
  ghost predicate SkippedAt(cfg: Config, pkgs: seq<Name>, i: nat, n: Name)
    requires i < |pkgs|
  {
    var s := TakeIn(cfg, pkgs[..i]);
    && !cfg.bulkCont && s.bad != {}
    && pkgs[i] !in s.requested + s.bad && cfg.Resolve(pkgs[i]) == Resolved(n) && n !in s.requested + s.bad
  }

  /** Exactly those names are reported as skipped when names are taken in. */
  lemma {:induction false} SkippedExactly(cfg: Config, pkgs: seq<Name>, n: Name)
    ensures Line(n, Skip) in TakeIn(cfg, pkgs).lines <==> exists i :: 0 <= i < |pkgs| && SkippedAt(cfg, pkgs, i, n)
  {
    if pkgs != [] {
      hide SkippedAt;
      hide ResolveLines;
      var last := |pkgs| - 1;
      var init := pkgs[..last];
      SkippedExactly(cfg, init, n);
      forall i | 0 <= i < last ensures SkippedAt(cfg, init, i, n) <==> SkippedAt(cfg, pkgs, i, n) {
        SkippedEarlier(cfg, pkgs, i, n);
      }
      SkippedLast(cfg, pkgs, n);
    }
  }

  lemma SkippedEarlier(cfg: Config, pkgs: seq<Name>, i: nat, n: Name)
    requires i < |pkgs| - 1
    ensures SkippedAt(cfg, pkgs[..|pkgs| - 1], i, n) <==> SkippedAt(cfg, pkgs, i, n)
  {
    assert pkgs[..|pkgs| - 1][..i] == pkgs[..i];
  }

  lemma SkippedLast(cfg: Config, pkgs: seq<Name>, n: Name)
    requires pkgs != []
    ensures Line(n, Skip) in ResolveLastLines(cfg, pkgs) <==> SkippedAt(cfg, pkgs, |pkgs| - 1, n)
  {
  }

  /** The lines of the last name. */
  ghost function ResolveLastLines(cfg: Config, pkgs: seq<Name>): seq<Line>
    requires pkgs != []
  {
    var s := TakeIn(cfg, pkgs[..|pkgs| - 1]);
    ResolveLines(cfg, s.requested + s.bad, s.bad != {} && !cfg.bulkCont, pkgs[|pkgs| - 1])
  }

  /** Without bulk-continue, once a name is bad nothing more is requested. */
  lemma {:induction false} NothingAfterBad(cfg: Config, pkgs: seq<Name>, i: nat)
    requires i <= |pkgs| && !cfg.bulkCont && TakeIn(cfg, pkgs[..i]).bad != {}
    ensures TakeIn(cfg, pkgs).requested == TakeIn(cfg, pkgs[..i]).requested && TakeIn(cfg, pkgs).bad != {}
    decreases |pkgs|
  {
    if i < |pkgs| {
      var init := pkgs[..|pkgs| - 1];
      assert init[..i] == pkgs[..i];
      NothingAfterBad(cfg, init, i);
    } else {
      assert pkgs[..i] == pkgs;
    }
  }

  /** A name without an entry is missing; without a result, building it raises an error. */
  lemma NoEntry(cfg: Config, n: Name)
    ensures n !in cfg.resolve ==> TakeIn(cfg, [n]) == Intake({}, {n}, [Line(n, Missing)])
    ensures n !in cfg.build ==> cfg.BuildOf(n).BuildRaised?
  {
    assert [n][..0] == [];
    assert TakeIn(cfg, [n][..0]) == Intake({}, {}, []);
  }

  /** Sanitized names stay as they are, as those of existing templates do. */
  ghost predicate Idempotent(cfg: Config) {
    forall p :: cfg.Resolve(p).Resolved? ==> cfg.Resolve(cfg.Resolve(p).name) == cfg.Resolve(p)
  }

  /** The templates that the given names stand for. */
  ghost function Targets(cfg: Config, pkgs: seq<Name>): set<Name> {
    set p | p in pkgs && cfg.Resolve(p).Resolved? :: cfg.Resolve(p).name
  }

  ghost function Unresolvable(cfg: Config, pkgs: seq<Name>): set<Name> {
    set p | p in pkgs && !cfg.Resolve(p).Resolved?
  }

  lemma TargetsStep(cfg: Config, pkgs: seq<Name>, pn: Name)
    ensures Targets(cfg, pkgs + [pn])
            == Targets(cfg, pkgs) + if cfg.Resolve(pn).Resolved? then {cfg.Resolve(pn).name} else {}
    ensures Unresolvable(cfg, pkgs + [pn]) == Unresolvable(cfg, pkgs) + if cfg.Resolve(pn).Resolved? then {} else {pn}
  {
    assert forall p :: p in pkgs + [pn] <==> p in pkgs || p == pn;
  }

  /** A given name is known, itself or under its sanitized name. */
  ghost predicate Accounted(cfg: Config, s: Intake, p: Name) {
    p in s.requested + s.bad || (cfg.Resolve(p).Resolved? && cfg.Resolve(p).name in s.requested + s.bad)
  }

  ghost predicate TakenRight(cfg: Config, pkgs: seq<Name>, s: Intake) {
    && s.requested !! s.bad && s.requested <= Targets(cfg, pkgs) && s.bad <= Unresolvable(cfg, pkgs)
    && (cfg.bulkCont || s.bad == {} ==> forall p :: p in pkgs ==> Accounted(cfg, s, p))
  }

  lemma AccountedStep(cfg: Config, s: Intake, pn: Name, p: Name)
    ensures Accounted(cfg, s, p) ==> Accounted(cfg, TakeOne(cfg, s, pn), p)
    ensures cfg.bulkCont || s.bad == {} ==> Accounted(cfg, TakeOne(cfg, s, pn), pn)
  {
  }

  lemma TakenStep(cfg: Config, pkgs: seq<Name>, s: Intake, pn: Name)
    requires TakenRight(cfg, pkgs, s)
    ensures TakenRight(cfg, pkgs + [pn], TakeOne(cfg, s, pn))
  {
    hide Targets;
    hide Unresolvable;
    hide Accounted;
    TargetsStep(cfg, pkgs, pn);
    forall p ensures Accounted(cfg, s, p) ==> Accounted(cfg, TakeOne(cfg, s, pn), p) {
      AccountedStep(cfg, s, pn, p);
    }
    AccountedStep(cfg, s, pn, pn);
  }

  /**
   * Whatever names resolve to: requested and bad names are disjoint and come from what was given, and unless the
   * run stopped every given name is known.
   */
  lemma {:induction false} AllTaken(cfg: Config, pkgs: seq<Name>)
    ensures TakenRight(cfg, pkgs, TakeIn(cfg, pkgs))
  {
    if pkgs != [] {
      var init, pn := pkgs[..|pkgs| - 1], pkgs[|pkgs| - 1];
      AllTaken(cfg, init);
      TakenStep(cfg, init, TakeIn(cfg, init), pn);
      assert pkgs == init + [pn];
    }
  }

  /** Exactly the unresolvable names are bad, and exactly their targets requested; the latter unless the run stopped. */
  lemma {:induction false} TakenExactly(cfg: Config, pkgs: seq<Name>)
    requires Idempotent(cfg)
    ensures TakeIn(cfg, pkgs).bad == Unresolvable(cfg, pkgs)
    ensures TakeIn(cfg, pkgs).requested <= Targets(cfg, pkgs)
    ensures forall n :: n in TakeIn(cfg, pkgs).requested ==> cfg.Resolve(n) == Resolved(n)
    ensures cfg.bulkCont || TakeIn(cfg, pkgs).bad == {} ==> TakeIn(cfg, pkgs).requested == Targets(cfg, pkgs)
  {
    if pkgs != [] {
      var init, pn := pkgs[..|pkgs| - 1], pkgs[|pkgs| - 1];
      TakenExactly(cfg, init);
      assert pkgs == init + [pn];
      hide Targets;
      TargetsStep(cfg, init, pn);
    }
  }

  // ---- What becomes of each requested template ----

  /** A run after its names were taken in. */
  datatype Batch = Batch(cfg: Config, dep: View, requested: set<Name>, bad: set<Name>)

  ghost function BatchOf(cfg: Config, dep: View, pkgs: seq<Name>): Batch {
    Batch(cfg, dep, TakeIn(cfg, pkgs).requested, TakeIn(cfg, pkgs).bad)
  }

  /** A template is recorded if it can be expanded and whatever that newly found can be read. */
  ghost predicate Records(cfg: Config, dep: View, pn: Name, found: set<Name>) {
    Expandable(cfg.main, pn) && (cfg.raw || AllGood(dep, found))
  }

  /** The line a requested template gets when it is parsed, if any. */
  ghost function ParseLines(cfg: Config, dep: View, pn: Name, found: set<Name>): seq<Line> {
    match Read(cfg.main, pn)
    case Raised => [Line(pn, ParseError)]
    case Skipped => []
    case Parsed(_, broken, _) =>
      if broken then [Line(pn, Broken)]
      else if !cfg.raw && AnyRaised(dep, found) then [Line(pn, ParseError)]
      else []
  }

  ghost function RaisedIn(view: View, S: set<Name>): set<Name> {
    set x | x in S && Read(view, x).Raised?
  }

  lemma RaisedInAny(view: View, S: set<Name>)
    ensures RaisedIn(view, S) != {} <==> AnyRaised(view, S)
  {
    if AnyRaised(view, S) {
      var x :| x in S && Read(view, x).Raised?;
      assert x in RaisedIn(view, S);
    }
  }

  /** The errors of parsing one requested template. */
  ghost function ParseFaults(cfg: Config, dep: View, pn: Name, found: set<Name>): set<Name> {
    if Read(cfg.main, pn).Raised? then {pn}
    else if Expandable(cfg.main, pn) && !cfg.raw then RaisedIn(dep, found)
    else {}
  }

  /** The errors of following dependencies are the unreadable names newly found. */
  lemma FaultsFound(view: View, s0: Snap, found: set<Name>, s1: Snap)
    requires ExploresErrors(view, s0, found, s1)
    ensures FaultNames(s1.trace) == FaultNames(s0.trace) + RaisedIn(view, found)
  {
    var more := s1.trace[|s0.trace|..];
    assert s1.trace == s0.trace + more;
    FaultNamesConcat(s0.trace, more);
    forall x ensures x in FaultNames(more) <==> Fault(x) in more {
    }
  }

  predicate IsBroken(main: View, n: Name) {
    Good(main, n) && Read(main, n).broken
  }

  ghost function Found(b: Batch, p: Name): set<Name> {
    FoundAt(b.dep, b.cfg.main, b.requested, p)
  }

  ghost predicate Recorded(b: Batch, p: Name) {
    Records(b.cfg, b.dep, p, Found(b, p))
  }

  /** What goes wrong with `p` itself: it cannot be read, or something newly found behind it cannot. */
  ghost function FaultsAt(b: Batch, p: Name): set<Name> {
    ParseFaults(b.cfg, b.dep, p, Found(b, p))
  }

  ghost predicate Trouble(b: Batch, p: Name) {
    FaultsAt(b, p) != {}
  }

  /** What goes wrong before the first requested template: bad names, and errors behind base-cbuild. */
  ghost function EarlyFaults(b: Batch): set<Name> {
    b.bad + if b.cfg.raw then {} else RaisedIn(b.dep, Base(b.dep))
  }

  /**
   * The failure flag once the requested templates `S` are through. With bulk-continue only what came after the
   * last broken template counts.
   */
  ghost predicate FailedAfter(b: Batch, S: set<Name>) {
    if b.cfg.bulkCont then
      || (exists p :: p in S && Trouble(b, p) && forall q :: q in S && IsBroken(b.cfg.main, q) ==> Less(q.text, p.text))
      || (EarlyFaults(b) != {} && forall q :: q in S ==> !IsBroken(b.cfg.main, q))
    else
      EarlyFaults(b) != {} || exists p :: p in S && Trouble(b, p)
  }

  /** The run stops before it gets to `p`. */
  ghost predicate StopsBefore(b: Batch, p: Name) {
    !b.cfg.bulkCont && FailedAfter(b, Before(b.requested, p))
  }

  /** The line of a requested template at the end of the parse phase, if any. */
  ghost function Fate(b: Batch, p: Name): seq<Line> {
    if StopsBefore(b, p) then [Line(p, Skip)] else ParseLines(b.cfg, b.dep, p, Found(b, p))
  }

  /** All errors once the requested templates `S` are through. */
  ghost function FaultsAfter(b: Batch, S: set<Name>): set<Name> {
    EarlyFaults(b) + set p, n | p in S && !StopsBefore(b, p) && n in FaultsAt(b, p) :: n
  }

  // ---- Parsing step by step ----

  /** What parsing depends on and changes. */
  datatype Progress = Progress(seen: set<Name>, book: Book, failed: bool, faults: set<Name>, recorded: set<Name>)

  /** The flag after one template. */
  ghost predicate FailsNext(cfg: Config, dep: View, failed: bool, p: Name, found: set<Name>) {
    if IsBroken(cfg.main, p) then false else failed || ParseFaults(cfg, dep, p, found) != {}
  }

  /** Parsing one requested template, starting from any state. */
  ghost predicate Parses(cfg: Config, dep: View, p: Name, s: Progress, t: Progress, more: seq<Line>) {
    var found := t.seen - s.seen;
    if s.failed && !cfg.bulkCont then t == s && more == [Line(p, Skip)]
    else
      && s.seen <= t.seen
      && more == ParseLines(cfg, dep, p, found)
      && t.recorded == s.recorded + (if Records(cfg, dep, p, found) then {p} else {})
      && t.failed == FailsNext(cfg, dep, s.failed, p, found)
      && t.faults == s.faults + ParseFaults(cfg, dep, p, found)
      && (if Expandable(cfg.main, p) && !cfg.raw
          then t.book == Advance(dep, cfg.main, s.book, p, found)
               && forall x :: x in found <==> Fresh(dep, s.seen, Deps(cfg.main, p), x)
          else t.book == s.book && t.seen == s.seen)
  }

  /** Nothing is parsed any more. */
  lemma ParsesNothing(cfg: Config, dep: View, p: Name, s: Progress)
    requires s.failed && !cfg.bulkCont
    ensures Parses(cfg, dep, p, s, s, [Line(p, Skip)])
  {
  }

  /** A template that cannot be read. */
  lemma ParsesUnread(cfg: Config, dep: View, p: Name, s: Progress, t: Progress, more: seq<Line>)
    requires !Good(cfg.main, p) && (s.failed ==> cfg.bulkCont)
    requires var raised := Read(cfg.main, p).Raised?;
             && t == s.(failed := s.failed || raised, faults := s.faults + if raised then {p} else {})
             && more == if raised then [Line(p, ParseError)] else []
    ensures Parses(cfg, dep, p, s, t, more)
  {
  }

  lemma ParsesBroken(cfg: Config, dep: View, p: Name, s: Progress, t: Progress, more: seq<Line>)
    requires IsBroken(cfg.main, p) && (s.failed ==> cfg.bulkCont)
    requires t == s.(failed := false) && more == [Line(p, Broken)]
    ensures Parses(cfg, dep, p, s, t, more)
  {
  }

  /** An expandable template. */
  lemma ParsesExpanded(cfg: Config, dep: View, p: Name, s: Progress, t: Progress, found: set<Name>, more: seq<Line>)
    requires Expandable(cfg.main, p) && (s.failed ==> cfg.bulkCont) && s.seen <= t.seen && found == t.seen - s.seen
    requires t.recorded == s.recorded + if Records(cfg, dep, p, found) then {p} else {}
    requires t.failed == (s.failed || (!cfg.raw && AnyRaised(dep, found)))
    requires t.faults == s.faults + if cfg.raw then {} else RaisedIn(dep, found)
    requires more == ParseLines(cfg, dep, p, found)
    requires if cfg.raw then t.book == s.book && t.seen == s.seen
             else t.book == Advance(dep, cfg.main, s.book, p, found)
                  && forall x :: x in found <==> Fresh(dep, s.seen, Deps(cfg.main, p), x)
    ensures Parses(cfg, dep, p, s, t, more)
  {
    RaisedInAny(dep, found);
  }

  /** The books of a run that has not stopped. */
  ghost predicate Booked(b: Batch, S: set<Name>, s: Progress) {
    && s.recorded == (set p | p in S && Recorded(b, p))
    && (!b.cfg.raw ==> s.book == BookAfter(b.dep, b.cfg.main, b.requested, S)
                       && s.seen == Seen(b.dep, b.cfg.main, b.requested, S))
  }

  /** The exact state once the requested templates `S` are through. */
  ghost predicate Exact(b: Batch, S: set<Name>, s: Progress) {
    && s.failed == FailedAfter(b, S)
    && s.faults == FaultsAfter(b, S)
    && (b.cfg.bulkCont || !s.failed ==> Booked(b, S, s))
  }

  /** The lines of the requested templates `S`. */
  ghost predicate LinesExact(b: Batch, S: set<Name>, lines: seq<Line>) {
    forall l :: l in lines <==> l.name in S && Fate(b, l.name) == [l]
  }

  lemma FailedStep(b: Batch, p: Name)
    ensures var S := Before(b.requested, p);
            StopsBefore(b, p) ==> FailedAfter(b, S + {p})
    ensures var S := Before(b.requested, p);
            !StopsBefore(b, p) ==>
              FailedAfter(b, S + {p}) == if IsBroken(b.cfg.main, p) then false else FailedAfter(b, S) || Trouble(b, p)
  {
    hide Found;
    var S := Before(b.requested, p);
    forall q | q in S ensures !Less(p.text, q.text) {
      LessAsymmetric(q.text, p.text);
    }
    LessIrreflexive(p.text);
    if IsBroken(b.cfg.main, p) {
      assert !Trouble(b, p);
    } else if Trouble(b, p) {
      assert forall q :: q in S && IsBroken(b.cfg.main, q) ==> Less(q.text, p.text);
    }
  }

  lemma FaultsStep(b: Batch, p: Name)
    ensures var S := Before(b.requested, p);
            FaultsAfter(b, S + {p}) == FaultsAfter(b, S) + if StopsBefore(b, p) then {} else FaultsAt(b, p)
  {
    hide FaultsAt;
    hide StopsBefore;
    hide Before;
  }

  lemma FateIsOwn(b: Batch, p: Name)
    ensures Fate(b, p) == [] || (|Fate(b, p)| == 1 && Fate(b, p)[0].name == p)
  {
  }

  lemma LinesStep(b: Batch, p: Name, lines: seq<Line>, more: seq<Line>)
    requires p !in Before(b.requested, p)
    requires LinesExact(b, Before(b.requested, p), lines) && more == Fate(b, p)
    ensures LinesExact(b, Before(b.requested, p) + {p}, lines + more)
  {
    FateIsOwn(b, p);
    hide Fate;
    hide Before;
    if more != [] {
      assert more == [more[0]];
    }
  }

  /** The state before the first requested template. */
  lemma ExactStart(b: Batch, s: Progress)
    requires s.failed == (EarlyFaults(b) != {}) && s.faults == EarlyFaults(b) && s.recorded == {}
    requires !b.cfg.raw ==> s.book == BookAfter(b.dep, b.cfg.main, b.requested, {})
                            && s.seen == Seen(b.dep, b.cfg.main, b.requested, {})
    ensures Exact(b, {}, s)
  {
  }

  /** Parsing the next template leads from one exact state to the next. */
  lemma ParseStep(b: Batch, p: Name, s: Progress, t: Progress, more: seq<Line>)
    requires Exact(b, Before(b.requested, p), s) && Parses(b.cfg, b.dep, p, s, t, more)
    ensures Exact(b, Before(b.requested, p) + {p}, t) && more == Fate(b, p)
  {
    hide FailedAfter;
    hide FaultsAfter;
    hide Before;
    hide Advance;
    hide Fresh;
    var S := Before(b.requested, p);
    FailedStep(b, p);
    FaultsStep(b, p);
    if !StopsBefore(b, p) {
      FoundNext(b, p, s, t, more);
    }
  }

  /** What is found next, if it matters. */
  lemma FoundNext(b: Batch, p: Name, s: Progress, t: Progress, more: seq<Line>)
    requires Booked(b, Before(b.requested, p), s) && Parses(b.cfg, b.dep, p, s, t, more)
             && (s.failed ==> b.cfg.bulkCont)
    ensures Expandable(b.cfg.main, p) && !b.cfg.raw ==> t.seen - s.seen == Found(b, p)
    ensures Booked(b, Before(b.requested, p) + {p}, t)
  {
    hide Before;
    hide Fresh;
    hide Advance;
    hide BookAfter;
    hide Seen;
    hide FoundAt;
    hide ParseLines;
    if Expandable(b.cfg.main, p) && !b.cfg.raw {
      BookStep(b.dep, b.cfg.main, b.requested, p, t.seen);
    } else if !b.cfg.raw {
      PassedOver(b.dep, b.cfg.main, b.requested, Before(b.requested, p), p);
    }
  }

  // ---- How a run ends ----

  /** The templates that come up when the list is made. */
  ghost function Due(b: Batch, pkgs: seq<Name>): set<Name> {
    set p | p in b.requested && Recorded(b, p) && (b.cfg.raw ==> p in pkgs)
  }

  /** The run gets to its list. */
  ghost predicate GoesOn(b: Batch) {
    && (b.cfg.bulkCont || !FailedAfter(b, b.requested))
    && (b.cfg.raw || !CyclicRun(b.dep, b.cfg.main, b.requested))
  }

  /** The templates that end up on the list. */
  ghost function ToBuild(b: Batch, pkgs: seq<Name>): set<Name> {
    set p | p in Due(b, pkgs) && !UpToDate(b.cfg, p) && GoesOn(b)
  }

  /** A template that disappears without a line: `SkipPackage` is all that is wrong. */
  ghost predicate Drops(b: Batch, p: Name) {
    || Read(b.cfg.main, p).Skipped?
    || (Expandable(b.cfg.main, p) && !Recorded(b, p) && !Trouble(b, p))
  }

  lemma DropsForReason(b: Batch, p: Name)
    requires Drops(b, p)
    ensures DropReason(b.cfg, b.dep, p)
  {
    if Expandable(b.cfg.main, p) {
      var x :| x in Found(b, p) && !Good(b.dep, x);
      RaisedInAny(b.dep, Found(b, p));
      assert Read(b.dep, x).Skipped?;
      var V := Seen(b.dep, b.cfg.main, b.requested, Before(b.requested, p));
      NewlyIsFresh(b.dep, V, Deps(b.cfg.main, p));
      FreshAmong(b.dep, V, Deps(b.cfg.main, p), x);
    }
  }

  /** The recorded templates as they were read. */
  ghost function RecordedMap(b: Batch): map<Name, Parse> {
    map p | p in b.requested && Recorded(b, p) :: Read(b.cfg.main, p)
  }

  /** The recorded templates of a run that has not stopped. */
  lemma RecordedWhole(b: Batch, templates: map<Name, Parse>, pkgs: seq<Name>)
    requires templates.Keys == set p | p in b.requested && Recorded(b, p)
    requires forall n :: n in templates ==> templates[n] == Read(b.cfg.main, n)
    ensures templates == RecordedMap(b)
    ensures (set p | p in templates && (b.cfg.raw ==> p in pkgs)) == Due(b, pkgs)
  {
    hide Recorded;
    assert forall p :: p in templates <==> p in templates.Keys;
  }

  /** A list that respects the graph respects every chain of templates, and the implicit edges. */
  lemma ChainsFollow(dep: View, main: View, requested: set<Name>, s: Snap, bk: Book, list: seq<Entry>)
    requires GraphOk(dep, main, requested, s, bk) && bk == BookAfter(dep, main, requested, requested)
    requires Follows(s.edges, list) && EntryNames(list) <= bk.handled
    ensures Follows(RunGraph(dep, main, requested), list)
  {
    var W := RunGraph(dep, main, requested);
    forall i, j | 0 <= i < |list| && 0 <= j < |list| && Reach(W, list[i].name, list[j].name) ensures j < i {
      assert list[i].name in EntryNames(list);
      RunGraphInGraph(dep, main, requested, s, bk, list[i].name, list[j].name);
    }
  }

  ghost predicate BuildRaises(cfg: Config, names: set<Name>) {
    cfg.goal.Build? && exists n :: n in names && cfg.BuildOf(n).BuildRaised?
  }

  /** How a run ends that got past base-cbuild. */
  ghost function Ends(b: Batch, pkgs: seq<Name>): Outcome {
    var failed := FailedAfter(b, b.requested);
    if !b.cfg.bulkCont && failed then BulkFailed
    else if !b.cfg.raw && CyclicRun(b.dep, b.cfg.main, b.requested) then CycleFound
    else if failed || BuildRaises(b.cfg, ToBuild(b, pkgs)) then BulkFailed
    else Completed
  }

  /** How a run on `pkgs` ends. */
  ghost function Verdict(cfg: Config, dep: View, pkgs: seq<Name>): Outcome {
    if !Good(dep, BASE_CBUILD) then BaseUnreadable else Ends(BatchOf(cfg, dep, pkgs), pkgs)
  }

  /** The lines about requested templates at the end of a run. */
  ghost predicate FinalLine(b: Batch, pkgs: seq<Name>, list: seq<Entry>, l: Line) {
    || (l.name in b.requested && Fate(b, l.name) == [l])
    || (GoesOn(b) && l.name in Due(b, pkgs) && UpToDate(b.cfg, l.name) && l.word == Done)
    || (b.cfg.goal.Build? && IsBuildLine(b.cfg, list, l))
  }

  /** The lines of the parse phase, in sorted order, and those of the order phase. */
  ghost predicate StreamParts(b: Batch, pkgs: seq<Name>, parse: seq<Line>, done: seq<Line>) {
    && LinesExact(b, b.requested, parse) && Rising(parse)
    && (forall l :: l in done <==> GoesOn(b) && l.word == Done && l.name in Due(b, pkgs) && UpToDate(b.cfg, l.name))
    && (b.cfg.raw && GoesOn(b) ==> done == DoneLines(b.cfg, RecordedMap(b), pkgs))
  }

  /** All lines about requested templates: parsed, found built, and built, one phase after the other. */
  ghost predicate Stream(b: Batch, pkgs: seq<Name>, list: seq<Entry>, lines: seq<Line>) {
    exists parse: seq<Line>, done: seq<Line> ::
      StreamParts(b, pkgs, parse, done) && lines == parse + done + BuildLines(b.cfg, list)
  }

  /** Those lines are all there are. */
  lemma StreamExactly(b: Batch, pkgs: seq<Name>, list: seq<Entry>, lines: seq<Line>)
    requires Stream(b, pkgs, list, lines)
    ensures forall l :: l in lines <==> FinalLine(b, pkgs, list, l)
  {
    hide Fate;
    hide GoesOn;
    hide Due;
    hide BuildLines;
    hide IsBuildLine;
    hide DoneLines;
    BuildLinesMembers(b.cfg, list);
  }

  /** A run that does not get to its list. */
  lemma NothingListed(b: Batch, pkgs: seq<Name>, lines: seq<Line>, t: seq<Event>)
    requires !GoesOn(b) && LinesExact(b, b.requested, lines) && Rising(lines) && !HasStart(t)
    ensures EntryNames([]) == ToBuild(b, pkgs)
    ensures Stream(b, pkgs, [], lines)
    ensures StartsExactly(b.cfg, [], t) && RaisedBuilds(b.cfg, StartNames(t)) == {}
  {
    hide Fate;
    hide LinesExact;
    hide Rising;
    NoStartNames(t);
    assert ToBuild(b, pkgs) == {};
    assert StreamParts(b, pkgs, lines, []);
    assert BuildLines(b.cfg, []) == [];
    assert lines == lines + [] + [];
  }

  /** The outcome of a run that got to its list. */
  lemma EndsSo(b: Batch, pkgs: seq<Name>, list: seq<Entry>, failed: bool)
    requires GoesOn(b) && EntryNames(list) == ToBuild(b, pkgs)
    requires failed == (FailedAfter(b, b.requested) || (b.cfg.goal.Build? && RaisesBefore(b.cfg, list, |list|)))
    ensures Ends(b, pkgs) == if failed then BulkFailed else Completed
  {
    hide FailedAfter;
    hide ToBuild;
    if BuildRaises(b.cfg, EntryNames(list)) {
      var e :| e in list && b.cfg.BuildOf(e.name).BuildRaised?;
      var i :| 0 <= i < |list| && list[i] == e;
      assert RaisesBefore(b.cfg, list, |list|);
    }
  }
}
