/** What a bulk run does for its caller, in terms of its inputs, and where the obvious claims fail. */
module BulkTheorems {
  import opened Graphs
  import opened Templates
  import opened Selection
  import opened DepGraph
  import opened Status
  import opened Sorting
  import opened BulkErrors
  import opened BulkGraph
  import opened BulkLedger
  import opened BulkOrder
  import opened BulkBook
  import opened BulkFate
  import opened BulkEngine

  // ---- Failure ----

  /**
   * The failure protocol in terms of events. Without bulk-continue nothing is built after an error, and the
   * flag is set exactly if an error occurred. With bulk-continue that also holds if no requested template is
   * broken. In all cases the flag tells of an error that no later broken template made the run forget.
   */
  lemma EventProtocol(cfg: Config, dep: View, requested: set<Name>, failed: bool, lines: seq<Line>, t: seq<Event>)
    requires ErrorsExplained(cfg, dep, requested, failed, lines, t)
    ensures !cfg.bulkCont ==> forall i, j :: 0 <= i < j < |t| && t[i].Fault? ==> !t[j].Started?
    ensures !cfg.bulkCont ==> (failed <==> HasFault(t))
    ensures NoneBroken(cfg.main, requested) ==> (failed <==> HasFault(t))
    ensures failed <==> exists i :: 0 <= i < |t| && t[i].Fault? && forall j :: i < j < |t| ==> !t[j].FoundBroken?
  {
    PendingExactly(t);
    if !cfg.bulkCont || !HasBroken(t) {
      PendingIfStops(t);
    }
  }

  ghost predicate NoneBroken(main: View, requested: set<Name>) {
    forall n :: n in requested ==> !IsBroken(main, n)
  }

  /**
   * Something is wrong before any build, in whatever order it comes up: a name that cannot be resolved, a
   * requested template that cannot be read, or an error behind base-cbuild or behind a requested template.
   */
  ghost predicate AnyCause(b: Batch) {
    || b.bad != {}
    || AnyRaised(b.cfg.main, b.requested)
    || (!b.cfg.raw && AnyRaised(b.dep, Base(b.dep) + NewBehind(b.dep, b.cfg.main, b.requested, b.requested)))
  }

  /** The errors met one after the other are all the errors there are. */
  lemma CausesExactly(b: Batch)
    ensures EarlyFaults(b) != {} || (exists p :: p in b.requested && Trouble(b, p)) <==> AnyCause(b)
  {
    hide NewBehind;
    hide FoundAt;
    hide Base;
    var N := NewBehind(b.dep, b.cfg.main, b.requested, b.requested);
    RaisedInAny(b.dep, Base(b.dep));
    RaisedUnion(b.dep, Base(b.dep), N);
    FoundTogether(b.dep, b.cfg.main, b.requested, b.requested);
    forall p
      ensures Trouble(b, p) <==>
                || Read(b.cfg.main, p).Raised?
                || (Expandable(b.cfg.main, p) && !b.cfg.raw && AnyRaised(b.dep, Found(b, p)))
    {
      RaisedInAny(b.dep, Found(b, p));
    }
    if !b.cfg.raw && AnyRaised(b.dep, N) {
      var x :| x in N && Read(b.dep, x).Raised?;
      var p :| p in Handled(b.cfg.main, b.requested) && x in Found(b, p);
      assert Trouble(b, p);
    }
  }

  ghost predicate CyclicBatch(b: Batch) {
    !b.cfg.raw && CyclicRun(b.dep, b.cfg.main, b.requested)
  }

  /**
   * The failure protocol. Without bulk-continue a run completes exactly if nothing is wrong, nothing is cyclic
   * and no build raises. With bulk-continue, if no requested template is broken, a run that is not cyclic fails
   * exactly if something is wrong or a build raises.
   */
  lemma FailureProtocol(cfg: Config, dep: View, pkgs: seq<Name>)
    requires Good(dep, BASE_CBUILD)
    ensures var b, v := BatchOf(cfg, dep, pkgs), Verdict(cfg, dep, pkgs);
            var builds := BuildRaises(cfg, ToBuild(b, pkgs));
            && (!cfg.bulkCont ==>
                  && (v.Completed? <==> !AnyCause(b) && !CyclicBatch(b) && !builds)
                  && (v.CycleFound? <==> !AnyCause(b) && CyclicBatch(b))
                  && (v.BulkFailed? <==> AnyCause(b) || builds))
            && (cfg.bulkCont && NoneBroken(cfg.main, b.requested) ==>
                  && (v.CycleFound? <==> CyclicBatch(b))
                  && (v.BulkFailed? <==> !CyclicBatch(b) && (AnyCause(b) || builds)))
  {
    hide AnyCause;
    hide CyclicRun;
    hide Trouble;
    hide EarlyFaults;
    var b := BatchOf(cfg, dep, pkgs);
    CausesExactly(b);
    if !GoesOn(b) {
      assert ToBuild(b, pkgs) == {};
    }
  }

  /**
   * With bulk-continue and a broken template, nothing counts that happened up to the last broken one: the run
   * fails exactly if a build raises, or a template sorted after it makes trouble.
   */
  lemma OnlyLaterTroubleCounts(cfg: Config, dep: View, pkgs: seq<Name>, m: Name)
    requires Good(dep, BASE_CBUILD) && cfg.bulkCont && !CyclicBatch(BatchOf(cfg, dep, pkgs))
    requires var S := BatchOf(cfg, dep, pkgs).requested;
             && m in S && IsBroken(cfg.main, m)
             && forall q :: q in S && IsBroken(cfg.main, q) && q != m ==> Less(q.text, m.text)
    ensures var b := BatchOf(cfg, dep, pkgs);
            (Verdict(cfg, dep, pkgs).BulkFailed? <==>
               || BuildRaises(cfg, ToBuild(b, pkgs))
               || exists p :: p in b.requested && Less(m.text, p.text) && Trouble(b, p))
  {
    hide CyclicRun;
    hide Trouble;
    var b := BatchOf(cfg, dep, pkgs);
    forall p | p in b.requested && Less(m.text, p.text)
      ensures forall q :: q in b.requested && IsBroken(cfg.main, q) ==> Less(q.text, p.text)
    {
      forall q | q in b.requested && IsBroken(cfg.main, q) ensures Less(q.text, p.text) {
        if q != m {
          LessTrans(q.text, m.text, p.text);
        }
      }
    }
  }

  // ---- Runs on two names ----

  /** A request for two templates under their own names. */
  ghost function TwoNames(a: Name, b: Name, main: View, bulkCont: bool): Config {
    Config(map[a := Resolved(a), b := Resolved(b)], main, {}, map[], bulkCont, false, false, List(false))
  }

  lemma TakeTwo(a: Name, b: Name, main: View, bulkCont: bool)
    requires a != b
    ensures TakeIn(TwoNames(a, b, main, bulkCont), [a, b]) == Intake({a, b}, {}, [])
  {
    var cfg := TwoNames(a, b, main, bulkCont);
    assert [a, b] == [] + [a] + [b];
    TakeInSnoc(cfg, [], a);
    TakeInSnoc(cfg, [] + [a], b);
  }

  /** Nothing new is found where everything was seen. */
  lemma NothingNew(view: View, V: set<Name>, R: set<Name>)
    requires R <= V
    ensures Newly(view, V, R) == {}
  {
    NewlyLeast(view, V, R, {});
  }

  /** Read as dependencies: base-cbuild, needing nothing. */
  ghost function BareView(): View {
    map[BASE_CBUILD := Parsed([], false, None)]
  }

  lemma BareBase()
    ensures Base(BareView()) == {}
  {
    NothingNew(BareView(), {}, AsSet(Deps(BareView(), BASE_CBUILD)));
  }

  /** With no dependencies at all there is no cycle. */
  lemma NoChainsNoCycle(dep: View, main: View, requested: set<Name>)
    requires forall e :: e !in Chains(dep, main, requested)
    ensures !CyclicRun(dep, main, requested)
  {
    var W := Chains(dep, main, requested);
    forall x, y ensures !Reach(W, x, y) {
      if Reach(W, x, y) {
        var c := FirstStep(W, x, y);
      }
    }
  }

  /**
   * `a` cannot be read, `b` is broken and sorted after it: with bulk-continue the run ends as if nothing had
   * happened.
   */
  lemma BrokenForgetsFailure(a: Name, b: Name)
    requires Less(a.text, b.text)
    ensures var cfg := TwoNames(a, b, map[b := Parsed([], true, None)], true);
            && Verdict(cfg, BareView(), [a, b]) == Completed
            && AnyCause(BatchOf(cfg, BareView(), [a, b]))
  {
    hide CyclicRun;
    hide FailedAfter;
    hide ToBuild;
    var main: View := map[b := Parsed([], true, None)];
    var t := BatchOf(TwoNames(a, b, main, true), BareView(), [a, b]);
    LessIrreflexive(a.text);
    TakeTwo(a, b, main, true);
    NoChainsNoCycle(BareView(), main, {a, b}) by {
      BareBase();
    }
    Forgetful(t, a, b);
    assert Read(t.cfg.main, a).Raised? && a in t.requested;
  }

  /** The error at `a` is forgotten at `b`, and nothing is left to build. */
  lemma Forgetful(t: Batch, a: Name, b: Name)
    requires Less(a.text, b.text) && t.requested == {a, b} && t.cfg.bulkCont
    requires t.cfg.main == map[b := Parsed([], true, None)]
    ensures !FailedAfter(t, {a, b}) && forall pkgs :: ToBuild(t, pkgs) == {}
  {
    hide Found;
    hide GoesOn;
    LessIrreflexive(a.text);
    LessIrreflexive(b.text);
    LessAsymmetric(a.text, b.text);
    assert IsBroken(t.cfg.main, b) && !Trouble(t, b);
  }

  /** Two templates share an unreadable dependency: only the first is reported, the second is built. */
  lemma SharedUnreadable(p: Name, q: Name, d: Name)
    requires Less(p.text, q.text) && d != p && d != q && d != BASE_CBUILD
    ensures var main := map[p := Parsed([d], false, None), q := Parsed([d], false, None)];
            var b := BatchOf(TwoNames(p, q, main, true), BareView(), [p, q]);
            && Fate(b, p) == [Line(p, ParseError)]
            && Fate(b, q) == [] && Recorded(b, q) && !Recorded(b, p)
  {
    hide FoundAt;
    hide FailedAfter;
    var main: View := map[p := Parsed([d], false, None), q := Parsed([d], false, None)];
    var b := BatchOf(TwoNames(p, q, main, true), BareView(), [p, q]);
    LessIrreflexive(p.text);
    TakeTwo(p, q, main, true);
    FoundOnce(main, p, q, d);
    assert Found(b, p) == {d} && Found(b, q) == {};
    assert d in {d};
  }

  lemma FoundOnce(main: View, p: Name, q: Name, d: Name)
    requires Less(p.text, q.text) && d != p && d != q && d != BASE_CBUILD
    requires main == map[p := Parsed([d], false, None), q := Parsed([d], false, None)] && p != q
    ensures FoundAt(BareView(), main, {p, q}, p) == {d} && FoundAt(BareView(), main, {p, q}, q) == {}
  {
    var dep := BareView();
    LessIrreflexive(p.text);
    LessIrreflexive(q.text);
    LessAsymmetric(p.text, q.text);
    BareBase();
    assert Before({p, q}, p) == {} && Before({p, q}, q) == {p};
    assert Handled(main, {}) == {} && Handled(main, {p}) == {p};
    SingleTemplate(main, p);
    NothingNew(dep, {p, q}, Listed(main, {}));
    assert AsSet(Deps(main, p)) == {d} && AsSet(Deps(main, q)) == {d};
    NewlyClosed(dep, {p, q}, {d});
    NewlyLeast(dep, {p, q}, {d}, {d});
    NothingNew(dep, {p, q} + {d}, {d});
    assert Base(dep) + {p, q} == {p, q};
  }

  /**
   * An expandable template is recorded exactly if every unreadable name it leads to, through names that are
   * neither requested nor behind base-cbuild, is one that an expandable requested template before it leads to.
   */
  lemma RecordedExactly(b: Batch, p: Name)
    requires !b.cfg.raw && Expandable(b.cfg.main, p)
    ensures Recorded(b, p) <==>
              forall d :: d in OwnReach(b.dep, b.cfg.main, b.requested, p) && !Good(b.dep, d) ==>
                exists r :: r in Handled(b.cfg.main, Before(b.requested, p))
                            && d in OwnReach(b.dep, b.cfg.main, b.requested, r)
  {
    hide OwnReach;
    hide FoundAt;
    hide Handled;
    hide Before;
    FoundExactly(b.dep, b.cfg.main, b.requested, p);
  }

  /**
   * `p` lists `q`, which cannot be read at all: when both are requested, `p` is recorded all the same, whichever
   * sorts first, as requested names count as visited.
   */
  lemma RequestedUnreadable(p: Name, q: Name)
    requires p != q && q != BASE_CBUILD
    ensures var b := BatchOf(TwoNames(p, q, map[p := Parsed([q], false, None)], true), BareView(), [p, q]);
            && !Good(b.dep, q) && q in Deps(b.cfg.main, p)
            && Recorded(b, p) && Fate(b, p) == [] && Fate(b, q) == [Line(q, ParseError)]
  {
    hide FoundAt;
    hide OwnReach;
    hide FailedAfter;
    var main: View := map[p := Parsed([q], false, None)];
    var b := BatchOf(TwoNames(p, q, main, true), BareView(), [p, q]);
    TakeTwo(p, q, main, true);
    FoundExactly(BareView(), main, {p, q}, p);
    NothingOwn(main, p, q);
    assert Found(b, p) == {};
  }

  lemma NothingOwn(main: View, p: Name, q: Name)
    requires main == map[p := Parsed([q], false, None)]
    ensures OwnReach(BareView(), main, {p, q}, p) == {}
  {
    NothingNew(BareView(), Base(BareView()) + {p, q}, AsSet(Deps(main, p)));
  }

  /** A dependency that was found unreadable before goes unnoticed: following it again is a success. */
  lemma UnreadableOnlyCountsOnce(view: View, s: Snap, d: Name, s1: Snap)
    requires d in s.pvisit && !Good(view, d) && Explores(view, s, [d], s1)
    ensures AllGood(view, s1.pvisit - s.pvisit) && s1.failed == s.failed
  {
    forall x ensures !Fresh(view, s.pvisit, [d], x) {
    }
    assert s1.pvisit - s.pvisit == {};
  }

  // ---- Implicit edges that close a cycle ----

  /** Read as dependencies: base-cbuild needs `m`, nothing else needs anything. */
  ghost function PlainView(m: Name, c: Name): View {
    map[BASE_CBUILD := Parsed([m], false, None), m := Parsed([], false, None), c := Parsed([], false, None)]
  }

  /** Read with the build options (say, with forced checks): `m` also needs `c`. */
  ghost function CheckedView(m: Name, c: Name): View {
    map[m := Parsed([c], false, None), c := Parsed([], false, None)]
  }

  ghost predicate ThreeNames(m: Name, c: Name) {
    m != c && BASE_CBUILD != m && BASE_CBUILD != c
  }

  lemma PlainBase(m: Name, c: Name)
    requires ThreeNames(m, c)
    ensures Base(PlainView(m, c)) == {m}
  {
    var dep := PlainView(m, c);
    assert AsSet(Deps(dep, BASE_CBUILD)) == {m};
    NewlyClosed(dep, {}, {m});
    NewlyLeast(dep, {}, {m}, {m});
  }

  ghost predicate OnlyChain(W: set<(Name, Name)>, m: Name, c: Name) {
    forall a, b :: (a, b) in W <==> (a == BASE_CBUILD && b == m) || (a == m && b == c)
  }

  lemma PlainChains(m: Name, c: Name, requested: set<Name>)
    requires ThreeNames(m, c) && m in requested && requested <= {m, c}
    ensures OnlyChain(Chains(PlainView(m, c), CheckedView(m, c), requested), m, c)
  {
    PlainBase(m, c);
    assert (BASE_CBUILD, m) in DepEdges(PlainView(m, c), {m, BASE_CBUILD});
    assert (m, c) in DepEdges(CheckedView(m, c), set x | x in requested && Expandable(CheckedView(m, c), x));
  }

  /** A single chain from base-cbuild by `m` to `c` has no cycle. */
  lemma OneChain(W: set<(Name, Name)>, m: Name, c: Name)
    requires ThreeNames(m, c) && OnlyChain(W, m, c)
    ensures !Cyclic(W)
    ensures forall p :: Reach(W, BASE_CBUILD, p) <==> p == m || p == c
  {
    var order := [c, m, BASE_CBUILD];
    forall i, j | 0 <= i < 3 && 0 <= j < 3 && (order[i], order[j]) in W ensures j < i {
    }
    OrderedAcyclic(W, order);
    ReachEdge(W, BASE_CBUILD, m);
    ReachEdge(W, m, c);
    ReachTrans(W, BASE_CBUILD, m, c);
    forall p | Reach(W, BASE_CBUILD, p) ensures p == m || p == c {
      ClosedReach(W, {m, c}, BASE_CBUILD, p);
    }
  }

  /** Only an implicit edge can close a cycle here: that of `c`, if it gets one. */
  lemma PlainCycles(m: Name, c: Name, requested: set<Name>)
    requires ThreeNames(m, c) && m in requested && requested <= {m, c}
    ensures var dep, main := PlainView(m, c), CheckedView(m, c);
            && !CycleInReach(dep, main, requested, Base(dep))
            && (CyclicRun(dep, main, requested) <==> exists p :: p in requested && GetsEdge(dep, main, requested, p))
  {
    hide GetsEdge;
    hide PlainView;
    hide CheckedView;
    hide Base;
    hide RunEdges;
    hide OnlyChain;
    hide Reach;
    PlainChains(m, c, requested);
    OneChain(Chains(PlainView(m, c), CheckedView(m, c), requested), m, c);
  }

  /** `m` gets no implicit edge, and `c` gets one exactly if it comes first. */
  lemma PlainImplicit(m: Name, c: Name)
    requires ThreeNames(m, c)
    ensures var dep, main := PlainView(m, c), CheckedView(m, c);
            && !GetsEdge(dep, main, {m, c}, m) && !GetsEdge(dep, main, {m}, m)
            && (GetsEdge(dep, main, {m, c}, c) <==> !Less(m.text, c.text))
  {
    var dep, main := PlainView(m, c), CheckedView(m, c);
    PlainBase(m, c);
    EdgeExactly(dep, main, {m, c}, m);
    EdgeExactly(dep, main, {m}, m);
    EdgeExactly(dep, main, {m, c}, c);
    LessIrreflexive(c.text);
    assert Deps(main, m) == [c] && c in Deps(main, m);
    assert Deps(main, c) == [];
    assert m in Before({m, c}, c) <==> Less(m.text, c.text);
    forall r | r in Handled(main, Before({m, c}, c)) ensures r == m {
    }
    if Less(m.text, c.text) {
      assert m in Handled(main, Before({m, c}, c)) && LeadsTo(dep, main, {m, c}, m, c);
    }
  }

  /**
   * Requesting both when `c` sorts first ends with a cycle, though the build dependencies have none; it does
   * not when `m` sorts first, nor does requesting `m` alone.
   */
  lemma ImplicitEdgeClosesCycle(m: Name, c: Name, bulkCont: bool)
    requires ThreeNames(m, c)
    ensures var dep, main := PlainView(m, c), CheckedView(m, c);
            var cfg := TwoNames(m, c, main, bulkCont);
            && !CycleInReach(dep, main, {m, c}, Base(dep))
            && (Verdict(cfg, dep, [m, c]) == if Less(c.text, m.text) then CycleFound else Completed)
            && !CyclicRun(dep, main, {m}) && !KeepsClosure(main, {m}, Base(dep))
  {
    hide CyclicRun;
    hide CycleInReach;
    hide GetsEdge;
    hide Verdict;
    PlainCycles(m, c, {m, c});
    PlainCycles(m, c, {m});
    PlainImplicit(m, c);
    PlainVerdict(m, c, bulkCont);
    LessTotal(m.text, c.text);
    if Less(c.text, m.text) {
      LessAsymmetric(c.text, m.text);
    }
    LeavesClosure(m, c);
    assert m == Name(m.text) && c == Name(c.text);
    assert CyclicRun(PlainView(m, c), CheckedView(m, c), {m, c}) <==> Less(c.text, m.text);
  }

  lemma LeavesClosure(m: Name, c: Name)
    requires ThreeNames(m, c)
    ensures !KeepsClosure(CheckedView(m, c), {m}, Base(PlainView(m, c)))
  {
    PlainBase(m, c);
    var main, base := CheckedView(m, c), Base(PlainView(m, c));
    assert m in {m} && m in base + {BASE_CBUILD} && Expandable(main, m);
    assert c in Deps(main, m) && c !in base + {BASE_CBUILD};
  }

  /** Nothing but a cycle can go wrong here. */
  lemma PlainVerdict(m: Name, c: Name, bulkCont: bool)
    requires ThreeNames(m, c)
    ensures var dep, main := PlainView(m, c), CheckedView(m, c);
            Verdict(TwoNames(m, c, main, bulkCont), dep, [m, c])
            == if CyclicRun(dep, main, {m, c}) then CycleFound else Completed
  {
    hide TakeIn;
    hide Trouble;
    hide Recorded;
    hide EarlyFaults;
    hide CyclicRun;
    var dep, main := PlainView(m, c), CheckedView(m, c);
    var b := BatchOf(TwoNames(m, c, main, bulkCont), dep, [m, c]);
    TakeTwo(m, c, main, bulkCont);
    PlainBase(m, c);
    CausesExactly(b);
    NothingNew(dep, {m} + {m, c}, Listed(main, Handled(main, {m, c})));
    assert !AnyCause(b);
  }

  // ---- Lines and order ----

  /**
   * If the builds were gone through, each requested template has exactly one line, or disappeared for a reason.
   */
  lemma ExactlyOneLine(b: Batch, pkgs: seq<Name>, list: seq<Entry>, lines: seq<Line>, n: Name)
    requires OneLineEach(lines) && forall l :: l in lines <==> FinalLine(b, pkgs, list, l)
    requires GoesOn(b) && !b.cfg.raw && b.cfg.goal.Build? && EntryNames(list) == ToBuild(b, pkgs) && n in b.requested
    ensures Drops(b, n) <==> !HasLine(lines, n)
    ensures Drops(b, n) ==> DropReason(b.cfg, b.dep, n)
    ensures !Drops(b, n) ==> exists i :: 0 <= i < |lines| && lines[i].name == n
                                         && forall j :: 0 <= j < |lines| && lines[j].name == n ==> j == i
  {
    hide GoesOn;
    if Drops(b, n) {
      DropsForReason(b, n);
    }
    LineOrDropped(b, pkgs, list, n);
    if l: Line :| l.name == n && FinalLine(b, pkgs, list, l) {
      assert l in lines;
      var i :| 0 <= i < |lines| && lines[i] == l;
    }
    if HasLine(lines, n) {
      var i :| 0 <= i < |lines| && lines[i].name == n;
      assert lines[i] in lines;
    }
  }

  /** A run that does not get to its list has the lines of the parse phase, and no others. */
  lemma OnlyParseLines(b: Batch, pkgs: seq<Name>, list: seq<Entry>, lines: seq<Line>, n: Name)
    requires forall l :: l in lines <==> FinalLine(b, pkgs, list, l)
    requires !GoesOn(b) && EntryNames(list) == ToBuild(b, pkgs) && n in b.requested
    ensures HasLine(lines, n) <==> Fate(b, n) != []
  {
    hide GoesOn;
    hide Fate;
    FateIsOwn(b, n);
    assert ToBuild(b, pkgs) == {};
    SomeEntry(list);
    if HasLine(lines, n) {
      var i :| 0 <= i < |lines| && lines[i].name == n;
      assert lines[i] in lines;
    }
    if Fate(b, n) != [] {
      assert FinalLine(b, pkgs, list, Fate(b, n)[0]);
      var i :| 0 <= i < |lines| && lines[i] == Fate(b, n)[0];
    }
  }

  /** Without bulk-continue: `p` is recorded, then `q` cannot be read; `p` gets no line at all. */
  lemma RecordedWithoutLine(p: Name, q: Name)
    requires Less(p.text, q.text)
    ensures var cfg := TwoNames(p, q, map[p := Parsed([], false, None)], false);
            var b := BatchOf(cfg, BareView(), [p, q]);
            && Recorded(b, p) && Fate(b, p) == [] && !GoesOn(b)
            && ToBuild(b, [p, q]) == {} && Verdict(cfg, BareView(), [p, q]) == BulkFailed
  {
    hide CyclicRun;
    hide FoundAt;
    hide FaultsAt;
    hide FailedAfter;
    var main: View := map[p := Parsed([], false, None)];
    var cfg := TwoNames(p, q, main, false);
    var b := BatchOf(cfg, BareView(), [p, q]);
    LessIrreflexive(p.text);
    TakeTwo(p, q, main, false);
    LeafFinds(BareView(), main, {p, q}, p);
    LeafSafe(b, p);
    SecondFails(b, p, q);
    assert ToBuild(b, [p, q]) == {};
  }

  /** Nothing is found behind a template without dependencies. */
  lemma LeafFinds(dep: View, main: View, requested: set<Name>, p: Name)
    requires Deps(main, p) == []
    ensures FoundAt(dep, main, requested, p) == {}
  {
    NothingNew(dep, Seen(dep, main, requested, Before(requested, p)), AsSet(Deps(main, p)));
  }

  lemma LeafSafe(b: Batch, p: Name)
    requires Good(b.cfg.main, p) && Found(b, p) == {}
    ensures !Trouble(b, p)
  {
  }

  /** The second of two templates cannot be read: the run fails, but not before the first. */
  lemma SecondFails(b: Batch, p: Name, q: Name)
    requires Less(p.text, q.text) && b.requested == {p, q} && b.bad == {} && !b.cfg.bulkCont && !b.cfg.raw
    requires b.dep == BareView() && !Trouble(b, p) && Read(b.cfg.main, q).Raised?
    ensures FailedAfter(b, b.requested) && !StopsBefore(b, p)
  {
    hide Found;
    hide Trouble;
    LessIrreflexive(p.text);
    LessAsymmetric(p.text, q.text);
    BareBase();
    assert EarlyFaults(b) == {};
    assert Before(b.requested, p) == {};
    RaisedIsTrouble(b, q);
  }

  lemma RaisedIsTrouble(b: Batch, q: Name)
    requires Read(b.cfg.main, q).Raised?
    ensures Trouble(b, q)
  {
    assert q in FaultsAt(b, q);
  }

  lemma LineOrDropped(b: Batch, pkgs: seq<Name>, list: seq<Entry>, n: Name)
    requires GoesOn(b) && !b.cfg.raw && b.cfg.goal.Build? && EntryNames(list) == ToBuild(b, pkgs) && n in b.requested
    ensures Drops(b, n) <==> !exists l: Line :: l.name == n && FinalLine(b, pkgs, list, l)
  {
    hide CyclicRun;
    NeverStops(b, n);
    RaisedInAny(b.dep, Found(b, n));
    assert Fate(b, n) == ParseLines(b.cfg, b.dep, n, Found(b, n));
    forall i | 0 <= i < |list| && list[i].name == n
      ensures n in ToBuild(b, pkgs) && IsBuildLine(b.cfg, list, BuildLine(b.cfg, list, i))
    {
      assert list[i] in list;
    }
    if Fate(b, n) != [] {
      assert FinalLine(b, pkgs, list, Fate(b, n)[0]);
    } else if Recorded(b, n) && UpToDate(b.cfg, n) {
      assert FinalLine(b, pkgs, list, Line(n, Done));
    } else if Recorded(b, n) {
      assert n in EntryNames(list);
      var e :| e in list && e.name == n;
      var i :| 0 <= i < |list| && list[i] == e;
      assert FinalLine(b, pkgs, list, BuildLine(b.cfg, list, i));
    }
  }

  /** A run that gets to its list did not stop before any template. */
  lemma NeverStops(b: Batch, n: Name)
    requires b.cfg.bulkCont || !FailedAfter(b, b.requested)
    ensures !StopsBefore(b, n)
  {
  }

  /**
   * Of the recorded templates in a run that gets to its list, those built already get the line `done`, unless
   * builds are forced, and the others are listed.
   */
  lemma BuiltOrListed(b: Batch, pkgs: seq<Name>, list: seq<Entry>, p: Name)
    requires GoesOn(b) && EntryNames(list) == ToBuild(b, pkgs)
    requires p in b.requested && Recorded(b, p) && (b.cfg.raw ==> p in pkgs)
    ensures p in EntryNames(list) <==> b.cfg.force || p !in b.cfg.built
    ensures FinalLine(b, pkgs, list, Line(p, Done)) <==> !b.cfg.force && p in b.cfg.built
  {
    hide GoesOn;
  }

  /** What a listed template lists itself is built before it. */
  lemma ListedDependencyFirst(b: Batch, list: seq<Entry>, i: nat, j: nat)
    requires Follows(RunGraph(b.dep, b.cfg.main, b.requested), list) && i < |list| && j < |list|
    requires list[i].name in b.requested && list[i].name in b.cfg.main
    requires var p := b.cfg.main[list[i].name]; p.Parsed? && !p.broken && list[j].name in p.deps
    ensures j < i
  {
    ReachEdge(RunGraph(b.dep, b.cfg.main, b.requested), list[i].name, list[j].name);
  }

  /** What a run without bulk-continue reports of two templates that cannot be read. */
  ghost predicate BothUnreadable(p: Name, q: Name, swap: bool, status: seq<Line>, list: seq<Entry>, t: seq<Event>) {
    var cfg, pkgs := TwoNames(p, q, map[], false), if swap then [q, p] else [p, q];
    var b := BatchOf(cfg, BareView(), pkgs);
    ReportsRightly(b, pkgs, status, list, t) && EntryNames(list) == ToBuild(b, pkgs)
  }

  /**
   * Two templates that cannot be read, without bulk-continue: whatever order they are given in, the one that
   * comes first in alphabetical order is reported, and the other skipped.
   */
  lemma FirstInOrder(p: Name, q: Name, swap: bool, status: seq<Line>, list: seq<Entry>, t: seq<Event>)
    requires Precedes(p.text, q.text)
    requires BothUnreadable(p, q, swap, status, list, t)
    ensures status == [Line(p, ParseError), Line(q, Skip)]
  {
    var cfg, pkgs := TwoNames(p, q, map[], false), if swap then [q, p] else [p, q];
    LessExactly(p.text, q.text);
    LessIrreflexive(p.text);
    var b := BatchOf(cfg, BareView(), pkgs);
    TakeBoth(p, q, swap);
    FirstFails(b, p, q);
    TwoLines(b, pkgs, p, q, status, list);
  }

  /** In a run that stops at the first of two templates, these are the lines. */
  lemma TwoLines(b: Batch, pkgs: seq<Name>, p: Name, q: Name, lines: seq<Line>, list: seq<Entry>)
    requires Less(p.text, q.text) && b.requested == {p, q} && !GoesOn(b)
    requires Fate(b, p) == [Line(p, ParseError)] && Fate(b, q) == [Line(q, Skip)]
    requires Stream(b, pkgs, list, lines) && EntryNames(list) == ToBuild(b, pkgs)
    ensures lines == [Line(p, ParseError), Line(q, Skip)]
  {
    hide Fate;
    hide GoesOn;
    hide Due;
    hide Rising;
    hide DoneLines;
    hide RecordedMap;
    var parse: seq<Line>, done: seq<Line> :|
      StreamParts(b, pkgs, parse, done) && lines == parse + done + BuildLines(b.cfg, list);
    SomeEntry(list);
    SomeElement(done);
    TwoRising(parse, Line(p, ParseError), Line(q, Skip));
  }

  lemma SomeElement<T>(s: seq<T>)
    ensures s != [] ==> exists x :: x in s
  {
    if s != [] {
      assert s[0] in s;
    }
  }

  lemma TakeBoth(p: Name, q: Name, swap: bool)
    requires p != q
    ensures TakeIn(TwoNames(p, q, map[], false), if swap then [q, p] else [p, q]) == Intake({p, q}, {}, [])
  {
    TakeTwo(p, q, map[], false);
    if swap {
      var cfg := TwoNames(p, q, map[], false);
      assert [q, p] == [] + [q] + [p];
      TakeInSnoc(cfg, [], q);
      TakeInSnoc(cfg, [] + [q], p);
      assert {q, p} == {p, q};
    }
  }

  /** Nothing stops the run before the first, which cannot be read; that stops it before the second. */
  lemma FirstFails(b: Batch, p: Name, q: Name)
    requires Less(p.text, q.text) && b == Batch(TwoNames(p, q, map[], false), BareView(), {p, q}, {})
    ensures Fate(b, p) == [Line(p, ParseError)] && Fate(b, q) == [Line(q, Skip)]
    ensures !GoesOn(b)
  {
    hide Found;
    hide Trouble;
    hide CyclicRun;
    LessIrreflexive(p.text);
    LessIrreflexive(q.text);
    LessAsymmetric(p.text, q.text);
    BareBase();
    assert EarlyFaults(b) == {};
    assert Before({p, q}, p) == {} && Before({p, q}, q) == {p};
    RaisedIsTrouble(b, p);
    assert p in b.requested;
  }

  lemma RisingDistinct(lines: seq<Line>)
    requires Rising(lines)
    ensures forall i, j :: 0 <= i < j < |lines| ==> lines[i] != lines[j]
    ensures |lines| > 2 ==> lines[0] != lines[1] && lines[0] != lines[2] && lines[1] != lines[2]
  {
    forall i, j | 0 <= i < j < |lines| ensures lines[i] != lines[j] {
      LessIrreflexive(lines[i].name.text);
    }
  }

  /** Two lines in ascending order. */
  lemma TwoRising(lines: seq<Line>, l: Line, m: Line)
    requires Rising(lines) && Less(l.name.text, m.name.text) && forall x :: x in lines <==> x == l || x == m
    ensures lines == [l, m]
  {
    RisingDistinct(lines);
    LessIrreflexive(l.name.text);
    LessAsymmetric(l.name.text, m.name.text);
    assert l in lines && m in lines;
    assert forall k :: 0 <= k < |lines| ==> lines[k] in lines;
  }

  /** The same in letters, as the status file reads. */
  lemma SampleOrder(status: seq<Line>, list: seq<Entry>, t: seq<Event>)
    requires BothUnreadable(Name("main/a"), Name("main/b"), true, status, list, t)
    ensures Rendered(status) == ["main/a parse\n", "main/b skipped\n"]
  {
    hide BothUnreadable;
    hide Render;
    var a, b := Name("main/a"), Name("main/b");
    assert a.text[..5] == b.text[..5] && a.text[5] < b.text[5];
    FirstInOrder(a, b, true, status, list, t);
    RenderedText(a);
    RenderedText(b);
    assert "main/a" + " parse\n" == "main/a parse\n" && "main/b" + " skipped\n" == "main/b skipped\n";
  }

  /** A template with an implicit edge is built after base-cbuild, even without depending on it. */
  lemma BaseCbuildFirst(dep: View, main: View, requested: set<Name>, list: seq<Entry>, i: nat, j: nat)
    requires Follows(RunGraph(dep, main, requested), list)
    requires i < |list| && j < |list| && list[i].name == BASE_CBUILD
    requires list[j].name in requested && GetsEdge(dep, main, requested, list[j].name)
    ensures i < j
  {
    ReachEdge(RunGraph(dep, main, requested), list[j].name, BASE_CBUILD);
  }

  /** Builds are started dependencies first, across templates that are not built themselves. */
  lemma BuildsRespectChains(E: set<(Name, Name)>, t: seq<Event>, list: seq<Entry>, i: nat, j: nat)
    requires Follows(E, list) && StartNames(t) <= NamesOf(list)
    requires i < |StartNames(t)| && j < |StartNames(t)| && Reach(E, StartNames(t)[i], StartNames(t)[j])
    ensures j < i
  {
    assert StartNames(t)[i] == list[i].name && StartNames(t)[j] == list[j].name;
  }

  // ---- A bulk run from the outside ----

  /** Exactly the errors there are occur, and without bulk-continue nothing is built after one. */
  ghost predicate FailsRightly(b: Batch, t: seq<Event>) {
    && FaultNames(t) == FaultsAfter(b, b.requested) + RaisedBuilds(b.cfg, StartNames(t))
    && (!b.cfg.bulkCont ==> forall i, j :: 0 <= i < j < |t| && t[i].Fault? ==> !t[j].Started?)
  }

  /**
   * Lines are true, and after those of the names taken in there are exactly the lines that should be there, in
   * sorted mode at most one for each requested template. With bulk-continue no name ever has two.
   */
  ghost predicate ReportsRightly(b: Batch, pkgs: seq<Name>, status: seq<Line>, list: seq<Entry>, t: seq<Event>) {
    var before := TakeIn(b.cfg, pkgs).lines;
    && AllMeant(b.cfg, b.dep, status, t)
    && before <= status
    && Stream(b, pkgs, list, status[|before|..])
    && (forall l :: l in status[|before|..] <==> FinalLine(b, pkgs, list, l))
    && (!b.cfg.raw ==> OneLineEach(status[|before|..]))
    && (!b.cfg.raw && b.cfg.bulkCont ==> OneLineEach(status))
  }

  /** An entry is for a readable template that is not built or to be forced, with its version if that is asked for. */
  ghost predicate EntryRight(b: Batch, e: Entry) {
    && (b.cfg.force || e.name !in b.cfg.built)
    && e.name in b.cfg.main && b.cfg.main[e.name].Parsed?
    && e.version == if b.cfg.goal == List(true) then b.cfg.main[e.name].version else None
  }

  /** The list has exactly the templates to build, each after all it reaches; builds are started in its order. */
  ghost predicate OrdersRightly(b: Batch, pkgs: seq<Name>, list: seq<Entry>, t: seq<Event>) {
    && EntryNames(list) == ToBuild(b, pkgs)
    && (forall e :: e in list ==> e.name in RecordedMap(b) && e == EntryOf(b.cfg, RecordedMap(b), e.name))
    && (forall e :: e in list ==> EntryRight(b, e))
    && (if b.cfg.raw then GoesOn(b) ==> list == Listing(b.cfg, RecordedMap(b), pkgs)
                                        && Keeps(pkgs, EntryNames(list), NamesOf(list))
        else Follows(RunGraph(b.dep, b.cfg.main, b.requested), list) && OneEntryEach(list))
    && (if b.cfg.goal.Build? then StartsExactly(b.cfg, list, t) else !HasStart(t))
  }

  /**
   * A whole bulk run: its outcome is the verdict on its inputs; it fails, reports and orders as they say. If
   * base-cbuild cannot be read, it ends after the names were taken in.
   */
  method BulkPkg(cfg: Config, dep: View, pkgs: seq<Name>)
      returns (out: Outcome, status: seq<Line>, list: seq<Entry>, ghost t: seq<Event>)
    ensures out == Verdict(cfg, dep, pkgs)
    ensures out.BaseUnreadable? <==> !(Name("main/base-cbuild") in dep && dep[Name("main/base-cbuild")].Parsed?)
    ensures out.BaseUnreadable? ==> status == TakeIn(cfg, pkgs).lines && list == [] && !HasStart(t)
    ensures var b := BatchOf(cfg, dep, pkgs);
            !out.BaseUnreadable? ==>
              && FailsRightly(b, t)
              && ReportsRightly(b, pkgs, status, list, t)
              && OrdersRightly(b, pkgs, list, t)
  {
    hide GraphOk;
    hide Ledger;
    hide Follows;
    hide Meant;
    hide DropReason;
    hide ErrorsExplained;
    hide TakeIn;
    hide FinalLine;
    hide Stream;
    hide StartsExactly;
    hide Listing;
    hide RecordedMap;
    hide Ends;
    hide GoesOn;
    hide ToBuild;
    hide FaultsAfter;
    var run := new BulkRun(cfg, dep);
    out := run.Run(pkgs);
    status, list, t := run.status, run.flist, run.walk.trace;
    EventProtocol(cfg, dep, run.rpkgs, run.walk.failed, run.status, run.walk.trace);
    BaseVerdict(cfg, dep, pkgs);
    if !out.BaseUnreadable? {
      RunReports(run, pkgs, out);
      RunOrders(run, pkgs, out);
    }
  }

  lemma BaseVerdict(cfg: Config, dep: View, pkgs: seq<Name>)
    ensures Verdict(cfg, dep, pkgs).BaseUnreadable?
       <==> !(Name("main/base-cbuild") in dep && dep[Name("main/base-cbuild")].Parsed?)
  {
    hide CyclicRun;
    hide FailedAfter;
  }

  /** The list of a finished run, as its caller sees it. */
  lemma RunOrders(run: BulkRun, pkgs: seq<Name>, out: Outcome)
    requires run.Named(pkgs) && run.EndsRight(pkgs, out)
    requires !run.cfg.raw ==> run.Sorted(out)
    ensures OrdersRightly(run.Job(), pkgs, run.flist, run.walk.trace)
  {
    hide GraphOk;
    hide Follows;
    hide Stream;
    hide Listing;
    hide StartsExactly;
    hide Recorded;
    hide RecordedMap;
    hide Keeps;
    hide EntryOf;
    hide UpToDate;
    hide ToBuild;
    hide GoesOn;
    var b := run.Job();
    forall e | e in run.flist ensures EntryRight(b, e) {
      EntryIsRight(b, e);
    }
    if b.cfg.raw && GoesOn(b) {
      RawOrder(b, pkgs, run.flist);
    }
  }

  lemma EntryIsRight(b: Batch, e: Entry)
    requires e.name in RecordedMap(b) && !UpToDate(b.cfg, e.name) && e == EntryOf(b.cfg, RecordedMap(b), e.name)
    ensures EntryRight(b, e)
  {
    hide Found;
  }

  lemma RawOrder(b: Batch, pkgs: seq<Name>, list: seq<Entry>)
    requires list == Listing(b.cfg, RecordedMap(b), pkgs)
    ensures Keeps(pkgs, EntryNames(list), NamesOf(list))
  {
    hide RecordedMap;
    hide UpToDate;
    hide Listing;
    hide EntryNames;
    hide Keeps;
    ListingExactly(b.cfg, RecordedMap(b), pkgs);
    ListingKeeps(b.cfg, RecordedMap(b), pkgs, EntryNames(list));
  }

  /** The accounts of a finished run, as its caller sees them. */
  lemma RunReports(run: BulkRun, pkgs: seq<Name>, out: Outcome)
    requires run.Errs() && run.Named(pkgs) && run.EndsRight(pkgs, out)
    requires !run.cfg.raw ==> run.Sorted(out) && (run.cfg.bulkCont ==> OneLineEach(run.status))
    ensures run.Job() == BatchOf(run.cfg, run.walk.view, pkgs)
    ensures ReportsRightly(run.Job(), pkgs, run.status, run.flist, run.walk.trace)
  {
    hide GraphOk;
    hide Follows;
    hide Meant;
    hide FinalLine;
    hide TakeIn;
    hide Stream;
    assert |TakeIn(run.cfg, pkgs).lines| == run.mark;
    StreamExactly(run.Job(), pkgs, run.flist, run.status[run.mark..]);
  }
}
