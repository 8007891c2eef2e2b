/** One bulk run: resolve the requested names, parse, order, and build (`_bulkpkg`). */
module BulkEngine {
  import opened Graphs
  import opened Templates
  import opened TopoSort
  import opened DepGraph
  import opened Status
  import opened BulkErrors
  import opened BulkGraph
  import opened BulkLedger
  import opened BulkOrder
  import opened Sorting
  import opened BulkBook
  import opened BulkFate

  class BulkRun {
    const cfg: Config
    const walk: GraphWalk
    var status: seq<Line>
    var rpkgs: set<Name>
    var badpkgs: set<Name>
    var templates: map<Name, Parse>
    var flist: seq<Entry>

    // where the accounts of the requested templates start, and those accounts
    ghost var mark: nat
    ghost var waiting: set<Name>
    ghost var dropped: set<Name>
    // what the graph is made of
    ghost var book: Book

    constructor (cfg: Config, dep: View)
      ensures this.cfg == cfg && fresh(walk) && walk.view == dep
      ensures Initial()
    {
      this.cfg := cfg;
      walk := new GraphWalk(dep, Some({}));
      status, rpkgs, badpkgs, templates, flist := [], {}, {}, map[], [];
      mark, waiting, dropped, book := 0, {}, {}, StartBook({});
    }

    ghost predicate Initial()
      reads this, walk
    {
      && walk.Now() == Snap({}, Some({}), {}, {}, false, [])
      && status == [] && rpkgs == {} && badpkgs == {} && templates == map[] && flist == []
    }

    ghost predicate Errs()
      reads this`status, this`rpkgs, walk`failed, walk`trace
    {
      ErrorsExplained(cfg, walk.view, rpkgs, walk.failed, status, walk.trace)
    }

    ghost predicate Acct()
      reads this`status, this`mark, this`waiting, this`dropped, this`rpkgs
    {
      mark <= |status| && Ledger(status[mark..], waiting, dropped, rpkgs)
    }

    ghost predicate Graph()
      reads this`rpkgs, this`book, walk`pvisit, walk`cbvisit, walk`nodes, walk`edges
    {
      !cfg.raw ==> GraphOk(walk.view, cfg.main, rpkgs, walk.Shape(), book)
    }

    /** An earlier failure stops everything unless the run was told to continue. */
    predicate Stopped()
      reads walk`failed
    {
      walk.failed && !cfg.bulkCont
    }

    /** What the run is about, once its names are taken in. */
    ghost function Job(): Batch
      reads this`rpkgs, this`badpkgs
    {
      Batch(cfg, walk.view, rpkgs, badpkgs)
    }

    /** How far parsing got. */
    ghost function At(): Progress
      reads this`book, this`templates, walk`pvisit, walk`failed, walk`trace
    {
      Progress(walk.pvisit, book, walk.failed, FaultNames(walk.trace), templates.Keys)
    }

    // ---- Phase one: resolve ----

    /** Requested templates, bad names, lines and errors are exactly those of the names taken in. */
    ghost predicate Taken(pkgs: seq<Name>)
      reads this`status, this`rpkgs, this`badpkgs, walk`failed, walk`trace
    {
      && Intake(rpkgs, badpkgs, status) == TakeIn(cfg, pkgs)
      && walk.failed == (badpkgs != {}) && FaultNames(walk.trace) == badpkgs
    }

    ghost predicate Resolving(pkgs: seq<Name>)
      reads this, walk
    {
      && Errs() && Taken(pkgs)
      && !HasStart(walk.trace) && !HasBroken(walk.trace)
    }

    method ResolveOne(ghost before: seq<Name>, pn: Name)
      requires Resolving(before)
      modifies this`status, this`rpkgs, this`badpkgs, walk`failed, walk`trace
      ensures Resolving(before + [pn])
      ensures status == old(status) + ResolveLines(cfg, old(rpkgs + badpkgs), old(Stopped()), pn)
      ensures rpkgs == old(rpkgs)
                + if Requests(cfg, old(rpkgs + badpkgs), old(Stopped()), pn) then {cfg.Resolve(pn).name} else {}
      ensures badpkgs == old(badpkgs) + if pn !in old(rpkgs + badpkgs) && !cfg.Resolve(pn).Resolved? then {pn} else {}
    {
      hide ErrorsExplained;
      hide TakeIn;
      hide FaultNames;
      TakeInSnoc(cfg, before, pn);
      if pn in rpkgs || pn in badpkgs {
        return;
      }
      var pns := cfg.Resolve(pn);
      match pns {
        case NotFound =>
          badpkgs := badpkgs + {pn};
          MarkBad(pn, Missing);
        case Malformed =>
          badpkgs := badpkgs + {pn};
          MarkBad(pn, Invalid);
        case Resolved(npn) =>
          if npn != pn && (npn in rpkgs || npn in badpkgs) {
            return;
          }
          if walk.failed && !cfg.bulkCont {
            SkipName(npn);
            return;
          }
          ExplainMoreRequests(cfg, walk.view, rpkgs, rpkgs + {npn}, walk.failed, status, walk.trace);
          rpkgs := rpkgs + {npn};
      }
    }

    /** Reports a name that cannot be resolved. */
    method MarkBad(pn: Name, w: Word)
      requires w == (if cfg.Resolve(pn).NotFound? then Missing else Invalid) && !cfg.Resolve(pn).Resolved?
      requires Errs() && !HasStart(walk.trace) && !HasBroken(walk.trace)
      modifies this`status, walk`failed, walk`trace
      ensures Errs() && !HasStart(walk.trace) && !HasBroken(walk.trace)
      ensures status == old(status) + [Line(pn, w)] && walk.failed
      ensures FaultNames(walk.trace) == FaultNames(old(walk.trace)) + {pn}
    {
      ghost var t := walk.trace;
      FaultNamesNext(t, Fault(pn));
      ExplainFault(cfg, walk.view, rpkgs, status, t, pn);
      status := status + [Line(pn, w)];
      walk.failed := true;
      walk.trace := walk.trace + [Fault(pn)];
    }

    /** After a failure a resolved name is only reported. */
    method SkipName(npn: Name)
      requires Errs() && Stopped()
      modifies this`status
      ensures Errs() && status == old(status) + [Line(npn, Skip)]
    {
      FaultInTrace(walk.trace);
      status := status + [Line(npn, Skip)];
    }

    lemma ResolvingNothing()
      requires Initial()
      ensures Resolving([])
    {
    }

    method ResolveAll(pkgs: seq<Name>)
      requires Initial()
      modifies this`status, this`rpkgs, this`badpkgs, walk`failed, walk`trace
      ensures Resolving(pkgs)
    {
      hide Resolving;
      ResolvingNothing();
      for i := 0 to |pkgs|
        invariant Resolving(pkgs[..i])
      {
        ResolveOne(pkgs[..i], pkgs[i]);
        assert pkgs[..i + 1] == pkgs[..i] + [pkgs[i]];
      }
      assert pkgs[..|pkgs|] == pkgs;
    }

    // ---- Phase two: parse ----

    ghost predicate Accounts()
      reads this`status, this`mark, this`waiting, this`dropped, this`rpkgs
    {
      && (!cfg.raw ==> Acct())
      && forall x :: x in dropped ==> DropReason(cfg, walk.view, x)
    }

    /** The templates recorded so far, out of the requested names that are `done`. */
    ghost predicate Recorded(done: set<Name>)
      reads this`rpkgs, this`templates, this`waiting, this`book
    {
      && done <= rpkgs && templates.Keys <= done
      && (!cfg.raw ==> waiting == (rpkgs - done) + templates.Keys && templates.Keys <= book.handled)
      && (forall n :: n in templates ==> Expandable(cfg.main, n) && templates[n] == Read(cfg.main, n))
    }

    /** Every expandable template among `done` is in the graph. */
    ghost predicate Thorough(done: set<Name>)
      reads this`book
    {
      !cfg.raw ==> forall n :: n in done && Expandable(cfg.main, n) ==> n in book.handled
    }

    ghost predicate Parsing(done: set<Name>)
      reads this, walk
    {
      && Errs() && !HasStart(walk.trace) && Accounts() && Graph() && Recorded(done)
      && (!Stopped() ==> Thorough(done))
    }

    /** In the middle of handling `pn`, with the flag set aside. */
    ghost predicate Midway(done: set<Name>, pn: Name)
      reads this, walk
    {
      && Errs0() && !HasStart(walk.trace) && Accounts() && Graph() && Recorded(done)
      && Thorough(done) && pn in rpkgs - done
    }

    /** Writes the line of a template whose fate is settled. */
    method Report(pn: Name, w: Word)
      requires Errs() && Accounts() && Meant(cfg, walk.view, Line(pn, w), walk.trace)
      requires !cfg.raw ==> pn in waiting
      modifies this`status, this`waiting
      ensures Errs() && Accounts()
      ensures status == old(status) + [Line(pn, w)] && waiting == old(waiting) - {pn}
    {
      if !cfg.raw {
        ghost var lines := status[mark..];
        LedgerSettle(lines, waiting, dropped, rpkgs, Line(pn, w));
        assert (status + [Line(pn, w)])[mark..] == lines + [Line(pn, w)];
      }
      status := status + [Line(pn, w)];
      waiting := waiting - {pn};
    }

    /** Constructs the template with the build options. */
    method ReadMain(pn: Name) returns (p: Parse)
      requires Errs0() && !walk.failed && !HasStart(walk.trace)
      modifies walk`failed, walk`trace
      ensures p == Read(cfg.main, pn) && walk.failed == p.Raised?
      ensures walk.trace == old(walk.trace) + if p.Raised? then [Fault(pn)] else []
      ensures FaultNames(walk.trace) == FaultNames(old(walk.trace)) + if p.Raised? then {pn} else {}
      ensures Errs0() && !HasStart(walk.trace)
    {
      FaultNamesNext(walk.trace, Fault(pn));
      p := Read(cfg.main, pn);
      if p.Raised? {
        ExplainFault(cfg, walk.view, rpkgs, status, walk.trace, pn);
        walk.failed := true;
        walk.trace := walk.trace + [Fault(pn)];
      }
    }

    /** The trace explains itself, whatever the flag is at the moment. */
    ghost predicate Errs0()
      reads this`status, this`rpkgs, walk`trace
    {
      ErrorsExplained(cfg, walk.view, rpkgs, Pending(walk.trace), status, walk.trace)
    }

    /** The book after expanding `pn`, and what that found. */
    ghost predicate Expands(pn: Name, seen: set<Name>, found: set<Name>, bk: Book)
      reads this`book, walk`pvisit
    {
      && seen <= walk.pvisit
      && if cfg.raw then book == bk && walk.pvisit == seen
         else book == Advance(walk.view, cfg.main, bk, pn, found)
              && forall x :: x in found <==> Fresh(walk.view, seen, Deps(cfg.main, pn), x)
    }

    /** Adds a requested template with its dependencies to the graph, after its implicit edge. */
    method HandleRecdeps(pn: Name, deps: seq<Name>) returns (ok: bool, ghost found: set<Name>)
      requires Errs0() && !walk.failed && !HasStart(walk.trace)
      requires Graph() && pn in rpkgs && Expandable(cfg.main, pn) && deps == Deps(cfg.main, pn)
      modifies walk, this`book
      ensures Errs0() && !HasStart(walk.trace) && Graph()
      ensures old(walk.trace) <= walk.trace && book.handled >= old(book.handled) && (!cfg.raw ==> pn in book.handled)
      ensures Expands(pn, old(walk.pvisit), found, old(book))
      ensures FaultNames(walk.trace) == FaultNames(old(walk.trace)) + if cfg.raw then {} else RaisedIn(walk.view, found)
      ensures walk.failed <==> |walk.trace| > |old(walk.trace)|
      ensures walk.failed ==> Pending(walk.trace) && FailsBehind(cfg, walk.view, pn, walk.trace)
      ensures found == walk.pvisit - old(walk.pvisit)
      ensures ok <==> cfg.raw || AllGood(walk.view, found)
      ensures walk.failed <==> !cfg.raw && AnyRaised(walk.view, found)
      ensures !ok && !walk.failed ==> SkipsBehind(cfg, walk.view, pn)
    {
      hide SkipsBehind;
      hide RaisedIn;
      hide ErrorsExplained;
      hide HasStart;
      hide AllGood;
      hide Behind;
      hide FailsBehind;
      hide AnyRaised;
      hide Pending;
      hide FaultNames;
      hide Advance;
      hide GraphOk;
      hide ExploresGraph;
      found := {};
      if cfg.raw {
        return true, {};
      }
      ghost var s := walk.Now();
      GraphShape(walk.view, cfg.main, rpkgs, walk.Shape(), s, book);
      if pn !in walk.cbvisit.value && pn != BASE_CBUILD {
        walk.Add(pn, [BASE_CBUILD]);
      }
      ok := walk.AddDepsGraph(pn, deps);
      GraphStep(walk.view, cfg.main, rpkgs, s, book, pn, walk.Now());
      NextBookAdvances(walk.view, cfg.main, rpkgs, s, book, pn, walk.Now());
      book := NextBook(s, book, pn, walk.Now());
      GraphShape(walk.view, cfg.main, rpkgs, walk.Now(), walk.Shape(), book);
      found := walk.pvisit - s.pvisit;
      FoundIsBehind(walk.view, s.pvisit, deps, walk.pvisit);
      RecdepsErrors(cfg, walk.view, rpkgs, status, s, pn, found, walk.Now(), ok);
      FaultsFound(walk.view, s, found, walk.Now());
    }

    /** The exact step from one requested template to the next. */
    method ParseOne(ghost done: set<Name>, pn: Name)
      requires Parsing(done) && pn in rpkgs - done
      modifies this`status, this`waiting, this`dropped, this`templates, this`book, walk
      ensures Parsing(done + {pn})
      ensures old(Stopped()) ==> Stopped()
      ensures old(status) <= status
      ensures Parses(cfg, walk.view, pn, old(At()), At(), status[|old(status)|..])
    {
      hide Accounts;
      hide ParseLines;
      hide Graph;
      hide EventsReal;
      hide Recorded;
      hide GraphOk;
      hide Advance;
      hide Fresh;
      hide FaultNames;
      hide Parses;
      ghost var s, lines := At(), status;
      if walk.failed && !cfg.bulkCont {
        SkipOne(done, pn);
        assert status[|lines|..] == [Line(pn, Skip)];
        ParsesNothing(cfg, walk.view, pn, s);
        return;
      }
      var ofailed := walk.failed;
      walk.failed := false;
      var p := ReadMain(pn);
      if !p.Parsed? {
        GiveUp(done, pn, ofailed);
        ParsesUnread(cfg, walk.view, pn, s, At(), status[|lines|..]);
      } else if p.broken {
        SetAside(done, pn, ofailed);
        ParsesBroken(cfg, walk.view, pn, s, At(), status[|lines|..]);
      } else {
        ghost var found := Include(done, pn, p, ofailed);
        ParsesExpanded(cfg, walk.view, pn, s, At(), found, status[|lines|..]);
      }
    }

    /** After a failure the remaining templates are only reported. */
    method SkipOne(ghost done: set<Name>, pn: Name)
      requires Parsing(done) && pn in rpkgs - done && Stopped()
      modifies this`status, this`waiting
      ensures Parsing(done + {pn})
      ensures status == old(status) + [Line(pn, Skip)]
    {
      hide GraphOk;
      FaultInTrace(walk.trace);
      Report(pn, Skip);
    }

    /** A template that is not recorded: reported if an error made it fail, else silently left out. */
    method GiveUp(ghost done: set<Name>, pn: Name, ofailed: bool)
      requires Midway(done, pn) && Thorough(done + {pn})
      requires if walk.failed then Pending(walk.trace) && Meant(cfg, walk.view, Line(pn, ParseError), walk.trace)
               else Pending(walk.trace) == ofailed && DropReason(cfg, walk.view, pn)
      modifies this`status, this`waiting, this`dropped, walk`failed
      ensures Parsing(done + {pn})
      ensures status == old(status) + if old(walk.failed) then [Line(pn, ParseError)] else []
      ensures walk.failed == (old(walk.failed) || ofailed)
    {
      hide GraphOk;
      if walk.failed {
        Report(pn, ParseError);
      } else {
        walk.failed := ofailed;
        Drop(pn);
      }
    }

    /** A template marked broken gets its line; the failure flag stays cleared. */
    method SetAside(ghost done: set<Name>, pn: Name, ghost ofailed: bool)
      requires Midway(done, pn) && !walk.failed && Pending(walk.trace) == ofailed && (ofailed ==> cfg.bulkCont)
      requires Good(cfg.main, pn) && Read(cfg.main, pn).broken
      modifies this`status, this`waiting, walk`trace
      ensures Parsing(done + {pn})
      ensures status == old(status) + [Line(pn, Broken)]
      ensures FaultNames(walk.trace) == FaultNames(old(walk.trace))
    {
      hide Accounts;
      hide Acct;
      hide Graph;
      hide DropReason;
      hide Meant;
      hide HasStart;
      hide FaultNames;
      FaultNamesNext(walk.trace, FoundBroken(pn));
      NoStartYet(walk.trace, FoundBroken(pn));
      hide ErrorsExplained;
      hide Ledger;
      hide GraphOk;
      ExplainBroken(cfg, walk.view, rpkgs, ofailed, status, walk.trace, pn);
      walk.trace := walk.trace + [FoundBroken(pn)];
      Report(pn, Broken);
    }

    /** An expandable template goes into the graph, and is recorded unless something behind it cannot be read. */
    method Include(ghost done: set<Name>, pn: Name, p: Parse, ofailed: bool) returns (ghost found: set<Name>)
      requires Midway(done, pn) && !walk.failed && Pending(walk.trace) == ofailed
      requires Expandable(cfg.main, pn) && p == Read(cfg.main, pn)
      modifies this`status, this`waiting, this`dropped, this`templates, this`book, walk
      ensures Parsing(done + {pn})
      ensures found == walk.pvisit - old(walk.pvisit)
      ensures status == old(status) + ParseLines(cfg, walk.view, pn, found)
      ensures templates == if Records(cfg, walk.view, pn, found) then old(templates)[pn := p] else old(templates)
      ensures Expands(pn, old(walk.pvisit), found, old(book))
      ensures FaultNames(walk.trace) == FaultNames(old(walk.trace)) + if cfg.raw then {} else RaisedIn(walk.view, found)
      ensures walk.failed == (ofailed || (!cfg.raw && AnyRaised(walk.view, found)))
    {
      hide FaultNames;
      hide Advance;
      hide Fresh;
      hide ErrorsExplained;
      hide GraphOk;
      var ok;
      ok, found := HandleRecdeps(pn, p.deps);
      if !ok {
        GiveUp(done, pn, ofailed);
        return;
      }
      Record(done, pn, p, ofailed);
    }

    /** Records the template for later use. */
    method Record(ghost done: set<Name>, pn: Name, p: Parse, ofailed: bool)
      requires Midway(done, pn) && Thorough(done + {pn}) && Pending(walk.trace) == ofailed
      requires Expandable(cfg.main, pn) && p == Read(cfg.main, pn)
      modifies this`templates, walk`failed
      ensures Parsing(done + {pn})
      ensures templates == old(templates)[pn := p] && walk.failed == ofailed
    {
      hide GraphOk;
      walk.failed := ofailed;
      templates := templates[pn := p];
    }

    ghost method Drop(pn: Name)
      requires Accounts() && DropReason(cfg, walk.view, pn)
      requires !cfg.raw ==> pn in waiting
      modifies this`waiting, this`dropped
      ensures Accounts() && waiting == old(waiting) - {pn}
    {
      waiting := waiting - {pn};
      dropped := dropped + if cfg.raw then {} else {pn};
    }

    lemma FaultInTrace(t: seq<Event>)
      requires Pending(t)
      ensures exists n :: Fault(n) in t
    {
      PendingExactly(t);
      var i :| 0 <= i < |t| && t[i].Fault?;
      assert t[i] == Fault(t[i].name) && t[i] in t;
    }

    /** The flag, the errors and the books after base-cbuild. */
    ghost predicate Begins(failed: bool, t: seq<Event>)
      reads this`rpkgs, this`book, walk`pvisit, walk`failed, walk`trace
    {
      var raised := if cfg.raw then {} else RaisedIn(walk.view, Base(walk.view));
      && walk.failed == (failed || raised != {})
      && FaultNames(walk.trace) == FaultNames(t) + raised
      && (!cfg.raw ==>
            book == BookAfter(walk.view, cfg.main, rpkgs, {})
            && walk.pvisit == Seen(walk.view, cfg.main, rpkgs, {}))
    }

    /** Reads base-cbuild and expands it first, as everything depends on it implicitly. */
    method BaseCbuild() returns (ok: bool)
      requires Errs() && !HasStart(walk.trace)
      requires walk.pvisit == {} && walk.nodes == {} && walk.edges == {} && walk.cbvisit == Some({})
      modifies this`book, walk
      ensures ok <==> Good(walk.view, BASE_CBUILD)
      ensures Errs() && !HasStart(walk.trace)
      ensures ok ==> Graph()
      ensures book.handled == {} || !ok
      ensures old(Stopped()) ==> Stopped()
      ensures ok ==> Begins(old(walk.failed), old(walk.trace))
    {
      hide RaisedIn;
      hide Base;
      hide FaultNames;
      hide BookAfter;
      hide Seen;
      hide Fresh;
      hide GraphOk;
      hide ExploresNames;
      hide ExploresGraph;
      var p := Read(walk.view, BASE_CBUILD);
      if !p.Parsed? {
        return false;
      }
      ghost var s := walk.Now();
      book := StartBook({});
      if !cfg.raw {
        var _ := walk.AddDepsGraph(BASE_CBUILD, p.deps);
        ExplainFaults(cfg, walk.view, rpkgs, status, s.trace, walk.trace);
        assert walk.pvisit - s.pvisit == walk.pvisit;
        BookStarts(walk.view, cfg.main, rpkgs, walk.pvisit);
        RaisedInAny(walk.view, walk.pvisit);
        FaultsFound(walk.view, s, walk.pvisit, walk.Now());
        book := StartBook(walk.pvisit);
        GraphStart(walk.view, cfg.main, rpkgs, s, walk.Now());
      }
      walk.pvisit := walk.pvisit + rpkgs;
      if !cfg.raw {
        GraphShape(walk.view, cfg.main, rpkgs, walk.Now(), walk.Shape(), book);
      }
      return true;
    }

    /** Parsing is where the inputs say it is once the requested names `S` are through. */
    ghost predicate OnCourse(S: set<Name>)
      reads this, walk
    {
      mark <= |status| && Exact(Job(), S, At()) && LinesExact(Job(), S, status[mark..])
    }

    /** One more of the sorted names. */
    method ParseNext(sorted: seq<Name>, k: nat)
      requires k < |sorted| && Ascending(sorted) && AsSet(sorted) == rpkgs
      requires Parsing(AsSet(sorted[..k])) && OnCourse(AsSet(sorted[..k]))
      requires mark <= |status| && LinesInOrder(status[mark..], sorted, k)
      modifies this`status, this`waiting, this`dropped, this`templates, this`book, walk
      ensures Parsing(AsSet(sorted[..k + 1])) && OnCourse(AsSet(sorted[..k + 1])) && (old(Stopped()) ==> Stopped())
      ensures old(status) <= status && LinesInOrder(status[mark..], sorted, k + 1)
    {
      hide GraphOk;
      hide ErrorsExplained;
      hide Ledger;
      hide LinesInOrder;
      hide LinesExact;
      hide Records;
      hide Parses;
      hide Exact;
      hide Parsing;
      ghost var pn, s, lines := sorted[k], At(), status;
      PrefixIsBefore(sorted, k);
      assert AsSet(sorted[..k + 1]) == AsSet(sorted[..k]) + {pn};
      assert pn in AsSet(sorted);
      ParseOne(AsSet(sorted[..k]), sorted[k]);
      ghost var more := status[|lines|..];
      ParseStep(Job(), pn, s, At(), more);
      FateIsOwn(Job(), pn);
      LinesStep(Job(), pn, lines[mark..], more);
      assert status[mark..] == lines[mark..] + more;
      NextLine(lines[mark..], more, sorted, k);
    }

    /** Parses every requested template, in sorted order. */
    method ParseAll()
      requires Errs() && !HasStart(walk.trace) && Graph() && book.handled == {} && templates == map[]
      requires Exact(Job(), {}, At())
      modifies this`status, this`waiting, this`dropped, this`templates, this`book, this`mark, walk
      ensures Parsing(rpkgs) && OnCourse(rpkgs) && (old(Stopped()) ==> Stopped())
      ensures Errs() && !HasStart(walk.trace)
      ensures mark == |old(status)| && old(status) <= status
      ensures Rising(status[mark..])
    {
      hide GraphOk;
      hide ErrorsExplained;
      hide Exact;
      mark, waiting, dropped := |status|, rpkgs, {};
      var sorted := Sort(rpkgs);
      assert Ledger([], waiting, dropped, rpkgs);
      assert status[mark..] == [];
      assert AsSet(sorted[..0]) == {} && AsSet(sorted) == rpkgs;
      for k := 0 to |sorted|
        invariant Parsing(AsSet(sorted[..k])) && OnCourse(AsSet(sorted[..k])) && (old(Stopped()) ==> Stopped())
        invariant mark == |old(status)| && old(status) <= status
        invariant LinesInOrder(status[mark..], sorted, k)
      {
        ParseNext(sorted, k);
      }
      assert sorted[..|sorted|] == sorted;
    }

    // ---- Phase three: order ----

    /** The order phase once the names `seen` are through. */
    ghost predicate Ordering(seen: seq<Name>)
      reads this, walk
    {
      && Errs() && !HasStart(walk.trace) && Accounts()
      && flist == Listing(cfg, templates, seen)
      && (!cfg.raw ==> waiting == StillWaiting(cfg, templates, seen))
      && forall n :: n in templates ==> Expandable(cfg.main, n)
    }

    method OrderOne(ghost seen: seq<Name>, pn: Name)
      requires Ordering(seen) && (!cfg.raw ==> pn !in seen)
      modifies this`status, this`waiting, this`flist
      ensures Ordering(seen + [pn])
      ensures status == old(status) + if pn in templates && UpToDate(cfg, pn) then [Line(pn, Done)] else []
    {
      hide Ordering;
      if pn in templates && !cfg.force && pn in cfg.built {
        MarkDone(seen, pn);
      } else {
        ListOne(seen, pn);
      }
    }

    /** A template that is built already gets its line. */
    method MarkDone(ghost seen: seq<Name>, pn: Name)
      requires Ordering(seen) && (!cfg.raw ==> pn !in seen)
      requires pn in templates && UpToDate(cfg, pn)
      modifies this`status, this`waiting
      ensures Ordering(seen + [pn]) && status == old(status) + [Line(pn, Done)]
    {
      hide ErrorsExplained;
      hide Ledger;
      hide Listing;
      hide StillWaiting;
      ListingSnoc(cfg, templates, seen, pn);
      if !cfg.raw {
        WaitingStep(cfg, templates, seen, pn);
      }
      Report(pn, Done);
    }

    /** Any other recorded template goes on the list; names that are not recorded are passed over. */
    method ListOne(ghost seen: seq<Name>, pn: Name)
      requires Ordering(seen) && (!cfg.raw ==> pn !in seen)
      requires !(pn in templates && UpToDate(cfg, pn))
      modifies this`flist
      ensures Ordering(seen + [pn])
    {
      hide Expandable;
      hide Accounts;
      hide Errs;
      hide DropReason;
      hide UpToDate;
      hide EntryOf;
      hide ErrorsExplained;
      hide Ledger;
      hide Listing;
      hide StillWaiting;
      ListingSnoc(cfg, templates, seen, pn);
      if !cfg.raw {
        WaitingStep(cfg, templates, seen, pn);
      }
      if pn in templates {
        flist := flist + [EntryOf(cfg, templates, pn)];
      }
    }

    method OrderAll(ordl: seq<Name>)
      requires Parsing(rpkgs) && flist == [] && (!cfg.raw ==> Distinct(ordl))
      modifies this`status, this`waiting, this`flist
      ensures Ordering(ordl)
      ensures status == old(status) + DoneLines(cfg, templates, ordl)
    {
      hide ErrorsExplained;
      for k := 0 to |ordl|
        invariant Ordering(ordl[..k])
        invariant status == old(status) + DoneLines(cfg, templates, ordl[..k])
      {
        assert ordl[..k + 1] == ordl[..k] + [ordl[k]];
        OrderOne(ordl[..k], ordl[k]);
      }
      assert ordl[..|ordl|] == ordl;
    }

    // ---- Phase four: build ----

    method BuildOne(pn: Name)
      requires Errs() && Accounts() && (!cfg.raw ==> pn in waiting)
      modifies this`status, this`waiting, walk`failed, walk`trace
      ensures Errs() && Accounts() && waiting == old(waiting) - {pn}
      ensures old(Stopped()) ==>
                status == old(status) + [Line(pn, Skip)] && walk.trace == old(walk.trace) && walk.failed
      ensures !old(Stopped()) ==>
                && status == old(status) + [Line(pn, if cfg.BuildOf(pn).Built? then Ok else Failed)]
                && walk.trace == old(walk.trace) + [Started(pn)]
                                 + (if cfg.BuildOf(pn).BuildRaised? then [Fault(pn)] else [])
                && walk.failed == (old(walk.failed) || cfg.BuildOf(pn).BuildRaised?)
    {
      if walk.failed && !cfg.bulkCont {
        FaultInTrace(walk.trace);
        Report(pn, Skip);
        return;
      }
      ExplainStart(cfg, walk.view, rpkgs, walk.failed, status, walk.trace, pn);
      walk.trace := walk.trace + [Started(pn)];
      var result := cfg.BuildOf(pn);
      if result.BuildRaised? {
        ExplainFault(cfg, walk.view, rpkgs, status, walk.trace, pn);
        walk.failed := true;
        walk.trace := walk.trace + [Fault(pn)];
      }
      if result.Built? {
        Report(pn, Ok);
      } else {
        Report(pn, Failed);
      }
    }

    method BuildAll()
      requires !HasStart(walk.trace) && !Stopped()
      requires Errs() && Accounts() && (!cfg.raw ==> waiting == EntryNames(flist) && OneEntryEach(flist))
      modifies this`status, this`waiting, walk`failed, walk`trace
      ensures Errs() && Accounts() && (!cfg.raw ==> waiting == {})
      ensures old(status) <= status
      ensures Builds(cfg, flist, |flist|, old(walk.failed), old(walk.trace), walk.failed, walk.trace,
                     status[|old(status)|..])
    {
      hide Builds;
      hide BuildLine;
      hide ErrorsExplained;
      hide Ledger;
      ghost var failed0, t0, lines := walk.failed, walk.trace, [];
      BuildsBegin(cfg, flist, failed0, t0);
      for k := 0 to |flist|
        invariant Errs() && Accounts()
        invariant !cfg.raw ==> waiting == EntryNames(flist[k..])
        invariant status == old(status) + lines
        invariant Builds(cfg, flist, k, failed0, t0, walk.failed, walk.trace, lines)
      {
        ghost var failed, t := walk.failed, walk.trace;
        assert flist[k..] == [flist[k]] + flist[k + 1..];
        assert flist[k] in flist[k..];
        BuildOne(flist[k].name);
        BuildsNext(cfg, flist, k, failed0, t0, failed, t, lines, walk.failed, walk.trace);
        BuildLineIs(cfg, flist, k, failed0, t0, failed, t, lines);
        lines := lines + [BuildLine(cfg, flist, k)];
      }
      assert status[|old(status)|..] == lines;
    }

    // ---- The whole run ----

    /** The first lines, the requested and the bad names are those of the names taken in. */
    ghost predicate Named(pkgs: seq<Name>)
      reads this`rpkgs, this`badpkgs, this`status, this`mark
    {
      mark <= |status| && Intake(rpkgs, badpkgs, status[..mark]) == TakeIn(cfg, pkgs)
    }

    /** Everything up to the end of the parse phase. */
    method Prepare(pkgs: seq<Name>) returns (ok: bool)
      requires Initial()
      modifies this`status, this`rpkgs, this`badpkgs, this`templates, this`waiting, this`dropped
      modifies this`mark, this`book, walk
      ensures ok <==> Good(walk.view, BASE_CBUILD)
      ensures Errs() && !HasStart(walk.trace)
      ensures ok ==> Parsing(rpkgs) && Named(pkgs) && OnCourse(rpkgs) && Rising(status[mark..])
      ensures !ok ==> dropped == old(dropped) && status == TakeIn(cfg, pkgs).lines
    {
      hide Ascending;
      hide Seen;
      hide Base;
      hide Graph;
      hide BookAfter;
      hide ErrorsExplained;
      hide GraphOk;
      hide Exact;
      hide Parsing;
      hide OnCourse;
      hide TakeIn;
      hide FaultNames;
      hide OneLineEach;
      ResolveAll(pkgs);
      ok := BaseCbuild();
      if ok {
        ExactStart(Job(), At());
        ghost var before := status;
        ParseAll();
        assert status[..mark] == before;
      }
    }

    /** An entry for a recorded template that is not built yet. */
    ghost predicate Listable(templates: map<Name, Parse>, e: Entry) {
      && e.name in templates && Expandable(cfg.main, e.name)
      && !UpToDate(cfg, e.name) && e == EntryOf(cfg, templates, e.name)
    }

    /** The recorded templates that come up when the list is made. */
    ghost function Coming(pkgs: seq<Name>): set<Name>
      reads this`templates
    {
      set p | p in templates && (cfg.raw ==> p in pkgs)
    }

    /** What the order phase leaves behind, given the status before. */
    ghost predicate Ordered(pkgs: seq<Name>, before: seq<Line>)
      reads this, walk
    {
      && Errs() && !HasStart(walk.trace) && Accounts()
      && before <= status
      && EntryNames(flist) == (set p | p in Coming(pkgs) && !UpToDate(cfg, p))
      && (forall l :: l in status[|before|..] <==> l.word == Done && l.name in Coming(pkgs) && UpToDate(cfg, l.name))
      && (forall e :: e in flist ==> Listable(templates, e))
      && if cfg.raw then flist == Listing(cfg, templates, pkgs) && status[|before|..] == DoneLines(cfg, templates, pkgs)
         else waiting == EntryNames(flist) && OneEntryEach(flist) && Follows(walk.edges, flist)
              && Follows(RunGraph(walk.view, cfg.main, rpkgs), flist)
    }

    /** The graph and the recorded templates once every requested template is through. */
    ghost predicate Whole()
      reads this`rpkgs, this`badpkgs, this`templates, this`book
    {
      && (!cfg.raw ==> book == BookAfter(walk.view, cfg.main, rpkgs, rpkgs))
      && templates == RecordedMap(Job())
    }

    /** The order phase: `false` if the dependencies are cyclic. */
    method Order(pkgs: seq<Name>) returns (ok: bool)
      requires Parsing(rpkgs) && flist == [] && !Stopped() && Whole()
      modifies this`status, this`waiting, this`flist
      ensures ok <==> cfg.raw || !Cyclic(walk.edges)
      ensures if ok then Ordered(pkgs, old(status)) else unchanged(this)
    {
      hide Ordered;
      if cfg.raw {
        OrderAs(pkgs, pkgs);
        return true;
      }
      var sorting := StaticOrder(walk.nodes, walk.edges);
      if sorting.CycleError? {
        return false;
      }
      InOrder(sorting.order);
      OrderAs(pkgs, sorting.order);
      return true;
    }

    /** Every recorded template is a node of the graph. */
    lemma InOrder(ordl: seq<Name>)
      requires Parsing(rpkgs) && !cfg.raw && DependencyOrder(walk.nodes, walk.edges, ordl)
      ensures templates.Keys <= AsSet(ordl) && Within(walk.nodes, walk.edges)
    {
    }

    /** Makes the list along a given order. */
    method OrderAs(pkgs: seq<Name>, ordl: seq<Name>)
      requires Parsing(rpkgs) && flist == [] && !Stopped() && Whole()
      requires if cfg.raw then ordl == pkgs
               else DependencyOrder(walk.nodes, walk.edges, ordl) && Within(walk.nodes, walk.edges)
                    && templates.Keys <= AsSet(ordl)
      modifies this`status, this`waiting, this`flist
      ensures Ordered(pkgs, old(status))
    {
      hide ErrorsExplained;
      hide GraphOk;
      hide Ledger;
      hide Listing;
      hide DoneLines;
      hide Follows;
      hide UpToDate;
      hide RecordedMap;
      OrderAll(ordl);
      ListingMembers(cfg, templates, ordl);
      ListingExactly(cfg, templates, ordl);
      assert forall p :: p in templates && p in ordl <==> p in Coming(pkgs);
      assert status[|old(status)|..] == DoneLines(cfg, templates, ordl);
      if !cfg.raw {
        ListingDistinct(cfg, templates, ordl);
        assert ordl[..|ordl|] == ordl;
        ListingFollows(cfg, templates, walk.nodes, walk.edges, ordl, |ordl|);
        WaitingIsListed(cfg, templates, ordl);
        ChainsFollow(walk.view, cfg.main, rpkgs, walk.Shape(), book, flist);
      }
    }

    /** What holds of a run that got past base-cbuild, in the default (sorted) mode. */
    ghost predicate Sorted(out: Outcome)
      reads this, walk
      requires mark <= |status|
    {
      && GraphOk(walk.view, cfg.main, rpkgs, walk.Shape(), book)
      && (!Stopped() ==> Thorough(rpkgs))
      && Follows(walk.edges, flist)
      && Follows(RunGraph(walk.view, cfg.main, rpkgs), flist)
      && OneEntryEach(flist)
      && (out.CycleFound? <==> Cyclic(walk.edges) && !Stopped())
      && (HasStart(walk.trace) ==> !Cyclic(walk.edges))
      && Ledger(status[mark..], waiting, dropped, rpkgs)
      && (!Cyclic(walk.edges) && (cfg.bulkCont || out.Completed?) ==>
            waiting == if cfg.goal.Build? then {} else EntryNames(flist))
    }

    /** Outcome, list, lines, builds and errors as the inputs say. */
    ghost predicate EndsRight(pkgs: seq<Name>, out: Outcome)
      reads this, walk
      requires mark <= |status|
    {
      && out == Ends(Job(), pkgs)
      && EntryNames(flist) == ToBuild(Job(), pkgs)
      && Stream(Job(), pkgs, flist, status[mark..])
      && (forall e :: e in flist ==> Listable(RecordedMap(Job()), e))
      && (cfg.raw && GoesOn(Job()) ==> flist == Listing(cfg, RecordedMap(Job()), pkgs))
      && (if cfg.goal.Build? then StartsExactly(cfg, flist, walk.trace) else !HasStart(walk.trace))
      && FaultNames(walk.trace) == FaultsAfter(Job(), rpkgs) + RaisedBuilds(cfg, StartNames(walk.trace))
    }

    /** The recorded templates are those the inputs say, and the graph is cyclic if they say so. */
    lemma OnTheWhole(pkgs: seq<Name>)
      requires Parsing(rpkgs) && OnCourse(rpkgs) && !Stopped()
      ensures Coming(pkgs) == Due(Job(), pkgs) && Whole()
      ensures !FailedAfter(Job(), rpkgs) || cfg.bulkCont
      ensures !cfg.raw ==> book.base == Base(walk.view)
                           && (Cyclic(walk.edges) <==> CyclicRun(walk.view, cfg.main, rpkgs))
    {
      hide FaultsAfter;
      hide CyclicRun;
      hide RecordedMap;
      hide Due;
      hide GraphOk;
      hide LinesExact;
      RecordedWhole(Job(), templates, pkgs);
      if !cfg.raw {
        CyclesExactly(walk.view, cfg.main, rpkgs, walk.Shape(), book);
      }
    }

    /** A run that stopped, or whose dependencies are cyclic, ends as the inputs say. */
    lemma StopsShort(pkgs: seq<Name>)
      requires Parsing(rpkgs) && OnCourse(rpkgs) && flist == [] && Rising(status[mark..])
      requires Stopped() || (!cfg.raw && Cyclic(walk.edges))
      ensures EndsRight(pkgs, if Stopped() then BulkFailed else CycleFound)
    {
      hide GraphOk;
      hide FailedAfter;
      hide FaultsAfter;
      hide Stream;
      hide LinesExact;
      hide ToBuild;
      if !Stopped() {
        OnTheWhole(pkgs);
      }
      NothingListed(Job(), pkgs, status[mark..], walk.trace);
    }

    lemma StopsSorted()
      requires Parsing(rpkgs) && mark <= |status| && flist == [] && !cfg.raw
      requires Stopped() || Cyclic(walk.edges)
      ensures Sorted(if Stopped() then BulkFailed else CycleFound)
    {
      hide GraphOk;
      hide Ledger;
      hide ErrorsExplained;
    }

    /** Whatever comes after the order phase, in terms of the state `failed0`, `t0` at its end. */
    ghost predicate AfterOrder(pkgs: seq<Name>, parsed: seq<Line>, done: seq<Line>, failed0: bool, t0: seq<Event>)
      reads this`rpkgs, this`badpkgs, this`flist
    {
      && GoesOn(Job()) && EntryNames(flist) == ToBuild(Job(), pkgs)
      && failed0 == FailedAfter(Job(), rpkgs) && FaultNames(t0) == FaultsAfter(Job(), rpkgs)
      && !HasStart(t0)
      && StreamParts(Job(), pkgs, parsed, done)
    }

    /** A run whose builds were gone through, or only listed, ends as the inputs say. */
    lemma Concludes(pkgs: seq<Name>, parsed: seq<Line>, done: seq<Line>, failed0: bool, t0: seq<Event>,
                    build: seq<Line>)
      requires AfterOrder(pkgs, parsed, done, failed0, t0)
      requires forall e :: e in flist ==> Listable(RecordedMap(Job()), e)
      requires cfg.raw ==> flist == Listing(cfg, RecordedMap(Job()), pkgs)
      requires mark <= |status| && status[mark..] == parsed + done + build
      requires if cfg.goal.Build? then Builds(cfg, flist, |flist|, failed0, t0, walk.failed, walk.trace, build)
               else build == [] && walk.failed == failed0 && walk.trace == t0
      ensures EndsRight(pkgs, if walk.failed then BulkFailed else Completed)
    {
      hide GoesOn;
      hide FailedAfter;
      hide FaultsAfter;
      hide ToBuild;
      hide Due;
      hide LinesExact;
      hide StreamParts;
      hide BuildLine;
      hide FaultNames;
      EndsSo(Job(), pkgs, flist, walk.failed);
      assert build == BuildLines(cfg, flist);
      assert StreamParts(Job(), pkgs, parsed, done);
      if !cfg.goal.Build? {
        NoStartNames(t0);
      }
      assert NamesOf(flist)[..|flist|] == NamesOf(flist);
    }

    /** Order, list, build, and the final verdict. */
    method Finish(pkgs: seq<Name>) returns (out: Outcome)
      requires Parsing(rpkgs) && Named(pkgs) && OnCourse(rpkgs) && flist == [] && Rising(status[mark..])
      modifies this`status, this`waiting, this`flist, walk`failed, walk`trace
      ensures Errs() && Named(pkgs) && EndsRight(pkgs, out) && !out.BaseUnreadable?
      ensures !out.CycleFound? ==> (out.BulkFailed? <==> walk.failed)
      ensures forall x :: x in dropped ==> DropReason(cfg, walk.view, x)
      ensures old(Stopped()) || out.CycleFound? ==> status == old(status) && waiting == old(waiting)
      ensures !cfg.raw ==> Sorted(out)
    {
      hide GraphOk;
      hide Exact;
      hide EndsRight;
      hide AfterOrder;
      hide Ordered;
      hide Sorted;
      hide Ledger;
      ghost var parsed := status[mark..];
      if walk.failed && !cfg.bulkCont {
        StopsShort(pkgs);
        if !cfg.raw {
          StopsSorted();
        }
        return BulkFailed;
      }
      OnTheWhole(pkgs);
      ghost var before := status;
      var ordered := Order(pkgs);
      if !ordered {
        StopsShort(pkgs);
        if !cfg.raw {
          StopsSorted();
        }
        return CycleFound;
      }
      GetsThere(pkgs, before, parsed);
      assert status[..mark] == before[..mark];
      out := Conclude(pkgs, before);
    }

    /** Goes through the builds, if there are any to make. */
    method Conclude(pkgs: seq<Name>, ghost before: seq<Line>) returns (out: Outcome)
      requires Ordered(pkgs, before) && Named(pkgs) && mark <= |before|
      requires AfterOrder(pkgs, before[mark..], status[|before|..], walk.failed, walk.trace)
      requires forall e :: e in flist ==> Listable(RecordedMap(Job()), e)
      requires cfg.raw ==> flist == Listing(cfg, RecordedMap(Job()), pkgs)
      requires !Stopped() && Graph()
               && (!cfg.raw ==> !Cyclic(walk.edges) && Thorough(rpkgs) && book.base == Base(walk.view))
      modifies this`status, this`waiting, walk`failed, walk`trace
      ensures Errs() && Named(pkgs) && EndsRight(pkgs, out)
      ensures out == if walk.failed then BulkFailed else Completed
      ensures old(status) <= status
      ensures forall x :: x in dropped ==> DropReason(cfg, walk.view, x)
      ensures !cfg.raw ==> Sorted(out)
    {
      hide HasStart;
      hide RunGraph;
      hide TakeIn;
      hide GraphOk;
      hide EndsRight;
      hide AfterOrder;
      hide Builds;
      hide Follows;
      hide Ledger;
      hide OneEntryEach;
      hide ErrorsExplained;
      ghost var listed, failed, t := status, walk.failed, walk.trace;
      assert listed[..mark] == before[..mark];
      assert listed[mark..] == before[mark..] + listed[|before|..];
      if cfg.goal.Build? {
        BuildAll();
      }
      assert status[..mark] == listed[..mark];
      assert status[mark..] == listed[mark..] + status[|listed|..];
      Concludes(pkgs, before[mark..], listed[|before|..], failed, t, status[|listed|..]);
      out := if walk.failed then BulkFailed else Completed;
    }

    /** The state at the end of the order phase. */
    lemma GetsThere(pkgs: seq<Name>, before: seq<Line>, parsed: seq<Line>)
      requires Ordered(pkgs, before) && Exact(Job(), rpkgs, At()) && LinesExact(Job(), rpkgs, parsed) && Rising(parsed)
      requires !Stopped() && (cfg.raw || !Cyclic(walk.edges))
      requires Coming(pkgs) == Due(Job(), pkgs) && Whole()
      requires !cfg.raw ==> (Cyclic(walk.edges) <==> CyclicRun(walk.view, cfg.main, rpkgs))
      ensures before <= status
      ensures AfterOrder(pkgs, parsed, status[|before|..], walk.failed, walk.trace)
      ensures forall e :: e in flist ==> Listable(RecordedMap(Job()), e)
      ensures cfg.raw ==> flist == Listing(cfg, RecordedMap(Job()), pkgs)
    {
      hide FailedAfter;
      hide FaultsAfter;
      hide LinesExact;
      hide Due;
      hide CyclicRun;
    }

    /** The whole run. */
    method Run(pkgs: seq<Name>) returns (out: Outcome)
      requires Initial()
      modifies this, walk
      ensures out == Verdict(cfg, walk.view, pkgs)
      ensures out.BulkFailed? || out.Completed? ==> (out.BulkFailed? <==> walk.failed)
      ensures Errs()
      ensures out.BaseUnreadable? ==> !HasStart(walk.trace) && flist == [] && status == TakeIn(cfg, pkgs).lines
      ensures !out.BaseUnreadable? ==>
                && Named(pkgs) && EndsRight(pkgs, out)
      ensures !out.BaseUnreadable? && !cfg.raw ==> Sorted(out) && (cfg.bulkCont ==> OneLineEach(status))
      ensures forall x :: x in dropped ==> DropReason(cfg, walk.view, x)
    {
      hide FaultsAfter;
      hide Reported;
      hide Errs;
      hide RunGraph;
      hide ErrorsExplained;
      hide Ledger;
      hide Follows;
      hide OneLineEach;
      hide DropReason;
      hide GraphOk;
      hide OnCourse;
      hide TakeIn;
      hide Ends;
      dropped := {};
      var ok := Prepare(pkgs);
      if !ok {
        return BaseUnreadable;
      }
      out := Finish(pkgs);
      if !cfg.raw && cfg.bulkCont {
        AllTaken(cfg, pkgs);
        BadReported(cfg, pkgs);
        WholeStream(status[..mark], status[mark..], waiting, dropped, rpkgs, badpkgs);
        assert status == status[..mark] + status[mark..];
      }
    }
  }
}
