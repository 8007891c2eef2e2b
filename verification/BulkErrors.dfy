/** The failure flag of a bulk run, explained by the events that happened. */
module BulkErrors {
  import opened Templates

  /** An error that no later broken template made the run forget. */
  ghost predicate Pending(t: seq<Event>) {
    |t| > 0 && (t[|t| - 1].Fault? || (t[|t| - 1].Started? && Pending(t[..|t| - 1])))
  }

  ghost predicate HasFault(t: seq<Event>) {
    exists i :: 0 <= i < |t| && t[i].Fault?
  }

  ghost predicate HasStart(t: seq<Event>) {
    exists i :: 0 <= i < |t| && t[i].Started?
  }

  ghost predicate HasBroken(t: seq<Event>) {
    exists i :: 0 <= i < |t| && t[i].FoundBroken?
  }

  /** The names of all errors. */
  ghost function FaultNames(t: seq<Event>): set<Name> {
    set e | e in t && e.Fault? :: e.name
  }

  lemma NoStartYet(t: seq<Event>, e: Event)
    requires !HasStart(t) && !e.Started?
    ensures !HasStart(t + [e])
  {
  }

  lemma FaultNamesConcat(t: seq<Event>, u: seq<Event>)
    ensures FaultNames(t + u) == FaultNames(t) + FaultNames(u)
  {
  }

  lemma FaultNamesNext(t: seq<Event>, e: Event)
    ensures FaultNames(t + [e]) == FaultNames(t) + if e.Fault? then {e.name} else {}
  {
    FaultNamesConcat(t, [e]);
    assert FaultNames([e]) == if e.Fault? then {e.name} else {} by {
      assert e in [e];
    }
  }

  /** The templates whose build was started, in order. */
  ghost function StartNames(t: seq<Event>): seq<Name> {
    if t == [] then []
    else
      var init, e := t[..|t| - 1], t[|t| - 1];
      StartNames(init) + if e.Started? then [e.name] else []
  }

  lemma {:induction false} NoStartNames(t: seq<Event>)
    requires !HasStart(t)
    ensures StartNames(t) == []
  {
    if t != [] {
      NoStartNames(t[..|t| - 1]);
    }
  }

  /** Building one more template, successfully or not, or skipping it. */
  lemma StartNamesStep(t: seq<Event>, u: seq<Event>, n: Name)
    requires u == t || u == t + [Started(n)] || u == t + [Started(n), Fault(n)]
    ensures StartNames(u) == StartNames(t) + if u == t then [] else [n]
  {
    if u == t + [Started(n)] {
      assert u[..|u| - 1] == t;
    } else if u == t + [Started(n), Fault(n)] {
      var v := t + [Started(n)];
      assert u[..|u| - 1] == v && v[..|v| - 1] == t;
    }
  }

  /** Nothing but further errors comes after an error. */
  ghost predicate StopsAtFault(t: seq<Event>) {
    forall i, j :: 0 <= i < j < |t| && t[i].Fault? ==> t[j].Fault?
  }

  /** The flag is set exactly if some error is not followed by a broken template. */
  lemma {:induction false} PendingExactly(t: seq<Event>)
    ensures Pending(t) <==> exists i :: 0 <= i < |t| && t[i].Fault? && forall j :: i < j < |t| ==> !t[j].FoundBroken?
  {
    if |t| > 0 {
      var last := |t| - 1;
      var init := t[..last];
      PendingExactly(init);
      if t[last].Started? && Pending(init) {
        var i :| 0 <= i < |init| && init[i].Fault? && forall j :: i < j < |init| ==> !init[j].FoundBroken?;
        assert t[i].Fault?;
        forall j | i < j < |t| ensures !t[j].FoundBroken? {
          assert j < last ==> t[j] == init[j];
        }
      }
      if i :| 0 <= i < |t| && t[i].Fault? && forall j :: i < j < |t| ==> !t[j].FoundBroken? {
        if i < last {
          assert init[i].Fault?;
          assert forall j :: i < j < |init| ==> init[j] == t[j];
        }
      }
    }
  }

  /** Errors that keep the run from building anything further are never forgotten. */
  lemma PendingIfStops(t: seq<Event>)
    requires StopsAtFault(t) || !HasBroken(t)
    ensures Pending(t) <==> HasFault(t)
  {
    PendingExactly(t);
    if i :| 0 <= i < |t| && t[i].Fault? {
      assert forall j :: i < j < |t| ==> !t[j].FoundBroken?;
    }
  }

  /** The state of the flag and the trace between two steps. */
  ghost predicate ErrorsOk(bulkCont: bool, failed: bool, t: seq<Event>) {
    && failed == Pending(t)
    && (!bulkCont ==> StopsAtFault(t))
  }

  lemma {:induction false} PendingFaults(view: View, t0: seq<Event>, t1: seq<Event>)
    requires OnlyFaults(view, t0, t1)
    ensures Pending(t1) <==> |t1| > |t0| || Pending(t0)
  {
    if |t1| == |t0| {
      assert t1 == t0;
    }
  }

  /** Further errors. */
  lemma AddFaults(view: View, bulkCont: bool, t0: seq<Event>, t1: seq<Event>)
    requires OnlyFaults(view, t0, t1) && (!bulkCont ==> StopsAtFault(t0))
    ensures ErrorsOk(bulkCont, |t1| > |t0| || Pending(t0), t1)
  {
    PendingFaults(view, t0, t1);
    forall i, j | !bulkCont && 0 <= i < j < |t1| && t1[i].Fault? ensures t1[j].Fault? {
      if j < |t0| {
        assert t0[i] == t1[i] && t0[j] == t1[j];
      }
    }
  }

  lemma AddFault(bulkCont: bool, t: seq<Event>, n: Name)
    requires !bulkCont ==> StopsAtFault(t)
    ensures ErrorsOk(bulkCont, true, t + [Fault(n)])
  {
  }

  /** A template found broken, at a moment when the run is still going on. */
  lemma AddBroken(bulkCont: bool, failed: bool, t: seq<Event>, n: Name)
    requires ErrorsOk(bulkCont, failed, t) && (failed ==> bulkCont)
    ensures ErrorsOk(bulkCont, false, t + [FoundBroken(n)])
  {
    if !bulkCont {
      PendingIfStops(t);
    }
  }

  /** A build started while the run is still going on. */
  lemma AddStart(bulkCont: bool, failed: bool, t: seq<Event>, n: Name)
    requires ErrorsOk(bulkCont, failed, t) && (failed ==> bulkCont)
    ensures ErrorsOk(bulkCont, failed, t + [Started(n)])
  {
    var u := t + [Started(n)];
    assert u[..|u| - 1] == t;
    if !bulkCont {
      PendingIfStops(t);
    }
  }
}
