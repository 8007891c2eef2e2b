/** The final list of a bulk run: the recorded templates that are not built yet, in order. */
module BulkOrder {
  import opened Graphs
  import opened Templates
  import opened Selection
  import opened TopoSort
  import opened Status
  import opened BulkErrors
  import opened BulkLedger

  predicate UpToDate(cfg: Config, n: Name) {
    !cfg.force && n in cfg.built
  }

  function EntryOf(cfg: Config, templates: map<Name, Parse>, n: Name): Entry
    requires n in templates
  {
    Entry(n, if cfg.goal.List? && cfg.goal.version && templates[n].Parsed? then templates[n].version else None)
  }

  /** The entries for a list of names: recorded, not built yet, in the order of the names. */
  ghost function Listing(cfg: Config, templates: map<Name, Parse>, names: seq<Name>): seq<Entry> {
    if names == [] then []
    else
      var init, n := names[..|names| - 1], names[|names| - 1];
      Listing(cfg, templates, init)
      + if n in templates && !UpToDate(cfg, n) then [EntryOf(cfg, templates, n)] else []
  }

  ghost function DoneLines(cfg: Config, templates: map<Name, Parse>, names: seq<Name>): seq<Line> {
    if names == [] then []
    else
      var init, n := names[..|names| - 1], names[|names| - 1];
      DoneLines(cfg, templates, init)
      + if n in templates && UpToDate(cfg, n) then [Line(n, Done)] else []
  }

  ghost function EntryNames(s: seq<Entry>): set<Name> {
    set e | e in s :: e.name
  }

  function NamesOf(s: seq<Entry>): (r: seq<Name>)
    ensures |r| == |s| && forall i :: 0 <= i < |r| ==> r[i] == s[i].name
  {
    seq(|s|, i requires 0 <= i < |s| => s[i].name)
  }

  // ---- Builds ----

  /** An earlier build on the list raised an error, and the run was not told to continue. */
  ghost predicate StopsAt(cfg: Config, list: seq<Entry>, i: nat)
    requires i <= |list|
  {
    !cfg.bulkCont && RaisesBefore(cfg, list, i)
  }

  ghost predicate RaisesBefore(cfg: Config, list: seq<Entry>, i: nat)
    requires i <= |list|
  {
    exists j :: 0 <= j < i && cfg.BuildOf(list[j].name).BuildRaised?
  }

  /** The line of one build. */
  ghost function BuildLine(cfg: Config, list: seq<Entry>, i: nat): Line
    requires i < |list|
  {
    Line(list[i].name, if StopsAt(cfg, list, i) then Skip else if cfg.BuildOf(list[i].name).Built? then Ok else Failed)
  }

  ghost predicate IsBuildLine(cfg: Config, list: seq<Entry>, l: Line) {
    exists i :: 0 <= i < |list| && l == BuildLine(cfg, list, i)
  }

  /** The lines of all builds, in the order of the list. */
  ghost function BuildLines(cfg: Config, list: seq<Entry>): (r: seq<Line>)
    ensures |r| == if cfg.goal.Build? then |list| else 0
    ensures forall i :: 0 <= i < |r| ==> r[i] == BuildLine(cfg, list, i)
  {
    if cfg.goal.Build? then seq(|list|, i requires 0 <= i < |list| => BuildLine(cfg, list, i)) else []
  }

  lemma BuildLinesMembers(cfg: Config, list: seq<Entry>)
    ensures forall l :: l in BuildLines(cfg, list) <==> cfg.goal.Build? && IsBuildLine(cfg, list, l)
  {
    hide BuildLine;
    forall l | cfg.goal.Build? && IsBuildLine(cfg, list, l) ensures l in BuildLines(cfg, list) {
      var i :| 0 <= i < |list| && l == BuildLine(cfg, list, i);
      assert BuildLines(cfg, list)[i] == l;
    }
  }

  /** The builds started are those of a prefix of the list: of all entries the run does not stop at. */
  ghost predicate StartsExactly(cfg: Config, list: seq<Entry>, t: seq<Event>) {
    && StartNames(t) <= NamesOf(list)
    && forall i :: 0 <= i < |list| ==> (i < |StartNames(t)| <==> !StopsAt(cfg, list, i))
  }

  ghost function RaisedBuilds(cfg: Config, names: seq<Name>): set<Name> {
    set n | n in names && cfg.BuildOf(n).BuildRaised?
  }

  /** The flag, the events and the lines after `k` builds. */
  ghost predicate Builds(cfg: Config, list: seq<Entry>, k: nat, failed0: bool, t0: seq<Event>, failed: bool,
                         t: seq<Event>, lines: seq<Line>)
    requires k <= |list|
  {
    && StartNames(t) <= NamesOf(list)[..k]
    && (forall i :: 0 <= i < k ==> (i < |StartNames(t)| <==> !StopsAt(cfg, list, i)))
    && failed == (failed0 || RaisesBefore(cfg, list, k))
    && FaultNames(t) == FaultNames(t0) + RaisedBuilds(cfg, StartNames(t))
    && |lines| == k && forall i :: 0 <= i < k ==> lines[i] == BuildLine(cfg, list, i)
  }

  lemma BuildsBegin(cfg: Config, list: seq<Entry>, failed: bool, t: seq<Event>)
    requires !HasStart(t)
    ensures Builds(cfg, list, 0, failed, t, failed, t, [])
  {
    NoStartNames(t);
  }

  /** Until something stops the run every entry was built, and all are once nothing does. */
  lemma AllStarted(cfg: Config, list: seq<Entry>, k: nat, failed0: bool, t0: seq<Event>, failed: bool, t: seq<Event>,
                   lines: seq<Line>)
    requires k <= |list| && Builds(cfg, list, k, failed0, t0, failed, t, lines) && !StopsAt(cfg, list, k)
    ensures StartNames(t) == NamesOf(list)[..k]
  {
    if k > 0 {
      assert !StopsAt(cfg, list, k - 1);
    }
  }

  /** The line of the next build, in terms of the flag. */
  lemma BuildLineIs(cfg: Config, list: seq<Entry>, k: nat, failed0: bool, t0: seq<Event>, failed: bool, t: seq<Event>,
                    lines: seq<Line>)
    requires k < |list| && Builds(cfg, list, k, failed0, t0, failed, t, lines) && (failed0 ==> cfg.bulkCont)
    ensures var n := list[k].name;
            BuildLine(cfg, list, k)
            == Line(n, if failed && !cfg.bulkCont then Skip else if cfg.BuildOf(n).Built? then Ok else Failed)
  {
  }

  /** One more build. */
  lemma BuildsNext(cfg: Config, list: seq<Entry>, k: nat, failed0: bool, t0: seq<Event>,
                   failed: bool, t: seq<Event>, lines: seq<Line>, failed1: bool, t1: seq<Event>)
    requires k < |list| && Builds(cfg, list, k, failed0, t0, failed, t, lines) && (failed0 ==> cfg.bulkCont)
    requires var n := list[k].name;
             if failed && !cfg.bulkCont then t1 == t && failed1
             else t1 == (t + [Started(n)] + if cfg.BuildOf(n).BuildRaised? then [Fault(n)] else [])
                  && failed1 == (failed || cfg.BuildOf(n).BuildRaised?)
    ensures Builds(cfg, list, k + 1, failed0, t0, failed1, t1, lines + [BuildLine(cfg, list, k)])
  {
    hide FaultNames;
    hide BuildLine;
    hide NamesOf;
    hide StartNames;
    var n := list[k].name;
    RaisesNext(cfg, list, k);
    StartNamesStep(t, t1, n);
    NamesOfStep(list, k);
    if StopsAt(cfg, list, k) {
      assert StartNames(t) <= NamesOf(list)[..k + 1];
    } else {
      AllStarted(cfg, list, k, failed0, t0, failed, t, lines);
      FaultNamesNext(t, Started(n));
      FaultNamesNext(t + [Started(n)], Fault(n));
    }
  }

  lemma RaisesNext(cfg: Config, list: seq<Entry>, k: nat)
    requires k < |list|
    ensures RaisesBefore(cfg, list, k + 1) <==> RaisesBefore(cfg, list, k) || cfg.BuildOf(list[k].name).BuildRaised?
  {
  }

  lemma NamesOfStep(list: seq<Entry>, k: nat)
    requires k < |list|
    ensures NamesOf(list)[..k + 1] == NamesOf(list)[..k] + [list[k].name]
  {
  }

  ghost predicate OneEntryEach(s: seq<Entry>) {
    forall i, j :: 0 <= i < j < |s| ==> s[i].name != s[j].name
  }

  /** Whatever an entry reaches stands before it. */
  ghost predicate Follows(E: set<(Name, Name)>, s: seq<Entry>) {
    forall i, j :: 0 <= i < |s| && 0 <= j < |s| && Reach(E, s[i].name, s[j].name) ==> j < i
  }

  lemma {:induction false} ListingMembers(cfg: Config, templates: map<Name, Parse>, names: seq<Name>)
    ensures forall e :: e in Listing(cfg, templates, names)
                    <==> && e.name in names && e.name in templates && !UpToDate(cfg, e.name)
                         && e == EntryOf(cfg, templates, e.name)
  {
    if names != [] {
      ListingMembers(cfg, templates, names[..|names| - 1]);
      assert names == names[..|names| - 1] + [names[|names| - 1]];
    }
  }

  lemma {:induction false} DoneMembers(cfg: Config, templates: map<Name, Parse>, names: seq<Name>)
    ensures forall l :: l in DoneLines(cfg, templates, names)
                    <==> l.word == Done && l.name in names && l.name in templates && UpToDate(cfg, l.name)
  {
    if names != [] {
      DoneMembers(cfg, templates, names[..|names| - 1]);
      assert names == names[..|names| - 1] + [names[|names| - 1]];
    }
  }

  /** Of the recorded templates among `names`, the list has the outdated ones and the lines the others. */
  lemma ListingExactly(cfg: Config, templates: map<Name, Parse>, names: seq<Name>)
    ensures EntryNames(Listing(cfg, templates, names)) == set p | p in templates && p in names && !UpToDate(cfg, p)
    ensures forall l :: l in DoneLines(cfg, templates, names)
                    <==> l.word == Done && l.name in names && l.name in templates && UpToDate(cfg, l.name)
  {
    DoneMembers(cfg, templates, names);
    ListingMembers(cfg, templates, names);
    forall p | p in templates && p in names && !UpToDate(cfg, p)
      ensures p in EntryNames(Listing(cfg, templates, names))
    {
      assert EntryOf(cfg, templates, p) in Listing(cfg, templates, names);
    }
  }

  /** The list has every occurrence of the listed templates among the names, in order. */
  lemma {:induction false} ListingKeeps(cfg: Config, templates: map<Name, Parse>, names: seq<Name>, K: set<Name>)
    requires forall n :: n in names ==> (n in K <==> n in templates && !UpToDate(cfg, n))
    ensures Keeps(names, K, NamesOf(Listing(cfg, templates, names)))
  {
    if names == [] {
      KeepsNothing(K);
      assert NamesOf([]) == [];
    } else {
      var init, n := names[..|names| - 1], names[|names| - 1];
      assert names == init + [n];
      var s := Listing(cfg, templates, init);
      ListingKeeps(cfg, templates, init, K);
      KeepsSnoc(init, K, NamesOf(s), n);
      assert n in names;
      if n in templates {
        NamesSnoc(s, EntryOf(cfg, templates, n));
      }
      assert s + [] == s && NamesOf(s) + [] == NamesOf(s);
    }
  }

  lemma NamesSnoc(s: seq<Entry>, e: Entry)
    ensures NamesOf(s + [e]) == NamesOf(s) + [e.name]
  {
  }

  lemma SomeEntry(list: seq<Entry>)
    ensures list != [] ==> EntryNames(list) != {}
  {
    if list != [] {
      assert list[0].name in EntryNames(list);
    }
  }

  lemma {:induction false} ListingDistinct(cfg: Config, templates: map<Name, Parse>, names: seq<Name>)
    requires Distinct(names)
    ensures OneEntryEach(Listing(cfg, templates, names))
  {
    if names != [] {
      var init, n := names[..|names| - 1], names[|names| - 1];
      ListingDistinct(cfg, templates, init);
      ListingMembers(cfg, templates, init);
      var s := Listing(cfg, templates, init);
      forall i | 0 <= i < |s| ensures s[i].name != n {
        assert s[i] in s;
      }
    }
  }

  lemma ListingSnoc(cfg: Config, templates: map<Name, Parse>, names: seq<Name>, n: Name)
    ensures Listing(cfg, templates, names + [n])
            == Listing(cfg, templates, names)
               + if n in templates && !UpToDate(cfg, n) then [EntryOf(cfg, templates, n)] else []
    ensures DoneLines(cfg, templates, names + [n])
            == DoneLines(cfg, templates, names) + if n in templates && UpToDate(cfg, n) then [Line(n, Done)] else []
  {
    assert (names + [n])[..|names|] == names;
  }

  /** The recorded templates without a line once `names` went through. */
  ghost function StillWaiting(cfg: Config, templates: map<Name, Parse>, names: seq<Name>): set<Name> {
    set n | n in templates && !(n in names && UpToDate(cfg, n))
  }

  /** One more name: only a template found up to date stops waiting. */
  lemma WaitingStep(cfg: Config, templates: map<Name, Parse>, names: seq<Name>, n: Name)
    requires n !in names
    ensures n in templates && UpToDate(cfg, n) ==>
              StillWaiting(cfg, templates, names + [n]) == StillWaiting(cfg, templates, names) - {n}
    ensures !(n in templates && UpToDate(cfg, n)) ==>
              StillWaiting(cfg, templates, names + [n]) == StillWaiting(cfg, templates, names)
    ensures n in templates ==> n in StillWaiting(cfg, templates, names)
  {
  }

  /** In the end exactly the listed templates wait. */
  lemma WaitingIsListed(cfg: Config, templates: map<Name, Parse>, names: seq<Name>)
    requires templates.Keys <= AsSet(names)
    ensures StillWaiting(cfg, templates, names) == EntryNames(Listing(cfg, templates, names))
  {
    ListingMembers(cfg, templates, names);
    forall n | n in StillWaiting(cfg, templates, names)
      ensures n in EntryNames(Listing(cfg, templates, names))
    {
      assert n in AsSet(names);
      assert EntryOf(cfg, templates, n) in Listing(cfg, templates, names);
    }
  }

  lemma FollowsSnoc(E: set<(Name, Name)>, s: seq<Entry>, e: Entry)
    requires Follows(E, s) && !Reach(E, e.name, e.name)
    requires forall i :: 0 <= i < |s| ==> !Reach(E, s[i].name, e.name)
    ensures Follows(E, s + [e])
  {
  }

  /** Nothing listed before the last name of an order reaches that name, nor does it reach itself. */
  lemma EarlierDoNotReach(cfg: Config, templates: map<Name, Parse>, nodes: set<Name>, E: set<(Name, Name)>,
                          order: seq<Name>, k: nat)
    requires DependencyOrder(nodes, E, order) && Within(nodes, E) && k < |order|
    ensures !Reach(E, order[k], order[k])
    ensures forall e :: e in Listing(cfg, templates, order[..k]) ==> !Reach(E, e.name, order[k])
  {
    var s := Listing(cfg, templates, order[..k]);
    ListingMembers(cfg, templates, order[..k]);
    if Reach(E, order[k], order[k]) {
      OrderedReach(E, order, k, k);
    }
    forall e | e in s ensures !Reach(E, e.name, order[k]) {
      var m :| 0 <= m < k && order[m] == e.name;
      if Reach(E, e.name, order[k]) {
        OrderedReach(E, order, m, k);
      }
    }
  }

  /** Dropping names from a dependencies-first order keeps it dependencies-first, across what was dropped. */
  lemma {:induction false} ListingFollows(cfg: Config, templates: map<Name, Parse>, nodes: set<Name>,
                                          E: set<(Name, Name)>, order: seq<Name>, k: nat)
    requires DependencyOrder(nodes, E, order) && Within(nodes, E) && k <= |order|
    ensures Follows(E, Listing(cfg, templates, order[..k]))
  {
    if k > 0 {
      var n := order[k - 1];
      ListingFollows(cfg, templates, nodes, E, order, k - 1);
      EarlierDoNotReach(cfg, templates, nodes, E, order, k - 1);
      assert order[..k] == order[..k - 1] + [n];
      ListingSnoc(cfg, templates, order[..k - 1], n);
      if n in templates {
        FollowsSnoc(E, Listing(cfg, templates, order[..k - 1]), EntryOf(cfg, templates, n));
      }
    }
  }
}
