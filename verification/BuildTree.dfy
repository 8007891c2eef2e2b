/** The printed build graph of one template (`do_print_build_graph`). */
module BuildTree {
  import opened Graphs
  import opened Templates
  import opened DepGraph

  /** One printed line: a template name, indented by `level` blanks. */
  datatype Row = Row(level: nat, name: Name)

  /** Row `k` hangs below row `j`: the nearest earlier row one level up, whose template lists it. */
  ghost predicate HangsBelow(view: View, out: seq<Row>, j: nat, k: nat)
    requires j < k < |out|
  {
    && out[j].level + 1 == out[k].level
    && out[k].name in Deps(view, out[j].name)
    && forall m :: j < m < k ==> out[m].level >= out[k].level
  }

  /** Every row after `start` hangs below some row from `start` on. */
  ghost predicate Tree(view: View, out: seq<Row>, start: nat) {
    forall k :: start < k < |out| ==> HasParent(view, out, start, k)
  }

  ghost predicate HasParent(view: View, out: seq<Row>, start: nat, k: nat)
    requires k < |out|
  {
    exists j :: start <= j < k && HangsBelow(view, out, j, k)
  }

  ghost predicate Earlier(s: seq<Name>, x: Name, y: Name) {
    exists a, b :: 0 <= a < b < |s| && s[a] == x && s[b] == y
  }

  /** Rows below the same row come in the order in which its template lists them. */
  ghost predicate SiblingsInOrder(view: View, out: seq<Row>, start: nat) {
    forall j, k, l :: start <= j < k < l < |out| && HangsBelow(view, out, j, k) && HangsBelow(view, out, j, l)
      ==> Earlier(Deps(view, out[j].name), out[k].name, out[l].name)
  }

  /** The rows one level below `level`, after `start`, are about the given names. */
  ghost predicate ChildrenAmong(out: seq<Row>, start: nat, level: nat, names: seq<Name>) {
    forall k :: start < k < |out| && out[k].level == level + 1 ==> out[k].name in names
  }

  ghost function NamesFrom(out: seq<Row>, start: nat): set<Name> {
    set k | start <= k < |out| :: out[k].name
  }

  ghost predicate DistinctFrom(out: seq<Row>, start: nat) {
    forall i, j :: start <= i < j < |out| ==> out[i].name != out[j].name
  }

  /** Row `j` is in the subtree of row `i`. */
  ghost predicate Inside(out: seq<Row>, i: nat, j: nat)
    requires i <= j < |out|
  {
    forall m :: i < m <= j ==> out[m].level > out[i].level
  }

  /** `d` has a row after `start`: that of row `i` itself, an earlier one, or one in the subtree of row `i`. */
  ghost predicate Covered(out: seq<Row>, start: nat, i: nat, d: Name)
    requires i < |out|
  {
    exists j :: start < j < |out| && out[j].name == d && (j <= i || Inside(out, i, j))
  }

  /**
   * The search goes depth first: by the time it leaves a row, everything listed there was printed, unless it
   * is among the names `before` that were printed before. Rows from `start` on.
   */
  ghost predicate DepthFirst(view: View, out: seq<Row>, start: nat, before: set<Name>) {
    forall i, d :: start <= i < |out| && d in Deps(view, out[i].name) ==> d in before || Covered(out, start, i, d)
  }

  /** The same for the rows after `start`, whose own dependencies are still being printed. */
  ghost predicate DepthFirstBelow(view: View, out: seq<Row>, start: nat, before: set<Name>) {
    forall i, d :: start < i < |out| && d in Deps(view, out[i].name) ==> d in before || Covered(out, start, i, d)
  }

  /** Printing one more subtree, at the end. */
  lemma DeeperFirst(view: View, out1: seq<Row>, start: nat, before: set<Name>, d: Name, out2: seq<Row>)
    requires start < |out1| < |out2| && out1 <= out2 && out2[|out1|].name == d
    requires DepthFirstBelow(view, out1, start, before)
    requires DepthFirst(view, out2, |out1|, before + NamesFrom(out1, start + 1) + {d})
    ensures DepthFirstBelow(view, out2, start, before)
  {
    var mid := |out1|;
    forall i, e | start < i < |out2| && e in Deps(view, out2[i].name) && e !in before
      ensures Covered(out2, start, i, e)
    {
      if i < mid {
        assert Covered(out1, start, i, e);
        var j :| start < j < |out1| && out1[j].name == e && (j <= i || Inside(out1, i, j));
        assert out2[j].name == e && (j <= i || Inside(out2, i, j));
      } else if e in NamesFrom(out1, start + 1) {
        var j :| start + 1 <= j < mid && out1[j].name == e;
        assert out2[j].name == e;
      } else if e != d {
        assert Covered(out2, mid, i, e);
      }
    }
  }

  /** A row is left once all its dependencies are printed. */
  lemma LeavesRow(view: View, out: seq<Row>, start: nat, before: set<Name>)
    requires start < |out| && DepthFirstBelow(view, out, start, before)
    requires forall k :: start < k < |out| ==> out[k].level > out[start].level
    requires forall d :: d in Deps(view, out[start].name) ==> d in before + NamesFrom(out, start + 1)
    ensures DepthFirst(view, out, start, before)
  {
    forall d | d in Deps(view, out[start].name) && d !in before ensures Covered(out, start, start, d) {
      var j :| start + 1 <= j < |out| && out[j].name == d;
      assert Inside(out, start, j);
    }
  }

  /** What printing one template with its dependencies adds: `names` below a row for it at `level`. */
  ghost predicate Printed(view: View, out0: seq<Row>, n: Name, level: nat, names: set<Name>, out1: seq<Row>) {
    var start := |out0|;
    && out0 < out1
    && out1[start] == Row(level, n)
    && (forall k :: start < k < |out1| ==> out1[k].level > level)
    && Tree(view, out1, start)
    && SiblingsInOrder(view, out1, start)
    && DistinctFrom(out1, start + 1)
    && NamesFrom(out1, start + 1) == names
  }

  lemma PrintedNothing(view: View, out: seq<Row>, n: Name, level: nat)
    ensures Printed(view, out, n, level, {}, out + [Row(level, n)])
  {
  }

  lemma TreeAppends(view: View, out0: seq<Row>, n: Name, level: nat, A: set<Name>, out1: seq<Row>, d: Name,
                    B: set<Name>, out2: seq<Row>)
    requires Printed(view, out0, n, level, A, out1) && d in Deps(view, n)
    requires Printed(view, out1, d, level + 1, B, out2)
    ensures Tree(view, out2, |out0|)
  {
    var start := |out0|;
    forall k | start < k < |out2| ensures HasParent(view, out2, start, k) {
      if k < |out1| {
        assert HasParent(view, out1, start, k);
        var j :| start <= j < k && HangsBelow(view, out1, j, k);
        assert HangsBelow(view, out2, j, k);
      } else if k == |out1| {
        assert HangsBelow(view, out2, start, k);
      } else {
        assert HasParent(view, out2, |out1|, k);
        var j :| |out1| <= j < k && HangsBelow(view, out2, j, k);
      }
    }
  }

  lemma SiblingsAppend(view: View, out0: seq<Row>, n: Name, level: nat, A: set<Name>, out1: seq<Row>, i: nat, d: Name,
                       B: set<Name>, out2: seq<Row>)
    requires Printed(view, out0, n, level, A, out1) && i < |Deps(view, n)| && d == Deps(view, n)[i]
    requires Printed(view, out1, d, level + 1, B, out2)
    requires ChildrenAmong(out1, |out0|, level, Deps(view, n)[..i])
    ensures SiblingsInOrder(view, out2, |out0|)
  {
    var start, mid, deps := |out0|, |out1|, Deps(view, n);
    forall j, k, l | start <= j < k < l < |out2| && HangsBelow(view, out2, j, k) && HangsBelow(view, out2, j, l)
      ensures Earlier(Deps(view, out2[j].name), out2[k].name, out2[l].name)
    {
      if l < mid {
        assert HangsBelow(view, out1, j, k) && HangsBelow(view, out1, j, l);
      } else if j < mid {
        assert l == mid;
        assert out2[j].level == level;
        assert j == start && out1[k].level == level + 1;
        var a :| 0 <= a < i && deps[a] == out1[k].name;
        assert deps[i] == out2[l].name;
      }
    }
  }

  lemma NamesAppend(out1: seq<Row>, out2: seq<Row>, s: nat, A: set<Name>, d: Name, B: set<Name>)
    requires s <= |out1| < |out2| && out1 <= out2 && out2[|out1|].name == d
    requires DistinctFrom(out1, s) && NamesFrom(out1, s) == A
    requires DistinctFrom(out2, |out1| + 1) && NamesFrom(out2, |out1| + 1) == B
    requires d !in A + B && A !! B
    ensures DistinctFrom(out2, s) && NamesFrom(out2, s) == A + {d} + B
  {
    forall k | s <= k < |out2| ensures out2[k].name in if k < |out1| then A else if k == |out1| then {d} else B {
      if k < |out1| {
        assert out1[k].name in NamesFrom(out1, s);
      } else if k > |out1| {
        assert out2[k].name in NamesFrom(out2, |out1| + 1);
      }
    }
    forall x | x in A + {d} + B ensures x in NamesFrom(out2, s) {
      if x in A {
        var k :| s <= k < |out1| && out1[k].name == x;
        assert out2[k].name == x;
      } else if x == d {
        assert out2[|out1|].name == x;
      } else {
        var k :| |out1| + 1 <= k < |out2| && out2[k].name == x;
      }
    }
  }

  /** Printing one more dependency below its parent. */
  lemma PrintedAppends(view: View, out0: seq<Row>, n: Name, level: nat, A: set<Name>, out1: seq<Row>, i: nat, d: Name,
                       B: set<Name>, out2: seq<Row>)
    requires Printed(view, out0, n, level, A, out1) && i < |Deps(view, n)| && d == Deps(view, n)[i]
    requires Printed(view, out1, d, level + 1, B, out2)
    requires ChildrenAmong(out1, |out0|, level, Deps(view, n)[..i])
    requires d !in A + B && A !! B
    ensures Printed(view, out0, n, level, A + {d} + B, out2)
    ensures ChildrenAmong(out2, |out0|, level, Deps(view, n)[..i + 1])
  {
    hide Tree;
    hide SiblingsInOrder;
    hide DistinctFrom;
    hide NamesFrom;
    TreeAppends(view, out0, n, level, A, out1, d, B, out2);
    SiblingsAppend(view, out0, n, level, A, out1, i, d, B, out2);
    NamesAppend(out1, out2, |out0| + 1, A, d, B);
    assert Deps(view, n)[..i + 1] == Deps(view, n)[..i] + [d];
  }

  /** Names found so far stay justified when the traversal stops inside dependency `i`. */
  lemma StoppedInside(view: View, v0: set<Name>, deps: seq<Name>, i: nat, v1: set<Name>, v2: set<Name>)
    requires i < |deps| && ExploresNames(view, v0, deps[..i], v1)
    requires deps[i] !in v1 && v1 + {deps[i]} <= v2
    requires forall x :: x in v2 - (v1 + {deps[i]}) ==> Fresh(view, v1 + {deps[i]}, Deps(view, deps[i]), x)
    ensures forall x :: x in v2 - v0 ==> Fresh(view, v0, deps, x)
  {
    var d := deps[i];
    assert AsSet(deps[..i]) <= AsSet(deps) && AsSet([d]) <= AsSet(deps);
    forall x | x in v2 - v0 ensures Fresh(view, v0, deps, x) {
      if x in v1 {
        FreshGrows(view, v0, v0, deps[..i], deps, x);
      } else {
        if x == d {
          assert d in [d];
          assert Fresh(view, v1, [d], d);
        } else {
          FreshBelow(view, v1, d, x);
        }
        FreshGrows(view, v0, v1, [d], deps, x);
      }
    }
  }

  class Printer {
    const view: View
    var built: set<Name>
    var out: seq<Row>

    constructor (view: View)
      ensures this.view == view && built == {} && out == []
    {
      this.view := view;
      built, out := {}, [];
    }

    /** Prints `n` and, below it, every dependency not printed yet; `false` if a template cannot be read. */
    method PrintDeps(n: Name, deps: seq<Name>, level: nat) returns (ok: bool)
      requires deps == Deps(view, n)
      modifies this
      ensures old(built) <= built
      ensures forall x :: x in built - old(built) ==> Fresh(view, old(built), deps, x)
      ensures ok <==> AllGood(view, built - old(built))
      ensures ok ==> ExploresNames(view, old(built), deps, built)
      ensures ok ==> Printed(view, old(out), n, level, built - old(built), out)
      ensures ok ==> DepthFirst(view, out, |old(out)|, old(built))
      decreases view.Keys - built
    {
      hide SiblingsInOrder;
      hide NamesFrom;
      hide Fresh;
      hide Tree;
      hide DistinctFrom;
      hide DepthFirst;
      out := out + [Row(level, n)];
      PrintedNothing(view, old(out), n, level);
      ghost var v0 := built;
      assert v0 - v0 == {};
      for i := 0 to |deps|
        invariant ExploresNames(view, v0, deps[..i], built) && AllGood(view, built - v0)
        invariant Printed(view, old(out), n, level, built - v0, out)
        invariant ChildrenAmong(out, |old(out)|, level, deps[..i])
        invariant DepthFirstBelow(view, out, |old(out)|, v0)
      {
        ghost var v1, out1 := built, out;
        var d := deps[i];
        assert deps[..i + 1] == deps[..i] + [d];
        if d in built {
          assert v1 - v1 == {};
          ComposeNames(view, v0, deps[..i], v1, [d], v1);
          continue;
        }
        built := built + {d};
        var p := Read(view, d);
        if !p.Parsed? {
          StoppedInside(view, v0, deps, i, v1, built);
          assert d in built - v0;
          return false;
        }
        var good := PrintDeps(d, p.deps, level + 1);
        if !good {
          StoppedInside(view, v0, deps, i, v1, built);
          assert built - (v1 + {d}) <= built - v0;
          return false;
        }
        DescendNames(view, v1, d, built);
        ComposeNames(view, v0, deps[..i], v1, [d], built);
        PrintedAppends(view, old(out), n, level, v1 - v0, out1, i, d, built - (v1 + {d}), out);
        assert built - v0 == (v1 - v0) + {d} + (built - (v1 + {d}));
        assert v1 + {d} == v0 + (v1 - v0) + {d};
        DeeperFirst(view, out1, |old(out)|, v0, d, out);
      }
      assert deps[..|deps|] == deps;
      LeavesRow(view, out, |old(out)|, v0);
      return true;
    }
  }

  /** Everything printed below the root is what can be reached from it. */
  lemma FreshFromNothing(view: View, n: Name, x: Name)
    ensures Fresh(view, {}, Deps(view, n), x) <==> Reach(AllEdges(view), n, x)
  {
    var E := AllEdges(view);
    assert FreshEdges(view, {}) == E;
    if Fresh(view, {}, Deps(view, n), x) {
      FreshIsBehind(view, {}, n, x);
    }
    if Reach(E, n, x) {
      var c := FirstStep(E, n, x);
      assert c in Deps(view, n);
    }
  }

  /**
   * Prints a depth-first spanning tree of everything behind `root`, in pre-order; it fails exactly if some
   * template there cannot be read.
   */
  method PrintGraph(view: View, root: Name) returns (ok: bool, out: seq<Row>)
    ensures ok <==> Good(view, root) && forall x :: Reach(AllEdges(view), root, x) ==> Good(view, x)
    ensures ok ==> |out| > 0 && out[0] == Row(0, root)
    ensures ok ==> Tree(view, out, 0) && SiblingsInOrder(view, out, 0) && DistinctFrom(out, 1)
    ensures ok ==> forall i, d :: 0 <= i < |out| && d in Deps(view, out[i].name) ==> Covered(out, 0, i, d)
    ensures ok ==> forall x :: x in NamesFrom(out, 1) <==> Reach(AllEdges(view), root, x)
  {
    var p := Read(view, root);
    if !p.Parsed? {
      return false, [];
    }
    var printer := new Printer(view);
    ok := printer.PrintDeps(root, p.deps, 0);
    out := printer.out;
    assert printer.built - {} == printer.built;
    forall x ensures Fresh(view, {}, Deps(view, root), x) <==> Reach(AllEdges(view), root, x) {
      FreshFromNothing(view, root, x);
    }
    if ok {
      NamesExactly(view, {}, Deps(view, root), printer.built);
    }
  }
}
