/** Finite directed graphs as sets of edges: paths, reachability, cycles, and dependencies-first orders. */
module Graphs {

  /** `mid` lists the nodes strictly between `a` and `b` on a walk of at least one edge. */
  ghost predicate Path<T(!new)>(E: set<(T, T)>, a: T, mid: seq<T>, b: T)
    decreases |mid|
  {
    if |mid| == 0 then (a, b) in E
    else (a, mid[0]) in E && Path(E, mid[0], mid[1..], b)
  }

  /** `b` can be reached from `a` in one or more steps. */
  ghost predicate Reach<T(!new)>(E: set<(T, T)>, a: T, b: T) {
    exists mid: seq<T> :: Path(E, a, mid, b)
  }

  ghost predicate Cyclic<T(!new)>(E: set<(T, T)>) {
    exists x: T :: Reach(E, x, x)
  }

  /** Following edges never leaves `S`. */
  ghost predicate Closed<T(!new)>(E: set<(T, T)>, S: set<T>) {
    forall a, b :: (a, b) in E && a in S ==> b in S
  }

  predicate Distinct<T(==)>(s: seq<T>) {
    forall i, j :: 0 <= i < j < |s| ==> s[i] != s[j]
  }

  /** In `order`, whatever a node points to stands before it. */
  ghost predicate TargetsFirst<T>(E: set<(T, T)>, order: seq<T>) {
    forall i, j :: 0 <= i < |order| && 0 <= j < |order| && (order[i], order[j]) in E ==> j < i
  }

  lemma DistinctConcat<T>(a: seq<T>, b: seq<T>)
    requires Distinct(a) && Distinct(b)
    requires forall x :: x in b ==> x !in a
    ensures Distinct(a + b)
  {
    var s := a + b;
    forall i, j | 0 <= i < j < |s| ensures s[i] != s[j] {
      if i < |a| <= j {
        assert s[i] in a && s[j] in b;
      }
    }
  }

  lemma ReachEdge<T(!new)>(E: set<(T, T)>, a: T, b: T)
    requires (a, b) in E
    ensures Reach(E, a, b)
  {
    assert Path(E, a, [], b);
  }

  lemma {:induction false} PathConcat<T(!new)>(E: set<(T, T)>, a: T, m: seq<T>, b: T, n: seq<T>, c: T)
    requires Path(E, a, m, b) && Path(E, b, n, c)
    ensures Path(E, a, m + [b] + n, c)
    decreases |m|
  {
    var w := m + [b] + n;
    if |m| == 0 {
      assert w[1..] == n;
    } else {
      PathConcat(E, m[0], m[1..], b, n, c);
      assert w[1..] == m[1..] + [b] + n;
    }
  }

  lemma ReachTrans<T(!new)>(E: set<(T, T)>, a: T, b: T, c: T)
    requires Reach(E, a, b) && Reach(E, b, c)
    ensures Reach(E, a, c)
  {
    var m :| Path(E, a, m, b);
    var n :| Path(E, b, n, c);
    PathConcat(E, a, m, b, n, c);
  }

  lemma {:induction false} ClosedPath<T(!new)>(E: set<(T, T)>, S: set<T>, a: T, mid: seq<T>, b: T)
    requires Closed(E, S) && Path(E, a, mid, b)
    requires forall c :: (a, c) in E ==> c in S
    ensures b in S
    decreases |mid|
  {
    if |mid| > 0 {
      ClosedPath(E, S, mid[0], mid[1..], b);
    }
  }

  /** A closed set holding the successors of `a` holds everything reachable from `a`. */
  lemma ClosedReach<T(!new)>(E: set<(T, T)>, S: set<T>, a: T, b: T)
    requires Closed(E, S) && Reach(E, a, b)
    requires forall c :: (a, c) in E ==> c in S
    ensures b in S
  {
    var mid :| Path(E, a, mid, b);
    ClosedPath(E, S, a, mid, b);
  }

  lemma {:induction false} TransferPath<T(!new)>(E: set<(T, T)>, F: set<(T, T)>, S: set<T>, a: T, mid: seq<T>, b: T)
    requires forall x, y :: (x, y) in E && x in S ==> (x, y) in F && y in S
    requires a in S && Path(E, a, mid, b)
    ensures b in S && Path(F, a, mid, b)
    decreases |mid|
  {
    if |mid| > 0 {
      TransferPath(E, F, S, mid[0], mid[1..], b);
    }
  }

  /** Where `E` stays inside `S` and `F` has all its edges there, walks of `E` from `S` are walks of `F`. */
  lemma TransferReach<T(!new)>(E: set<(T, T)>, F: set<(T, T)>, S: set<T>, a: T, b: T)
    requires forall x, y :: (x, y) in E && x in S ==> (x, y) in F && y in S
    requires a in S && Reach(E, a, b)
    ensures b in S && Reach(F, a, b)
  {
    var mid :| Path(E, a, mid, b);
    TransferPath(E, F, S, a, mid, b);
  }

  lemma {:induction false} MonotonePath<T(!new)>(E: set<(T, T)>, F: set<(T, T)>, a: T, mid: seq<T>, b: T)
    requires E <= F && Path(E, a, mid, b)
    ensures Path(F, a, mid, b)
    decreases |mid|
  {
    if |mid| > 0 {
      MonotonePath(E, F, mid[0], mid[1..], b);
    }
  }

  lemma MonotoneReach<T(!new)>(E: set<(T, T)>, F: set<(T, T)>, a: T, b: T)
    requires E <= F && Reach(E, a, b)
    ensures Reach(F, a, b)
  {
    var mid :| Path(E, a, mid, b);
    MonotonePath(E, F, a, mid, b);
  }

  /** A walk starts with some edge. */
  lemma FirstStep<T(!new)>(E: set<(T, T)>, a: T, b: T) returns (c: T)
    requires Reach(E, a, b)
    ensures (a, c) in E && (c == b || Reach(E, c, b))
  {
    var mid :| Path(E, a, mid, b);
    if |mid| == 0 {
      c := b;
    } else {
      c := mid[0];
      assert Path(E, c, mid[1..], b);
    }
  }

  ghost predicate HasNext<T(!new)>(E: set<(T, T)>, R: set<T>, x: T) {
    exists y :: y in R && (x, y) in E
  }

  /** If every node of a non-empty finite set has a successor in it, there is a cycle. */
  lemma NoSinkCyclic<T(!new)>(E: set<(T, T)>, R: set<T>)
    requires R != {}
    requires forall x {:trigger HasNext(E, R, x)} :: x in R ==> HasNext(E, R, x)
    ensures Cyclic(E)
  {
    var x :| x in R;
    ChaseCycle(E, R, {}, x);
  }

  lemma {:induction false} ChaseCycle<T(!new)>(E: set<(T, T)>, R: set<T>, seen: set<T>, cur: T)
    requires cur in R && seen <= R && cur !in seen
    requires forall x {:trigger HasNext(E, R, x)} :: x in R ==> HasNext(E, R, x)
    requires forall x :: x in seen ==> Reach(E, x, cur)
    ensures Cyclic(E)
    decreases R - seen
  {
    assert HasNext(E, R, cur);
    var next :| next in R && (cur, next) in E;
    ReachEdge(E, cur, next);
    if next in seen {
      ReachTrans(E, cur, next, cur);
    } else if next != cur {
      forall x | x in seen + {cur} ensures Reach(E, x, next) {
        if x != cur {
          ReachTrans(E, x, cur, next);
        }
      }
      ChaseCycle(E, R, seen + {cur}, next);
    }
  }

  lemma {:induction false} OrderedPath<T(!new)>(E: set<(T, T)>, order: seq<T>, i: nat, mid: seq<T>, j: nat)
    requires i < |order| && j < |order| && Path(E, order[i], mid, order[j])
    requires TargetsFirst(E, order)
    requires forall a, b :: (a, b) in E ==> b in order
    ensures j < i
    decreases |mid|
  {
    if |mid| > 0 {
      var k :| 0 <= k < |order| && order[k] == mid[0];
      OrderedPath(E, order, k, mid[1..], j);
    }
  }

  /** A dependencies-first order respects reachability, not only single edges. */
  lemma OrderedReach<T(!new)>(E: set<(T, T)>, order: seq<T>, i: nat, j: nat)
    requires i < |order| && j < |order| && Reach(E, order[i], order[j])
    requires TargetsFirst(E, order)
    requires forall a, b :: (a, b) in E ==> b in order
    ensures j < i
  {
    var mid :| Path(E, order[i], mid, order[j]);
    OrderedPath(E, order, i, mid, j);
  }

  /** Only an acyclic graph has a dependencies-first order of its nodes. */
  lemma OrderedAcyclic<T(!new)>(E: set<(T, T)>, order: seq<T>)
    requires TargetsFirst(E, order)
    requires forall a, b :: (a, b) in E ==> b in order
    ensures !Cyclic(E)
  {
    if x :| Reach(E, x, x) {
      ClosedReach(E, (set y | y in order), x, x);
      var i :| 0 <= i < |order| && order[i] == x;
      OrderedReach(E, order, i, i);
    }
  }
}
