/** The topological sorter the build engine relies on: groups of ready nodes, repeated until none is left. */
module TopoSort {
  import opened Graphs

  datatype Sorting<T> = Ordered(order: seq<T>) | CycleError

  /** `order` lists `nodes`, each once, every node after the nodes it depends on. */
  ghost predicate DependencyOrder<T(!new)>(nodes: set<T>, edges: set<(T, T)>, order: seq<T>) {
    && Distinct(order)
    && (forall x :: x in order <==> x in nodes)
    && TargetsFirst(edges, order)
  }

  ghost predicate Within<T(!new)>(nodes: set<T>, edges: set<(T, T)>) {
    forall a, b :: (a, b) in edges ==> a in nodes && b in nodes
  }

  /** Lists a set in some order. */
  method Enumerate<T(==)>(s: set<T>) returns (l: seq<T>)
    ensures Distinct(l)
    ensures forall x :: x in l <==> x in s
  {
    l := [];
    var todo := s;
    while todo != {}
      invariant todo <= s && Distinct(l)
      invariant forall x :: x in l <==> x in s - todo
    {
      var x :| x in todo;
      DistinctConcat(l, [x]);
      l := l + [x];
      todo := todo - {x};
    }
  }

  lemma AppendGroup<T(!new)>(edges: set<(T, T)>, order: seq<T>, group: seq<T>)
    requires Distinct(order) && Distinct(group) && TargetsFirst(edges, order)
    requires forall x :: x in group ==> x !in order
    requires forall a, b :: (a, b) in edges && a in order ==> b in order
    requires forall a, b :: (a, b) in edges && a in group ==> b in order
    ensures Distinct(order + group) && TargetsFirst(edges, order + group)
  {
    var all := order + group;
    DistinctConcat(order, group);
    forall k | |order| <= k < |all| ensures all[k] !in order {
      assert all[k] in group;
    }
    forall i, j | 0 <= i < |all| && 0 <= j < |all| && (all[i], all[j]) in edges
      ensures j < i
    {
      assert all[i] in (if i < |order| then order else group);
      assert all[j] in order;
    }
  }

  /** The nodes not done yet whose dependencies all are: what `get_ready()` hands out. */
  method GetReady<T(==, !new)>(nodes: set<T>, edges: set<(T, T)>, done: set<T>) returns (ready: set<T>)
    ensures ready <= nodes - done
    ensures forall a, b :: (a, b) in edges && a in ready ==> b in done
    ensures forall n {:trigger Waiting(edges, done, n)} :: n in nodes - done - ready ==> Waiting(edges, done, n)
  {
    ready := set n | n in nodes && n !in done && forall e <- edges :: e.0 == n ==> e.1 in done;
    forall n | n in nodes - done - ready ensures Waiting(edges, done, n) {
      var e :| e in edges && e.0 == n && e.1 !in done;
    }
  }

  method StaticOrder<T(==, !new)>(nodes: set<T>, edges: set<(T, T)>) returns (r: Sorting<T>)
    requires Within(nodes, edges)
    ensures r.Ordered? <==> !Cyclic(edges)
    ensures r.Ordered? ==> DependencyOrder(nodes, edges, r.order)
  {
    var order: seq<T> := [];
    var done: set<T> := {};
    var ready := GetReady(nodes, edges, done);
    while ready != {}
      invariant done <= nodes && ready <= nodes - done
      invariant Distinct(order) && TargetsFirst(edges, order) && Closed(edges, done)
      invariant forall x :: x in order <==> x in done
      invariant forall a, b :: (a, b) in edges && a in ready ==> b in done
      invariant forall n {:trigger Waiting(edges, done, n)} :: n in nodes - done - ready ==> Waiting(edges, done, n)
      decreases nodes - done
    {
      var group := Enumerate(ready);
      AppendGroup(edges, order, group);
      order := order + group;
      done := done + ready;
      ready := GetReady(nodes, edges, done);
    }
    if done == nodes {
      OrderedAcyclic(edges, order);
      return Ordered(order);
    }
    StuckIsCyclic(nodes, edges, done);
    return CycleError;
  }

  /** `n` still depends on a node that is not done. */
  ghost predicate Waiting<T(!new)>(edges: set<(T, T)>, done: set<T>, n: T) {
    exists e :: e in edges && e.0 == n && e.1 !in done
  }

  lemma StuckIsCyclic<T(!new)>(nodes: set<T>, edges: set<(T, T)>, done: set<T>)
    requires Within(nodes, edges) && done < nodes
    requires forall n {:trigger Waiting(edges, done, n)} :: n in nodes && n !in done ==> Waiting(edges, done, n)
    ensures Cyclic(edges)
  {
    var left := nodes - done;
    forall n | n in left ensures HasNext(edges, left, n) {
      assert Waiting(edges, done, n);
      var e :| e in edges && e.0 == n && e.1 !in done;
      assert (n, e.1) in edges;
    }
    var n :| n in nodes && n !in done;
    assert n in left;
    NoSinkCyclic(edges, left);
  }

  /** `prepare()`: succeeds exactly on acyclic graphs. */
  method Prepare<T(==, !new)>(nodes: set<T>, edges: set<(T, T)>) returns (ok: bool)
    requires Within(nodes, edges)
    ensures ok <==> !Cyclic(edges)
  {
    var r := StaticOrder(nodes, edges);
    ok := r.Ordered?;
  }
}
