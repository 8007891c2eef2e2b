/** Picking some elements of a sequence, in order. */
module Selection {

  /** `idx` lists the positions of the elements of `s` that are in `K`, ascending; `r` has those elements. */
  ghost predicate Picks<T(!new)>(s: seq<T>, K: set<T>, idx: seq<nat>, r: seq<T>) {
    && |idx| == |r|
    && (forall k :: 0 <= k < |idx| ==> idx[k] < |s| && r[k] == s[idx[k]])
    && (forall j, k :: 0 <= j < k < |idx| ==> idx[j] < idx[k])
    && (forall i: nat :: i < |s| ==> (i in idx <==> s[i] in K))
  }

  /** `r` has every occurrence in `s` of the elements of `K`, nothing else, in the order of `s`. */
  ghost predicate Keeps<T(!new)>(s: seq<T>, K: set<T>, r: seq<T>) {
    exists idx :: Picks(s, K, idx, r)
  }

  lemma KeepsNothing<T(!new)>(K: set<T>)
    ensures Keeps<T>([], K, [])
  {
    assert Picks<T>([], K, [], []);
  }

  lemma KeepsSnoc<T(!new)>(s: seq<T>, K: set<T>, r: seq<T>, x: T)
    requires Keeps(s, K, r)
    ensures Keeps(s + [x], K, r + if x in K then [x] else [])
  {
    var idx: seq<nat> :| Picks(s, K, idx, r);
    var next: seq<nat> := idx + if x in K then [|s|] else [];
    forall i: nat | i < |s| + 1 ensures i in next <==> (s + [x])[i] in K {
    }
    assert Picks(s + [x], K, next, r + if x in K then [x] else []);
  }

  /** Only the elements of `s` matter. */
  lemma KeepsSame<T(!new)>(s: seq<T>, K: set<T>, L: set<T>, r: seq<T>)
    requires Keeps(s, K, r) && forall x :: x in s ==> (x in K <==> x in L)
    ensures Keeps(s, L, r)
  {
    var idx: seq<nat> :| Picks(s, K, idx, r);
    assert Picks(s, L, idx, r);
  }
}
