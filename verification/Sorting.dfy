/** Sorting a set of names by their text. */
module Sorting {
  import opened Graphs
  import opened Templates
  import opened Status

  predicate Less(a: string, b: string) {
    if b == "" then false
    else if a == "" then true
    else a[0] < b[0] || (a[0] == b[0] && Less(a[1..], b[1..]))
  }

  /** The order of texts: a proper prefix comes first, otherwise the first difference decides. */
  ghost predicate Precedes(a: string, b: string) {
    exists k :: 0 <= k <= |a| && k <= |b| && a[..k] == b[..k]
                && ((k == |a| && k < |b|) || (k < |a| && k < |b| && a[k] < b[k]))
  }

  lemma {:induction false} LessExactly(a: string, b: string)
    ensures Less(a, b) <==> Precedes(a, b)
  {
    if b == "" {
      assert !Precedes(a, b);
    } else if a == "" {
      assert a[..0] == b[..0];
    } else if a[0] != b[0] {
      if Less(a, b) {
        assert a[..0] == b[..0];
      }
      if Precedes(a, b) {
        var k :| 0 <= k <= |a| && k <= |b| && a[..k] == b[..k]
                 && ((k == |a| && k < |b|) || (k < |a| && k < |b| && a[k] < b[k]));
        assert k > 0 ==> a[..k][0] == b[..k][0];
      }
    } else {
      LessExactly(a[1..], b[1..]);
      PrecedesTail(a, b);
    }
  }

  lemma PrecedesTail(a: string, b: string)
    requires a != "" && b != "" && a[0] == b[0]
    ensures Precedes(a, b) <==> Precedes(a[1..], b[1..])
  {
    var c, d := a[1..], b[1..];
    if Precedes(c, d) {
      var k :| 0 <= k <= |c| && k <= |d| && c[..k] == d[..k]
               && ((k == |c| && k < |d|) || (k < |c| && k < |d| && c[k] < d[k]));
      assert a[..k + 1] == [a[0]] + c[..k] && b[..k + 1] == [b[0]] + d[..k];
    }
    if Precedes(a, b) {
      var k :| 0 <= k <= |a| && k <= |b| && a[..k] == b[..k]
               && ((k == |a| && k < |b|) || (k < |a| && k < |b| && a[k] < b[k]));
      assert k > 0;
      assert c[..k - 1] == a[..k][1..] && d[..k - 1] == b[..k][1..];
    }
  }

  lemma {:induction false} LessTrans(a: string, b: string, c: string)
    requires Less(a, b) && Less(b, c)
    ensures Less(a, c)
  {
    if a != "" && a[0] == b[0] == c[0] {
      LessTrans(a[1..], b[1..], c[1..]);
    }
  }

  lemma {:induction false} LessTotal(a: string, b: string)
    ensures a == b || Less(a, b) || Less(b, a)
  {
    if a != "" && b != "" && a[0] == b[0] {
      LessTotal(a[1..], b[1..]);
      assert a == [a[0]] + a[1..] && b == [b[0]] + b[1..];
    }
  }

  lemma {:induction false} LessIrreflexive(a: string)
    ensures !Less(a, a)
  {
    if a != "" {
      LessIrreflexive(a[1..]);
    }
  }

  lemma LessAsymmetric(a: string, b: string)
    requires Less(a, b)
    ensures !Less(b, a)
  {
    LessIrreflexive(a);
    if Less(b, a) {
      LessTrans(a, b, a);
    }
  }

  /** Every non-empty set of names has a greatest one. */
  lemma {:induction false} Greatest(s: set<Name>) returns (m: Name)
    requires s != {}
    ensures m in s && forall x :: x in s && x != m ==> Less(x.text, m.text)
  {
    m :| m in s;
    if s != {m} {
      var n := Greatest(s - {m});
      LessTotal(m.text, n.text);
      if Less(m.text, n.text) {
        m := n;
      } else {
        forall x | x in s && x != m && x != n ensures Less(x.text, m.text) {
          LessTrans(x.text, n.text, m.text);
        }
      }
    }
  }

  predicate Ascending(s: seq<Name>) {
    forall i, j :: 0 <= i < j < |s| ==> Less(s[i].text, s[j].text)
  }

  /** The smallest name of a non-empty set. */
  method Least(s: set<Name>) returns (m: Name)
    requires s != {}
    ensures m in s && forall x :: x in s && x != m ==> Less(m.text, x.text)
  {
    m :| m in s;
    var todo := s - {m};
    while todo != {}
      invariant todo <= s && m in s - todo
      invariant forall x :: x in s - todo && x != m ==> Less(m.text, x.text)
    {
      var x :| x in todo;
      LessTotal(m.text, x.text);
      if Less(x.text, m.text) {
        forall y | y in s - todo && y != m ensures Less(x.text, y.text) {
          LessTrans(x.text, m.text, y.text);
        }
        m := x;
      }
      todo := todo - {x};
    }
  }

  /** `sorted(s)`: the names of `s` in ascending order. */
  method Sort(s: set<Name>) returns (l: seq<Name>)
    ensures Ascending(l) && Distinct(l)
    ensures forall i, j :: 0 <= i < j < |l| ==> Precedes(l[i].text, l[j].text)
    ensures forall x :: x in l <==> x in s
  {
    l := [];
    var todo := s;
    while todo != {}
      invariant todo <= s && Ascending(l)
      invariant forall x :: x in l <==> x in s - todo
      invariant forall x, y :: x in l && y in todo ==> Less(x.text, y.text)
    {
      var m := Least(todo);
      forall i | 0 <= i < |l| ensures Less(l[i].text, m.text) {
        assert l[i] in l;
      }
      l := l + [m];
      todo := todo - {m};
    }
    forall i, j | 0 <= i < j < |l| ensures l[i] != l[j] && Precedes(l[i].text, l[j].text) {
      LessIrreflexive(l[i].text);
      LessExactly(l[i].text, l[j].text);
    }
  }

  /** The lines are about different names, in ascending order. */
  ghost predicate Rising(lines: seq<Line>) {
    forall i, j :: 0 <= i < j < |lines| ==> Less(lines[i].name.text, lines[j].name.text)
  }

  /** Lines about some of the first `k` sorted names, in that order. */
  ghost predicate LinesInOrder(lines: seq<Line>, sorted: seq<Name>, k: nat)
    requires k <= |sorted|
  {
    Rising(lines) && forall i :: 0 <= i < |lines| ==> lines[i].name in sorted[..k]
  }

  lemma NextLine(lines: seq<Line>, more: seq<Line>, sorted: seq<Name>, k: nat)
    requires k < |sorted| && Ascending(sorted) && LinesInOrder(lines, sorted, k)
    requires more == [] || (|more| == 1 && more[0].name == sorted[k])
    ensures LinesInOrder(lines + more, sorted, k + 1)
  {
    assert sorted[..k + 1] == sorted[..k] + [sorted[k]];
    forall i | 0 <= i < |lines| ensures Less(lines[i].name.text, sorted[k].text) {
      var m :| 0 <= m < k && sorted[m] == lines[i].name;
    }
  }
}
