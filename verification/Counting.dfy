/** Cardinality facts shared by the models. */
module Counting {

  lemma {:induction false} SubsetCount<A>(a: set<A>, b: set<A>)
    requires a <= b
    ensures |a| <= |b|
  {
    if a != {} {
      var x :| x in a;
      SubsetCount(a - {x}, b - {x});
    }
  }

  lemma {:induction false} DistinctCount<A(!new)>(s: seq<A>, elems: set<A>)
    requires forall i, j :: 0 <= i < j < |s| ==> s[i] != s[j]
    requires forall x :: x in s <==> x in elems
    ensures |s| == |elems|
  {
    if |s| == 0 {
      assert elems == {};
    } else {
      var last := s[|s| - 1];
      var rest := s[..|s| - 1];
      assert s == rest + [last];
      DistinctCount(rest, elems - {last});
    }
  }

  lemma RangeCount(lo: nat, hi: nat, elems: set<int>)
    requires lo <= hi && forall i :: i in elems <==> lo <= i < hi
    ensures |elems| == hi - lo
  {
    var s := seq(hi - lo, i => lo + i);
    forall x ensures x in s <==> x in elems {
      if lo <= x < hi {
        assert s[x - lo] == x;
      }
    }
    DistinctCount(s, elems);
  }

  /** A map has at most as many values as keys. */
  lemma {:induction false} ValuesCount<A, B>(m: map<A, B>)
    ensures |m.Values| <= |m.Keys|
  {
    if m.Keys == {} {
      assert m.Values == {};
    } else {
      var k :| k in m.Keys;
      var rest := m - {k};
      ValuesCount(rest);
      assert rest.Keys == m.Keys - {k};
      forall v | v in m.Values ensures v in rest.Values + {m[k]} {
        var j :| j in m && m[j] == v;
        assert j == k || rest[j] == v;
      }
      SubsetCount(m.Values, rest.Values + {m[k]});
    }
  }
}
