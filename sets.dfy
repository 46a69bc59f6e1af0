/** Facts about finite sets of integers that the slot router and the callback table rely on. */
module Sets {

  /** A set that is not empty has an element. */
  lemma HasElement(s: set<int>)
    requires s != {}
    ensures exists k :: k in s
  {
    if forall k :: k !in s {
      assert false;
    }
  }

  /** A set that is not empty has a least element (what `sorted(...)` yields first). */
  lemma {:induction false} HasMinimum(s: set<int>)
    requires s != {}
    ensures exists m :: m in s && forall x :: x in s ==> m <= x
    decreases |s|
  {
    HasElement(s);
    var y :| y in s;
    var t := s - {y};
    if t == {} {
      assert forall x :: x in s ==> x == y || x in t;
      assert y in s && forall x :: x in s ==> y <= x;
    } else {
      HasMinimum(t);
      var m :| m in t && forall x :: x in t ==> m <= x;
      assert forall x :: x in s ==> x == y || x in t;
      if y < m {
        assert y in s && forall x :: x in s ==> y <= x;
      } else {
        assert m in s && forall x :: x in s ==> m <= x;
      }
    }
  }

  /** The integers 0 .. n - 1. */
  function Below(n: nat): (r: set<int>)
    ensures forall i :: i in r <==> 0 <= i < n
  {
    if n == 0 then {} else Below(n - 1) + {n - 1}
  }

  lemma {:induction false} BelowSize(n: nat)
    ensures |Below(n)| == n
  {
    if n > 0 {
      BelowSize(n - 1);
      var b := Below(n - 1);
      assert n - 1 !in b;
      assert |b + {n - 1}| == |b| + 1;
    }
  }

  /** A subset as large as its superset is the whole superset. */
  lemma SubsetOfSameSize(a: set<int>, b: set<int>)
    requires a <= b && |a| == |b|
    ensures a == b
  {
    var d := b - a;
    assert b == a + d;
    assert a * d == {};
    assert d == {};
  }

  /** A proper subset is strictly smaller. */
  lemma ProperSubsetSmaller(a: set<int>, b: set<int>, x: int)
    requires a <= b && x in b && x !in a
    ensures |a| < |b|
  {
    var d := b - a;
    assert b == a + d;
    assert a * d == {};
    assert x in d;
  }
}
