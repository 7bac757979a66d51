/** Finite sets of integers and their sizes. */
module Sets {
  predicate Within(p: int, lo: int, n: nat) {
    lo <= p < lo + n
  }

  function Interval(lo: int, n: nat): set<int> {
    set p: int | lo <= p < lo + n && Within(p, lo, n)
  }

  lemma {:induction false} IntervalSize(lo: int, n: nat)
    ensures |Interval(lo, n)| == n
  {
    if n == 0 {
      assert Interval(lo, n) == {};
    } else {
      IntervalSize(lo, n - 1);
      assert Interval(lo, n) == Interval(lo, n - 1) + {lo + n - 1};
    }
  }

  lemma SubsetSize<T>(a: set<T>, b: set<T>)
    requires a <= b
    ensures |a| <= |b| && (|a| == |b| ==> a == b)
  {
    assert b == a + (b - a);
  }
}
