/** Finite sets of indices and their sizes. */
module Sets {

  /** The indices 0 .. n-1. */
  function Range(n: nat): (s: set<int>)
    ensures forall j :: j in s <==> 0 <= j < n
    ensures |s| == n
  {
    if n == 0 then {} else Range(n - 1) + {n - 1}
  }

  /** A set of indices below n has at most n elements. */
  lemma {:induction false} IndexSetBounded(s: set<int>, n: nat)
    requires forall j :: j in s ==> 0 <= j < n
    ensures |s| <= n
  {
    if n == 0 {
      assert forall j :: j !in s;
      assert s == {};
    } else {
      IndexSetBounded(s - {n - 1}, n - 1);
    }
  }
}
