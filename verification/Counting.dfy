/** Distinct numbers below a bound are no more than the bound. */
module Counting {
  import opened Basics

  lemma FirstBelow(q: seq<nat>, n: nat)
    requires forall i :: 0 <= i < |q| ==> q[i] < n
    ensures |q| > 0 ==> n > 0
  {
    if |q| > 0 { assert q[0] < n; }
  }

  lemma {:induction false} DistinctBelow(q: seq<nat>, n: nat)
    requires NoRepeats(q) && forall i :: 0 <= i < |q| ==> q[i] < n
    ensures |q| <= n
  {
    FirstBelow(q, n);
    if n > 0 && n - 1 in q {
      var p :| 0 <= p < |q| && q[p] == n - 1;
      var rest := q[..p] + q[p + 1..];
      assert forall i :: 0 <= i < |rest| ==> rest[i] == (if i < p then q[i] else q[i + 1]);
      DistinctBelow(rest, n - 1);
    } else if n > 0 {
      assert forall i :: 0 <= i < |q| ==> q[i] != n - 1;
      DistinctBelow(q, n - 1);
    }
  }
}
