/** Interleavings of CPUs: who makes a step, in order. A CPU that never calls, or that stops, is
    one that is not scheduled; every interleaving is such a sequence. */
module Interleaving {

  predicate Schedule(who: seq<nat>, cpus: nat) {
    forall i :: 0 <= i < |who| ==> who[i] < cpus
  }

  // ---------------------------------------------------------------- sums over CPUs

  function Sum(s: seq<nat>): nat {
    if |s| == 0 then 0 else Sum(s[..|s| - 1]) + s[|s| - 1]
  }

  /** When one CPU's number changes the sum changes by as much. */
  lemma {:induction false} SumUpdate(s: seq<nat>, c: nat, x: nat)
    requires c < |s|
    ensures Sum(s[c := x]) == Sum(s) + x - s[c]
  {
    var n := |s| - 1;
    var changed := s[c := x];
    if c == n {
      assert changed[..n] == s[..n];
    } else {
      assert changed[..n] == s[..n][c := x];
      SumUpdate(s[..n], c, x);
    }
  }

  lemma {:induction false} SumBound(s: seq<nat>, most: nat)
    requires forall c :: 0 <= c < |s| ==> s[c] <= most
    ensures Sum(s) <= |s| * most
  {
    if |s| > 0 {
      SumBound(s[..|s| - 1], most);
      Distribute(|s| - 1, most);
    }
  }

  lemma {:induction false} Distribute(n: nat, m: nat)
    ensures (n + 1) * m == n * m + m
  {
  }
}
