/** The sum of a sequence of natural numbers, and the size of a growing set of them. */
module Sums {
  function Sum(s: seq<nat>): nat {
    if s == [] then 0 else Sum(s[..|s| - 1]) + s[|s| - 1]
  }

  lemma {:induction false} SumUpdated(s: seq<nat>, k: nat, n: nat)
    requires k < |s|
    ensures Sum(s[k := n]) == Sum(s) - s[k] + n
  {
    var last := |s| - 1;
    if k < last {
      SumUpdated(s[..last], k, n);
      assert s[k := n][..last] == s[..last][k := n];
    } else {
      assert s[k := n][..last] == s[..last];
    }
  }

  lemma CountedNext(s: set<nat>, t: set<nat>, n: nat, more: bool)
    requires n !in s && forall i: nat :: i in t <==> i in s || (i == n && more)
    ensures |t| == |s| + if more then 1 else 0
  {
    if more {
      assert t == s + {n};
    } else {
      assert t == s;
    }
  }
}
