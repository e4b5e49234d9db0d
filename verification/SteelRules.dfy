/** What the cutter of catthep1/main.cpp saves and prefers, said by counting lengths in sets. */
module SteelRules {
  import opened SteelSearch
  import opened SteelCutting
  import opened SteelPlan
  import opened Sums

  /** Longer than half a bar. */
  predicate OverHalf(length: real) { length > 5.8500005 }

  /** The lengths that a vector takes pieces of, among the first `n`. */
  function Taken(v: Vector, n: nat): set<nat>
    requires n <= |v|
  {
    set i: nat | i < n && v[i] > 0
  }

  /** Those of them that are, or are not, longer than half a bar. */
  function TakenLong(lengths: seq<real>, v: Vector, n: nat, long: bool): set<nat>
    requires n <= |v| == |lengths|
  {
    set i: nat | i < n && v[i] > 0 && OverHalf(lengths[i]) == long
  }

  lemma TakenNext(v: Vector, n: nat)
    requires n < |v|
    ensures |Taken(v, n + 1)| == |Taken(v, n)| + if v[n] > 0 then 1 else 0
  {
    CountedNext(Taken(v, n), Taken(v, n + 1), n, v[n] > 0);
  }

  lemma TakenLongNext(lengths: seq<real>, v: Vector, n: nat, long: bool)
    requires n < |v| == |lengths|
    ensures |TakenLong(lengths, v, n + 1, long)|
         == |TakenLong(lengths, v, n, long)|
            + if v[n] > 0 && OverHalf(lengths[n]) == long then 1 else 0
  {
    hide OverHalf;
    var s, t := TakenLong(lengths, v, n, long), TakenLong(lengths, v, n + 1, long);
    var more := v[n] > 0 && OverHalf(lengths[n]) == long;
    forall i: nat
      ensures i in t <==> i in s || (i == n && more)
    {
    }
    CountedNext(s, t, n, more);
  }

  lemma NothingTaken(lengths: seq<real>, v: Vector, long: bool)
    requires |v| == |lengths|
    ensures Taken(v, 0) == {} && TakenLong(lengths, v, 0, long) == {}
  {
  }

  lemma {:induction false} ItemsCounted(lengths: seq<real>, v: Vector, n: nat)
    requires n <= |v| == |lengths|
    ensures |Items(v, n)| == |Taken(v, n)|
  {
    hide Taken, TakenLong, Items;
    if n == 0 {
      NoItems(v);
      NothingTaken(lengths, v, true);
    } else {
      ItemsCounted(lengths, v, n - 1);
      SteelCutting.NextItem(v, n - 1);
      TakenNext(v, n - 1);
    }
  }

  lemma {:induction false} KindsCounted(lengths: seq<real>, v: Vector, n: nat, long: bool)
    requires n <= |v| == |lengths|
    ensures Kinds(lengths, v, n, long) == |TakenLong(lengths, v, n, long)|
  {
    hide Taken, TakenLong;
    if n == 0 {
      NothingTaken(lengths, v, long);
    } else {
      KindsCounted(lengths, v, n - 1, long);
      TakenLongNext(lengths, v, n - 1, long);
    }
  }

  /** One more piece uses its own length more; with `NothingIsZero` this tells every total. */
  lemma {:induction false} OnePieceMore(lengths: seq<real>, v: Vector, i: nat)
    requires i < |v| <= |lengths|
    ensures Total(lengths, v[i := v[i] + 1]) == Total(lengths, v) + lengths[i]
  {
    var n := |v| - 1;
    var w := v[i := v[i] + 1];
    if i < n {
      OnePieceMore(lengths, v[..n], i);
      assert w[..n] == v[..n][i := v[i] + 1];
    } else {
      assert w[..n] == v[..n];
      OnceMore(v[n], lengths[n]);
    }
  }

  lemma OnceMore(k: nat, x: real)
    ensures (k + 1) as real * x == k as real * x + x
  {
  }

  /**
   * Saved: what fits on 11.700001 and leaves at most 5.8499995, of at most one length above half
   * a bar and at most two others.
   */
  lemma SavableIff(lengths: seq<real>, v: Vector)
    requires |v| == |lengths|
    ensures Savable(lengths, v) <==>
              && 5.8500015 <= Total(lengths, v) <= 11.700001
              && |TakenLong(lengths, v, |v|, true)| <= 1 && |TakenLong(lengths, v, |v|, false)| <= 2
  {
    KindsCounted(lengths, v, |v|, true);
    KindsCounted(lengths, v, |v|, false);
    hide Total, Kinds, TakenLong;
  }

  /**
   * In tenths: six times the part of the bar used, two for using up the demand of a length, one
   * for taking at most two lengths, one for taking one longer than half a bar.
   */
  lemma ScoreWeighs(lengths: seq<real>, v: Vector, remaining: seq<nat>)
    requires |v| == |lengths| == |remaining|
    ensures 10.0 * Score(lengths, v, remaining)
         == 6.0 * Total(lengths, v) / 11.700001
            + (if exists i :: 0 <= i < |v| && v[i] > 0 && remaining[i] <= v[i] then 2.0 else 0.0)
            + (if |Taken(v, |v|)| <= 2 then 1.0 else 0.0)
            + (if exists i :: 0 <= i < |v| && v[i] > 0 && lengths[i] > 5.8500005 then 1.0 else 0.0)
  {
    hide Total, Kinds, TakenLong, Taken, Items;
    ItemsCounted(lengths, v, |v|);
    KindsCounted(lengths, v, |v|, true);
    SomeLong(lengths, v);
  }

  lemma SomeLong(lengths: seq<real>, v: Vector)
    requires |v| == |lengths|
    ensures |TakenLong(lengths, v, |v|, true)| > 0
       <==> exists i :: 0 <= i < |v| && v[i] > 0 && lengths[i] > 5.8500005
  {
    var long := TakenLong(lengths, v, |v|, true);
    if i :| 0 <= i < |v| && v[i] > 0 && lengths[i] > 5.8500005 {
      assert i in long;
    } else {
      assert long == {};
    }
  }
}
