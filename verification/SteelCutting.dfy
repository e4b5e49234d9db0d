/** The cutter of catthep1/main.cpp: saving patterns and the greedy plan, over real lengths. */
module SteelCutting {
  import opened SteelSearch

  const MAX_TOTAL_LENGTH := 11.7 + 0.000001
  const MIN_DU_ALLOWED := 0.0
  const MAX_DU_ALLOWED := MAX_TOTAL_LENGTH / 2.0 - 0.000001

  datatype Demand = Demand(length: real, quantity: nat)

  datatype CutPattern = CutPattern(indices: seq<nat>, quantities: seq<nat>, total: real, du: real)

  function Lengths(demands: seq<Demand>): (l: seq<real>)
    ensures |l| == |demands|
  {
    seq(|demands|, i requires 0 <= i < |demands| => demands[i].length)
  }

  function Quantities(demands: seq<Demand>): (q: seq<int>)
    ensures |q| == |demands|
  {
    seq(|demands|, i requires 0 <= i < |demands| => demands[i].quantity)
  }

  // ----- patterns -----

  /** The positions below `n` a vector takes pieces from, in order. */
  function Items(v: Vector, n: nat): (s: seq<nat>)
    requires n <= |v|
    ensures forall i :: i in s <==> 0 <= i < n && v[i] > 0
    ensures forall a, b :: 0 <= a < b < |s| ==> s[a] < s[b]
    ensures |s| <= n
  {
    if n == 0 then []
    else
      var rest := Items(v, n - 1);
      assert forall a :: 0 <= a < |rest| ==> rest[a] in rest;
      rest + if v[n - 1] > 0 then [n - 1] else []
  }

  /** How many pieces a vector takes at each of some positions. */
  function CountsAt(v: Vector, items: seq<nat>): (q: seq<nat>)
    requires forall i :: i in items ==> i < |v|
    ensures |q| == |items|
  {
    seq(|items|, j requires 0 <= j < |items| => assert items[j] in items; v[items[j]])
  }

  lemma NoItems(v: Vector)
    ensures Items(v, 0) == [] && CountsAt(v, []) == []
  {
  }

  lemma NextItem(v: Vector, i: nat)
    requires i < |v|
    ensures Items(v, i + 1) == Items(v, i) + if v[i] > 0 then [i] else []
    ensures CountsAt(v, Items(v, i + 1)) == CountsAt(v, Items(v, i)) + if v[i] > 0 then [v[i]] else []
  {
  }

  predicate Large(length: real) { length > MAX_TOTAL_LENGTH / 2.0 }

  /** How many different large, or small, lengths a vector takes pieces of. */
  function Kinds(lengths: seq<real>, v: Vector, n: nat, large: bool): (k: nat)
    requires n <= |v| == |lengths|
  {
    if n == 0 then 0
    else Kinds(lengths, v, n - 1, large) + if v[n - 1] > 0 && Large(lengths[n - 1]) == large then 1 else 0
  }

  /** What `save_pattern` keeps: little enough waste, and few different lengths. */
  predicate Savable(lengths: seq<real>, v: Vector) {
    && |v| == |lengths|
    && MIN_DU_ALLOWED <= MAX_TOTAL_LENGTH - Total(lengths, v) <= MAX_DU_ALLOWED
    && Kinds(lengths, v, |v|, true) <= 1
    && Kinds(lengths, v, |v|, false) <= 2
  }

  function PatternOf(lengths: seq<real>, v: Vector): CutPattern
    requires |v| == |lengths|
  {
    var items := Items(v, |v|);
    CutPattern(items, CountsAt(v, items), Total(lengths, v), MAX_TOTAL_LENGTH - Total(lengths, v))
  }

  function Keeper(lengths: seq<real>): Vector -> bool {
    v => Savable(lengths, v)
  }

  /** The vectors of a list that `save_pattern` keeps, in order. */
  function Kept(lengths: seq<real>, vs: seq<Vector>): (k: seq<Vector>)
    ensures forall v :: v in k <==> v in vs && Savable(lengths, v)
  {
    Filter(vs, Keeper(lengths))
  }

  function Patterns(lengths: seq<real>, vs: seq<Vector>): (ps: seq<CutPattern>)
    requires forall v :: v in vs ==> |v| == |lengths|
    ensures |ps| == |vs|
  {
    seq(|vs|, k requires 0 <= k < |vs| => assert vs[k] in vs; PatternOf(lengths, vs[k]))
  }

  /** What is saved when the search goes on from a first part of the counts. */
  function SavedBelow(lengths: seq<real>, caps: seq<int>, prefix: Vector, total: real): seq<CutPattern>
    requires |prefix| <= |lengths| == |caps|
  {
    Patterns(lengths, Kept(lengths, Reached(lengths, caps, MAX_TOTAL_LENGTH, prefix, total)))
  }

  function SavedFrom(lengths: seq<real>, caps: seq<int>, prefix: Vector, total: real, i: nat): seq<CutPattern>
    requires |prefix| < |lengths| == |caps|
  {
    Patterns(lengths, Kept(lengths, ReachedFrom(lengths, caps, MAX_TOTAL_LENGTH, prefix, total, i)))
  }

  lemma SavedStep(lengths: seq<real>, caps: seq<int>, prefix: Vector, total: real, i: nat)
    requires |prefix| < |lengths| == |caps| && i <= caps[|prefix|]
    ensures SavedFrom(lengths, caps, prefix, total, i)
            == SavedBelow(lengths, caps, prefix + [i], total + i as real * lengths[|prefix|])
               + SavedFrom(lengths, caps, prefix, total, i + 1)
  {
    hide Filter, Keeper, PatternOf;
    var t := total + i as real * lengths[|prefix|];
    FilterConcat(Reached(lengths, caps, MAX_TOTAL_LENGTH, prefix + [i], t),
                 ReachedFrom(lengths, caps, MAX_TOTAL_LENGTH, prefix, total, i + 1), Keeper(lengths));
  }

  lemma SavedEnds(lengths: seq<real>, caps: seq<int>, prefix: Vector, total: real)
    requires |prefix| <= |lengths| == |caps|
    ensures total > MAX_TOTAL_LENGTH ==> SavedBelow(lengths, caps, prefix, total) == []
    ensures total <= MAX_TOTAL_LENGTH && |prefix| < |lengths| ==>
              SavedBelow(lengths, caps, prefix, total) == SavedFrom(lengths, caps, prefix, total, 0)
    ensures total <= MAX_TOTAL_LENGTH && |prefix| == |lengths| ==>
              SavedBelow(lengths, caps, prefix, total)
              == if Savable(lengths, prefix) then [PatternOf(lengths, prefix)] else []
    ensures |prefix| < |lengths| ==> forall i: nat :: i > caps[|prefix|] ==>
                                       SavedFrom(lengths, caps, prefix, total, i) == []
  {
    hide Savable, PatternOf;
    FilterOne(prefix, Keeper(lengths));
  }

  class SteelCutter {
    const demands: seq<Demand>
    var patterns: seq<CutPattern>

    constructor (demands: seq<Demand>)
      ensures this.demands == demands && patterns == []
    {
      this.demands := demands;
      patterns := [];
    }

    /** `is_effective_pattern`. */
    method IsEffectivePattern(counts: array<nat>) returns (ok: bool)
      requires counts.Length == |demands|
      ensures ok == (Kinds(Lengths(demands), counts[..], |demands|, true) <= 1
                     && Kinds(Lengths(demands), counts[..], |demands|, false) <= 2)
    {
      var largeCount, smallCount := 0, 0;
      var i := 0;
      while i < |demands|
        invariant 0 <= i <= |demands|
        invariant largeCount == Kinds(Lengths(demands), counts[..], i, true)
        invariant smallCount == Kinds(Lengths(demands), counts[..], i, false)
      {
        if counts[i] != 0 {
          if demands[i].length > MAX_TOTAL_LENGTH / 2.0 {
            largeCount := largeCount + 1;
          } else {
            smallCount := smallCount + 1;
          }
        }
        i := i + 1;
      }
      ok := (largeCount == 1 && smallCount <= 2) || (largeCount == 0 && smallCount <= 2);
    }

    /** `save_pattern`. */
    method SavePattern(counts: array<nat>, total: real)
      requires counts.Length == |demands| && total == Total(Lengths(demands), counts[..])
      modifies this`patterns
      ensures patterns == old(patterns) + if Savable(Lengths(demands), counts[..])
                                          then [PatternOf(Lengths(demands), counts[..])] else []
    {
      hide Kinds, Total, Items, CountsAt;
      var du := MAX_TOTAL_LENGTH - total;
      if du < MIN_DU_ALLOWED || du > MAX_DU_ALLOWED { return; }
      var effective := IsEffectivePattern(counts);
      if !effective { return; }
      var indices, quantities := Collect(counts);
      patterns := patterns + [CutPattern(indices, quantities, total, du)];
    }

    /** The loop of `save_pattern`. */
    method Collect(counts: array<nat>) returns (indices: seq<nat>, quantities: seq<nat>)
      requires counts.Length == |demands|
      ensures indices == Items(counts[..], counts.Length)
      ensures quantities == CountsAt(counts[..], indices)
    {
      hide Items, CountsAt;
      indices, quantities := [], [];
      ghost var v := counts[..];
      NoItems(v);
      var i := 0;
      while i < |demands|
        invariant 0 <= i <= |demands|
        invariant indices == Items(v, i) && quantities == CountsAt(v, indices)
      {
        NextItem(v, i);
        if counts[i] > 0 {
          indices := indices + [i];
          quantities := quantities + [counts[i]];
        }
        i := i + 1;
      }
    }

    /** `search`. */
    method Search(index: nat, counts: array<nat>, total: real)
      requires counts.Length == |demands| && index <= |demands|
      requires total == Total(Lengths(demands), counts[..index])
      modifies this`patterns, counts
      ensures counts[..index] == old(counts[..index])
      ensures patterns == old(patterns)
                          + SavedBelow(Lengths(demands), Quantities(demands), old(counts[..index]), total)
      decreases |demands| - index
    {
      hide SavedBelow, SavedFrom, Total, Savable, PatternOf, Lengths, Quantities;
      ghost var lengths, caps, prefix := Lengths(demands), Quantities(demands), counts[..index];
      SavedEnds(lengths, caps, prefix, total);
      if total > MAX_TOTAL_LENGTH { return; }
      if index == |demands| {
        assert counts[..] == prefix;
        SavePattern(counts, total);
        return;
      }
      Demanded(demands, index);
      var i := 0;
      while i <= demands[index].quantity
        invariant 0 <= i <= demands[index].quantity + 1 && counts[..index] == prefix
        invariant patterns + SavedFrom(lengths, caps, prefix, total, i)
                  == old(patterns) + SavedFrom(lengths, caps, prefix, total, 0)
      {
        counts[index] := i;
        assert counts[..index + 1] == prefix + [i];
        TotalNext(lengths, prefix, i);
        SavedStep(lengths, caps, prefix, total, i);
        Search(index + 1, counts, total + i as real * demands[index].length);
        assert counts[..index] == counts[..index + 1][..index];
        i := i + 1;
      }
    }

    /** The search as `run` starts it: every feasible vector is looked at once, and the savable ones are kept. */
    method FindPatterns()
      requires patterns == []
      modifies this`patterns
      ensures var lengths := Lengths(demands);
              patterns == Patterns(lengths, KeptVectors(demands))
    {
      hide SavedBelow, Patterns, KeptVectors, Lengths, Quantities;
      var counts := new nat[|demands|](_ => 0);
      NoTotal(Lengths(demands));
      assert counts[..0] == [];
      Search(0, counts, 0.0);
      SavedIsKept(demands);
    }
  }

  lemma Demanded(demands: seq<Demand>, i: nat)
    requires i < |demands|
    ensures Lengths(demands)[i] == demands[i].length && Quantities(demands)[i] == demands[i].quantity
  {
  }

  /** The vectors behind the saved patterns. */
  function KeptVectors(demands: seq<Demand>): (vs: seq<Vector>)
    ensures forall v :: v in vs ==> |v| == |demands|
  {
    var lengths, caps := Lengths(demands), Quantities(demands);
    Kept(lengths, AllReached(lengths, caps, MAX_TOTAL_LENGTH))
  }

  lemma SavedIsKept(demands: seq<Demand>)
    ensures SavedBelow(Lengths(demands), Quantities(demands), [], 0.0)
            == Patterns(Lengths(demands), KeptVectors(demands))
  {
    hide Lengths, Quantities, Kept;
  }

  /** With positive lengths the saved vectors are exactly the feasible and savable ones. */
  lemma KeptIffFeasible(demands: seq<Demand>, v: Vector)
    requires Positive(Lengths(demands))
    ensures v in KeptVectors(demands) <==>
              && Feasible(Lengths(demands), Quantities(demands), MAX_TOTAL_LENGTH, v)
              && Savable(Lengths(demands), v)
  {
    hide Lengths, Quantities, Savable, AllReached;
    var lengths, caps := Lengths(demands), Quantities(demands);
    SearchIsComplete(lengths, caps, MAX_TOTAL_LENGTH);
  }

  /** The saved patterns come in lexicographic order of their counts, none of them twice. */
  lemma KeptOnce(demands: seq<Demand>)
    requires Positive(Lengths(demands))
    ensures var vs := KeptVectors(demands);
            InOrder(vs) && forall a, b :: 0 <= a < b < |vs| ==> vs[a] != vs[b]
  {
    hide Lengths, Quantities, Filter, Keeper, Before, AllReached;
    var lengths, caps := Lengths(demands), Quantities(demands);
    SearchIsComplete(lengths, caps, MAX_TOTAL_LENGTH);
    FilterInOrder(AllReached(lengths, caps, MAX_TOTAL_LENGTH), Keeper(lengths));
    var vs := KeptVectors(demands);
    forall a, b | 0 <= a < b < |vs| ensures vs[a] != vs[b] {
      assert Before(vs[a], vs[b]);
      BeforeIsStrict(vs[a]);
    }
  }
}
