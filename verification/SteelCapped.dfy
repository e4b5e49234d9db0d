/** The second version of the cutter, catthep1/main2.cpp: every count runs up to one common cap. */
module SteelCapped {
  import opened SteelSearch

  const BAR := 11.7

  /** The shortest positive length below the bar length, or the bar length. */
  function Shortest(lengths: seq<real>, n: nat): (s: real)
    requires n <= |lengths|
    ensures 0.0 < s <= BAR
    ensures forall i :: 0 <= i < n && lengths[i] > 0.0 ==> s <= lengths[i] || BAR <= lengths[i]
  {
    if n == 0 then BAR
    else
      var s := Shortest(lengths, n - 1);
      if lengths[n - 1] > 0.0 && lengths[n - 1] < s then lengths[n - 1] else s
  }

  /** `max_count`. */
  function MaxCount(lengths: seq<real>): int {
    (BAR / Shortest(lengths, |lengths|)).Floor
  }

  function Caps(lengths: seq<real>): (c: seq<int>)
    ensures |c| == |lengths|
  {
    seq(|lengths|, _ => MaxCount(lengths))
  }

  /** The cap loses no vector: whatever fits on a bar keeps all its counts within it. */
  lemma CapLosesNothing(lengths: seq<real>, v: Vector)
    requires Positive(lengths)
    ensures Feasible(lengths, Caps(lengths), BAR, v) <==> |v| == |lengths| && Total(lengths, v) <= BAR
  {
    hide Total, Shortest;
    if |v| == |lengths| && Total(lengths, v) <= BAR {
      forall i | 0 <= i < |v| ensures v[i] <= Caps(lengths)[i] {
        CountsAreCapped(lengths, v, BAR, Shortest(lengths, |lengths|), i);
      }
    }
  }

  /** What the second version keeps: only the waste counts. */
  predicate Tight(lengths: seq<real>, v: Vector) {
    |v| == |lengths| && 0.0 <= BAR - Total(lengths, v) <= BAR / 2.0
  }

  function TightKeeper(lengths: seq<real>): Vector -> bool {
    v => Tight(lengths, v)
  }

  /** What is found below a first part of the counts, and from the count `i` on at the next position. */
  function FoundBelow(lengths: seq<real>, prefix: Vector, total: real): seq<Vector>
    requires |prefix| <= |lengths|
  {
    Filter(Reached(lengths, Caps(lengths), BAR, prefix, total), TightKeeper(lengths))
  }

  function FoundFrom(lengths: seq<real>, prefix: Vector, total: real, i: nat): seq<Vector>
    requires |prefix| < |lengths|
  {
    Filter(ReachedFrom(lengths, Caps(lengths), BAR, prefix, total, i), TightKeeper(lengths))
  }

  lemma FoundStep(lengths: seq<real>, prefix: Vector, total: real, i: nat, next: real)
    requires |prefix| < |lengths| && i <= MaxCount(lengths) && next == total + i as real * lengths[|prefix|]
    ensures FoundFrom(lengths, prefix, total, i)
            == FoundBelow(lengths, prefix + [i], next) + FoundFrom(lengths, prefix, total, i + 1)
  {
    hide Filter, TightKeeper, MaxCount;
    var caps := Caps(lengths);
    FilterConcat(Reached(lengths, caps, BAR, prefix + [i], next),
                 ReachedFrom(lengths, caps, BAR, prefix, total, i + 1), TightKeeper(lengths));
  }

  lemma FoundEnds(lengths: seq<real>, prefix: Vector, total: real)
    requires |prefix| <= |lengths|
    ensures total > BAR ==> FoundBelow(lengths, prefix, total) == []
    ensures total <= BAR && |prefix| < |lengths| ==>
              FoundBelow(lengths, prefix, total) == FoundFrom(lengths, prefix, total, 0)
    ensures total <= BAR && |prefix| == |lengths| ==>
              FoundBelow(lengths, prefix, total) == if Tight(lengths, prefix) then [prefix] else []
    ensures |prefix| < |lengths| ==> forall i: nat :: i > MaxCount(lengths) ==>
                                       FoundFrom(lengths, prefix, total, i) == []
  {
    hide Tight, MaxCount;
    FilterOne(prefix, TightKeeper(lengths));
  }

  class Cutter {
    const lengths: seq<real>
    const maxCount: int
    var found: seq<Vector>

    ghost predicate Valid() { maxCount == MaxCount(lengths) }

    /** The constructor's search for the shortest length. */
    constructor (lengths: seq<real>)
      ensures Valid() && this.lengths == lengths && found == []
    {
      var minLength := BAR;
      var i := 0;
      while i < |lengths|
        invariant 0 <= i <= |lengths| && minLength == Shortest(lengths, i)
      {
        if lengths[i] > 0.0 && lengths[i] < minLength { minLength := lengths[i]; }
        i := i + 1;
      }
      this.lengths := lengths;
      maxCount := (BAR / minLength).Floor;
      found := [];
    }

    /** `search`. */
    method Search(index: nat, counts: array<nat>, total: real)
      requires Valid() && counts.Length == |lengths| && index <= |lengths|
      requires total == Total(lengths, counts[..index])
      modifies this`found, counts
      ensures counts[..index] == old(counts[..index])
      ensures found == old(found) + FoundBelow(lengths, old(counts[..index]), total)
      decreases |lengths| - index
    {
      hide Total, FoundBelow, FoundFrom, MaxCount;
      ghost var prefix := counts[..index];
      FoundEnds(lengths, prefix, total);
      if total > BAR { return; }
      if index == |lengths| {
        assert counts[..] == prefix;
        var du := BAR - total;
        if du >= 0.0 && du <= BAR / 2.0 { found := found + [counts[..]]; }
        return;
      }
      var i := 0;
      while i <= maxCount
        invariant 0 <= i && counts[..index] == prefix
        invariant found + FoundFrom(lengths, prefix, total, i) == old(found) + FoundFrom(lengths, prefix, total, 0)
        decreases maxCount - i
      {
        counts[index] := i;
        assert counts[..index + 1] == prefix + [i];
        TotalNext(lengths, prefix, i);
        var next := total + i as real * lengths[index];
        FoundStep(lengths, prefix, total, i, next);
        ghost var before := found;
        Search(index + 1, counts, next);
        ghost var (below, after) := (FoundBelow(lengths, prefix + [i], next), FoundFrom(lengths, prefix, total, i + 1));
        assert before + (below + after) == before + below + after;
        assert counts[..index] == counts[..index + 1][..index];
        i := i + 1;
      }
    }

    /** `findPatterns`, before the patterns are scored: exactly the vectors of at most half a bar of waste. */
    method FindPatterns()
      requires Valid() && found == [] && Positive(lengths)
      modifies this`found
      ensures forall v: Vector :: v in found <==> |v| == |lengths| && 5.85 <= Total(lengths, v) <= 11.7
      ensures InOrder(found)
    {
      hide Total, Reached, Caps, Feasible, Before;
      var counts := new nat[|lengths|](_ => 0);
      NoTotal(lengths);
      assert counts[..0] == [];
      Search(0, counts, 0.0);
      SearchIsComplete(lengths, Caps(lengths), BAR);
      forall v: Vector
        ensures v in found <==> |v| == |lengths| && 5.85 <= Total(lengths, v) <= 11.7
      {
        CapLosesNothing(lengths, v);
      }
      FilterInOrder(AllReached(lengths, Caps(lengths), BAR), TightKeeper(lengths));
    }
  }
}
