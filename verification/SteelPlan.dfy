/** The greedy plan of catthep1/main.cpp, `score_pattern` and `optimize_cutting`, over real lengths. */
module SteelPlan {
  import opened SteelSearch
  import opened SteelCutting
  import opened Sums

  // ----- one choice -----

  predicate Fits(v: Vector, remaining: seq<nat>) {
    |v| == |remaining| && forall i :: 0 <= i < |v| ==> v[i] <= remaining[i]
  }

  /** The pattern finishes the demand for one of its lengths. */
  predicate Fulfils(v: Vector, remaining: seq<nat>)
    requires |v| == |remaining|
  {
    exists i :: 0 <= i < |v| && v[i] > 0 && v[i] >= remaining[i]
  }

  /** How good the program takes a pattern to be. */
  function Score(lengths: seq<real>, v: Vector, remaining: seq<nat>): real
    requires |v| == |lengths| == |remaining|
  {
    0.6 * (Total(lengths, v) / MAX_TOTAL_LENGTH)
    + (if Fulfils(v, remaining) then 0.2 else 0.0)
    + (if |Items(v, |v|)| <= 2 then 0.1 else 0.0)
    + (if Kinds(lengths, v, |v|, true) > 0 then 0.1 else 0.0)
  }

  /** The first of the fitting patterns with the highest score. */
  predicate Chosen(lengths: seq<real>, vs: seq<Vector>, remaining: seq<nat>, n: nat, best: int)
    requires n <= |vs| && |remaining| == |lengths|
  {
    if best == -1 then forall k :: 0 <= k < n ==> !Fits(vs[k], remaining)
    else
      && 0 <= best < n && Fits(vs[best], remaining)
      && (forall k :: 0 <= k < n && Fits(vs[k], remaining) ==>
            Score(lengths, vs[k], remaining) <= Score(lengths, vs[best], remaining))
      && forall k :: 0 <= k < best && Fits(vs[k], remaining) ==>
           Score(lengths, vs[k], remaining) < Score(lengths, vs[best], remaining)
  }

  // ----- sums -----

  /** What `k` patterns used `used` times each cut of length `i`. */
  function UsedSum(used: seq<nat>, vs: seq<Vector>, i: nat): nat
    requires |used| <= |vs|
  {
    if used == [] then 0
    else UsedSum(used[..|used| - 1], vs, i) + used[|used| - 1] * PiecesIn(vs[|used| - 1], i)
  }

  function PiecesIn(v: Vector, i: nat): nat { if i < |v| then v[i] else 0 }

  /** Pieces of length `i` that a list of bars holds. */
  function Column(plan: seq<Vector>, i: nat): nat {
    if plan == [] then 0 else Column(plan[..|plan| - 1], i) + PiecesIn(plan[|plan| - 1], i)
  }

  function Waste(lengths: seq<real>, plan: seq<Vector>): real
    requires forall v :: v in plan ==> |v| <= |lengths|
  {
    if plan == [] then 0.0
    else Waste(lengths, plan[..|plan| - 1]) + (MAX_TOTAL_LENGTH - Total(lengths, plan[|plan| - 1]))
  }

  lemma {:induction false} UsedOnceMore(used: seq<nat>, vs: seq<Vector>, i: nat, k: nat)
    requires k < |used| <= |vs|
    ensures UsedSum(used[k := used[k] + 1], vs, i) == UsedSum(used, vs, i) + PiecesIn(vs[k], i)
  {
    var t := used[k := used[k] + 1];
    var last := |used| - 1;
    if k < last {
      UsedOnceMore(used[..last], vs, i, k);
      assert t[..last] == used[..last][k := used[k] + 1];
    } else {
      assert t[..last] == used[..last];
      OneMore(used[k], PiecesIn(vs[k], i));
    }
  }

  lemma OneMore(x: nat, y: nat)
    ensures (x + 1) * y == x * y + y
  {
  }

  lemma {:induction false} SumDrops(a: seq<nat>, v: Vector, b: seq<nat>)
    requires |a| == |v| == |b| && forall i :: 0 <= i < |a| ==> b[i] + v[i] == a[i]
    ensures Sum(b) + Sum(v) == Sum(a)
  {
    if a != [] {
      SumDrops(a[..|a| - 1], v[..|v| - 1], b[..|b| - 1]);
    }
  }

  /** A pattern that wastes less than the whole bar holds a piece. */
  lemma {:induction false} NothingIsZero(lengths: seq<real>, v: Vector)
    requires |v| <= |lengths| && Sum(v) == 0
    ensures Total(lengths, v) == 0.0
  {
    if v != [] { NothingIsZero(lengths, v[..|v| - 1]); }
  }

  lemma SavableHoldsPieces(lengths: seq<real>, v: Vector)
    requires Savable(lengths, v)
    ensures Sum(v) > 0
  {
    if Sum(v) == 0 { NothingIsZero(lengths, v); }
  }

  // ----- at most twice the bars -----

  function Lengthwise(lengths: seq<real>, plan: seq<Vector>): real
    requires forall v :: v in plan ==> |v| <= |lengths|
  {
    if plan == [] then 0.0 else Lengthwise(lengths, plan[..|plan| - 1]) + Total(lengths, plan[|plan| - 1])
  }

  function Columns(plan: seq<Vector>, n: nat): (c: Vector)
    ensures |c| == n
  {
    seq(n, i requires 0 <= i < n => Column(plan, i))
  }

  lemma {:induction false} TotalAdds(lengths: seq<real>, a: Vector, b: Vector, c: Vector)
    requires |a| == |b| == |c| <= |lengths| && forall i :: 0 <= i < |a| ==> c[i] == a[i] + b[i]
    ensures Total(lengths, c) == Total(lengths, a) + Total(lengths, b)
  {
    if a != [] {
      var n := |a| - 1;
      TotalAdds(lengths, a[..n], b[..n], c[..n]);
      Distribute(a[n], b[n], lengths[n]);
    }
  }

  lemma Distribute(x: nat, y: nat, z: real)
    ensures (x + y) as real * z == x as real * z + y as real * z
  {
  }

  lemma {:induction false} TotalMonotone(lengths: seq<real>, a: Vector, b: Vector)
    requires Positive(lengths) && |a| == |b| <= |lengths| && forall i :: 0 <= i < |a| ==> a[i] <= b[i]
    ensures Total(lengths, a) <= Total(lengths, b)
  {
    if a != [] {
      var n := |a| - 1;
      TotalMonotone(lengths, a[..n], b[..n]);
      Distribute(a[n], b[n] - a[n], lengths[n]);
      assert (b[n] - a[n]) as real * lengths[n] >= 0.0;
    }
  }

  /** The bars of a plan together are as long as the pieces they give. */
  lemma {:induction false} LengthOfPlan(lengths: seq<real>, plan: seq<Vector>)
    requires forall v :: v in plan ==> |v| == |lengths|
    ensures Lengthwise(lengths, plan) == Total(lengths, Columns(plan, |lengths|))
  {
    if plan == [] {
      AllZero(lengths, Columns([], |lengths|));
    } else {
      var rest := plan[..|plan| - 1];
      LengthOfPlan(lengths, rest);
      TotalAdds(lengths, Columns(rest, |lengths|), plan[|plan| - 1], Columns(plan, |lengths|));
    }
  }

  lemma {:induction false} AllZero(lengths: seq<real>, v: Vector)
    requires |v| <= |lengths| && forall i :: 0 <= i < |v| ==> v[i] == 0
    ensures Total(lengths, v) == 0.0
  {
    if v != [] { AllZero(lengths, v[..|v| - 1]); }
  }

  function Bars(n: nat, length: real): real { n as real * length }

  lemma {:induction false} AtMostBars(lengths: seq<real>, plan: seq<Vector>)
    requires forall v :: v in plan ==> |v| == |lengths| && Total(lengths, v) <= MAX_TOTAL_LENGTH
    ensures Lengthwise(lengths, plan) <= Bars(|plan|, MAX_TOTAL_LENGTH)
  {
    hide Total;
    if plan != [] {
      assert plan[|plan| - 1] in plan;
      AtMostBars(lengths, plan[..|plan| - 1]);
    }
  }

  lemma {:induction false} AtLeastBars(lengths: seq<real>, plan: seq<Vector>)
    requires forall v :: v in plan ==> |v| == |lengths| && Savable(lengths, v)
    ensures Lengthwise(lengths, plan) >= Bars(|plan|, MAX_TOTAL_LENGTH - MAX_DU_ALLOWED)
  {
    hide Total, Kinds;
    if plan != [] {
      assert plan[|plan| - 1] in plan;
      AtLeastBars(lengths, plan[..|plan| - 1]);
    }
  }

  /**
   * Bars cut by saved patterns are fewer than twice the bars of any plan that gives at least the
   * same pieces, because a saved pattern wastes less than half a bar.
   */
  lemma TwiceTheBars(lengths: seq<real>, plan: seq<Vector>, other: seq<Vector>)
    requires Positive(lengths)
    requires forall v :: v in plan ==> |v| == |lengths| && Savable(lengths, v)
    requires forall v :: v in other ==> |v| == |lengths| && Total(lengths, v) <= MAX_TOTAL_LENGTH
    requires forall i :: 0 <= i < |lengths| ==> Column(plan, i) <= Column(other, i)
    ensures plan != [] ==> |plan| < 2 * |other|
  {
    hide Total, Savable, Column, Lengthwise, Positive, Bars;
    AtLeastBars(lengths, plan);
    AtMostBars(lengths, other);
    MorePiecesAreLonger(lengths, plan, other);
    HalfBars(|plan|, |other|, Lengthwise(lengths, plan), Lengthwise(lengths, other));
  }

  lemma MorePiecesAreLonger(lengths: seq<real>, plan: seq<Vector>, other: seq<Vector>)
    requires Positive(lengths)
    requires forall v :: v in plan ==> |v| == |lengths|
    requires forall v :: v in other ==> |v| == |lengths|
    requires forall i :: 0 <= i < |lengths| ==> Column(plan, i) <= Column(other, i)
    ensures Lengthwise(lengths, plan) <= Lengthwise(lengths, other)
  {
    hide Total, Column, Lengthwise, Positive;
    LengthOfPlan(lengths, plan);
    LengthOfPlan(lengths, other);
    TotalMonotone(lengths, Columns(plan, |lengths|), Columns(other, |lengths|));
  }

  lemma HalfBars(p: nat, o: nat, a: real, b: real)
    requires Bars(p, MAX_TOTAL_LENGTH - MAX_DU_ALLOWED) <= a <= b <= Bars(o, MAX_TOTAL_LENGTH)
    ensures p > 0 ==> p < 2 * o
  {
    assert MAX_TOTAL_LENGTH - MAX_DU_ALLOWED > MAX_TOTAL_LENGTH / 2.0;
  }

  // ----- the program -----

  /** `remaining` and `cut` after some bars: nothing is lost, and the counters agree with the bars cut. */
  ghost predicate Accounted(demands: seq<Demand>, vs: seq<Vector>, remaining: seq<nat>, cut: seq<nat>,
                            used: seq<nat>, plan: seq<Vector>)
    requires forall v :: v in vs ==> |v| == |demands|
  {
    && |remaining| == |cut| == |demands| && |used| == |vs|
    && (forall v :: v in plan ==> v in vs)
    && (forall i :: 0 <= i < |demands| ==> cut[i] + remaining[i] == demands[i].quantity)
    && (forall i :: 0 <= i < |demands| ==> cut[i] == Column(plan, i))
    && (forall i :: 0 <= i < |demands| ==> cut[i] == UsedSum(used, vs, i))
    && Sum(used) == |plan|
  }

  /** One more bar of pattern `k`. */
  lemma AccountedNext(demands: seq<Demand>, vs: seq<Vector>, remaining: seq<nat>, cut: seq<nat>, used: seq<nat>,
                      plan: seq<Vector>, k: nat, newRemaining: seq<nat>, newCut: seq<nat>)
    requires forall v :: v in vs ==> |v| == |demands|
    requires Accounted(demands, vs, remaining, cut, used, plan) && k < |vs|
    requires |newRemaining| == |newCut| == |demands| == |vs[k]|
    requires forall i :: 0 <= i < |demands| ==> newRemaining[i] + vs[k][i] == remaining[i]
    requires forall i :: 0 <= i < |demands| ==> newCut[i] == cut[i] + vs[k][i]
    ensures Accounted(demands, vs, newRemaining, newCut, used[k := used[k] + 1], plan + [vs[k]])
  {
    var more := plan + [vs[k]];
    assert more[..|more| - 1] == plan;
    SumUpdated(used, k, used[k] + 1);
    forall v | v in more ensures v in vs {}
    forall i | 0 <= i < |demands|
      ensures newCut[i] == Column(more, i) && newCut[i] == UsedSum(used[k := used[k] + 1], vs, i)
    {
      UsedOnceMore(used, vs, i, k);
    }
  }

  /** A saved pattern lists the positive entries of its vector, from left to right. */
  predicate Lists(p: CutPattern, v: Vector) {
    && |p.quantities| == |p.indices|
    && (forall k :: 0 <= k < |p.indices| ==> p.indices[k] < |v| && p.quantities[k] == v[p.indices[k]] > 0)
    && (forall a, b :: 0 <= a < b < |p.indices| ==> p.indices[a] < p.indices[b])
    && forall i :: 0 <= i < |v| && v[i] > 0 ==> i in p.indices
  }

  lemma PatternLists(lengths: seq<real>, v: Vector)
    requires |v| == |lengths|
    ensures Lists(PatternOf(lengths, v), v)
  {
    var items := Items(v, |v|);
    forall k | 0 <= k < |items| ensures items[k] < |v| && v[items[k]] > 0 { assert items[k] in items; }
  }

  /** The test of one pattern against what remains. */
  method IsPossible(p: CutPattern, remaining: array<nat>, ghost v: Vector) returns (possible: bool)
    requires |v| == remaining.Length && Lists(p, v)
    ensures possible == Fits(v, remaining[..])
  {
    var j := 0;
    while j < |p.indices|
      invariant 0 <= j <= |p.indices|
      invariant forall k :: 0 <= k < j ==> p.quantities[k] <= remaining[p.indices[k]]
    {
      if p.quantities[j] > remaining[p.indices[j]] { return false; }
      j := j + 1;
    }
    return true;
  }

  /** One past the last of the first `j` items; everything before it and not among them is zero. */
  function After(p: CutPattern, j: nat): nat
    requires j <= |p.indices|
  {
    if j == 0 then 0 else p.indices[j - 1] + 1
  }

  lemma Gap(p: CutPattern, v: Vector, j: nat)
    requires Lists(p, v) && j <= |p.indices|
    ensures After(p, j) <= |v|
    ensures j < |p.indices| ==> After(p, j) <= p.indices[j]
    ensures forall k :: After(p, j) <= k < (if j < |p.indices| then p.indices[j] else |v|) ==> v[k] == 0
  {
    forall k | After(p, j) <= k < (if j < |p.indices| then p.indices[j] else |v|) ensures v[k] == 0 {
      forall a | 0 <= a < |p.indices| ensures p.indices[a] != k {
        assert a < j ==> p.indices[a] <= p.indices[j - 1];
        assert a >= j ==> p.indices[j] <= p.indices[a];
      }
    }
  }

  /** Zero counts add nothing. */
  lemma {:induction false} Skip(lengths: seq<real>, v: Vector, a: nat, b: nat)
    requires a <= b <= |v| == |lengths| && forall k :: a <= k < b ==> v[k] == 0
    ensures Total(lengths, v[..b]) == Total(lengths, v[..a]) && Kinds(lengths, v, b, true) == Kinds(lengths, v, a, true)
    decreases b
  {
    if a < b {
      Skip(lengths, v, a, b - 1);
      assert v[..b][..b - 1] == v[..b - 1];
    }
  }

  lemma Take(lengths: seq<real>, v: Vector, a: nat)
    requires a < |v| == |lengths| && v[a] > 0
    ensures Total(lengths, v[..a + 1]) == Total(lengths, v[..a]) + v[a] as real * lengths[a]
    ensures Kinds(lengths, v, a + 1, true) == Kinds(lengths, v, a, true) + if Large(lengths[a]) then 1 else 0
  {
    assert v[..a + 1][..a] == v[..a];
  }

  /** `score_pattern`. */
  method ScorePattern(demands: seq<Demand>, p: CutPattern, remaining: array<nat>, ghost v: Vector)
      returns (score: real)
    requires |v| == |demands| == remaining.Length && p == PatternOf(Lengths(demands), v)
    ensures score == Score(Lengths(demands), v, remaining[..])
  {
    hide Items, PatternOf, Total, Kinds, Lists, After, Lengths;
    ghost var lengths := Lengths(demands);
    PatternLists(lengths, v);
    PatternItems(lengths, v);
    NothingTotal(lengths, v);
    var totalLength := 0.0;
    var fulfillAny := false;
    var longCount, itemCount := 0, 0;
    var i := 0;
    AtStart(p);
    while i < |p.indices|
      invariant 0 <= i <= |p.indices| && itemCount == i && After(p, i) <= |v|
      invariant totalLength == Total(lengths, v[..After(p, i)])
      invariant longCount == Kinds(lengths, v, After(p, i), true)
      invariant fulfillAny == FulfilledBy(p, v, remaining[..], i)
    {
      NextItem(demands, p, v, remaining[..], i);
      var idx, qty := p.indices[i], p.quantities[i];
      totalLength := totalLength + qty as real * demands[idx].length;
      if qty >= remaining[idx] { fulfillAny := true; }
      if demands[idx].length > MAX_TOTAL_LENGTH / 2.0 { longCount := longCount + 1; }
      itemCount := itemCount + 1;
      i := i + 1;
    }
    Gap(p, v, i);
    Skip(lengths, v, After(p, i), |v|);
    assert v[..|v|] == v;
    FulfilsByItems(p, v, remaining[..]);
    var efficiency := totalLength / MAX_TOTAL_LENGTH;
    score := 0.6 * efficiency;
    if fulfillAny { score := score + 0.2; }
    if itemCount <= 2 { score := score + 0.1; }
    if longCount > 0 { score := score + 0.1; }
  }

  predicate FulfilledBy(p: CutPattern, v: Vector, remaining: seq<nat>, n: nat)
    requires |remaining| == |v|
  {
    exists k :: 0 <= k < n && k < |p.indices| && p.indices[k] < |v|
                && v[p.indices[k]] >= remaining[p.indices[k]]
  }

  lemma AtStart(p: CutPattern)
    ensures After(p, 0) == 0
  {
  }

  lemma NothingTotal(lengths: seq<real>, v: Vector)
    requires |v| == |lengths|
    ensures Total(lengths, v[..0]) == 0.0 && Kinds(lengths, v, 0, true) == 0
  {
  }

  lemma FulfilledNext(p: CutPattern, v: Vector, remaining: seq<nat>, i: nat)
    requires Lists(p, v) && i < |p.indices| && |v| == |remaining|
    ensures p.indices[i] < |v| && |p.quantities| == |p.indices|
    ensures FulfilledBy(p, v, remaining, i + 1)
            <==> FulfilledBy(p, v, remaining, i) || p.quantities[i] >= remaining[p.indices[i]]
  {
  }

  /** One turn of the loop of `score_pattern`. */
  lemma NextItem(demands: seq<Demand>, p: CutPattern, v: Vector, remaining: seq<nat>, i: nat)
    requires Lists(p, v) && i < |p.indices| && |v| == |demands| == |remaining|
    ensures p.indices[i] < |v| && |p.quantities| == |p.indices| && After(p, i) <= After(p, i + 1) <= |v|
    ensures var lengths := Lengths(demands);
            && Total(lengths, v[..After(p, i + 1)])
               == Total(lengths, v[..After(p, i)]) + p.quantities[i] as real * demands[p.indices[i]].length
            && Kinds(lengths, v, After(p, i + 1), true)
               == Kinds(lengths, v, After(p, i), true) + if Large(demands[p.indices[i]].length) then 1 else 0
    ensures FulfilledBy(p, v, remaining, i + 1)
            <==> FulfilledBy(p, v, remaining, i) || p.quantities[i] >= remaining[p.indices[i]]
  {
    hide Total, Kinds, FulfilledBy;
    FulfilledNext(p, v, remaining, i);
    Gap(p, v, i);
    Skip(Lengths(demands), v, After(p, i), p.indices[i]);
    Take(Lengths(demands), v, p.indices[i]);
  }

  lemma PatternItems(lengths: seq<real>, v: Vector)
    requires |v| == |lengths|
    ensures PatternOf(lengths, v).indices == Items(v, |v|)
  {
  }

  lemma FulfilsByItems(p: CutPattern, v: Vector, remaining: seq<nat>)
    requires Lists(p, v) && |v| == |remaining|
    ensures Fulfils(v, remaining) <==> FulfilledBy(p, v, remaining, |p.indices|)
  {
    if i :| 0 <= i < |v| && v[i] > 0 && v[i] >= remaining[i] {
      var k :| 0 <= k < |p.indices| && p.indices[k] == i;
    }
  }

  lemma ScoreNotNegative(lengths: seq<real>, v: Vector, remaining: seq<nat>)
    requires Positive(lengths) && |v| == |lengths| == |remaining|
    ensures Score(lengths, v, remaining) >= 0.0
  {
    hide Fulfils, Items, Kinds, Total;
    NotNegative(lengths, v);
  }

  /** The inner loop of `optimize_cutting` over the patterns. */
  method Choose(demands: seq<Demand>, patterns: seq<CutPattern>, remaining: array<nat>, ghost vs: seq<Vector>)
      returns (best: int)
    requires Positive(Lengths(demands)) && remaining.Length == |demands|
    requires forall v :: v in vs ==> |v| == |demands|
    requires patterns == Patterns(Lengths(demands), vs)
    ensures Chosen(Lengths(demands), vs, remaining[..], |vs|, best)
  {
    hide Score, Fits, PatternOf, Positive, Lists;
    ghost var lengths := Lengths(demands);
    best := -1;
    var bestScore := -1.0;
    var i := 0;
    while i < |patterns|
      invariant 0 <= i <= |patterns| && Chosen(lengths, vs, remaining[..], i, best)
      invariant bestScore == if best == -1 then -1.0 else Score(lengths, vs[best], remaining[..])
    {
      assert vs[i] in vs;
      PatternLists(lengths, vs[i]);
      var possible := IsPossible(patterns[i], remaining, vs[i]);
      if possible {
        var score := ScorePattern(demands, patterns[i], remaining, vs[i]);
        ScoreNotNegative(lengths, vs[i], remaining[..]);
        if score > bestScore {
          bestScore := score;
          best := i;
        }
      }
      i := i + 1;
    }
  }

  /** The update of `remaining` and `cut_total` for one bar. */
  method CutBar(p: CutPattern, remaining: array<nat>, cutTotal: array<nat>, ghost v: Vector)
    requires |v| == remaining.Length == cutTotal.Length && remaining != cutTotal
    requires Lists(p, v) && Fits(v, remaining[..])
    modifies remaining, cutTotal
    ensures forall i :: 0 <= i < |v| ==> remaining[i] + v[i] == old(remaining[i])
    ensures forall i :: 0 <= i < |v| ==> cutTotal[i] == old(cutTotal[i]) + v[i]
  {
    var j := 0;
    while j < |p.indices|
      invariant 0 <= j <= |p.indices|
      invariant forall i :: 0 <= i < |v| ==>
                  if i in p.indices[..j]
                  then remaining[i] + v[i] == old(remaining[i]) && cutTotal[i] == old(cutTotal[i]) + v[i]
                  else remaining[i] == old(remaining[i]) && cutTotal[i] == old(cutTotal[i])
    {
      var idx, qty := p.indices[j], p.quantities[j];
      assert p.indices[..j + 1] == p.indices[..j] + [idx];
      assert idx !in p.indices[..j];
      assert v[idx] <= old(remaining[..])[idx];
      remaining[idx] := remaining[idx] - qty;
      cutTotal[idx] := cutTotal[idx] + qty;
      j := j + 1;
    }
    assert p.indices[..j] == p.indices;
  }

  /** The bookkeeping for one bar of pattern `best`. */
  method BookBar(demands: seq<Demand>, p: CutPattern, remaining: array<nat>, cutTotal: array<nat>, used: array<nat>,
                 best: nat, ghost vs: seq<Vector>, ghost plan: seq<Vector>)
    requires forall v :: v in vs ==> |v| == |demands| && Savable(Lengths(demands), v)
    requires remaining.Length == cutTotal.Length == |demands| && used.Length == |vs| && best < |vs|
    requires remaining != cutTotal && remaining != used && cutTotal != used
    requires |vs[best]| == |demands| && p == PatternOf(Lengths(demands), vs[best]) && Fits(vs[best], remaining[..])
    requires Accounted(demands, vs, remaining[..], cutTotal[..], used[..], plan)
    modifies remaining, cutTotal, used
    ensures Accounted(demands, vs, remaining[..], cutTotal[..], used[..], plan + [vs[best]])
    ensures Sum(remaining[..]) < Sum(old(remaining[..]))
  {
    hide Accounted, Lists, Savable, Fits, Sum, PatternOf, Lengths;
    ghost var v, was, cut, counts := vs[best], remaining[..], cutTotal[..], used[..];
    assert v in vs;
    PatternLists(Lengths(demands), v);
    CutBar(p, remaining, cutTotal, v);
    used[best] := used[best] + 1;
    AccountedNext(demands, vs, was, cut, counts, plan, best, remaining[..], cutTotal[..]);
    SumDrops(was, v, remaining[..]);
    SavableHoldsPieces(Lengths(demands), v);
    assert used[..] == counts[best := counts[best] + 1];
  }

  /** `all_of` over what remains. */
  method AllDone(remaining: array<nat>) returns (done: bool)
    ensures done == forall i :: 0 <= i < remaining.Length ==> remaining[i] == 0
  {
    var i := 0;
    while i < remaining.Length
      invariant 0 <= i <= remaining.Length && forall k :: 0 <= k < i ==> remaining[k] == 0
    {
      if remaining[i] != 0 { return false; }
      i := i + 1;
    }
    return true;
  }

  // ----- the order of the choices -----

  /** What is left of the demands behind some bars. */
  predicate Left(demands: seq<Demand>, plan: seq<Vector>, remaining: seq<nat>) {
    |remaining| == |demands| && forall i :: 0 <= i < |demands| ==> remaining[i] + Column(plan, i) == demands[i].quantity
  }

  /** Of the patterns that fit this one has the highest score, and is the first that has it. */
  ghost predicate FirstBest(lengths: seq<real>, vs: seq<Vector>, remaining: seq<nat>, v: Vector)
    requires |remaining| == |lengths|
  {
    exists b :: 0 <= b < |vs| && vs[b] == v && Fits(v, remaining)
                && forall k :: 0 <= k < |vs| && Fits(vs[k], remaining) ==>
                     var x, y := Score(lengths, vs[k], remaining), Score(lengths, v, remaining);
                     x <= y && (k < b ==> x < y)
  }

  /** Every bar is the first best for what the bars before it have left. */
  ghost predicate Greedy(demands: seq<Demand>, vs: seq<Vector>, plan: seq<Vector>) {
    forall k, remaining :: 0 <= k < |plan| && Left(demands, plan[..k], remaining) ==>
      FirstBest(Lengths(demands), vs, remaining, plan[k])
  }

  lemma ChosenIsFirstBest(lengths: seq<real>, vs: seq<Vector>, remaining: seq<nat>, best: int)
    requires |remaining| == |lengths| && best != -1 && Chosen(lengths, vs, remaining, |vs|, best)
    ensures FirstBest(lengths, vs, remaining, vs[best])
  {
    hide Score, Fits;
  }

  lemma GreedyNext(demands: seq<Demand>, vs: seq<Vector>, plan: seq<Vector>, remaining: seq<nat>, v: Vector)
    requires Greedy(demands, vs, plan) && Left(demands, plan, remaining)
    requires |remaining| == |Lengths(demands)| && FirstBest(Lengths(demands), vs, remaining, v)
    ensures Greedy(demands, vs, plan + [v])
  {
    hide FirstBest;
    var next := plan + [v];
    forall k, r | 0 <= k < |next| && Left(demands, next[..k], r)
      ensures FirstBest(Lengths(demands), vs, r, next[k])
    {
      if k < |plan| {
        assert next[..k] == plan[..k];
      } else {
        assert next[..k] == plan;
        assert r == remaining;
      }
    }
  }

  lemma AccountedIsLeft(demands: seq<Demand>, vs: seq<Vector>, remaining: seq<nat>, cut: seq<nat>, used: seq<nat>,
                        plan: seq<Vector>)
    requires forall v :: v in vs ==> |v| == |demands|
    requires Accounted(demands, vs, remaining, cut, used, plan)
    ensures Left(demands, plan, remaining)
  {
  }

  /** A vector does not fit exactly when it has some piece too many. */
  predicate TooMany(v: Vector, remaining: seq<nat>)
    requires |v| == |remaining|
  {
    exists i :: 0 <= i < |v| && v[i] > remaining[i]
  }

  lemma FitsIff(v: Vector, remaining: seq<nat>)
    requires |v| == |remaining|
    ensures Fits(v, remaining) <==> !TooMany(v, remaining)
  {
  }

  /**
   * `optimize_cutting`: it comes to an end, every piece is either cut or still remaining, the
   * counters agree with the bars cut, each of which is the first best for what was left, and it
   * stops only when nothing remains or nothing fits.
   */
  method OptimizeCutting(demands: seq<Demand>, patterns: seq<CutPattern>, ghost vs: seq<Vector>)
      returns (remaining: array<nat>, cutTotal: array<nat>, used: array<nat>, totalBars: nat, totalDu: real,
               ghost plan: seq<Vector>)
    requires Positive(Lengths(demands))
    requires forall v :: v in vs ==> |v| == |demands| && Savable(Lengths(demands), v)
    requires patterns == Patterns(Lengths(demands), vs)
    ensures Accounted(demands, vs, remaining[..], cutTotal[..], used[..], plan)
    ensures totalBars == |plan| && totalDu == Waste(Lengths(demands), plan)
    ensures Greedy(demands, vs, plan)
    ensures (forall i :: 0 <= i < remaining.Length ==> remaining[i] == 0)
            || forall v :: v in vs ==> TooMany(v, remaining[..])
  {
    hide Accounted, Lists, Savable, Positive, Chosen, Fits, Waste, Sum, PatternOf, Left, FirstBest, Greedy,
      TooMany;
    ghost var lengths := Lengths(demands);
    remaining := new nat[|demands|](i requires 0 <= i < |demands| => demands[i].quantity);
    cutTotal := new nat[|demands|](_ => 0);
    used := new nat[|patterns|](_ => 0);
    totalBars, totalDu, plan := 0, 0.0, [];
    NothingAccounted(demands, vs, remaining[..], cutTotal[..], used[..]);
    NothingChosen(demands, vs);
    while true
      invariant remaining.Length == cutTotal.Length == |demands| && used.Length == |vs|
      invariant Accounted(demands, vs, remaining[..], cutTotal[..], used[..], plan)
      invariant totalBars == |plan| && (forall v :: v in plan ==> |v| <= |lengths|)
      invariant totalDu == Waste(lengths, plan)
      invariant Greedy(demands, vs, plan)
      decreases Sum(remaining[..])
    {
      var best := Choose(demands, patterns, remaining, vs);
      ChosenFits(lengths, vs, remaining[..], best);
      if best == -1 {
        forall v | v in vs ensures TooMany(v, remaining[..]) { FitsIff(v, remaining[..]); }
        break;
      }
      ghost var v := vs[best];
      assert v in vs;
      ChosenIsFirstBest(lengths, vs, remaining[..], best);
      AccountedIsLeft(demands, vs, remaining[..], cutTotal[..], used[..], plan);
      GreedyNext(demands, vs, plan, remaining[..], v);
      BookBar(demands, patterns[best], remaining, cutTotal, used, best, vs, plan);
      WasteNext(lengths, plan, v);
      totalBars := totalBars + 1;
      totalDu := totalDu + patterns[best].du;
      plan := plan + [v];
      var done := AllDone(remaining);
      if done { break; }
    }
  }

  lemma NothingChosen(demands: seq<Demand>, vs: seq<Vector>)
    ensures Greedy(demands, vs, [])
  {
  }

  lemma NothingAccounted(demands: seq<Demand>, vs: seq<Vector>, remaining: seq<nat>, cut: seq<nat>, used: seq<nat>)
    requires forall v :: v in vs ==> |v| == |demands|
    requires |remaining| == |cut| == |demands| && |used| == |vs|
    requires forall i :: 0 <= i < |demands| ==> remaining[i] == demands[i].quantity && cut[i] == 0
    requires forall k :: 0 <= k < |used| ==> used[k] == 0
    ensures Accounted(demands, vs, remaining, cut, used, [])
    ensures Waste(Lengths(demands), []) == 0.0
  {
    NothingUsed(used);
    forall i | 0 <= i < |demands| ensures UsedSum(used, vs, i) == 0 {
      NothingUsedOf(used, vs, i);
    }
  }

  lemma {:induction false} NothingUsed(used: seq<nat>)
    requires forall k :: 0 <= k < |used| ==> used[k] == 0
    ensures Sum(used) == 0
  {
    if used != [] { NothingUsed(used[..|used| - 1]); }
  }

  lemma {:induction false} NothingUsedOf(used: seq<nat>, vs: seq<Vector>, i: nat)
    requires |used| <= |vs|
    requires forall k :: 0 <= k < |used| ==> used[k] == 0
    ensures UsedSum(used, vs, i) == 0
  {
    if used != [] { NothingUsedOf(used[..|used| - 1], vs, i); }
  }

  lemma ChosenFits(lengths: seq<real>, vs: seq<Vector>, remaining: seq<nat>, best: int)
    requires |remaining| == |lengths| && Chosen(lengths, vs, remaining, |vs|, best)
    ensures best == -1 ==> forall v :: v in vs ==> !Fits(v, remaining)
    ensures best != -1 ==> 0 <= best < |vs| && Fits(vs[best], remaining)
  {
  }

  lemma WasteNext(lengths: seq<real>, plan: seq<Vector>, v: Vector)
    requires |v| == |lengths| && forall w :: w in plan ==> |w| <= |lengths|
    ensures forall w :: w in plan + [v] ==> |w| <= |lengths|
    ensures Waste(lengths, plan + [v]) == Waste(lengths, plan) + PatternOf(lengths, v).du
  {
    hide Total;
    assert (plan + [v])[..|plan|] == plan;
  }

  /** The whole run of the program: search, then plan; the plan takes fewer than twice the bars of any other. */
  method Run(demands: seq<Demand>) returns (remaining: array<nat>, cutTotal: array<nat>, totalBars: nat,
                                            ghost plan: seq<Vector>)
    requires Positive(Lengths(demands))
    ensures remaining.Length == cutTotal.Length == |demands| && totalBars == |plan|
    ensures forall i :: 0 <= i < |demands| ==> cutTotal[i] + remaining[i] == demands[i].quantity
    ensures (forall i :: 0 <= i < |demands| ==> remaining[i] == 0)
            || forall v :: Usable(demands, v) ==> |v| == |demands| && TooMany(v, remaining[..])
    ensures Greedy(demands, KeptVectors(demands), plan)
    ensures forall other :: Cuts(demands, other, cutTotal[..]) ==> totalBars == 0 || totalBars < 2 * |other|
  {
    hide Lengths, Usable, Fits, Cuts, Accounted, TooMany, Greedy;
    var cutter := new SteelCutter(demands);
    cutter.FindPatterns();
    ghost var vs := KeptVectors(demands);
    KeptAreUsable(demands);
    var used, totalDu;
    remaining, cutTotal, used, totalBars, totalDu, plan := OptimizeCutting(demands, cutter.patterns, vs);
    Totals(demands, vs, remaining[..], cutTotal[..], used[..], plan);
    forall other | Cuts(demands, other, cutTotal[..]) ensures totalBars == 0 || totalBars < 2 * |other| {
      PlanBeats(demands, vs, remaining[..], cutTotal[..], used[..], plan, other);
    }
  }

  /** A vector the search finds and keeps. */
  predicate Usable(demands: seq<Demand>, v: Vector) {
    && Feasible(Lengths(demands), Quantities(demands), MAX_TOTAL_LENGTH, v)
    && Savable(Lengths(demands), v)
  }

  /** A list of bars, each within its length, that gives at least the pieces asked for. */
  ghost predicate Cuts(demands: seq<Demand>, other: seq<Vector>, pieces: seq<nat>) {
    && |pieces| == |demands|
    && (forall v :: v in other ==> |v| == |demands| && Total(Lengths(demands), v) <= MAX_TOTAL_LENGTH)
    && forall i :: 0 <= i < |demands| ==> pieces[i] <= Column(other, i)
  }

  lemma KeptAreUsable(demands: seq<Demand>)
    requires Positive(Lengths(demands))
    ensures forall v :: v in KeptVectors(demands) <==> Usable(demands, v)
    ensures forall v :: v in KeptVectors(demands) ==> |v| == |demands| && Savable(Lengths(demands), v)
  {
    hide KeptVectors, Feasible, Lengths, Quantities;
    forall v ensures v in KeptVectors(demands) <==> Usable(demands, v) {
      KeptIffFeasible(demands, v);
    }
  }

  lemma Totals(demands: seq<Demand>, vs: seq<Vector>, remaining: seq<nat>, cut: seq<nat>, used: seq<nat>,
               plan: seq<Vector>)
    requires forall v :: v in vs ==> |v| == |demands|
    requires Accounted(demands, vs, remaining, cut, used, plan)
    ensures |remaining| == |cut| == |demands|
    ensures forall i :: 0 <= i < |demands| ==> cut[i] + remaining[i] == demands[i].quantity
  {
  }

  lemma PlanBeats(demands: seq<Demand>, vs: seq<Vector>, remaining: seq<nat>, cut: seq<nat>, used: seq<nat>,
                  plan: seq<Vector>, other: seq<Vector>)
    requires Positive(Lengths(demands))
    requires forall v :: v in vs ==> |v| == |demands| && Savable(Lengths(demands), v)
    requires Accounted(demands, vs, remaining, cut, used, plan) && Cuts(demands, other, cut)
    ensures plan == [] || |plan| < 2 * |other|
  {
    hide Lengths, Savable, Total, Column, UsedSum;
    TwiceTheBars(Lengths(demands), plan, other);
  }
}
