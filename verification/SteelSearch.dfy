/** The pruned search for cutting patterns shared by catthep1/main.cpp and catthep1/main2.cpp, over real lengths. */
module SteelSearch {

  type Vector = seq<nat>

  predicate Positive(lengths: seq<real>) {
    forall i :: 0 <= i < |lengths| ==> lengths[i] > 0.0
  }

  /** The steel a vector of counts uses up. */
  function Total(lengths: seq<real>, v: Vector): (t: real)
    requires |v| <= |lengths|
  {
    if v == [] then 0.0
    else Total(lengths, v[..|v| - 1]) + v[|v| - 1] as real * lengths[|v| - 1]
  }

  /** A vector within the caps that fits on one bar. */
  predicate Feasible(lengths: seq<real>, caps: seq<int>, limit: real, v: Vector)
    requires |caps| == |lengths|
  {
    && |v| == |lengths|
    && (forall i :: 0 <= i < |v| ==> v[i] <= caps[i])
    && Total(lengths, v) <= limit
  }

  /** The leaves `search` gets to below a first part of the vector, in the order it gets to them. */
  function Reached(lengths: seq<real>, caps: seq<int>, limit: real, prefix: Vector, total: real): seq<Vector>
    requires |prefix| <= |lengths| == |caps|
    decreases |lengths| - |prefix|, 1, 0
  {
    if total > limit then []
    else if |prefix| == |lengths| then [prefix]
    else ReachedFrom(lengths, caps, limit, prefix, total, 0)
  }

  /** The same for the counts from `i` on at the next position. */
  function ReachedFrom(lengths: seq<real>, caps: seq<int>, limit: real, prefix: Vector, total: real, i: nat)
      : seq<Vector>
    requires |prefix| < |lengths| == |caps|
    decreases |lengths| - |prefix|, 0, caps[|prefix|] - i
  {
    if i > caps[|prefix|] then []
    else
      Reached(lengths, caps, limit, prefix + [i], total + i as real * lengths[|prefix|])
      + ReachedFrom(lengths, caps, limit, prefix, total, i + 1)
  }

  // ----- completeness -----

  lemma TotalNext(lengths: seq<real>, prefix: Vector, i: nat)
    requires |prefix| < |lengths|
    ensures Total(lengths, prefix + [i]) == Total(lengths, prefix) + i as real * lengths[|prefix|]
  {
    assert (prefix + [i])[..|prefix|] == prefix;
  }

  /** With positive lengths a first part never uses more than the whole. */
  lemma {:induction false} TotalGrows(lengths: seq<real>, v: Vector, n: nat)
    requires Positive(lengths) && n <= |v| <= |lengths|
    ensures 0.0 <= Total(lengths, v[..n]) <= Total(lengths, v)
    decreases |v| - n, n
  {
    if n < |v| {
      TotalGrows(lengths, v, n + 1);
      assert v[..n + 1][..n] == v[..n];
      assert v[n] as real * lengths[n] >= 0.0;
      NotNegative(lengths, v[..n]);
    } else {
      assert v[..n] == v;
      NotNegative(lengths, v);
    }
  }

  lemma {:induction false} NotNegative(lengths: seq<real>, v: Vector)
    requires Positive(lengths) && |v| <= |lengths|
    ensures Total(lengths, v) >= 0.0
  {
    if v != [] {
      NotNegative(lengths, v[..|v| - 1]);
      assert v[|v| - 1] as real * lengths[|v| - 1] >= 0.0;
    }
  }

  predicate Within(caps: seq<int>, prefix: Vector) {
    |prefix| <= |caps| && forall i :: 0 <= i < |prefix| ==> prefix[i] <= caps[i]
  }

  /** The leaves are exactly the feasible vectors that extend the prefix. */
  lemma {:induction false} ReachedIffFeasible(
      lengths: seq<real>, caps: seq<int>, limit: real, prefix: Vector, v: Vector)
    requires Positive(lengths) && |prefix| <= |lengths| == |caps| && Within(caps, prefix)
    ensures v in Reached(lengths, caps, limit, prefix, Total(lengths, prefix))
            <==> Feasible(lengths, caps, limit, v) && prefix <= v
    decreases |lengths| - |prefix|, 1, 0
  {
    hide Positive;
    var total := Total(lengths, prefix);
    if Feasible(lengths, caps, limit, v) && prefix <= v {
      TotalGrows(lengths, v, |prefix|);
      assert v[..|prefix|] == prefix;
    }
    if total <= limit {
      if |prefix| == |lengths| {
        assert prefix <= v && |v| == |prefix| ==> v == prefix;
      } else {
        ReachedFromIffFeasible(lengths, caps, limit, prefix, 0, v);
      }
    }
  }

  lemma FromSplits(
      lengths: seq<real>, caps: seq<int>, limit: real, prefix: Vector, total: real, i: nat, v: Vector)
    requires |prefix| < |lengths| == |caps|
    ensures v in ReachedFrom(lengths, caps, limit, prefix, total, i)
            <==> && i <= caps[|prefix|]
                 && (|| v in Reached(lengths, caps, limit, prefix + [i], total + i as real * lengths[|prefix|])
                     || v in ReachedFrom(lengths, caps, limit, prefix, total, i + 1))
  {
    hide Reached;
  }

  lemma {:induction false} ReachedFromIffFeasible(
      lengths: seq<real>, caps: seq<int>, limit: real, prefix: Vector, i: nat, v: Vector)
    requires Positive(lengths) && |prefix| < |lengths| == |caps| && Within(caps, prefix)
    ensures v in ReachedFrom(lengths, caps, limit, prefix, Total(lengths, prefix), i)
            <==> Feasible(lengths, caps, limit, v) && prefix <= v && v[|prefix|] >= i
    decreases |lengths| - |prefix|, 0, caps[|prefix|] - i
  {
    hide Positive, Feasible, Total, Reached, ReachedFrom;
    FromSplits(lengths, caps, limit, prefix, Total(lengths, prefix), i, v);
    if i > caps[|prefix|] {
      if Feasible(lengths, caps, limit, v) {
        FeasibleLength(lengths, caps, limit, v);
        WithinCaps(lengths, caps, limit, v);
      }
    } else {
      TotalNext(lengths, prefix, i);
      ReachedIffFeasible(lengths, caps, limit, prefix + [i], v);
      ReachedFromIffFeasible(lengths, caps, limit, prefix, i + 1, v);
      if Feasible(lengths, caps, limit, v) {
        FeasibleLength(lengths, caps, limit, v);
        Extends(prefix, i, v);
      }
    }
  }

  lemma WithinCaps(lengths: seq<real>, caps: seq<int>, limit: real, v: Vector)
    requires |caps| == |lengths| && Feasible(lengths, caps, limit, v)
    ensures Within(caps, v)
  {
  }

  lemma Extends(prefix: Vector, i: nat, v: Vector)
    requires |prefix| < |v|
    ensures prefix + [i] <= v <==> prefix <= v && v[|prefix|] == i
  {
    if prefix + [i] <= v {
      assert v[..|prefix| + 1] == prefix + [i];
      assert v[..|prefix|] == prefix;
    }
  }

  // ----- order -----

  /** Lexicographic order of vectors of one length. */
  predicate Before(v: Vector, w: Vector) {
    |v| == |w| && exists k :: 0 <= k < |v| && FirstSmaller(v, w, k)
  }

  predicate FirstSmaller(v: Vector, w: Vector, k: nat)
    requires k < |v| == |w|
  {
    v[k] < w[k] && forall i :: 0 <= i < k ==> v[i] == w[i]
  }

  /** The order lists every vector at most once. */
  lemma BeforeIsStrict(v: Vector)
    ensures !Before(v, v)
  {
  }

  /** The leaves come in strictly increasing lexicographic order. */
  lemma {:induction false} ReachedInOrder(
      lengths: seq<real>, caps: seq<int>, limit: real, prefix: Vector, a: nat, b: nat)
    requires Positive(lengths) && |prefix| <= |lengths| == |caps| && Within(caps, prefix)
    requires a < b < |Reached(lengths, caps, limit, prefix, Total(lengths, prefix))|
    ensures var r := Reached(lengths, caps, limit, prefix, Total(lengths, prefix)); Before(r[a], r[b])
    decreases |lengths| - |prefix|, 1, 0
  {
    hide Positive, Before;
    if |prefix| < |lengths| {
      ReachedFromInOrder(lengths, caps, limit, prefix, 0, a, b);
    }
  }

  lemma {:induction false} ReachedFromInOrder(
      lengths: seq<real>, caps: seq<int>, limit: real, prefix: Vector, i: nat, a: nat, b: nat)
    requires Positive(lengths) && |prefix| < |lengths| == |caps| && Within(caps, prefix)
    requires a < b < |ReachedFrom(lengths, caps, limit, prefix, Total(lengths, prefix), i)|
    ensures var r := ReachedFrom(lengths, caps, limit, prefix, Total(lengths, prefix), i); Before(r[a], r[b])
    decreases |lengths| - |prefix|, 0, caps[|prefix|] - i
  {
    hide Positive, Before, Feasible, Total;
    var total := Total(lengths, prefix);
    TotalNext(lengths, prefix, i);
    var one := Reached(lengths, caps, limit, prefix + [i], Total(lengths, prefix + [i]));
    var rest := ReachedFrom(lengths, caps, limit, prefix, total, i + 1);
    if b < |one| {
      ReachedInOrder(lengths, caps, limit, prefix + [i], a, b);
    } else if a >= |one| {
      ReachedFromInOrder(lengths, caps, limit, prefix, i + 1, a - |one|, b - |one|);
    } else {
      var v, w := one[a], rest[b - |one|];
      ReachedIffFeasible(lengths, caps, limit, prefix + [i], v);
      ReachedFromIffFeasible(lengths, caps, limit, prefix, i + 1, w);
      FeasibleLength(lengths, caps, limit, v);
      FeasibleLength(lengths, caps, limit, w);
      AreBefore(v, w, prefix, i);
    }
  }

  lemma FeasibleLength(lengths: seq<real>, caps: seq<int>, limit: real, v: Vector)
    requires |caps| == |lengths| && Feasible(lengths, caps, limit, v)
    ensures |v| == |lengths|
  {
  }

  lemma AreBefore(v: Vector, w: Vector, prefix: Vector, i: nat)
    requires |v| == |w| > |prefix| && prefix + [i] <= v && prefix <= w && w[|prefix|] > i
    ensures Before(v, w)
  {
    assert v[|prefix|] == (prefix + [i])[|prefix|];
    forall k | 0 <= k < |prefix| ensures v[k] == w[k] {
      assert v[k] == (prefix + [i])[k] == prefix[k];
    }
    assert FirstSmaller(v, w, |prefix|);
  }

  /** The whole search: every feasible vector exactly once, in lexicographic order. */
  function AllReached(lengths: seq<real>, caps: seq<int>, limit: real): seq<Vector>
    requires |caps| == |lengths|
  {
    Reached(lengths, caps, limit, [], 0.0)
  }

  lemma SearchIsComplete(lengths: seq<real>, caps: seq<int>, limit: real)
    requires Positive(lengths) && |caps| == |lengths|
    ensures forall v :: v in AllReached(lengths, caps, limit) <==> Feasible(lengths, caps, limit, v)
    ensures var r := AllReached(lengths, caps, limit);
            forall a, b :: 0 <= a < b < |r| ==> Before(r[a], r[b]) && r[a] != r[b]
  {
    hide Reached, Feasible, Positive, Before;
    NoTotal(lengths);
    forall v ensures v in AllReached(lengths, caps, limit) <==> Feasible(lengths, caps, limit, v) {
      ReachedIffFeasible(lengths, caps, limit, [], v);
    }
    var r := AllReached(lengths, caps, limit);
    forall a, b | 0 <= a < b < |r| ensures Before(r[a], r[b]) && r[a] != r[b] {
      ReachedInOrder(lengths, caps, limit, [], a, b);
      BeforeIsStrict(r[a]);
    }
  }

  lemma NoTotal(lengths: seq<real>)
    ensures Total(lengths, []) == 0.0
  {
  }

  // ----- keeping some of the vectors -----

  function Filter(vs: seq<Vector>, keep: Vector -> bool): (k: seq<Vector>)
    ensures forall v :: v in k <==> v in vs && keep(v)
  {
    if vs == [] then []
    else Filter(vs[..|vs| - 1], keep) + if keep(vs[|vs| - 1]) then [vs[|vs| - 1]] else []
  }

  lemma {:induction false} FilterConcat(a: seq<Vector>, b: seq<Vector>, keep: Vector -> bool)
    ensures Filter(a + b, keep) == Filter(a, keep) + Filter(b, keep)
  {
    if b == [] {
      assert a + b == a;
    } else {
      assert (a + b)[..|a + b| - 1] == a + b[..|b| - 1];
      FilterConcat(a, b[..|b| - 1], keep);
    }
  }

  lemma FilterOne(v: Vector, keep: Vector -> bool)
    ensures Filter([], keep) == [] && Filter([v], keep) == if keep(v) then [v] else []
  {
    assert [v][..0] == [];
    assert Filter([v], keep) == Filter([], keep) + if keep(v) then [v] else [];
  }

  ghost predicate InOrder(vs: seq<Vector>) {
    forall a, b :: 0 <= a < b < |vs| ==> Before(vs[a], vs[b])
  }

  lemma {:induction false} FilterInOrder(vs: seq<Vector>, keep: Vector -> bool)
    requires InOrder(vs)
    ensures InOrder(Filter(vs, keep))
  {
    hide Before;
    if vs != [] {
      var rest := vs[..|vs| - 1];
      FilterInOrder(rest, keep);
      var k := Filter(rest, keep);
      var all := Filter(vs, keep);
      forall a, b | 0 <= a < b < |all| ensures Before(all[a], all[b]) {
        if b < |k| {
          assert all[a] == k[a] && all[b] == k[b];
        } else {
          assert all[a] == k[a] && k[a] in rest;
          var i :| 0 <= i < |rest| && rest[i] == k[a];
          assert Before(vs[i], vs[|vs| - 1]);
        }
      }
    }
  }

  // ----- the cap of the second program -----

  /** The pieces of one length alone fit the bar. */
  lemma OneCountFits(lengths: seq<real>, v: Vector, limit: real, i: nat)
    requires Positive(lengths) && i < |v| == |lengths| && Total(lengths, v) <= limit
    ensures v[i] as real * lengths[i] <= limit
  {
    TotalGrows(lengths, v, i + 1);
    assert v[..i + 1][..i] == v[..i];
    NotNegative(lengths, v[..i]);
  }

  /** A number of pieces of a length that is not below the shortest. */
  lemma FewPieces(x: real, length: real, limit: real, shortest: real)
    requires x >= 0.0 && x * length <= limit && 0.0 < shortest <= length
    ensures x <= limit / shortest
  {
    LargerFactor(x, shortest, length);
    DivideBound(x, shortest, limit);
  }

  /** Counts that fit the bar never exceed the bar length over the shortest length. */
  lemma CountsAreCapped(lengths: seq<real>, v: Vector, limit: real, shortest: real, i: nat)
    requires Positive(lengths) && i < |v| == |lengths| && Total(lengths, v) <= limit
    requires 0.0 < shortest <= limit && (lengths[i] >= shortest || lengths[i] >= limit)
    ensures v[i] <= (limit / shortest).Floor
  {
    hide Total, Positive;
    OneCountFits(lengths, v, limit, i);
    FewPieces(v[i] as real, lengths[i], limit, shortest);
  }

  lemma DivideBound(x: real, d: real, limit: real)
    requires d > 0.0 && x * d <= limit
    ensures x <= limit / d
  {
    var q := limit / d;
    assert q * d == limit;
    if x > q { Larger(x, q, d); }
  }

  lemma LargerFactor(x: real, a: real, b: real)
    requires x >= 0.0 && a <= b
    ensures x * a <= x * b
  {
    assert x * (b - a) >= 0.0;
  }

  lemma Larger(x: real, q: real, d: real)
    requires d > 0.0 && x > q
    ensures x * d > q * d
  {
    assert (x - q) * d > 0.0;
  }
}
