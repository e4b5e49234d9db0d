/** What the values of the search mean in play, and the order in which the moves are tried. */
module XiangqiForce {
  import opened Bytes
  import opened XiangqiRules
  import opened XiangqiScan
  import opened XiangqiSearch
  import opened XiangqiPositions

  /**
   * Whatever the other side plays, the side of `ai` can reach a score of at least `x` in `depth`
   * plies of valid moves; a side without one has lost if it is in check, and else scores nothing.
   */
  ghost predicate Forces(p: Position, depth: nat, ai: Color, x: int)
    decreases depth
  {
    if depth == 0 then x <= Evaluate(p.board, ai)
    else if !CanPlay(p) then
      x <= if !InCheck(p.board, p.player) then 0 else if p.player == ai then -2147483648 else 2147483647
    else if p.player == ai then
      exists m :: ValidMove(p.board, m, p.player) && InBounds(m) && Forces(Next(p, m), depth - 1, ai, x)
    else
      forall m :: ValidMove(p.board, m, p.player) && InBounds(m) ==> Forces(Next(p, m), depth - 1, ai, x)
  }

  ghost predicate CanPlay(p: Position) {
    exists m :: ValidMove(p.board, m, p.player)
  }

  /** The minimax value is the best score that can be forced, in every position of a game. */
  lemma {:induction false} ValueIsForced(p: Position, depth: nat, ai: Color, x: int)
    requires Invariant(p)
    ensures x <= Value(p.board, depth, p.player, ai) <==> Forces(p, depth, ai, x)
    decreases depth
  {
    hide Invariant, ValidMove, AllMoves, InCheck, Evaluate, Best, After;
    if depth > 0 {
      MovesNeverOverflow(p);
      MovesSoundAndComplete(p.board, p.player);
      var ms := AllMoves(p.board, p.player);
      if ms != [] {
        forall m | m in ms
          ensures InBounds(m)
          ensures x <= After(p.board, m, depth - 1, p.player, ai) <==> Forces(Next(p, m), depth - 1, ai, x)
        {
          ValidInBounds(p.board, m, p.player);
          MoveKeepsInvariant(p, m);
          ValueIsForced(Next(p, m), depth - 1, ai, x);
          AfterIsValue(p, m, depth - 1, ai);
        }
        BestOfAll(p, ms, depth - 1, ai, x);
        assert ValidMove(p.board, ms[0], p.player);
      }
    }
  }

  /** The best of the moves reaches a score when one of them does, or all of them for the other side. */
  lemma BestOfAll(p: Position, ms: seq<Move>, depth: nat, ai: Color, x: int)
    requires 0 < |ms| <= MAX_MOVES && forall m :: m in ms ==> InBounds(m)
    ensures x <= Best(p.board, ms, |ms|, depth, p.player, ai) <==>
              if p.player == ai then exists m :: m in ms && x <= After(p.board, m, depth, p.player, ai)
              else forall m :: m in ms ==> x <= After(p.board, m, depth, p.player, ai)
  {
    hide Best, After;
    BestIsExtreme(p.board, ms, |ms|, depth, p.player, ai);
    var i :| 0 <= i < |ms| && Best(p.board, ms, |ms|, depth, p.player, ai)
                              == After(p.board, ms[i], depth, p.player, ai);
    assert ms[i] in ms;
  }

  lemma AfterIsValue(p: Position, m: Move, depth: nat, ai: Color)
    requires InBounds(m)
    ensures After(p.board, m, depth, p.player, ai) == Value(Next(p, m).board, depth, Next(p, m).player, ai)
  {
    hide Value;
  }

  // ----- the order of the moves -----

  /** By the row, then the column of the start, then the row and the column of the target. */
  predicate Earlier(m: Move, n: Move) {
    || m.sr < n.sr
    || (m.sr == n.sr && m.sc < n.sc)
    || (m.sr == n.sr && m.sc == n.sc && m.er < n.er)
    || (m.sr == n.sr && m.sc == n.sc && m.er == n.er && m.ec < n.ec)
  }

  function Code(m: Move): int { 90 * (9 * m.sr + m.sc) + 9 * m.er + m.ec }

  lemma CodesInOrder(m: Move, n: Move)
    requires InBounds(m) && InBounds(n)
    ensures Code(m) < Code(n) <==> Earlier(m, n)
  {
  }

  lemma Quotients(k: nat)
    ensures k / 90 / 9 == k / 810 && k / 9 / 10 == k / 90
  {
  }

  lemma PairCode(k: nat)
    requires k < 8100
    ensures InBounds(Pair(k)) && Code(Pair(k)) == k
  {
    Quotients(k);
    assert k / 90 == 9 * (k / 90 / 9) + k / 90 % 9;
    assert k / 9 == 10 * (k / 9 / 10) + k / 9 % 10;
    assert k == 9 * (k / 9) + k % 9;
  }

  predicate Ascending(ms: seq<Move>, k: nat) {
    && (forall i, j :: 0 <= i < j < |ms| ==> Code(ms[i]) < Code(ms[j]))
    && forall i :: 0 <= i < |ms| ==> Code(ms[i]) < k
  }

  lemma {:induction false} UpToInOrder(b: Board, player: Color, k: nat)
    requires k <= 8100
    ensures Ascending(MovesUpTo(b, player, k), k)
  {
    hide Pair, Code, ValidMove, MovesUpTo;
    if k == 0 {
      NoMovesYet(b, player);
    } else {
      UpToInOrder(b, player, k - 1);
      PairCode(k - 1);
      NextMove(b, player, k - 1);
    }
  }

  lemma NextMove(b: Board, player: Color, k: nat)
    ensures MovesUpTo(b, player, k + 1)
         == MovesUpTo(b, player, k) + if ValidMove(b, Pair(k), player) then [Pair(k)] else []
  {
  }

  /** The moves are listed one after the other by their squares; the list is cut off at 256 and only there. */
  lemma MovesInOrder(b: Board, player: Color)
    ensures var ms := AllMoves(b, player);
            && |ms| <= 256 && (forall i, j :: 0 <= i < j < |ms| ==> Earlier(ms[i], ms[j]))
            && forall m :: ValidMove(b, m, player) ==>
                 m in ms || (|ms| == 256 && Earlier(ms[255], m))
  {
    hide Earlier, ValidMove, Code;
    var ms, all := AllMoves(b, player), MovesUpTo(b, player, 8100);
    UpToInOrder(b, player, 8100);
    Prefix(all, ms);
    hide MovesUpTo, AllMoves;
    forall i, j | 0 <= i < j < |ms| ensures Earlier(ms[i], ms[j]) {
      assert ms[i] in ms && ms[j] in ms && ms[i] == all[i] && ms[j] == all[j];
      assert Code(all[i]) < Code(all[j]);
      ValidInBounds(b, ms[i], player);
      ValidInBounds(b, ms[j], player);
      CodesInOrder(ms[i], ms[j]);
    }
    forall m | ValidMove(b, m, player) ensures m in ms || (|ms| == 256 && Earlier(ms[255], m)) {
      ValidInBounds(b, m, player);
      ListedWhenPassed(b, player, m, 8100);
      if m !in ms {
        var i :| 0 <= i < |all| && all[i] == m;
        assert |all| > 256 && ms[255] in ms && ms[255] == all[255];
        ValidInBounds(b, ms[255], player);
        CodesInOrder(ms[255], m);
      }
    }
  }

  lemma Prefix(all: seq<Move>, ms: seq<Move>)
    requires ms == if |all| <= MAX_MOVES then all else all[..MAX_MOVES]
    ensures |ms| <= 256 && (|all| <= 256 ==> ms == all) && (|all| > 256 ==> |ms| == 256)
    ensures forall i :: 0 <= i < |ms| ==> ms[i] == all[i]
    ensures forall i :: 0 <= i < |all| && all[i] !in ms ==> i >= 256
  {
    forall i | 0 <= i < |all| && i < 256 ensures all[i] in ms {
      assert ms[i] == all[i];
    }
  }
}
