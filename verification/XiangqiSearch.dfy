/** The search of "chess AI/ai.c": evaluation, fail-soft alpha-beta and the batched root search. */
module XiangqiSearch {
  import opened Bytes
  import opened XiangqiRules
  import opened XiangqiScan

  const INT_MIN := -0x8000_0000
  const INT_MAX := 0x7fff_ffff

  // ----- evaluation -----

  function BaseValue(p: Piece, r: int, c: int): (v: nat)
    ensures v <= 10000
    ensures v == 0 <==> p.kind == Empty
  {
    match p.kind
    case Empty => 0
    case RedKing | BlackKing => 10000
    case RedAdvisor | BlackAdvisor => 300
    case RedElephant | BlackElephant => 300
    case RedRook | BlackRook => 900
    case RedCannon | BlackCannon => 500
    case RedHorse | BlackHorse => 400
    case RedPawn | BlackPawn => PawnValue(r, c, p.color)
  }

  /** A pawn is worth more past the river, and more still on four of the columns there. */
  function PawnValue(r: int, c: int, color: Color): nat {
    if if color == Red then r >= 5 else r <= 4 then
      if c in {0, 2, 6, 8} then 230 else 220
    else
      120
  }

  /** What the first `k` squares add to the score of one side. */
  function Material(b: Board, ai: Color, k: nat): (s: int)
    requires k <= 90
    ensures -10000 * k <= s <= 10000 * k
  {
    if k == 0 then 0
    else
      var p := b[k - 1];
      var v: int := BaseValue(p, (k - 1) / 9, (k - 1) % 9);
      Material(b, ai, k - 1) + if p.color == ai then v else -v
  }

  function Evaluate(b: Board, ai: Color): (s: int)
    ensures INT_MIN < s < INT_MAX
  {
    Material(b, ai, 90)
    - (if InCheck(b, ai) then 800 else 0)
    + (if InCheck(b, Opponent(ai)) then 800 else 0)
  }

  /** Every piece on the first `k` squares belongs to a side. */
  predicate AllOwned(b: Board, k: nat)
    requires k <= 90
  {
    forall i :: 0 <= i < k && b[i].kind != Empty ==> b[i].color != NoColor
  }

  lemma {:induction false} MaterialSums(b: Board, k: nat)
    requires k <= 90
    ensures Material(b, Red, k) + Material(b, Black, k) <= 0
    ensures Material(b, Red, k) + Material(b, Black, k) == 0 <==> AllOwned(b, k)
  {
    hide BaseValue;
    if k > 0 { MaterialSums(b, k - 1); }
  }

  /** The evaluation is zero-sum exactly on boards where every piece has an owner. */
  lemma EvaluateZeroSum(b: Board)
    ensures Evaluate(b, Red) == -Evaluate(b, Black) <==> AllOwned(b, 90)
  {
    hide Material, InCheck, AllOwned;
    MaterialSums(b, 90);
  }

  /** `evaluateBoard`. */
  method EvaluateBoard(board: array<Piece>, ai: Color) returns (score: int)
    requires board.Length == 90
    ensures score == Evaluate(board[..], ai)
  {
    hide InCheck;
    score := 0;
    var r := 0;
    while r < 10
      invariant 0 <= r <= 10 && score == Material(board[..], ai, 9 * r)
    {
      var c := 0;
      while c < 9
        invariant 0 <= c <= 9 && score == Material(board[..], ai, 9 * r + c)
      {
        var p := board[9 * r + c];
        assert (9 * r + c) / 9 == r && (9 * r + c) % 9 == c;
        if p.kind != Empty {
          var base: int := BaseValue(p, r, c);
          score := score + if p.color == ai then base else -base;
        }
        c := c + 1;
      }
      r := r + 1;
    }
    var check := IsKingInCheck(board, ai);
    if check { score := score - 800; }
    check := IsKingInCheck(board, Opponent(ai));
    if check { score := score + 800; }
  }

  // ----- plain minimax -----

  /** The value nothing can be worse than for the side to move. */
  function Worst(player: Color, ai: Color): int { if player == ai then INT_MIN else INT_MAX }

  function Better(player: Color, ai: Color, x: int, y: int): int {
    if player == ai then Max(x, y) else Min(x, y)
  }

  /** Minimax without any cut, `depth` plies deep. */
  function Value(b: Board, depth: nat, player: Color, ai: Color): (v: int)
    ensures INT_MIN <= v <= INT_MAX
    decreases depth, 300
  {
    if depth == 0 then Evaluate(b, ai)
    else
      var ms := AllMoves(b, player);
      if ms == [] then if InCheck(b, player) then Worst(player, ai) else 0
      else Best(b, ms, |ms|, depth - 1, player, ai)
  }

  /** The best of the first `n` moves for the side to move. */
  function Best(b: Board, ms: seq<Move>, n: nat, depth: nat, player: Color, ai: Color): (v: int)
    requires n <= |ms| <= MAX_MOVES && forall m :: m in ms ==> InBounds(m)
    ensures INT_MIN <= v <= INT_MAX
    decreases depth, 301 + n
  {
    if n == 0 then Worst(player, ai)
    else
      Better(player, ai, Best(b, ms, n - 1, depth, player, ai),
             After(b, ms[n - 1], depth, player, ai))
  }

  /** What a move is worth to `ai`. */
  function After(b: Board, m: Move, depth: nat, player: Color, ai: Color): (v: int)
    requires InBounds(m)
    ensures INT_MIN <= v <= INT_MAX
    decreases depth, 301
  {
    Value(Moved(b, m), depth, Opponent(player), ai)
  }

  /** The best value belongs to one of the moves, and no move does better. */
  lemma {:induction false} BestIsExtreme(b: Board, ms: seq<Move>, n: nat, depth: nat, player: Color, ai: Color)
    requires 0 < n <= |ms| <= MAX_MOVES && forall m :: m in ms ==> InBounds(m)
    ensures exists i :: 0 <= i < n && Best(b, ms, n, depth, player, ai) == After(b, ms[i], depth, player, ai)
    ensures forall i :: 0 <= i < n ==>
              if player == ai
              then After(b, ms[i], depth, player, ai) <= Best(b, ms, n, depth, player, ai)
              else After(b, ms[i], depth, player, ai) >= Best(b, ms, n, depth, player, ai)
  {
    hide After;
    if n > 1 { BestIsExtreme(b, ms, n - 1, depth, player, ai); }
    assert Best(b, ms, n, depth, player, ai)
           == Better(player, ai, Best(b, ms, n - 1, depth, player, ai), After(b, ms[n - 1], depth, player, ai));
  }

  // ----- fail-soft alpha-beta -----

  /** What a result tells about the true value when the search looked through a window. */
  predicate Window(result: int, value: int, alpha: int, beta: int) {
    && (result <= alpha ==> value <= result)
    && (result >= beta ==> value >= result)
    && (alpha < result < beta ==> value == result)
  }

  /** The remaining moves can only improve what has been found. */
  lemma {:induction false} BestImproves(b: Board, ms: seq<Move>, j: nat, n: nat, depth: nat,
                                        player: Color, ai: Color)
    requires j <= n <= |ms| <= MAX_MOVES && forall m :: m in ms ==> InBounds(m)
    ensures if player == ai
            then Best(b, ms, j, depth, player, ai) <= Best(b, ms, n, depth, player, ai)
            else Best(b, ms, j, depth, player, ai) >= Best(b, ms, n, depth, player, ai)
    decreases n
  {
    hide After;
    if j < n { BestImproves(b, ms, j, n - 1, depth, player, ai); }
  }

  /** The bounds the loop holds after `best` has been found within the window it was given. */
  predicate Narrowed(best: int, player: Color, ai: Color, a0: int, b0: int, alpha: int, beta: int) {
    if player == ai then alpha == Max(a0, best) && beta == b0
    else alpha == a0 && beta == Min(b0, best)
  }

  lemma NextChild(best: int, value: int, r: int, v: int, player: Color, ai: Color,
                  a0: int, b0: int, alpha: int, beta: int)
    requires Window(best, value, a0, b0) && Narrowed(best, player, ai, a0, b0, alpha, beta) && alpha < beta
    requires Window(r, v, alpha, beta)
    ensures Window(Better(player, ai, best, r), Better(player, ai, value, v), a0, b0)
  {
  }

  /**
   * `minimax` on one shared board: the board comes back as it was, and the result bounds the
   * plain minimax value from the side on which the window was left, and is that value inside it.
   */
  method Minimax(board: array<Piece>, depth: nat, alpha0: int, beta0: int, player: Color, ai: Color)
      returns (bestEval: int)
    requires board.Length == 90 && INT_MIN <= alpha0 < beta0 <= INT_MAX
    modifies board
    ensures board[..] == old(board[..])
    ensures INT_MIN <= bestEval <= INT_MAX
    ensures Window(bestEval, Value(old(board[..]), depth, player, ai), alpha0, beta0)
    decreases depth, 0
  {
    hide AllMoves, InCheck, Best, Evaluate;
    if depth == 0 {
      bestEval := EvaluateBoard(board, ai);
      return;
    }
    var moves := new Move[MAX_MOVES];
    var numMoves := GenerateAllValidMoves(board, player, moves);
    if numMoves == 0 {
      var check := IsKingInCheck(board, player);
      return if check then if player == ai then INT_MIN else INT_MAX else 0;
    }
    AllMovesInBounds(board[..], player);
    bestEval := SearchMoves(board, moves, numMoves, depth - 1, alpha0, beta0, player, ai);
  }

  lemma AllMovesInBounds(b: Board, player: Color)
    ensures |AllMoves(b, player)| <= MAX_MOVES && forall m :: m in AllMoves(b, player) ==> InBounds(m)
  {
  }

  /** The loop of `minimax` over the generated moves. */
  method SearchMoves(board: array<Piece>, moves: array<Move>, numMoves: nat, depth: nat,
                     alpha0: int, beta0: int, player: Color, ai: Color)
      returns (bestEval: int)
    requires board.Length == 90 && INT_MIN <= alpha0 < beta0 <= INT_MAX
    requires 0 < numMoves <= moves.Length == MAX_MOVES && forall m :: m in moves[..numMoves] ==> InBounds(m)
    modifies board
    ensures board[..] == old(board[..])
    ensures INT_MIN <= bestEval <= INT_MAX
    ensures Window(bestEval, Best(old(board[..]), moves[..numMoves], numMoves, depth, player, ai), alpha0, beta0)
    decreases depth, 2
  {
    hide Best, Window, Narrowed, After;
    ghost var b, ms := board[..], moves[..numMoves];
    var alpha, beta := alpha0, beta0;
    bestEval := if player == ai then INT_MIN else INT_MAX;
    NothingSearched(b, ms, depth, player, ai, alpha0, beta0);
    var i := 0;
    while i < numMoves
      invariant 0 <= i <= numMoves && board[..] == b && moves[..numMoves] == ms
      invariant INT_MIN <= alpha < beta <= INT_MAX && INT_MIN <= bestEval <= INT_MAX
      invariant Window(bestEval, Best(b, ms, i, depth, player, ai), alpha0, beta0)
      invariant Narrowed(bestEval, player, ai, alpha0, beta0, alpha, beta)
    {
      assert moves[i] == ms[i];
      var eval := SearchChild(board, moves[i], depth, alpha, beta, player, ai);
      NextChild(bestEval, Best(b, ms, i, depth, player, ai), eval, After(b, ms[i], depth, player, ai),
                player, ai, alpha0, beta0, alpha, beta);
      BestStep(b, ms, i, depth, player, ai);
      NarrowedStep(bestEval, eval, player, ai, alpha0, beta0, alpha, beta);
      if player == ai {
        bestEval := if eval > bestEval then eval else bestEval;
        alpha := if eval > alpha then eval else alpha;
      } else {
        bestEval := if eval < bestEval then eval else bestEval;
        beta := if eval < beta then eval else beta;
      }
      if beta <= alpha {
        Cut(b, ms, i + 1, depth, player, ai, bestEval, alpha0, beta0, alpha, beta);
        return;
      }
      i := i + 1;
    }
  }

  /** One turn of that loop: make the move, search, take it back. */
  method SearchChild(board: array<Piece>, m: Move, depth: nat, alpha: int, beta: int, player: Color, ai: Color)
      returns (eval: int)
    requires board.Length == 90 && INT_MIN <= alpha < beta <= INT_MAX && InBounds(m)
    modifies board
    ensures board[..] == old(board[..])
    ensures INT_MIN <= eval <= INT_MAX
    ensures Window(eval, After(old(board[..]), m, depth, player, ai), alpha, beta)
    decreases depth, 1
  {
    hide Window, Value, Moved, Unmoved;
    ghost var b := board[..];
    var captured := board[9 * m.er + m.ec];
    MakeMove(board, m);
    eval := Minimax(board, depth, alpha, beta, if player == Red then Black else Red, ai);
    UnmakeMove(board, m, captured);
    UnmakeUndoesMake(b, m);
  }

  lemma NothingSearched(b: Board, ms: seq<Move>, depth: nat, player: Color, ai: Color, a0: int, b0: int)
    requires |ms| <= MAX_MOVES && forall m :: m in ms ==> InBounds(m)
    requires INT_MIN <= a0 < b0 <= INT_MAX
    ensures Window(Worst(player, ai), Best(b, ms, 0, depth, player, ai), a0, b0)
    ensures Narrowed(Worst(player, ai), player, ai, a0, b0, a0, b0)
  {
  }

  lemma BestStep(b: Board, ms: seq<Move>, i: nat, depth: nat, player: Color, ai: Color)
    requires i < |ms| <= MAX_MOVES && forall m :: m in ms ==> InBounds(m)
    ensures Best(b, ms, i + 1, depth, player, ai)
            == Better(player, ai, Best(b, ms, i, depth, player, ai), After(b, ms[i], depth, player, ai))
  {
    hide After;
  }

  lemma NarrowedStep(best: int, eval: int, player: Color, ai: Color, a0: int, b0: int, alpha: int, beta: int)
    requires Narrowed(best, player, ai, a0, b0, alpha, beta)
    ensures Narrowed(Better(player, ai, best, eval), player, ai, a0, b0,
                     if player == ai then Max(alpha, eval) else alpha,
                     if player == ai then beta else Min(beta, eval))
  {
  }

  /** Leaving the loop early loses nothing the window promises. */
  lemma Cut(b: Board, ms: seq<Move>, i: nat, depth: nat, player: Color, ai: Color, best: int,
            a0: int, b0: int, alpha: int, beta: int)
    requires i <= |ms| <= MAX_MOVES && forall m :: m in ms ==> InBounds(m)
    requires Window(best, Best(b, ms, i, depth, player, ai), a0, b0)
    requires Narrowed(best, player, ai, a0, b0, alpha, beta) && a0 < b0 && beta <= alpha
    ensures Window(best, Best(b, ms, |ms|, depth, player, ai), a0, b0)
  {
    hide Best;
    BestImproves(b, ms, i, |ms|, depth, player, ai);
  }

  /** With the widest window nothing is lost: the result is the minimax value. */
  lemma FullWindowIsExact(result: int, b: Board, depth: nat, player: Color, ai: Color)
    requires INT_MIN <= result <= INT_MAX
    requires Window(result, Value(b, depth, player, ai), INT_MIN, INT_MAX)
    ensures result == Value(b, depth, player, ai)
  {
    hide Value;
  }

  // ----- root search -----

  const MAX_THREADS := 10

  const NO_MOVE := Move(-1, -1, -1, -1)

  class ThreadData {
    var board: array<Piece>
    var move: Move
    var aiPlayer: Color
    var depth: nat
    var eval: int

    constructor (board: array<Piece>, move: Move, aiPlayer: Color, depth: nat)
      requires board.Length == 90
      ensures fresh(this) && fresh(this.board) && this.board.Length == 90 && this.board[..] == board[..]
      ensures this.move == move && this.aiPlayer == aiPlayer && this.depth == depth
    {
      this.move := move;
      this.aiPlayer := aiPlayer;
      this.depth := depth;
      this.eval := 0;
      this.board := new Piece[90](i requires 0 <= i < 90 && board.Length == 90 reads board => board[i]);
    }

    /** `minimaxThread`: works on a copy of its own board. */
    method Run()
      requires board.Length == 90 && depth >= 1 && InBounds(move)
      modifies this`eval
      ensures eval == After(board[..], move, depth - 1, aiPlayer, aiPlayer)
    {
      hide Value, Window;
      var newBoard := Copy(board);
      MakeMove(newBoard, move);
      ghost var b := newBoard[..];
      var result := Minimax(newBoard, depth - 1, INT_MIN, INT_MAX,
                            if aiPlayer == Red then Black else Red, aiPlayer);
      FullWindowIsExact(result, b, depth - 1, Opponent(aiPlayer), aiPlayer);
      eval := result;
    }
  }

  /** The value of the i-th move of the root. */
  function RootValue(b: Board, ai: Color, depth: nat, i: nat): int
    requires depth >= 1 && i < |AllMoves(b, ai)|
  {
    assert AllMoves(b, ai)[i] in AllMoves(b, ai);
    After(b, AllMoves(b, ai)[i], depth - 1, ai, ai)
  }

  /** `best` is the choice from the first `n` root moves: the first of maximal value above INT_MIN. */
  predicate Chosen(b: Board, ai: Color, depth: nat, n: nat, best: Move, bestEval: int)
    requires depth >= 1 && n <= |AllMoves(b, ai)|
  {
    if bestEval == INT_MIN then
      best == NO_MOVE && forall i :: 0 <= i < n ==> RootValue(b, ai, depth, i) == INT_MIN
    else
      && bestEval > INT_MIN
      && (forall i :: 0 <= i < n ==> RootValue(b, ai, depth, i) <= bestEval)
      && exists k :: 0 <= k < n && FirstBest(b, ai, depth, k, best, bestEval)
  }

  predicate FirstBest(b: Board, ai: Color, depth: nat, k: nat, best: Move, bestEval: int)
    requires depth >= 1 && k < |AllMoves(b, ai)|
  {
    && best == AllMoves(b, ai)[k] && RootValue(b, ai, depth, k) == bestEval
    && forall i :: 0 <= i < k ==> RootValue(b, ai, depth, i) < bestEval
  }

  /** The threads of a batch, each with its own copy of the board, from root move `first` on. */
  ghost predicate Started(data: seq<ThreadData>, b: Board, ai: Color, depth: nat, first: nat)
    reads data, set t | t in data :: t.board
  {
    && (forall j, k :: 0 <= j < k < |data| ==> data[j] != data[k])
    && first + |data| <= |AllMoves(b, ai)|
    && forall j :: 0 <= j < |data| ==> Holds(data[j], b, ai, depth, AllMoves(b, ai)[first + j])
  }

  ghost predicate Holds(t: ThreadData, b: Board, ai: Color, depth: nat, m: Move)
    reads t, t.board
  {
    && t.board.Length == 90 && t.board[..] == b
    && t.move == m && InBounds(m) && t.aiPlayer == ai && t.depth == depth
  }

  /** Every thread that is no longer running has left the value of its move. */
  ghost predicate Finished(data: seq<ThreadData>, running: set<nat>, b: Board, ai: Color, depth: nat, first: nat)
    requires depth >= 1 && first + |data| <= |AllMoves(b, ai)|
    reads data
  {
    forall j :: 0 <= j < |data| && j !in running ==> data[j].eval == RootValue(b, ai, depth, first + j)
  }

  /** Some of the running threads, in any order, get to their end. */
  method Schedule(data: seq<ThreadData>, running: set<nat>, ghost b: Board, ai: Color, depth: nat, ghost first: nat)
      returns (left: set<nat>)
    requires depth >= 1 && Started(data, b, ai, depth, first) && Finished(data, running, b, ai, depth, first)
    requires forall j :: j in running ==> j < |data|
    modifies data
    ensures left <= running
    ensures Started(data, b, ai, depth, first) && Finished(data, left, b, ai, depth, first)
  {
    hide AllMoves, After;
    left := running;
    var more: bool := *;
    while more && left != {}
      invariant left <= running
      invariant Started(data, b, ai, depth, first) && Finished(data, left, b, ai, depth, first)
      decreases left
    {
      var j :| j in left;
      data[j].Run();
      left := left - {j};
      more := *;
    }
  }

  /** One `pthread_join`: the thread has come to its end, and its value is compared. */
  method Join(data: seq<ThreadData>, j: nat, running: set<nat>, ghost b: Board, ai: Color, depth: nat,
              ghost first: nat, best: Move, bestEval: int)
      returns (newBest: Move, newEval: int, left: set<nat>)
    requires depth >= 1 && Started(data, b, ai, depth, first) && Finished(data, running, b, ai, depth, first)
    requires j < |data| && forall k :: k in running ==> k < |data|
    requires Chosen(b, ai, depth, first + j, best, bestEval)
    modifies data
    ensures left <= running
    ensures Started(data, b, ai, depth, first) && Finished(data, left, b, ai, depth, first)
    ensures Chosen(b, ai, depth, first + j + 1, newBest, newEval)
  {
    hide AllMoves, After, Chosen;
    left := Schedule(data, running, b, ai, depth, first);
    if j in left {
      data[j].Run();
      left := left - {j};
    }
    newBest, newEval := best, bestEval;
    ChosenStep(b, ai, depth, first + j, best, bestEval);
    if data[j].eval > bestEval {
      newEval := data[j].eval;
      newBest := data[j].move;
    }
  }

  lemma ChosenStep(b: Board, ai: Color, depth: nat, n: nat, best: Move, bestEval: int)
    requires depth >= 1 && n < |AllMoves(b, ai)| && Chosen(b, ai, depth, n, best, bestEval)
    ensures var v := RootValue(b, ai, depth, n);
            Chosen(b, ai, depth, n + 1, if v > bestEval then AllMoves(b, ai)[n] else best,
                   if v > bestEval then v else bestEval)
  {
    hide AllMoves, After;
    var v := RootValue(b, ai, depth, n);
    assert v >= INT_MIN;
    if v > bestEval {
      assert FirstBest(b, ai, depth, n, AllMoves(b, ai)[n], v);
    }
  }

  /**
   * `findBestMove`. Threads of a batch may finish in any order; the result is the first move of
   * maximal minimax value, or the null move when there is no move worth more than INT_MIN.
   */
  method FindBestMove(board: array<Piece>, ai: Color, depth: nat) returns (bestMove: Move)
    requires board.Length == 90 && depth >= 1
    ensures IsBestMove(board[..], ai, depth, bestMove)
  {
    hide AllMoves, Chosen, Started, Finished, Holds, RootValue;
    ghost var b := board[..];
    AllMovesInBounds(b, ai);
    NothingChosen(b, ai, depth);
    bestMove := NO_MOVE;
    var bestEval := INT_MIN;
    var moves := new Move[MAX_MOVES];
    var numMoves := GenerateAllValidMoves(board, ai, moves);
    var data: seq<ThreadData> := [];
    var running: set<nat> := {};
    var i := 0;
    ghost var first := 0;
    BatchStarts(b, ai, depth, 0);
    while i < numMoves
      invariant 0 <= i <= numMoves && moves[..numMoves] == AllMoves(b, ai) && fresh(data)
      invariant i == first + |data| && |data| < MAX_THREADS && (i == numMoves ==> data == [])
      invariant forall k :: k in running ==> k < |data|
      invariant Started(data, b, ai, depth, first) && Finished(data, running, b, ai, depth, first)
      invariant Chosen(b, ai, depth, first, bestMove, bestEval)
    {
      data, running := Create(board, moves[i], data, running, ai, depth, first);
      if |data| == MAX_THREADS || i == numMoves - 1 {
        bestMove, bestEval := JoinAll(data, running, b, ai, depth, first, bestMove, bestEval);
        first := i + 1;
        data, running := [], {};
        BatchStarts(b, ai, depth, first);
      }
      i := i + 1;
    }
    assert Chosen(b, ai, depth, |AllMoves(b, ai)|, bestMove, bestEval);
  }

  /** The choice from all root moves. */
  ghost predicate IsBestMove(b: Board, ai: Color, depth: nat, best: Move)
    requires depth >= 1
  {
    exists v :: Chosen(b, ai, depth, |AllMoves(b, ai)|, best, v)
  }

  /** One `pthread_create`: from now on the new thread, and those before it, may run at any time. */
  method Create(board: array<Piece>, m: Move, data: seq<ThreadData>, running: set<nat>, ai: Color, depth: nat,
                ghost first: nat)
      returns (all: seq<ThreadData>, left: set<nat>)
    requires board.Length == 90 && depth >= 1
    requires Started(data, board[..], ai, depth, first) && Finished(data, running, board[..], ai, depth, first)
    requires forall k :: k in running ==> k < |data|
    requires first + |data| < |AllMoves(board[..], ai)| && m == AllMoves(board[..], ai)[first + |data|]
    modifies data
    ensures |all| == |data| + 1 && all[..|data|] == data && fresh(all[|data|])
    ensures left <= running + {|data|}
    ensures Started(all, board[..], ai, depth, first) && Finished(all, left, board[..], ai, depth, first)
  {
    hide AllMoves, Started, Finished, Holds, RootValue;
    var thread := new ThreadData(board, m, ai, depth);
    AllMovesInBounds(board[..], ai);
    assert m in AllMoves(board[..], ai);
    ThreadHolds(thread, board[..], ai, depth, m);
    BatchGrows(data, thread, running, board[..], ai, depth, first);
    all := data + [thread];
    left := Schedule(all, running + {|data|}, board[..], ai, depth, first);
  }

  /** The joins at the end of a batch, in the order the threads were created. */
  method JoinAll(data: seq<ThreadData>, running: set<nat>, ghost b: Board, ai: Color, depth: nat,
                 ghost first: nat, best: Move, bestEval: int)
      returns (newBest: Move, newEval: int)
    requires depth >= 1 && Started(data, b, ai, depth, first) && Finished(data, running, b, ai, depth, first)
    requires forall k :: k in running ==> k < |data|
    requires Chosen(b, ai, depth, first, best, bestEval)
    modifies data
    ensures first + |data| <= |AllMoves(b, ai)|
    ensures Chosen(b, ai, depth, first + |data|, newBest, newEval)
  {
    hide AllMoves, RootValue, Chosen;
    newBest, newEval := best, bestEval;
    var left := running;
    var j := 0;
    while j < |data|
      invariant 0 <= j <= |data| && left <= running
      invariant Started(data, b, ai, depth, first) && Finished(data, left, b, ai, depth, first)
      invariant Chosen(b, ai, depth, first + j, newBest, newEval)
    {
      newBest, newEval, left := Join(data, j, left, b, ai, depth, first, newBest, newEval);
      j := j + 1;
    }
  }

  lemma ThreadHolds(thread: ThreadData, b: Board, ai: Color, depth: nat, m: Move)
    requires thread.board.Length == 90 && thread.board[..] == b && InBounds(m)
    requires thread.move == m && thread.aiPlayer == ai && thread.depth == depth
    ensures Holds(thread, b, ai, depth, m)
  {
  }

  /** A newly created thread joins the batch. */
  lemma BatchGrows(data: seq<ThreadData>, thread: ThreadData, running: set<nat>, b: Board, ai: Color,
                   depth: nat, first: nat)
    requires depth >= 1 && Started(data, b, ai, depth, first) && Finished(data, running, b, ai, depth, first)
    requires first + |data| < |AllMoves(b, ai)| && thread !in data
    requires Holds(thread, b, ai, depth, AllMoves(b, ai)[first + |data|])
    ensures Started(data + [thread], b, ai, depth, first)
    ensures Finished(data + [thread], running + {|data|}, b, ai, depth, first)
  {
    hide AllMoves, RootValue, Holds;
    var more := data + [thread];
    forall j | 0 <= j < |more|
      ensures Holds(more[j], b, ai, depth, AllMoves(b, ai)[first + j])
    {
    }
  }

  lemma BatchStarts(b: Board, ai: Color, depth: nat, first: nat)
    requires depth >= 1 && first <= |AllMoves(b, ai)|
    ensures Started([], b, ai, depth, first) && Finished([], {}, b, ai, depth, first)
  {
  }

  lemma NothingChosen(b: Board, ai: Color, depth: nat)
    requires depth >= 1
    ensures Chosen(b, ai, depth, 0, NO_MOVE, INT_MIN)
  {
  }

  /** Whenever there is a move, the position's minimax value is that of the chosen move, or INT_MIN. */
  lemma BestMoveIsMinimax(b: Board, ai: Color, depth: nat, best: Move)
    requires depth >= 1 && AllMoves(b, ai) != [] && IsBestMove(b, ai, depth, best)
    ensures if best == NO_MOVE then Value(b, depth, ai, ai) == INT_MIN
            else InBounds(best) && Value(b, depth, ai, ai) == After(b, best, depth - 1, ai, ai)
  {
    hide AllMoves, After;
    var ms := AllMoves(b, ai);
    AllMovesInBounds(b, ai);
    BestIsExtreme(b, ms, |ms|, depth - 1, ai, ai);
    forall i | 0 <= i < |ms|
      ensures InBounds(ms[i]) && ms[i] != NO_MOVE
              && RootValue(b, ai, depth, i) == After(b, ms[i], depth - 1, ai, ai)
    {
      assert ms[i] in ms;
    }
  }

  /** The result is determined: two runs, whatever their schedules, choose the same move. */
  lemma BestMoveIsUnique(b: Board, ai: Color, depth: nat, m1: Move, m2: Move)
    requires depth >= 1 && IsBestMove(b, ai, depth, m1) && IsBestMove(b, ai, depth, m2)
    ensures m1 == m2
  {
    hide AllMoves, RootValue;
  }

  // ----- what a value of INT_MIN means on the board -----

  /**
   * Within `depth` plies the side of `ai` cannot avoid being mated: it has no move and is in check,
   * or each of its moves, or some move of the other side, leads to such a position.
   */
  ghost predicate Mated(b: Board, depth: nat, player: Color, ai: Color)
    decreases depth
  {
    depth > 0 &&
    if AllMoves(b, player) == [] then player == ai && InCheck(b, player)
    else if player == ai then
      forall m :: m in AllMoves(b, player) ==> Mated(Moved(b, m), depth - 1, Opponent(player), ai)
    else
      exists m :: m in AllMoves(b, player) && Mated(Moved(b, m), depth - 1, Opponent(player), ai)
  }

  /** The minimax value is INT_MIN exactly when the side is mated by force within the depth. */
  lemma {:induction false} WorstIsMated(b: Board, depth: nat, player: Color, ai: Color)
    ensures Value(b, depth, player, ai) == INT_MIN <==> Mated(b, depth, player, ai)
    decreases depth
  {
    hide AllMoves, InCheck, Best, Evaluate;
    if depth > 0 && AllMoves(b, player) != [] {
      var ms := AllMoves(b, player);
      AllMovesInBounds(b, player);
      BestIsExtreme(b, ms, |ms|, depth - 1, player, ai);
      forall i | 0 <= i < |ms|
        ensures After(b, ms[i], depth - 1, player, ai) == INT_MIN
                <==> Mated(Moved(b, ms[i]), depth - 1, Opponent(player), ai)
      {
        WorstIsMated(Moved(b, ms[i]), depth - 1, Opponent(player), ai);
      }
    }
  }

  /** The null move is the result exactly when every listed move leads to a forced mate. */
  lemma NullMoveIff(b: Board, ai: Color, depth: nat)
    requires depth >= 1
    ensures IsBestMove(b, ai, depth, NO_MOVE) <==>
              forall m :: m in AllMoves(b, ai) ==> Mated(Moved(b, m), depth - 1, Opponent(ai), ai)
  {
    hide AllMoves, Mated, Value;
    AllMovesInBounds(b, ai);
    var ms := AllMoves(b, ai);
    forall i | 0 <= i < |ms|
      ensures ms[i] != NO_MOVE && InBounds(ms[i])
      ensures RootValue(b, ai, depth, i) == INT_MIN <==> Mated(Moved(b, ms[i]), depth - 1, Opponent(ai), ai)
    {
      assert ms[i] in ms;
      WorstIsMated(Moved(b, ms[i]), depth - 1, Opponent(ai), ai);
    }
    if forall m :: m in ms ==> Mated(Moved(b, m), depth - 1, Opponent(ai), ai) {
      forall i | 0 <= i < |ms| ensures RootValue(b, ai, depth, i) == INT_MIN { assert ms[i] in ms; }
      assert Chosen(b, ai, depth, |ms|, NO_MOVE, INT_MIN);
    }
    if IsBestMove(b, ai, depth, NO_MOVE) {
      var bestEval :| Chosen(b, ai, depth, |ms|, NO_MOVE, bestEval);
      forall m | m in ms ensures Mated(Moved(b, m), depth - 1, Opponent(ai), ai) {
        var i :| 0 <= i < |ms| && ms[i] == m;
      }
    }
  }
}
