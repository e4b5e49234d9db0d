/** The game of "chess AI/game.c": turns, the machine's turn and the end of the game. */
module XiangqiGame {
  import opened Bytes
  import opened XiangqiRules
  import opened XiangqiScan
  import opened XiangqiSearch
  import opened XiangqiPositions

  datatype State = Running | RedWins | BlackWins | Draw | Exit

  /** `initializeBoard`. */
  method InitializeBoard(board: array<Piece>)
    requires board.Length == 90
    modifies board
    ensures IsStart(board[..])
  {
    var i := 0;
    while i < 90
      invariant 0 <= i <= 90 && forall k :: 0 <= k < i ==> board[k] == EMPTY
    {
      board[i] := EMPTY;
      i := i + 1;
    }
    PlaceRedRank(board);
    PlaceBlackRank(board);
    PlaceCannons(board);
    label Officers:
    PlacePawns(board);
    forall r, c | OnBoard(r, c) ensures At(board[..], r, c) == StartPiece(r, c) {
      assert board[9 * r + c] == if (r == 3 || r == 6) && c % 2 == 0 then StartPiece(r, c)
                                 else old@Officers(board[9 * r + c]);
    }
  }

  method PlaceRedRank(board: array<Piece>)
    requires board.Length == 90
    modifies board
    ensures forall c :: 0 <= c < 9 ==> board[c] == StartPiece(0, c)
    ensures forall i :: 9 <= i < 90 ==> board[i] == old(board[i])
  {
    board[0] := Piece(RedRook, Red);
    board[1] := Piece(RedHorse, Red);
    board[2] := Piece(RedElephant, Red);
    board[3] := Piece(RedAdvisor, Red);
    board[4] := Piece(RedKing, Red);
    board[5] := Piece(RedAdvisor, Red);
    board[6] := Piece(RedElephant, Red);
    board[7] := Piece(RedHorse, Red);
    board[8] := Piece(RedRook, Red);
  }

  method PlaceBlackRank(board: array<Piece>)
    requires board.Length == 90
    modifies board
    ensures forall c :: 0 <= c < 9 ==> board[81 + c] == StartPiece(9, c)
    ensures forall i :: 0 <= i < 81 ==> board[i] == old(board[i])
  {
    board[81] := Piece(BlackRook, Black);
    board[82] := Piece(BlackHorse, Black);
    board[83] := Piece(BlackElephant, Black);
    board[84] := Piece(BlackAdvisor, Black);
    board[85] := Piece(BlackKing, Black);
    board[86] := Piece(BlackAdvisor, Black);
    board[87] := Piece(BlackElephant, Black);
    board[88] := Piece(BlackHorse, Black);
    board[89] := Piece(BlackRook, Black);
  }

  method PlaceCannons(board: array<Piece>)
    requires board.Length == 90
    modifies board
    ensures forall r, c :: OnBoard(r, c) ==>
              board[9 * r + c] == if (r == 2 || r == 7) && (c == 1 || c == 7) then StartPiece(r, c)
                                  else old(board[9 * r + c])
  {
    board[9 * 2 + 1] := Piece(RedCannon, Red);
    board[9 * 2 + 7] := Piece(RedCannon, Red);
    board[9 * 7 + 1] := Piece(BlackCannon, Black);
    board[9 * 7 + 7] := Piece(BlackCannon, Black);
  }

  method PlacePawns(board: array<Piece>)
    requires board.Length == 90
    modifies board
    ensures forall r, c :: OnBoard(r, c) ==>
              board[9 * r + c] == if (r == 3 || r == 6) && c % 2 == 0 then StartPiece(r, c)
                                  else old(board[9 * r + c])
  {
    board[27], board[29], board[31], board[33], board[35] :=
      Piece(RedPawn, Red), Piece(RedPawn, Red), Piece(RedPawn, Red), Piece(RedPawn, Red), Piece(RedPawn, Red);
    board[54], board[56], board[58], board[60], board[62] :=
      Piece(BlackPawn, Black), Piece(BlackPawn, Black), Piece(BlackPawn, Black), Piece(BlackPawn, Black),
      Piece(BlackPawn, Black);
  }

  /** `colCharToIndex`, with `toupper` on the ASCII letters. */
  function ColumnOf(letter: char): (c: int)
    ensures c == -1 || 0 <= c < 9
    ensures forall k :: 0 <= k < 9 ==> (c == k <==> letter == "abcdefghi"[k] || letter == "ABCDEFGHI"[k])
  {
    var upper := if 'a' <= letter <= 'z' then letter - 'a' + 'A' else letter;
    if 'A' <= upper <= 'I' then upper as int - 'A' as int else -1
  }

  /** The move a line of input names: rows are counted from the other end of the board. */
  function MoveOf(startCol: char, startRow: int, endCol: char, endRow: int): Move {
    Move(9 - startRow, ColumnOf(startCol), 9 - endRow, ColumnOf(endCol))
  }

  /** A square as it is written: a letter of either case, and the row counted from the last one. */
  predicate Names(letter: char, row: int, r: int, c: int)
    requires OnBoard(r, c)
  {
    row + r == 9 && (letter == "abcdefghi"[c] || letter == "ABCDEFGHI"[c])
  }

  /** A move on the board is read exactly from the names of its two squares. */
  lemma NamedMove(startCol: char, startRow: int, endCol: char, endRow: int, m: Move)
    requires InBounds(m)
    ensures MoveOf(startCol, startRow, endCol, endRow) == m
       <==> Names(startCol, startRow, m.sr, m.sc) && Names(endCol, endRow, m.er, m.ec)
  {
    assert ColumnOf(startCol) == m.sc
      <==> startCol == "abcdefghi"[m.sc] || startCol == "ABCDEFGHI"[m.sc];
    assert ColumnOf(endCol) == m.ec <==> endCol == "abcdefghi"[m.ec] || endCol == "ABCDEFGHI"[m.ec];
    hide ColumnOf;
  }

  /** What the machine declares when it has found no move: it has lost if it is in check, else a draw. */
  function Verdict(p: Position): (s: State)
    ensures s == Draw <==> !InCheck(p.board, p.player)
    ensures s == BlackWins <==> InCheck(p.board, p.player) && p.player == Red
    ensures s == RedWins <==> InCheck(p.board, p.player) && p.player != Red
  {
    if !InCheck(p.board, p.player) then Draw else if p.player == Red then BlackWins else RedWins
  }

  class Game {
    var board: array<Piece>
    var currentPlayer: Color
    var state: State
    ghost var history: seq<Move>

    ghost function Here(): Position
      reads this, board
      requires board.Length == 90
    {
      Position(board[..], currentPlayer)
    }

    /** The position has been reached from the initial board by legal moves. */
    ghost predicate Valid()
      reads this, board
    {
      && board.Length == 90
      && Reached(history, Here())
    }

    /** `initializeGame`: Black is to move first, whatever the message on the screen says. */
    constructor ()
      ensures Valid() && fresh(board) && history == []
      ensures currentPlayer == Black && state == Running && IsStart(board[..])
    {
      board := new Piece[90](_ => EMPTY);
      currentPlayer := Black;
      state := Running;
      history := [];
      new;
      InitializeBoard(board);
      assert Plays(Position(board[..], Black), [], Here());
    }

    /** The shared end of both kinds of turn: make the move and pass the turn. */
    method Play(m: Move)
      requires Valid() && ValidMove(board[..], m, currentPlayer)
      modifies this, board
      ensures Valid() && board == old(board) && state == old(state)
      ensures InBounds(m) && Here() == Next(old(Here()), m) && history == old(history) + [m]
    {
      hide ValidMove, Moved;
      ValidInBounds(board[..], m, currentPlayer);
      ReachedNext(history, Here(), m);
      MakeMove(board, m);
      currentPlayer := if currentPlayer == Red then Black else Red;
      history := history + [m];
    }

    /** `processPlayerTurn`, after the line has been read: a move is played exactly when it is valid. */
    method ProcessPlayerTurn(startCol: char, startRow: int, endCol: char, endRow: int) returns (played: bool)
      requires Valid()
      modifies this, board
      ensures Valid() && board == old(board) && state == old(state)
      ensures var m := MoveOf(startCol, startRow, endCol, endRow);
              && played == ValidMove(old(board[..]), m, old(currentPlayer))
              && if played then InBounds(m) && Here() == Next(old(Here()), m) && history == old(history) + [m]
                 else Here() == old(Here()) && history == old(history)
    {
      hide PieceMove, InCheck, Moved;
      var m := Move(9 - startRow, ColumnOf(startCol), 9 - endRow, ColumnOf(endCol));
      if !InBounds(m) { return false; }
      played := IsValidMove(board, m, currentPlayer);
      if played { Play(m); }
    }

    /** `processAITurn`: the machine only ever plays a valid move, the first of the best ones. */
    method ProcessAITurn(depth: nat) returns (ghost m: Move)
      requires Valid() && depth >= 1
      modifies this, board
      ensures Valid() && board == old(board)
      ensures IsBestMove(old(board[..]), old(currentPlayer), depth, m)
      ensures m != NO_MOVE ==>
                && ValidMove(old(board[..]), m, old(currentPlayer)) && InBounds(m)
                && Here() == Next(old(Here()), m) && state == old(state)
      ensures m == NO_MOVE ==>
                && Here() == old(Here())
                && state == Verdict(Here())
    {
      hide AllMoves, IsBestMove, Moved, ValidMove, InCheck, Reached;
      var best := FindBestMove(board, currentPlayer, depth);
      m := best;
      BestMoveIsValid(board[..], currentPlayer, depth, best);
      if best.sr == -1 {
        var check := IsKingInCheck(board, currentPlayer);
        if check {
          state := if currentPlayer == Red then BlackWins else RedWins;
        } else {
          state := Draw;
        }
        return;
      }
      Play(best);
    }

    /** `checkGameEndConditions`: the side to move has lost exactly when it is in check and has no valid move. */
    method CheckGameEndConditions()
      requires Valid()
      modifies this`state
      ensures Valid()
      ensures InCheck(board[..], currentPlayer) && !CanMove(board[..], currentPlayer) ==>
                state == if currentPlayer == Red then BlackWins else RedWins
      ensures !InCheck(board[..], currentPlayer) || CanMove(board[..], currentPlayer) ==> state == old(state)
    {
      hide InCheck, ValidMove, Reached;
      var check := IsKingInCheck(board, currentPlayer);
      if check {
        var canEscape := CanEscape(board, currentPlayer);
        if !canEscape {
          state := if currentPlayer == Red then BlackWins else RedWins;
        }
      }
    }
  }

  ghost predicate CanMove(b: Board, player: Color) {
    exists m :: ValidMove(b, m, player)
  }

  /** The four nested loops of `checkGameEndConditions`. */
  method CanEscape(board: array<Piece>, player: Color) returns (can: bool)
    requires board.Length == 90
    ensures can == CanMove(board[..], player)
  {
    hide ValidMove;
    ghost var b := board[..];
    ValidMoves(b, player);
    can := false;
    var r := 0;
    while r < 10 && !can
      invariant 0 <= r <= 10 && (can ==> CanMove(b, player))
      invariant !can ==> forall m :: ValidMove(b, m, player) ==> m.sr >= r
    {
      var c := 0;
      while c < 9 && !can
        invariant 0 <= c <= 9 && (can ==> CanMove(b, player))
        invariant !can ==> forall m :: ValidMove(b, m, player) ==> m.sr > r || (m.sr == r && m.sc >= c)
      {
        if board[9 * r + c].color == player {
          can := CanMoveFrom(board, player, r, c);
        }
        c := c + 1;
      }
      r := r + 1;
    }
  }

  lemma ValidMoves(b: Board, player: Color)
    ensures forall m :: ValidMove(b, m, player) ==> InBounds(m) && At(b, m.sr, m.sc).color == player
  {
  }

  method CanMoveFrom(board: array<Piece>, player: Color, r: int, c: int) returns (can: bool)
    requires board.Length == 90 && OnBoard(r, c)
    ensures can ==> CanMove(board[..], player)
    ensures !can ==> forall tr, tc :: OnBoard(tr, tc) ==> !ValidMove(board[..], Move(r, c, tr, tc), player)
  {
    hide ValidMove;
    can := false;
    var tr := 0;
    while tr < 10 && !can
      invariant 0 <= tr <= 10 && (can ==> CanMove(board[..], player))
      invariant !can ==> forall x, y :: 0 <= x < tr && 0 <= y < 9 ==> !ValidMove(board[..], Move(r, c, x, y), player)
    {
      var tc := 0;
      while tc < 9 && !can
        invariant 0 <= tc <= 9 && (can ==> CanMove(board[..], player))
        invariant !can ==> forall y :: 0 <= y < tc ==> !ValidMove(board[..], Move(r, c, tr, y), player)
      {
        var temp := Copy(board);
        can := IsValidMove(temp, Move(r, c, tr, tc), player);
        tc := tc + 1;
      }
      tr := tr + 1;
    }
  }

  /** Some initial board, with Black to move, leads to the position by the given legal moves. */
  ghost predicate Reached(history: seq<Move>, p: Position) {
    exists start: Board :: IsStart(start) && Plays(Position(start, Black), history, p)
  }

  lemma {:induction false} PlaysNext(from: Position, moves: seq<Move>, to: Position, m: Move)
    requires Plays(from, moves, to) && ValidMove(to.board, m, to.player)
    ensures InBounds(m) && Plays(from, moves + [m], Next(to, m))
    decreases |moves|
  {
    hide ValidMove;
    ValidInBounds(to.board, m, to.player);
    if moves == [] {
      assert Plays(Next(from, m), [m][1..], Next(to, m));
      assert moves + [m] == [m];
    } else {
      ValidInBounds(from.board, moves[0], from.player);
      PlaysNext(Next(from, moves[0]), moves[1..], to, m);
      assert (moves + [m])[1..] == moves[1..] + [m];
    }
  }

  lemma ReachedNext(history: seq<Move>, p: Position, m: Move)
    requires Reached(history, p) && ValidMove(p.board, m, p.player)
    ensures InBounds(m) && Reached(history + [m], Next(p, m))
  {
    hide ValidMove, Plays;
    var start: Board :| IsStart(start) && Plays(Position(start, Black), history, p);
    PlaysNext(Position(start, Black), history, p, m);
  }

  /** What every position of every game satisfies. */
  lemma ReachedIsSound(history: seq<Move>, p: Position)
    requires Reached(history, p)
    ensures Invariant(p)
  {
    hide Invariant, Plays;
    var start: Board :| IsStart(start) && Plays(Position(start, Black), history, p);
    StartInvariant(start, Black);
    RunsKeepInvariant(Position(start, Black), history, p);
  }

  /** The move the search returns is valid, unless it is the null move. */
  lemma BestMoveIsValid(b: Board, ai: Color, depth: nat, best: Move)
    requires depth >= 1 && IsBestMove(b, ai, depth, best)
    ensures best == NO_MOVE || (ValidMove(b, best, ai) && InBounds(best))
    ensures best.sr == -1 <==> best == NO_MOVE
  {
    hide ValidMove, RootValue;
    var bestEval :| Chosen(b, ai, depth, |AllMoves(b, ai)|, best, bestEval);
    if bestEval != INT_MIN {
      var k :| 0 <= k < |AllMoves(b, ai)| && FirstBest(b, ai, depth, k, best, bestEval);
      assert AllMoves(b, ai)[k] in AllMoves(b, ai);
      ValidInBounds(b, best, ai);
    }
  }

  /**
   * In every position of every game the machine resigns or calls a draw exactly when each of its
   * valid moves leads to a forced mate, which includes having no valid move.
   */
  lemma NullMoveInPlay(history: seq<Move>, p: Position, depth: nat)
    requires depth >= 1 && Reached(history, p)
    ensures IsBestMove(p.board, p.player, depth, NO_MOVE) <==>
              forall m :: ValidMove(p.board, m, p.player) ==>
                InBounds(m) && ForcedMate(Next(p, m), depth - 1, p.player)
  {
    ReachedIsSound(history, p);
    NullMoveByRules(p, depth);
  }

  /** The evaluation is zero-sum in every position of every game. */
  lemma EvaluationInPlay(history: seq<Move>, p: Position)
    requires Reached(history, p)
    ensures Evaluate(p.board, Red) == -Evaluate(p.board, Black)
  {
    hide Evaluate, Reached;
    ReachedIsSound(history, p);
    forall i | 0 <= i < 90 && p.board[i].kind != Empty ensures p.board[i].color != NoColor {
      assert WellPlaced(At(p.board, i / 9, i % 9), i / 9, i % 9);
    }
    EvaluateZeroSum(p.board);
  }
}
