/** Concrete boards on which the chess program does what its rules do not ask for. */
module XiangqiBoards {
  import opened Bytes
  import opened XiangqiRules
  import opened XiangqiScan
  import opened XiangqiSearch
  import opened XiangqiPositions
  import opened XiangqiGame

  function EmptyBoard(): (b: Board)
    ensures forall r, c {:trigger At(b, r, c)} :: OnBoard(r, c) ==> At(b, r, c) == EMPTY
  {
    seq(90, _ => EMPTY)
  }

  lemma {:induction false} EmptyCount(color: Color, sliders: bool, k: nat)
    requires color != NoColor && k <= 90
    ensures PieceCount(EmptyBoard(), color, sliders, k) == 0
  {
    if k > 0 { EmptyCount(color, sliders, k - 1); }
  }

  /** A piece more on the board counts once at most. */
  lemma PutCount(b: Board, r: int, c: int, p: Piece, color: Color, sliders: bool)
    requires OnBoard(r, c)
    ensures PieceCount(Put(b, r, c, p), color, sliders, 90) <= PieceCount(b, color, sliders, 90) + 1
  {
    hide PieceCount;
    PieceCountUpdated(b, color, sliders, 9 * r + c, p, 90);
  }

  /** Four pieces on an empty board are never too many. */
  function FourPieces(p: (int, int, Piece), q: (int, int, Piece), s: (int, int, Piece), t: (int, int, Piece)): Board
    requires OnBoard(p.0, p.1) && OnBoard(q.0, q.1) && OnBoard(s.0, s.1) && OnBoard(t.0, t.1)
  {
    Put(Put(Put(Put(EmptyBoard(), p.0, p.1, p.2), q.0, q.1, q.2), s.0, s.1, s.2), t.0, t.1, t.2)
  }

  lemma FourAreFew(p: (int, int, Piece), q: (int, int, Piece), s: (int, int, Piece), t: (int, int, Piece), color: Color)
    requires OnBoard(p.0, p.1) && OnBoard(q.0, q.1) && OnBoard(s.0, s.1) && OnBoard(t.0, t.1) && color != NoColor
    ensures FewPieces(FourPieces(p, q, s, t), color)
  {
    hide PieceCount, Put, EmptyBoard;
    var one := Put(EmptyBoard(), p.0, p.1, p.2);
    var two := Put(one, q.0, q.1, q.2);
    var three := Put(two, s.0, s.1, s.2);
    forall sliders ensures PieceCount(FourPieces(p, q, s, t), color, sliders, 90) <= 4 {
      EmptyCount(color, sliders, 90);
      PutCount(EmptyBoard(), p.0, p.1, p.2, color, sliders);
      PutCount(one, q.0, q.1, q.2, color, sliders);
      PutCount(two, s.0, s.1, s.2, color, sliders);
      PutCount(three, t.0, t.1, t.2, color, sliders);
    }
  }

  // ----- the board at the start -----

  /** A letter for a piece: upper case for Red. */
  function Drawn(letter: char): Piece {
    match letter
    case 'K' => Piece(RedKing, Red)
    case 'A' => Piece(RedAdvisor, Red)
    case 'E' => Piece(RedElephant, Red)
    case 'R' => Piece(RedRook, Red)
    case 'C' => Piece(RedCannon, Red)
    case 'H' => Piece(RedHorse, Red)
    case 'P' => Piece(RedPawn, Red)
    case 'k' => Piece(BlackKing, Black)
    case 'a' => Piece(BlackAdvisor, Black)
    case 'e' => Piece(BlackElephant, Black)
    case 'r' => Piece(BlackRook, Black)
    case 'c' => Piece(BlackCannon, Black)
    case 'h' => Piece(BlackHorse, Black)
    case 'p' => Piece(BlackPawn, Black)
    case _ => EMPTY
  }

  /** The initial board, square by square. */
  lemma StartDrawn(b: Board)
    ensures IsStart(b) <==>
              && (forall c :: 0 <= c < 9 ==> At(b, 0, c) == Drawn("RHEAKAEHR"[c]))
              && (forall c :: 0 <= c < 9 ==> At(b, 1, c) == EMPTY)
              && (forall c :: 0 <= c < 9 ==> At(b, 2, c) == Drawn(".C.....C."[c]))
              && (forall c :: 0 <= c < 9 ==> At(b, 3, c) == Drawn("P.P.P.P.P"[c]))
              && (forall r, c :: 4 <= r < 6 && 0 <= c < 9 ==> At(b, r, c) == EMPTY)
              && (forall c :: 0 <= c < 9 ==> At(b, 6, c) == Drawn("p.p.p.p.p"[c]))
              && (forall c :: 0 <= c < 9 ==> At(b, 7, c) == Drawn(".c.....c."[c]))
              && (forall c :: 0 <= c < 9 ==> At(b, 8, c) == EMPTY)
              && (forall c :: 0 <= c < 9 ==> At(b, 9, c) == Drawn("rheakaehr"[c]))
  {
    hide At;
    forall c | 0 <= c < 9
      ensures StartPiece(0, c) == Drawn("RHEAKAEHR"[c]) && StartPiece(9, c) == Drawn("rheakaehr"[c])
    {
      RankDrawn(c);
    }
    forall c | 0 <= c < 9
      ensures StartPiece(2, c) == Drawn(".C.....C."[c]) && StartPiece(7, c) == Drawn(".c.....c."[c])
      ensures StartPiece(3, c) == Drawn("P.P.P.P.P"[c]) && StartPiece(6, c) == Drawn("p.p.p.p.p"[c])
    {
      FrontDrawn(c);
    }
    forall r, c | (r in {1, 8} || 4 <= r < 6) && 0 <= c < 9 ensures StartPiece(r, c) == EMPTY {
    }
    hide StartPiece, Drawn;
  }

  lemma RankDrawn(c: int)
    requires 0 <= c < 9
    ensures StartPiece(0, c) == Drawn("RHEAKAEHR"[c]) && StartPiece(9, c) == Drawn("rheakaehr"[c])
  {
  }

  lemma FrontDrawn(c: int)
    requires 0 <= c < 9
    ensures StartPiece(2, c) == Drawn(".C.....C."[c]) && StartPiece(7, c) == Drawn(".c.....c."[c])
    ensures StartPiece(3, c) == Drawn("P.P.P.P.P"[c]) && StartPiece(6, c) == Drawn("p.p.p.p.p"[c])
  {
  }

  // ----- a draw called in a position with a move -----

  /** A red king and a black rook where they are said to stand, a black rook on (1, 0) and its king on (9, 3). */
  ghost predicate Net(b: Board, king: (int, int), rook: (int, int)) {
    forall r, c {:trigger At(b, r, c)} :: OnBoard(r, c) ==>
      At(b, r, c) == if (r, c) == king then Piece(RedKing, Red)
                     else if (r, c) == rook || (r, c) == (1, 0) then Piece(BlackRook, Black)
                     else if (r, c) == (9, 3) then Piece(BlackKing, Black) else EMPTY
  }

  function NetBoard(): Board {
    FourPieces((0, 4, Piece(RedKing, Red)), (1, 0, Piece(BlackRook, Black)), (5, 8, Piece(BlackRook, Black)),
               (9, 3, Piece(BlackKing, Black)))
  }

  lemma NetBoardIsNet()
    ensures Net(NetBoard(), (0, 4), (5, 8))
  {
  }

  /** The king can be put anywhere near the start, and the second rook anywhere out of the way. */
  predicate Spots(king: (int, int), rook: (int, int)) {
    0 <= king.0 <= 1 && 3 <= king.1 <= 5 && rook.1 == 8 && 0 <= rook.0 <= 5
  }

  lemma NetKings(b: Board, king: (int, int), rook: (int, int))
    requires Net(b, king, rook) && Spots(king, rook)
    ensures SoleKing(b, Red) && SoleKing(b, Black)
    ensures FindKing(b, Red) == Some(king) && FindKing(b, Black) == Some((9, 3))
  {
    hide FindKing;
    FoundKing(b, Red, king.0, king.1);
    FoundKing(b, Black, 9, 3);
  }

  /** Red is in check exactly when a rook or the other king has an open line to its king. */
  lemma NetCheck(b: Board, king: (int, int), rook: (int, int))
    requires Net(b, king, rook) && Spots(king, rook)
    ensures InCheck(b, Red) <==> king.0 == 1 || king.0 == rook.0 || king.1 == 3
    ensures king.1 != 3 ==> !InCheck(b, Black)
  {
    hide FindKing, Obstacles;
    NetKings(b, king, rook);
    NoObstacles(b, 1, 0, king.0, king.1);
    NoObstacles(b, rook.0, rook.1, king.0, king.1);
    NoObstacles(b, 9, 3, king.0, king.1);
    if king.0 == 1 { assert AttackFrom(b, 1, 0, king.0, king.1, Red); }
    if king.0 == rook.0 { assert AttackFrom(b, rook.0, rook.1, king.0, king.1, Red); }
    if king.1 == 3 { assert AttackFrom(b, 9, 3, king.0, king.1, Red); }
  }

  lemma NetKingMoves(b: Board, king: (int, int), rook: (int, int), m: Move)
    requires Net(b, king, rook) && Spots(king, rook) && king.0 == 0
    ensures ValidMove(b, m, Red) ==> m.sr == 0 && m.sc == king.1 && m.er == 0 && 4 <= m.ec <= 5
                                     && Abs(m.ec - king.1) == 1 && rook.0 != 0
  {
    hide FindKing, Obstacles, InCheck;
    if InBounds(m) && At(b, m.sr, m.sc).color == Red && InPalace(Red, m.er, m.ec)
       && Abs(m.er - m.sr) + Abs(m.ec - m.sc) == 1 {
      assert Net(Moved(b, m), (m.er, m.ec), rook);
      NetCheck(Moved(b, m), (m.er, m.ec), rook);
    }
  }

  lemma NetKingSteps(b: Board, rook: (int, int))
    requires Net(b, (0, 4), rook) && Spots((0, 4), rook) && rook.0 > 1
    ensures var m := Move(0, 4, 0, 5); ValidMove(b, m, Red) && Net(Moved(b, m), (0, 5), rook)
  {
    hide FindKing, Obstacles, InCheck;
    var m := Move(0, 4, 0, 5);
    assert Net(Moved(b, m), (0, 5), rook);
    NetKings(Moved(b, m), (0, 5), rook);
    NetCheck(Moved(b, m), (0, 5), rook);
  }

  lemma NetRookMoves(b: Board)
    requires Net(b, (0, 5), (5, 8))
    ensures var m := Move(5, 8, 0, 8); ValidMove(b, m, Black) && Net(Moved(b, m), (0, 5), (0, 8))
  {
    hide FindKing, Obstacles, InCheck;
    var m := Move(5, 8, 0, 8);
    assert Net(Moved(b, m), (0, 5), (0, 8));
    NetCheck(Moved(b, m), (0, 5), (0, 8));
    NoObstacles(b, 5, 8, 0, 8);
  }

  /** Red has just one move, after which a rook mates it. */
  lemma NetCloses(p: Position)
    requires Net(p.board, (0, 4), (5, 8)) && p.player == Red
    ensures forall m :: ValidMove(p.board, m, Red) <==> m == Move(0, 4, 0, 5)
    ensures ForcedMate(Next(p, Move(0, 4, 0, 5)), 2, Red)
  {
    hide Net, ValidMove, InCheck, Moved;
    var step, reply := Move(0, 4, 0, 5), Move(5, 8, 0, 8);
    NetKingSteps(p.board, (5, 8));
    forall m | ValidMove(p.board, m, Red) ensures m == step {
      NetKingMoves(p.board, (0, 4), (5, 8), m);
    }
    var after := Next(p, step);
    NetRookMoves(after.board);
    var mate := Next(after, reply);
    forall m ensures !ValidMove(mate.board, m, Red) {
      NetKingMoves(mate.board, (0, 5), (0, 8), m);
    }
    NetCheck(mate.board, (0, 5), (0, 8));
    assert ForcedMate(mate, 1, Red);
    assert ForcedMate(after, 2, Red);
  }

  lemma NetIsSound(p: Position)
    requires p.board == NetBoard() && p.player == Red
    ensures Invariant(p) && !InCheck(p.board, Red) && Net(p.board, (0, 4), (5, 8))
  {
    hide PieceCount, FindKing, NetBoard, InCheck;
    NetBoardIsNet();
    NetKings(p.board, (0, 4), (5, 8));
    NetCheck(p.board, (0, 4), (5, 8));
    NetIsFew();
  }

  lemma NetIsFew()
    ensures FewPieces(NetBoard(), Red) && FewPieces(NetBoard(), Black)
  {
    hide FewPieces, FourPieces;
    var p, q, s, t := (0, 4, Piece(RedKing, Red)), (1, 0, Piece(BlackRook, Black)), (5, 8, Piece(BlackRook, Black)),
                      (9, 3, Piece(BlackKing, Black));
    FourAreFew(p, q, s, t, Red);
    FourAreFew(p, q, s, t, Black);
  }

  /**
   * A board with the invariant on which Red is not in check and has a valid move, and yet the
   * machine, three plies deep, can only return the null move and declare a draw.
   */
  lemma DrawWithAMove()
    ensures Invariant(Position(NetBoard(), Red)) && !InCheck(NetBoard(), Red)
    ensures ValidMove(NetBoard(), Move(0, 4, 0, 5), Red)
    ensures forall best :: IsBestMove(NetBoard(), Red, 3, best) <==> best == NO_MOVE
    ensures Verdict(Position(NetBoard(), Red)) == Draw
  {
    hide Invariant, Net, NetBoard, ForcedMate, IsBestMove, InCheck, ValidMove;
    var p := Position(NetBoard(), Red);
    NetIsSound(p);
    NetCloses(p);
    NullMoveByRules(p, 3);
    forall best | IsBestMove(NetBoard(), Red, 3, best) ensures best == NO_MOVE {
      BestMoveIsUnique(NetBoard(), Red, 3, best, NO_MOVE);
    }
  }

  // ----- pawns and check -----

  /** Both kings and a black pawn. */
  ghost predicate Pawned(b: Board, king: (int, int), pawn: (int, int)) {
    forall r, c {:trigger At(b, r, c)} :: OnBoard(r, c) ==>
      At(b, r, c) == if (r, c) == king then Piece(RedKing, Red)
                     else if (r, c) == pawn then Piece(BlackPawn, Black)
                     else if (r, c) == (9, 3) then Piece(BlackKing, Black) else EMPTY
  }

  function PawnBoard(king: (int, int), pawn: (int, int)): Board
    requires OnBoard(king.0, king.1) && OnBoard(pawn.0, pawn.1)
  {
    var other := (9, 3, Piece(BlackKing, Black));
    FourPieces((king.0, king.1, Piece(RedKing, Red)), (pawn.0, pawn.1, Piece(BlackPawn, Black)), other, other)
  }

  lemma PawnBoardIsSound(king: (int, int), pawn: (int, int))
    requires 0 <= king.0 <= 1 && king.1 == 4 && 0 <= pawn.0 <= 1 && pawn.1 == 4 && king != pawn
    ensures Pawned(PawnBoard(king, pawn), king, pawn) && Sound(PawnBoard(king, pawn))
  {
    hide FewPieces, PieceCount;
    var other := (9, 3, Piece(BlackKing, Black));
    forall color | color != NoColor ensures FewPieces(PawnBoard(king, pawn), color) {
      FourAreFew((king.0, king.1, Piece(RedKing, Red)), (pawn.0, pawn.1, Piece(BlackPawn, Black)), other, other, color);
    }
  }

  /** A pawn right in front of the king can take it, and there is no check. */
  lemma PawnUnnoticed()
    ensures var b := PawnBoard((0, 4), (1, 4));
            Sound(b) && Capturable(b, 0, 4, Red) && !InCheck(b, Red)
  {
    hide FindKing, Sound, PawnBoard;
    var b := PawnBoard((0, 4), (1, 4));
    PawnBoardIsSound((0, 4), (1, 4));
    assert HasKing(b, 0, 4, Red);
    CheckCharacterized(b, 0, 4, Red);
    assert PawnAttack(b, 1, 4, 0, 4, Red);
  }

  /** A pawn right behind the king gives check, though nothing can take the king. */
  lemma PawnFeared()
    ensures var b := PawnBoard((1, 4), (0, 4));
            Sound(b) && !Capturable(b, 1, 4, Red) && InCheck(b, Red)
  {
    hide FindKing, Sound, PawnBoard;
    var b := PawnBoard((1, 4), (0, 4));
    PawnBoardIsSound((1, 4), (0, 4));
    assert HasKing(b, 1, 4, Red);
    CheckCharacterized(b, 1, 4, Red);
    assert PawnBehind(b, 1, 4, Red);
  }
}
