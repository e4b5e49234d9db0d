/** What holds in every position that legal play from the initial board can reach. */
module XiangqiPositions {
  import opened Bytes
  import opened XiangqiRules
  import opened XiangqiScan
  import opened XiangqiSearch

  // ----- positions and runs -----

  datatype Position = Position(board: Board, player: Color)

  function Next(p: Position, m: Move): Position
    requires InBounds(m)
  {
    Position(Moved(p.board, m), Opponent(p.player))
  }

  /** `to` is reached from `from` by playing the moves one after the other. */
  ghost predicate Plays(from: Position, moves: seq<Move>, to: Position)
    decreases |moves|
  {
    if moves == [] then to == from
    else
      && ValidMove(from.board, moves[0], from.player)
      && Plays(Next(from, moves[0]), moves[1..], to)
  }

  function BackRank(c: int): (Kind, Kind)
    requires 0 <= c < 9
  {
    if c == 0 || c == 8 then (RedRook, BlackRook)
    else if c == 1 || c == 7 then (RedHorse, BlackHorse)
    else if c == 2 || c == 6 then (RedElephant, BlackElephant)
    else if c == 3 || c == 5 then (RedAdvisor, BlackAdvisor)
    else (RedKing, BlackKing)
  }

  /** What stands on a square at the start; the two sides mirror each other. */
  function StartPiece(r: int, c: int): Piece
    requires OnBoard(r, c)
  {
    if r == 0 then Piece(BackRank(c).0, Red)
    else if r == 9 then Piece(BackRank(c).1, Black)
    else if r == 2 && (c == 1 || c == 7) then Piece(RedCannon, Red)
    else if r == 7 && (c == 1 || c == 7) then Piece(BlackCannon, Black)
    else if r == 3 && c % 2 == 0 then Piece(RedPawn, Red)
    else if r == 6 && c % 2 == 0 then Piece(BlackPawn, Black)
    else EMPTY
  }

  ghost predicate IsStart(b: Board) {
    forall r, c {:trigger At(b, r, c)} :: OnBoard(r, c) ==> At(b, r, c) == StartPiece(r, c)
  }

  // ----- the invariant -----

  function SideOf(kind: Kind): Color {
    match kind
    case Empty => NoColor
    case RedKing | RedAdvisor | RedElephant | RedRook | RedCannon | RedHorse | RedPawn => Red
    case _ => Black
  }

  /** A piece has the colour of its kind and keeps to the part of the board its kind is tied to. */
  predicate WellPlaced(p: Piece, r: int, c: int) {
    && p.color == SideOf(p.kind)
    && match p.kind
       case RedKing | RedAdvisor | BlackKing | BlackAdvisor => InPalace(p.color, r, c)
       case RedElephant => r <= 4
       case BlackElephant => r >= 5
       case _ => true
  }

  ghost predicate AllWellPlaced(b: Board) {
    forall r, c {:trigger At(b, r, c)} :: OnBoard(r, c) ==> WellPlaced(At(b, r, c), r, c)
  }

  predicate HasKing(b: Board, r: int, c: int, color: Color)
    requires OnBoard(r, c)
  {
    At(b, r, c) == Piece(KingOf(color), color)
  }

  ghost predicate SoleKing(b: Board, color: Color) {
    forall r1, c1, r2, c2 ::
      OnBoard(r1, c1) && OnBoard(r2, c2) && HasKing(b, r1, c1, color) && HasKing(b, r2, c2, color)
      ==> r1 == r2 && c1 == c2
  }

  /** Two kings on one file always have a piece between them. */
  ghost predicate KingsApart(b: Board) {
    forall r1, r2, c :: OnBoard(r1, c) && OnBoard(r2, c) && HasKing(b, r1, c, Red) && HasKing(b, r2, c, Black)
                        ==> exists r :: r1 < r < r2 && Occupied(b, r, c)
  }

  predicate IsSlider(kind: Kind) {
    kind == RedRook || kind == BlackRook || kind == RedCannon || kind == BlackCannon
  }

  predicate Counts(p: Piece, color: Color, sliders: bool) {
    p.color == color && (sliders ==> IsSlider(p.kind))
  }

  /** Pieces of a colour on the first `k` squares, or only its rooks and cannons. */
  function PieceCount(b: Board, color: Color, sliders: bool, k: nat): nat
    requires k <= 90
  {
    if k == 0 then 0 else PieceCount(b, color, sliders, k - 1) + if Counts(b[k - 1], color, sliders) then 1 else 0
  }

  ghost predicate FewPieces(b: Board, color: Color) {
    PieceCount(b, color, false, 90) <= 16 && PieceCount(b, color, true, 90) <= 4
  }

  ghost predicate Sound(b: Board) {
    && AllWellPlaced(b)
    && SoleKing(b, Red) && SoleKing(b, Black)
    && KingsApart(b)
    && FewPieces(b, Red) && FewPieces(b, Black)
  }

  /** The side that has just moved is never in check, as the program sees check. */
  ghost predicate Invariant(p: Position) {
    p.player != NoColor && Sound(p.board) && !InCheck(p.board, Opponent(p.player))
  }

  // ----- one move keeps it -----

  lemma FoundKing(b: Board, color: Color, r: int, c: int)
    requires OnBoard(r, c) && SoleKing(b, color) && HasKing(b, r, c, color)
    ensures FindKing(b, color) == Some((r, c))
  {
    KingFromFirst(b, color, 0);
    assert b[9 * r + c] == Piece(KingOf(color), color);
    match FindKing(b, color) {
      case None =>
      case Some((x, y)) => assert HasKing(b, x, y, color);
    }
  }

  lemma FoundKingIsKing(b: Board, color: Color)
    ensures FindKing(b, color).Some? ==>
              HasKing(b, FindKing(b, color).value.0, FindKing(b, color).value.1, color)
    ensures FindKing(b, color).None? ==> forall r, c :: OnBoard(r, c) ==> !HasKing(b, r, c, color)
  {
    KingFromFirst(b, color, 0);
    if FindKing(b, color).None? {
      forall r, c | OnBoard(r, c) ensures !HasKing(b, r, c, color) {
        assert b[9 * r + c] != Piece(KingOf(color), color);
      }
    }
  }

  /** A side that is not in check does not face the other king either. */
  lemma SafeKingsApart(b: Board, color: Color)
    requires color != NoColor && AllWellPlaced(b) && SoleKing(b, Red) && SoleKing(b, Black)
    requires !InCheck(b, color)
    ensures KingsApart(b)
  {
    hide Obstacles, FindKing, WellPlaced, HorseMove;
    forall r1, r2, c | OnBoard(r1, c) && OnBoard(r2, c) && HasKing(b, r1, c, Red) && HasKing(b, r2, c, Black)
      ensures exists r :: r1 < r < r2 && Occupied(b, r, c)
    {
      FoundKing(b, Red, r1, c);
      FoundKing(b, Black, r2, c);
      KingsPalaces(b, r1, c, r2, c);
      NoObstacles(b, r1, c, r2, c);
      if color == Red {
        assert !AttackFrom(b, r2, c, r1, c, Red);
      } else {
        assert !AttackFrom(b, r1, c, r2, c, Black);
      }
    }
  }

  lemma KingsPalaces(b: Board, r1: int, c1: int, r2: int, c2: int)
    requires AllWellPlaced(b) && OnBoard(r1, c1) && OnBoard(r2, c2)
    requires HasKing(b, r1, c1, Red) && HasKing(b, r2, c2, Black)
    ensures r1 <= 2 && r2 >= 7
  {
    assert WellPlaced(At(b, r1, c1), r1, c1) && WellPlaced(At(b, r2, c2), r2, c2);
  }

  lemma MoveKeepsPlaces(b: Board, m: Move, player: Color)
    requires player != NoColor && AllWellPlaced(b) && InBounds(m) && ValidMove(b, m, player)
    ensures AllWellPlaced(Moved(b, m))
  {
    hide FindKing, InCheck, Obstacles;
    assert WellPlaced(At(b, m.sr, m.sc), m.sr, m.sc);
    assert WellPlaced(At(b, m.sr, m.sc), m.er, m.ec);
    forall r, c | OnBoard(r, c) ensures WellPlaced(At(Moved(b, m), r, c), r, c) {
      assert WellPlaced(At(b, r, c), r, c);
    }
  }

  lemma MoveKeepsSoleKing(b: Board, m: Move, color: Color)
    requires SoleKing(b, color) && InBounds(m)
    ensures SoleKing(Moved(b, m), color)
  {
    var after := Moved(b, m);
    forall r1, c1, r2, c2 | OnBoard(r1, c1) && OnBoard(r2, c2) && HasKing(after, r1, c1, color)
                            && HasKing(after, r2, c2, color)
      ensures r1 == r2 && c1 == c2
    {
      var s1, t1 := if r1 == m.er && c1 == m.ec then m.sr else r1, if r1 == m.er && c1 == m.ec then m.sc else c1;
      var s2, t2 := if r2 == m.er && c2 == m.ec then m.sr else r2, if r2 == m.er && c2 == m.ec then m.sc else c2;
      assert HasKing(b, s1, t1, color) && HasKing(b, s2, t2, color);
    }
  }

  lemma {:induction false} PieceCountUpdated(b: Board, color: Color, sliders: bool, i: nat, p: Piece, k: nat)
    requires i < 90 && k <= 90
    ensures PieceCount(b[i := p], color, sliders, k)
            == PieceCount(b, color, sliders, k)
               + if i < k then (if Counts(p, color, sliders) then 1 else 0)
                               - (if Counts(b[i], color, sliders) then 1 else 0) else 0
  {
    hide Counts;
    if k > 0 { PieceCountUpdated(b, color, sliders, i, p, k - 1); }
  }

  /** A move can only capture: no count of a side's pieces ever grows. */
  lemma MoveKeepsMaterial(b: Board, m: Move, color: Color, sliders: bool)
    requires InBounds(m) && color != NoColor
    ensures PieceCount(Moved(b, m), color, sliders, 90) <= PieceCount(b, color, sliders, 90)
  {
    hide PieceCount;
    var s, e := 9 * m.sr + m.sc, 9 * m.er + m.ec;
    PieceCountUpdated(b, color, sliders, e, b[s], 90);
    PieceCountUpdated(b[e := b[s]], color, sliders, s, EMPTY, 90);
  }

  /** Every legal move leads from a position with the invariant to one with the invariant. */
  lemma MoveKeepsInvariant(p: Position, m: Move)
    requires Invariant(p) && ValidMove(p.board, m, p.player)
    ensures Invariant(Next(p, m))
  {
    hide AllWellPlaced, SoleKing, KingsApart, PieceMove, InCheck, PieceCount;
    MoveKeepsPlaces(p.board, m, p.player);
    MoveKeepsSoleKing(p.board, m, Red);
    MoveKeepsSoleKing(p.board, m, Black);
    SafeKingsApart(Moved(p.board, m), p.player);
    MoveKeepsMaterial(p.board, m, Red, false);
    MoveKeepsMaterial(p.board, m, Red, true);
    MoveKeepsMaterial(p.board, m, Black, false);
    MoveKeepsMaterial(p.board, m, Black, true);
  }

  // ----- the initial board -----

  lemma CountRow(b: Board, color: Color, sliders: bool, r: nat)
    requires r < 10
    ensures PieceCount(b, color, sliders, 9 * r + 9) ==
            PieceCount(b, color, sliders, 9 * r) + InRow(b, color, sliders, r, 9)
  {
    hide Counts;
    RowSplit(b, color, sliders, r, 9);
  }

  function InRow(b: Board, color: Color, sliders: bool, r: nat, n: nat): nat
    requires r < 10 && n <= 9
  {
    if n == 0 then 0
    else InRow(b, color, sliders, r, n - 1) + if Counts(At(b, r, n - 1), color, sliders) then 1 else 0
  }

  lemma {:induction false} RowSplit(b: Board, color: Color, sliders: bool, r: nat, n: nat)
    requires r < 10 && n <= 9
    ensures PieceCount(b, color, sliders, 9 * r + n) ==
            PieceCount(b, color, sliders, 9 * r) + InRow(b, color, sliders, r, n)
  {
    hide Counts;
    if n > 0 { RowSplit(b, color, sliders, r, n - 1); }
  }

  /** Pieces of a colour on the first `n` squares of a starting row. */
  function StartRow(r: int, color: Color, sliders: bool, n: nat): nat {
    if r == (if color == Red then 0 else 9) then
      if sliders then (if n > 0 then 1 else 0) + (if n > 8 then 1 else 0) else n
    else if r == (if color == Red then 2 else 7) then (if n > 1 then 1 else 0) + (if n > 7 then 1 else 0)
    else if r == (if color == Red then 3 else 6) && !sliders then (n + 1) / 2
    else 0
  }

  lemma {:induction false} StartInRow(b: Board, color: Color, sliders: bool, r: nat, n: nat)
    requires IsStart(b) && color != NoColor && r < 10 && n <= 9
    ensures InRow(b, color, sliders, r, n) == StartRow(r, color, sliders, n)
  {
    if n > 0 {
      StartInRow(b, color, sliders, r, n - 1);
      assert At(b, r, n - 1) == StartPiece(r, n - 1);
    }
  }

  function StartRows(color: Color, sliders: bool, k: nat): nat {
    if k == 0 then 0 else StartRows(color, sliders, k - 1) + StartRow(k - 1, color, sliders, 9)
  }

  lemma {:induction false} StartCount(b: Board, color: Color, sliders: bool, k: nat)
    requires IsStart(b) && color != NoColor && k <= 10
    ensures PieceCount(b, color, sliders, 9 * k) == StartRows(color, sliders, k)
  {
    hide PieceCount, InRow, StartRow;
    if k == 0 {
      NothingCounted(b, color, sliders);
    } else {
      StartCount(b, color, sliders, k - 1);
      CountRow(b, color, sliders, k - 1);
      StartInRow(b, color, sliders, k - 1, 9);
    }
  }

  lemma NothingCounted(b: Board, color: Color, sliders: bool)
    ensures PieceCount(b, color, sliders, 0) == 0
  {
  }

  /** Each side starts with sixteen pieces, four of them rooks and cannons. */
  lemma StartMaterial(b: Board, color: Color)
    requires IsStart(b) && color != NoColor
    ensures PieceCount(b, color, false, 90) == 16 && PieceCount(b, color, true, 90) == 4
  {
    hide PieceCount;
    StartCount(b, color, false, 10);
    StartCount(b, color, true, 10);
    forall sliders ensures StartRows(color, sliders, 10) == if sliders then 4 else 16 {
      assert StartRows(color, sliders, 3) == if color == Red then if sliders then 4 else 11 else 0;
      assert StartRows(color, sliders, 6) == if color == Red then if sliders then 4 else 16 else 0;
      assert StartRows(color, sliders, 8) == if color == Red then if sliders then 4 else 16
                                             else if sliders then 2 else 7;
    }
  }

  lemma StartNotInCheck(b: Board, color: Color)
    requires IsStart(b) && color != NoColor
    ensures AllWellPlaced(b) && SoleKing(b, color)
    ensures !InCheck(b, color)
  {
    hide FindKing;
    var kr, kc := if color == Red then 0 else 9, 4;
    FoundKing(b, color, kr, kc);
    NoObstacles(b, 0, 4, 9, 4);
    assert Occupied(b, 3, 4);
  }

  lemma StartInvariant(b: Board, player: Color)
    requires IsStart(b) && player != NoColor
    ensures Invariant(Position(b, player))
  {
    hide AllWellPlaced, SoleKing, KingsApart, InCheck, PieceCount, IsStart;
    StartMaterial(b, Red);
    StartMaterial(b, Black);
    StartNotInCheck(b, Red);
    StartNotInCheck(b, Black);
    SafeKingsApart(b, Red);
  }

  /** Every position of every run from the initial board keeps the invariant. */
  lemma {:induction false} RunsKeepInvariant(from: Position, moves: seq<Move>, to: Position)
    requires Invariant(from) && Plays(from, moves, to)
    ensures Invariant(to)
    decreases |moves|
  {
    hide Invariant, ValidMove;
    if moves != [] {
      ValidInBounds(from.board, moves[0], from.player);
      MoveKeepsInvariant(from, moves[0]);
      RunsKeepInvariant(Next(from, moves[0]), moves[1..], to);
    }
  }

  // ----- the move buffer never overflows -----

  /** Valid moves among the first `n` squares of a target row are at most those of the columns x and y. */
  lemma {:induction false} RowLimit(b: Board, player: Color, sr: int, sc: int, er: int, x: int, y: int, n: nat)
    requires OnBoard(sr, sc) && 0 <= er < 10 && n <= 9
    requires forall ec :: 0 <= ec < 9 && ValidMove(b, Move(sr, sc, er, ec), player) ==> ec == x || ec == y
    ensures var base := 90 * (9 * sr + sc) + 9 * er;
            |MovesUpTo(b, player, base + n)| <= |MovesUpTo(b, player, base)|
              + (if 0 <= x < n then 1 else 0) + (if 0 <= y < n && y != x then 1 else 0)
  {
    hide MovesUpTo, ValidMove;
    if n > 0 {
      RowLimit(b, player, sr, sc, er, x, y, n - 1);
      NextPair(b, player, sr, sc, er, n - 1);
    }
  }

  lemma {:induction false} RowAtMost(b: Board, player: Color, sr: int, sc: int, er: int, n: nat)
    requires OnBoard(sr, sc) && 0 <= er < 10 && n <= 9
    ensures var base := 90 * (9 * sr + sc) + 9 * er;
            |MovesUpTo(b, player, base + n)| <= |MovesUpTo(b, player, base)| + n
  {
    hide MovesUpTo, ValidMove;
    if n > 0 {
      RowAtMost(b, player, sr, sc, er, n - 1);
      NextPair(b, player, sr, sc, er, n - 1);
    }
  }

  /** How far sideways a piece that is no rook or cannon goes when it goes `dr` rows. */
  function Sideways(kind: Kind, dr: int): int {
    match kind
    case RedKing | BlackKing | RedPawn | BlackPawn => 1 - dr
    case RedHorse | BlackHorse => 3 - dr
    case _ => dr
  }

  lemma ShortMoves(b: Board, m: Move, player: Color)
    requires InBounds(m) && ValidMove(b, m, player) && !IsSlider(At(b, m.sr, m.sc).kind)
    ensures Abs(m.er - m.sr) <= 2
    ensures Abs(m.ec - m.sc) == Sideways(At(b, m.sr, m.sc).kind, Abs(m.er - m.sr))
  {
    hide InCheck, FindKing, Obstacles;
  }

  lemma SliderMoves(b: Board, m: Move, player: Color)
    requires InBounds(m) && ValidMove(b, m, player) && IsSlider(At(b, m.sr, m.sc).kind) && m.er != m.sr
    ensures m.ec == m.sc
  {
    hide InCheck, Obstacles;
  }

  /** Rows below `er` a piece starting on row `sr` can end on, with the moves each can give. */
  function RowsLimit(slider: bool, sr: int, er: int): int {
    if slider then er + (if er > sr then 8 else 0)
    else 2 * Max(0, Min(er, sr + 3) - Max(0, sr - 2))
  }

  lemma RowMoves(b: Board, player: Color, sr: int, sc: int, er: int)
    requires OnBoard(sr, sc) && 0 <= er < 10
    ensures var slider, base := IsSlider(At(b, sr, sc).kind), 90 * (9 * sr + sc) + 9 * er;
            |MovesUpTo(b, player, base + 9)| <= |MovesUpTo(b, player, base)|
              + RowsLimit(slider, sr, er + 1) - RowsLimit(slider, sr, er)
  {
    hide MovesUpTo, ValidMove;
    var kind := At(b, sr, sc).kind;
    if IsSlider(kind) && er == sr {
      RowAtMost(b, player, sr, sc, er, 9);
    } else if IsSlider(kind) {
      forall ec | 0 <= ec < 9 && ValidMove(b, Move(sr, sc, er, ec), player) ensures ec == sc {
        SliderMoves(b, Move(sr, sc, er, ec), player);
      }
      RowLimit(b, player, sr, sc, er, sc, sc, 9);
    } else {
      var d := Sideways(kind, Abs(er - sr));
      var x, y := if Abs(er - sr) <= 2 then sc - d else 9, if Abs(er - sr) <= 2 then sc + d else 9;
      forall ec | 0 <= ec < 9 && ValidMove(b, Move(sr, sc, er, ec), player) ensures ec == x || ec == y {
        ShortMoves(b, Move(sr, sc, er, ec), player);
      }
      RowLimit(b, player, sr, sc, er, x, y, 9);
    }
  }

  lemma {:induction false} RowsMoves(b: Board, player: Color, sr: int, sc: int, er: nat)
    requires OnBoard(sr, sc) && er <= 10
    ensures var slider, base := IsSlider(At(b, sr, sc).kind), 90 * (9 * sr + sc);
            |MovesUpTo(b, player, base + 9 * er)| <= |MovesUpTo(b, player, base)| + RowsLimit(slider, sr, er)
  {
    hide MovesUpTo, IsSlider;
    if er > 0 {
      RowsMoves(b, player, sr, sc, er - 1);
      RowMoves(b, player, sr, sc, er - 1);
    }
  }

  /** Ten moves for every piece, and eight more for a rook or cannon. */
  lemma {:induction false} MovesCounted(b: Board, player: Color, k: nat)
    requires k <= 90
    ensures |MovesUpTo(b, player, 90 * k)| <= 10 * PieceCount(b, player, false, k) + 8 * PieceCount(b, player, true, k)
  {
    hide MovesUpTo, IsSlider;
    if k == 0 {
      NoMovesYet(b, player);
    } else {
      MovesCounted(b, player, k - 1);
      var sr, sc := (k - 1) / 9, (k - 1) % 9;
      if At(b, sr, sc).color != player {
        SquareSkipped(b, player, sr, sc, 90);
      } else {
        RowsMoves(b, player, sr, sc, 10);
      }
    }
  }

  /**
   * No position of a game fills the 256-entry move buffer: the generator lists exactly the valid
   * moves there, at most 192 of them.
   */
  lemma MovesNeverOverflow(p: Position)
    requires Invariant(p)
    ensures |AllMoves(p.board, p.player)| <= 192
    ensures forall m :: m in AllMoves(p.board, p.player) <==> ValidMove(p.board, m, p.player)
  {
    hide MovesUpTo, ValidMove, AllWellPlaced, SoleKing, KingsApart, InCheck, PieceCount;
    MovesCounted(p.board, p.player, 90);
    MovesSoundAndComplete(p.board, p.player);
  }

  // ----- the null move by the rules -----

  /**
   * Within `depth` plies the side of `ai` is mated whatever it plays: when it is to move, all its
   * valid moves keep it mated, and without one it is in check; otherwise some valid move does.
   */
  ghost predicate ForcedMate(p: Position, depth: nat, ai: Color)
    decreases depth
  {
    depth > 0 &&
    if p.player == ai then
      && (forall m :: ValidMove(p.board, m, p.player) ==> InBounds(m) && ForcedMate(Next(p, m), depth - 1, ai))
      && ((forall m :: !ValidMove(p.board, m, p.player)) ==> InCheck(p.board, p.player))
    else
      exists m :: ValidMove(p.board, m, p.player) && InBounds(m) && ForcedMate(Next(p, m), depth - 1, ai)
  }

  /** Where the generated list is complete, mate in the search is mate by the rules. */
  lemma {:induction false} MatedByRules(p: Position, depth: nat, ai: Color)
    requires Invariant(p)
    ensures Mated(p.board, depth, p.player, ai) <==> ForcedMate(p, depth, ai)
    decreases depth
  {
    hide Invariant, ValidMove, AllMoves, InCheck;
    if depth > 0 {
      MovesNeverOverflow(p);
      var ms := AllMoves(p.board, p.player);
      forall m | m in ms
        ensures InBounds(m)
        ensures Mated(Moved(p.board, m), depth - 1, Opponent(p.player), ai) <==> ForcedMate(Next(p, m), depth - 1, ai)
      {
        ValidInBounds(p.board, m, p.player);
        MoveKeepsInvariant(p, m);
        MatedByRules(Next(p, m), depth - 1, ai);
      }
      if ms != [] { assert ms[0] in ms; }
    }
  }

  /** With the invariant the null move means that every valid move leads to a forced mate. */
  lemma NullMoveByRules(p: Position, depth: nat)
    requires depth >= 1 && Invariant(p)
    ensures IsBestMove(p.board, p.player, depth, NO_MOVE) <==>
              forall m :: ValidMove(p.board, m, p.player) ==>
                InBounds(m) && ForcedMate(Next(p, m), depth - 1, p.player)
  {
    hide Invariant, ValidMove, AllMoves, Mated, ForcedMate, IsBestMove;
    MovesNeverOverflow(p);
    NullMoveIff(p.board, p.player, depth);
    forall m | m in AllMoves(p.board, p.player)
      ensures InBounds(m)
      ensures Mated(Moved(p.board, m), depth - 1, Opponent(p.player), p.player)
              <==> ForcedMate(Next(p, m), depth - 1, p.player)
    {
      ValidInBounds(p.board, m, p.player);
      MoveKeepsInvariant(p, m);
      MatedByRules(Next(p, m), depth - 1, p.player);
    }
  }

  // ----- check against capture -----

  /** Some enemy rook, cannon or horse could move onto the king. */
  ghost predicate OfficerAttacks(b: Board, kr: int, kc: int, color: Color)
    requires OnBoard(kr, kc)
  {
    exists r, c :: OnBoard(r, c) && OfficerAttack(b, r, c, kr, kc, color)
  }

  predicate OfficerAttack(b: Board, r: int, c: int, kr: int, kc: int, color: Color)
    requires OnBoard(r, c) && OnBoard(kr, kc)
  {
    && At(b, r, c).color == Opponent(color)
    && At(b, r, c).kind !in {RedKing, BlackKing, RedPawn, BlackPawn}
    && PieceMove(b, Move(r, c, kr, kc), Opponent(color))
  }

  /** An enemy pawn stands right behind the king, where no pawn can move onto it. */
  predicate PawnBehind(b: Board, kr: int, kc: int, color: Color)
    requires OnBoard(kr, kc)
  {
    var r := if color == Red then kr - 1 else kr + 1;
    0 <= r < 10 && At(b, r, kc).color == Opponent(color) && IsPawn(At(b, r, kc).kind)
  }

  /** An enemy pawn stands in front of the king or beside it. */
  ghost predicate PawnAttacks(b: Board, kr: int, kc: int, color: Color)
    requires OnBoard(kr, kc)
  {
    exists r, c :: OnBoard(r, c) && PawnAttack(b, r, c, kr, kc, color)
  }

  predicate PawnAttack(b: Board, r: int, c: int, kr: int, kc: int, color: Color)
    requires OnBoard(r, c) && OnBoard(kr, kc)
  {
    && At(b, r, c).color == Opponent(color) && IsPawn(At(b, r, c).kind)
    && PawnMove(Move(r, c, kr, kc), Opponent(color))
  }

  predicate IsPawn(kind: Kind) { kind == RedPawn || kind == BlackPawn }

  /** Some enemy piece could move onto the king by the rules of its own moves. */
  ghost predicate Capturable(b: Board, kr: int, kc: int, color: Color)
    requires OnBoard(kr, kc)
  {
    exists r, c :: OnBoard(r, c) && At(b, r, c).color == Opponent(color)
                   && PieceMove(b, Move(r, c, kr, kc), Opponent(color))
  }

  /** The enemy pawn of `PawnBehind`. */
  predicate StandsBehind(b: Board, r: int, c: int, kr: int, kc: int, color: Color)
    requires OnBoard(r, c) && OnBoard(kr, kc)
  {
    && IsPawn(At(b, r, c).kind) && At(b, r, c).color == Opponent(color)
    && c == kc && r == if color == Red then kr - 1 else kr + 1
  }

  /** What a single piece adds to the program's notion of check, on a sound board. */
  lemma AttackCases(b: Board, r: int, c: int, kr: int, kc: int, color: Color)
    requires Sound(b) && color != NoColor && OnBoard(r, c) && OnBoard(kr, kc) && HasKing(b, kr, kc, color)
    ensures AttackFrom(b, r, c, kr, kc, color) <==>
              OfficerAttack(b, r, c, kr, kc, color) || StandsBehind(b, r, c, kr, kc, color)
  {
    hide Obstacles, KingMove, PieceCount, SoleKing, KingsApart, HorseMove;
    assert WellPlaced(At(b, r, c), r, c) && WellPlaced(At(b, kr, kc), kr, kc);
    var kind := At(b, r, c).kind;
    if At(b, r, c).color == Opponent(color) && (kind == RedKing || kind == BlackKing) {
      KingsDoNotAttack(b, r, c, kr, kc, color);
    }
  }

  lemma KingsDoNotAttack(b: Board, r: int, c: int, kr: int, kc: int, color: Color)
    requires Sound(b) && color != NoColor && OnBoard(r, c) && OnBoard(kr, kc) && HasKing(b, kr, kc, color)
    requires At(b, r, c).color == Opponent(color) && At(b, r, c).kind in {RedKing, BlackKing}
    ensures !AttackFrom(b, r, c, kr, kc, color)
  {
    hide Obstacles, PieceCount, SoleKing;
    assert WellPlaced(At(b, r, c), r, c) && WellPlaced(At(b, kr, kc), kr, kc);
    assert HasKing(b, r, c, Opponent(color));
    NoObstacles(b, r, c, kr, kc);
    if c == kc {
      assert HasKing(b, if color == Red then kr else r, c, Red);
      assert HasKing(b, if color == Red then r else kr, c, Black);
    }
  }

  /** What a single piece adds to the ways the king can really be taken. */
  lemma CaptureCases(b: Board, r: int, c: int, kr: int, kc: int, color: Color)
    requires Sound(b) && color != NoColor && OnBoard(r, c) && OnBoard(kr, kc) && HasKing(b, kr, kc, color)
    ensures PieceMove(b, Move(r, c, kr, kc), Opponent(color)) && At(b, r, c).color == Opponent(color) <==>
              OfficerAttack(b, r, c, kr, kc, color) || PawnAttack(b, r, c, kr, kc, color)
  {
    hide Obstacles, FindKing, PieceCount, SoleKing, KingsApart, HorseMove, CannonMove, RookMove, PawnMove;
    assert WellPlaced(At(b, r, c), r, c) && WellPlaced(At(b, kr, kc), kr, kc);
  }

  /** On a sound board check means an officer's capture or a pawn behind the king. */
  lemma CheckCharacterized(b: Board, kr: int, kc: int, color: Color)
    requires Sound(b) && color != NoColor && OnBoard(kr, kc) && HasKing(b, kr, kc, color)
    ensures InCheck(b, color) <==> OfficerAttacks(b, kr, kc, color) || PawnBehind(b, kr, kc, color)
    ensures Capturable(b, kr, kc, color) <==> OfficerAttacks(b, kr, kc, color) || PawnAttacks(b, kr, kc, color)
  {
    hide AttackFrom, PieceMove, OfficerAttack, PawnAttack, StandsBehind, FindKing;
    FoundKing(b, color, kr, kc);
    BehindIsSquare(b, kr, kc, color);
    forall r, c | OnBoard(r, c)
      ensures AttackFrom(b, r, c, kr, kc, color) <==>
                OfficerAttack(b, r, c, kr, kc, color) || StandsBehind(b, r, c, kr, kc, color)
      ensures PieceMove(b, Move(r, c, kr, kc), Opponent(color)) && At(b, r, c).color == Opponent(color) <==>
                OfficerAttack(b, r, c, kr, kc, color) || PawnAttack(b, r, c, kr, kc, color)
    {
      AttackCases(b, r, c, kr, kc, color);
      CaptureCases(b, r, c, kr, kc, color);
    }
  }

  lemma BehindIsSquare(b: Board, kr: int, kc: int, color: Color)
    requires OnBoard(kr, kc)
    ensures PawnBehind(b, kr, kc, color) <==>
              exists r, c :: OnBoard(r, c) && StandsBehind(b, r, c, kr, kc, color)
  {
    var r := if color == Red then kr - 1 else kr + 1;
    if PawnBehind(b, kr, kc, color) {
      assert StandsBehind(b, r, kc, kr, kc, color);
    }
  }

  /**
   * The program's check agrees with capture exactly when an officer attacks, or a pawn stands
   * behind the king just when one stands in front of it or beside it.
   */
  lemma CheckAgreesIff(b: Board, kr: int, kc: int, color: Color)
    requires Sound(b) && color != NoColor && OnBoard(kr, kc) && HasKing(b, kr, kc, color)
    ensures (InCheck(b, color) <==> Capturable(b, kr, kc, color)) <==>
              || OfficerAttacks(b, kr, kc, color)
              || (PawnBehind(b, kr, kc, color) <==> PawnAttacks(b, kr, kc, color))
  {
    hide *;
    CheckCharacterized(b, kr, kc, color);
  }
}
