/** The rules, the evaluation and the search treat the two sides alike: everything survives the mirror. */
module XiangqiMirror {
  import opened Bytes
  import opened XiangqiRules
  import opened XiangqiScan
  import opened XiangqiSearch
  import opened XiangqiPositions

  // ----- the mirror -----

  function OtherColor(color: Color): Color {
    match color
    case NoColor => NoColor
    case Red => Black
    case Black => Red
  }

  function OtherKind(kind: Kind): Kind {
    match kind
    case Empty => Empty
    case RedKing => BlackKing case BlackKing => RedKing
    case RedAdvisor => BlackAdvisor case BlackAdvisor => RedAdvisor
    case RedElephant => BlackElephant case BlackElephant => RedElephant
    case RedRook => BlackRook case BlackRook => RedRook
    case RedCannon => BlackCannon case BlackCannon => RedCannon
    case RedHorse => BlackHorse case BlackHorse => RedHorse
    case RedPawn => BlackPawn case BlackPawn => RedPawn
  }

  function OtherPiece(p: Piece): Piece { Piece(OtherKind(p.kind), OtherColor(p.color)) }

  /** Rows upside down and colours exchanged. */
  function Mirror(b: Board): (n: Board)
    ensures forall r, c {:trigger At(n, r, c)} :: OnBoard(r, c) ==> At(n, r, c) == OtherPiece(At(b, 9 - r, c))
  {
    FlippedAt(b);
    Flipped(b)
  }

  function Flipped(b: Board): Board {
    seq(90, i requires 0 <= i < 90 => OtherPiece(b[9 * (9 - i / 9) + i % 9]))
  }

  lemma FlippedAt(b: Board)
    ensures forall r, c {:trigger At(Flipped(b), r, c)} :: OnBoard(r, c) ==>
              At(Flipped(b), r, c) == OtherPiece(At(b, 9 - r, c))
  {
    hide OtherPiece;
    forall r, c | OnBoard(r, c) ensures At(Flipped(b), r, c) == OtherPiece(At(b, 9 - r, c)) {
      var i := 9 * r + c;
      assert i / 9 == r && i % 9 == c;
    }
  }

  function MirrorMove(m: Move): Move { Move(9 - m.sr, m.sc, 9 - m.er, m.ec) }

  lemma SameSquares(a: Board, b: Board)
    requires forall r, c {:trigger At(a, r, c)} :: OnBoard(r, c) ==> At(a, r, c) == At(b, r, c)
    ensures a == b
  {
    forall i | 0 <= i < 90 ensures a[i] == b[i] {
      assert At(a, i / 9, i % 9) == a[i] && At(b, i / 9, i % 9) == b[i];
    }
  }

  lemma MirrorTwice(b: Board)
    ensures Mirror(Mirror(b)) == b
  {
    hide Mirror;
    SameSquares(Mirror(Mirror(b)), b);
  }

  lemma MirrorMoved(b: Board, m: Move)
    requires InBounds(m)
    ensures Mirror(Moved(b, m)) == Moved(Mirror(b), MirrorMove(m))
  {
    hide Mirror;
    SameSquares(Mirror(Moved(b, m)), Moved(Mirror(b), MirrorMove(m)));
  }

  // ----- lines -----

  lemma {:induction false} MirrorRowCount(b: Board, r: int, lo: int, hi: int)
    requires 0 <= r < 10 && 0 <= lo && hi <= 9
    ensures RowCount(Mirror(b), 9 - r, lo, hi) == RowCount(b, r, lo, hi)
    decreases hi - lo
  {
    hide Mirror;
    if lo < hi { MirrorRowCount(b, r, lo, hi - 1); }
  }

  /** A column counted from its other end. */
  lemma {:induction false} ColumnFromBelow(b: Board, c: int, lo: int, hi: int)
    requires 0 <= c < 9 && 0 <= lo < hi <= 10
    ensures ColumnCount(b, c, lo, hi) == ColumnCount(b, c, lo + 1, hi) + if Occupied(b, lo, c) then 1 else 0
    decreases hi
  {
    if lo + 1 < hi {
      ColumnFromBelow(b, c, lo, hi - 1);
    } else {
      assert ColumnCount(b, c, lo, lo) == 0;
    }
  }

  lemma {:induction false} MirrorColumnCount(b: Board, c: int, lo: int, hi: int)
    requires 0 <= c < 9 && 0 <= lo && hi <= 10
    ensures ColumnCount(Mirror(b), c, lo, hi) == ColumnCount(b, c, 10 - hi, 10 - lo)
    decreases hi - lo
  {
    hide Mirror;
    if lo < hi {
      MirrorColumnCount(b, c, lo, hi - 1);
      ColumnFromBelow(b, c, 10 - hi, 10 - lo);
    }
  }

  lemma MirrorObstacles(b: Board, r1: int, c1: int, r2: int, c2: int)
    requires OnBoard(r1, c1) && OnBoard(r2, c2)
    ensures Obstacles(Mirror(b), 9 - r1, c1, 9 - r2, c2) == Obstacles(b, r1, c1, r2, c2)
  {
    hide Mirror, RowCount, ColumnCount;
    if r1 == r2 {
      MirrorRowCount(b, r1, Min(c1, c2) + 1, Max(c1, c2));
    } else if c1 == c2 {
      MirrorColumnCount(b, c1, Min(9 - r1, 9 - r2) + 1, Max(9 - r1, 9 - r2));
    }
  }

  // ----- kings -----

  function MirrorSquare(k: Option<(int, int)>): Option<(int, int)> {
    match k
    case None => None
    case Some((r, c)) => Some((9 - r, c))
  }

  lemma MirrorSoleKing(b: Board, color: Color)
    requires color != NoColor && SoleKing(b, color)
    ensures SoleKing(Mirror(b), Opponent(color))
  {
    hide Mirror;
    var n := Mirror(b);
    forall r1, c1, r2, c2 | OnBoard(r1, c1) && OnBoard(r2, c2) && HasKing(n, r1, c1, Opponent(color))
                            && HasKing(n, r2, c2, Opponent(color))
      ensures r1 == r2 && c1 == c2
    {
      assert HasKing(b, 9 - r1, c1, color) && HasKing(b, 9 - r2, c2, color);
    }
  }

  lemma MirrorKing(b: Board, color: Color)
    requires color != NoColor && SoleKing(b, color)
    ensures FindKing(Mirror(b), Opponent(color)) == MirrorSquare(FindKing(b, color))
  {
    hide FindKing, Mirror;
    MirrorSoleKing(b, color);
    FoundKingIsKing(b, color);
    FoundKingIsKing(Mirror(b), Opponent(color));
    match FindKing(b, color) {
      case Some((r, c)) =>
        assert HasKing(Mirror(b), 9 - r, c, Opponent(color));
        FoundKing(Mirror(b), Opponent(color), 9 - r, c);
      case None =>
        forall r, c | OnBoard(r, c) ensures !HasKing(Mirror(b), r, c, Opponent(color)) {
          assert !HasKing(b, 9 - r, c, color);
        }
    }
  }

  // ----- moves and check -----

  lemma MirrorKingMove(b: Board, m: Move, color: Color)
    requires InBounds(m) && color != NoColor && SoleKing(b, Red) && SoleKing(b, Black)
    ensures KingMove(Mirror(b), MirrorMove(m), Opponent(color)) == KingMove(b, m, color)
  {
    hide Mirror, Obstacles, FindKing, SoleKing, Moved;
    var after := Moved(b, m);
    MirrorMoved(b, m);
    MoveKeepsSoleKing(b, m, Opponent(color));
    MirrorKing(after, Opponent(color));
    match FindKing(after, Opponent(color)) {
      case Some((r, c)) => MirrorObstacles(after, m.er, m.ec, r, c);
      case None =>
    }
  }

  lemma MirrorHorseMove(b: Board, m: Move)
    requires InBounds(m)
    ensures HorseMove(Mirror(b), MirrorMove(m)) == HorseMove(b, m)
  {
    hide Mirror;
  }

  lemma MirrorOccupied(b: Board, r: int, c: int)
    requires OnBoard(r, c)
    ensures Occupied(Mirror(b), 9 - r, c) == Occupied(b, r, c)
  {
    hide Mirror;
  }

  lemma MirrorElephantMove(b: Board, m: Move, color: Color)
    requires InBounds(m) && color != NoColor
    ensures ElephantMove(Mirror(b), MirrorMove(m), Opponent(color)) == ElephantMove(b, m, color)
  {
    hide Mirror, Occupied;
    if Abs(m.er - m.sr) == 2 && Abs(m.ec - m.sc) == 2 {
      assert (9 - m.sr + (9 - m.er)) / 2 == 9 - (m.sr + m.er) / 2;
      MirrorOccupied(b, (m.sr + m.er) / 2, (m.sc + m.ec) / 2);
    }
  }

  lemma MirrorLineMoves(b: Board, m: Move)
    requires InBounds(m)
    ensures RookMove(Mirror(b), MirrorMove(m)) == RookMove(b, m)
    ensures CannonMove(Mirror(b), MirrorMove(m)) == CannonMove(b, m)
  {
    hide Mirror, Obstacles;
    MirrorObstacles(b, m.sr, m.sc, m.er, m.ec);
  }

  lemma MirrorStepMoves(m: Move, color: Color)
    requires color != NoColor
    ensures AdvisorMove(MirrorMove(m), Opponent(color)) == AdvisorMove(m, color)
    ensures PawnMove(MirrorMove(m), Opponent(color)) == PawnMove(m, color)
  {
  }

  lemma MirrorPieceMove(b: Board, m: Move, color: Color)
    requires InBounds(m) && color != NoColor && SoleKing(b, Red) && SoleKing(b, Black)
    ensures PieceMove(Mirror(b), MirrorMove(m), Opponent(color)) == PieceMove(b, m, color)
  {
    hide Mirror, KingMove, RookMove, CannonMove, HorseMove, AdvisorMove, ElephantMove, PawnMove, SoleKing;
    MirrorKingMove(b, m, color);
    MirrorLineMoves(b, m);
    MirrorHorseMove(b, m);
    MirrorStepMoves(m, color);
    MirrorElephantMove(b, m, color);
  }

  lemma MirrorAttack(b: Board, r: int, c: int, kr: int, kc: int, color: Color)
    requires OnBoard(r, c) && OnBoard(kr, kc) && color != NoColor
    ensures AttackFrom(Mirror(b), 9 - r, c, 9 - kr, kc, Opponent(color)) == AttackFrom(b, r, c, kr, kc, color)
  {
    hide Mirror, Obstacles, HorseMove;
    MirrorObstacles(b, r, c, kr, kc);
    MirrorHorseMove(b, Move(r, c, kr, kc));
  }

  lemma CheckIsMirrored(b: Board, color: Color)
    requires color != NoColor && SoleKing(b, color) && InCheck(b, color)
    ensures InCheck(Mirror(b), Opponent(color))
  {
    hide FindKing, AttackFrom, SoleKing, Mirror;
    MirrorKing(b, color);
    var (kr, kc) := FindKing(b, color).value;
    var r, c :| 0 <= r < 10 && 0 <= c < 9 && AttackFrom(b, r, c, kr, kc, color);
    MirrorAttack(b, r, c, kr, kc, color);
    assert AttackFrom(Mirror(b), 9 - r, c, 9 - kr, kc, Opponent(color));
  }

  lemma MirrorInCheck(b: Board, color: Color)
    requires color != NoColor && SoleKing(b, color)
    ensures InCheck(Mirror(b), Opponent(color)) == InCheck(b, color)
  {
    hide InCheck, SoleKing, Mirror;
    if InCheck(b, color) { CheckIsMirrored(b, color); }
    if InCheck(Mirror(b), Opponent(color)) {
      MirrorSoleKing(b, color);
      MirrorTwice(b);
      CheckIsMirrored(Mirror(b), Opponent(color));
    }
  }

  /** A move is valid for one side exactly when its mirror image is valid for the other. */
  lemma MirrorValidMove(b: Board, m: Move, player: Color)
    requires player != NoColor && SoleKing(b, Red) && SoleKing(b, Black)
    ensures ValidMove(Mirror(b), MirrorMove(m), Opponent(player)) == ValidMove(b, m, player)
  {
    hide PieceMove, InCheck, SoleKing, Mirror;
    if InBounds(m) {
      MirrorPieceMove(b, m, player);
      MirrorMoved(b, m);
      MoveKeepsSoleKing(b, m, player);
      MirrorInCheck(Moved(b, m), player);
    }
  }

  // ----- positions -----

  function MirrorPosition(p: Position): Position { Position(Mirror(p.board), Opponent(p.player)) }

  lemma {:induction false} MirrorInRow(b: Board, color: Color, sliders: bool, r: nat, n: nat)
    requires color != NoColor && r < 10 && n <= 9
    ensures InRow(Mirror(b), Opponent(color), sliders, r, n) == InRow(b, color, sliders, 9 - r, n)
  {
    hide Mirror, Counts;
    if n > 0 {
      MirrorInRow(b, color, sliders, r, n - 1);
      MirrorCounts(At(b, 9 - r, n - 1), color, sliders);
    }
  }

  lemma MirrorCounts(p: Piece, color: Color, sliders: bool)
    requires color != NoColor
    ensures Counts(OtherPiece(p), Opponent(color), sliders) == Counts(p, color, sliders)
  {
  }

  /** Pieces of ten rows, added up from either end. */
  lemma MirrorCount(b: Board, color: Color, sliders: bool)
    requires color != NoColor
    ensures PieceCount(Mirror(b), Opponent(color), sliders, 90) == PieceCount(b, color, sliders, 90)
  {
    hide Mirror, PieceCount, InRow;
    forall r: nat | r < 10
      ensures PieceCount(Mirror(b), Opponent(color), sliders, 9 * r + 9)
              - PieceCount(Mirror(b), Opponent(color), sliders, 9 * r)
              == PieceCount(b, color, sliders, 9 * (9 - r) + 9) - PieceCount(b, color, sliders, 9 * (9 - r))
    {
      CountRow(Mirror(b), Opponent(color), sliders, r);
      CountRow(b, color, sliders, 9 - r);
      MirrorInRow(b, color, sliders, r, 9);
    }
    NothingCounted(b, color, sliders);
    NothingCounted(Mirror(b), Opponent(color), sliders);
    var f := (k: nat) requires k <= 90 => PieceCount(Mirror(b), Opponent(color), sliders, k);
    var g := (k: nat) requires k <= 90 => PieceCount(b, color, sliders, k);
    assert forall r: nat :: r < 10 ==> f(9 * r + 9) - f(9 * r) == g(9 * (9 - r) + 9) - g(9 * (9 - r));
    Telescope(f, g);
  }

  /** Two running sums over the rows that grow by the same amounts, one from each end, agree at the end. */
  lemma Telescope(f: nat --> int, g: nat --> int)
    requires forall k: nat :: k <= 90 ==> f.requires(k) && g.requires(k)
    requires f(0) == 0 && g(0) == 0
    requires forall r: nat :: r < 10 ==> f(9 * r + 9) - f(9 * r) == g(9 * (9 - r) + 9) - g(9 * (9 - r))
    ensures f(90) == g(90)
  {
    assert f(9 * 0 + 9) - f(9 * 0) == g(90) - g(81);
    assert f(9 * 1 + 9) - f(9 * 1) == g(81) - g(72);
    assert f(9 * 2 + 9) - f(9 * 2) == g(72) - g(63);
    assert f(9 * 3 + 9) - f(9 * 3) == g(63) - g(54);
    assert f(9 * 4 + 9) - f(9 * 4) == g(54) - g(45);
    assert f(9 * 5 + 9) - f(9 * 5) == g(45) - g(36);
    assert f(9 * 6 + 9) - f(9 * 6) == g(36) - g(27);
    assert f(9 * 7 + 9) - f(9 * 7) == g(27) - g(18);
    assert f(9 * 8 + 9) - f(9 * 8) == g(18) - g(9);
    assert f(9 * 9 + 9) - f(9 * 9) == g(9) - g(0);
  }

  /** A mirrored position keeps the invariant of reachable positions. */
  lemma MirrorInvariant(p: Position)
    requires Invariant(p)
    ensures Invariant(MirrorPosition(p))
  {
    hide Mirror, InCheck, PieceCount, SoleKing, KingsApart;
    var n := Mirror(p.board);
    MirrorSoleKing(p.board, Red);
    MirrorSoleKing(p.board, Black);
    MirrorInCheck(p.board, Opponent(p.player));
    forall sliders: bool
      ensures PieceCount(n, Red, sliders, 90) == PieceCount(p.board, Black, sliders, 90)
      ensures PieceCount(n, Black, sliders, 90) == PieceCount(p.board, Red, sliders, 90)
    {
      MirrorCount(p.board, Black, sliders);
      MirrorCount(p.board, Red, sliders);
    }
    MirrorPlaces(p.board);
    SafeKingsApart(n, p.player);
  }

  lemma MirrorPlaces(b: Board)
    requires AllWellPlaced(b)
    ensures AllWellPlaced(Mirror(b))
  {
    hide Mirror;
    forall r, c | OnBoard(r, c) ensures WellPlaced(At(Mirror(b), r, c), r, c) {
      assert WellPlaced(At(b, 9 - r, c), 9 - r, c);
    }
  }

  // ----- evaluation -----

  lemma {:induction false} MaterialOfRow(b: Board, ai: Color, r: nat, n: nat)
    requires AllWellPlaced(b) && ai != NoColor && r < 10 && n <= 9
    ensures Material(Mirror(b), Opponent(ai), 9 * r + n) - Material(Mirror(b), Opponent(ai), 9 * r)
            == Material(b, ai, 9 * (9 - r) + n) - Material(b, ai, 9 * (9 - r))
  {
    hide Mirror, BaseValue, AllWellPlaced, Material, Worth;
    if n > 0 {
      MaterialOfRow(b, ai, r, n - 1);
      NextMaterial(Mirror(b), Opponent(ai), r, n - 1);
      NextMaterial(b, ai, 9 - r, n - 1);
      MirrorBaseValue(b, ai, r, n - 1);
    }
  }

  lemma NextMaterial(b: Board, ai: Color, r: nat, c: nat)
    requires OnBoard(r, c)
    ensures Material(b, ai, 9 * r + c + 1) == Material(b, ai, 9 * r + c) + Worth(b, ai, r, c)
  {
    hide BaseValue;
    assert (9 * r + c) / 9 == r && (9 * r + c) % 9 == c;
  }

  /** What one square adds to the score of a side. */
  function Worth(b: Board, ai: Color, r: int, c: int): int
    requires OnBoard(r, c)
  {
    var v: int := BaseValue(At(b, r, c), r, c);
    if At(b, r, c).color == ai then v else -v
  }

  lemma MirrorBaseValue(b: Board, ai: Color, r: int, c: int)
    requires AllWellPlaced(b) && ai != NoColor && OnBoard(r, c)
    ensures Worth(Mirror(b), Opponent(ai), r, c) == Worth(b, ai, 9 - r, c)
  {
    hide Mirror;
    assert WellPlaced(At(b, 9 - r, c), 9 - r, c);
  }

  /** The evaluation of the mirror image for the other side is the same. */
  lemma MirrorEvaluate(b: Board, ai: Color)
    requires AllWellPlaced(b) && SoleKing(b, Red) && SoleKing(b, Black) && ai != NoColor
    ensures Evaluate(Mirror(b), Opponent(ai)) == Evaluate(b, ai)
  {
    hide Mirror, InCheck, Material, SoleKing, AllWellPlaced;
    var f := (k: nat) requires k <= 90 => Material(Mirror(b), Opponent(ai), k);
    var g := (k: nat) requires k <= 90 => Material(b, ai, k);
    forall r: nat | r < 10 ensures f(9 * r + 9) - f(9 * r) == g(9 * (9 - r) + 9) - g(9 * (9 - r)) {
      MaterialOfRow(b, ai, r, 9);
    }
    NoMaterial(b, ai);
    NoMaterial(Mirror(b), Opponent(ai));
    Telescope(f, g);
    MirrorInCheck(b, ai);
    MirrorInCheck(b, Opponent(ai));
  }

  lemma NoMaterial(b: Board, ai: Color)
    ensures Material(b, ai, 0) == 0
  {
  }

  // ----- search -----

  lemma MirrorMoves(p: Position)
    requires Invariant(p)
    ensures forall m :: m in AllMoves(p.board, p.player) ==>
                          MirrorMove(m) in AllMoves(Mirror(p.board), Opponent(p.player))
  {
    hide Mirror, AllMoves, ValidMove, SoleKing, AllWellPlaced, KingsApart, InCheck, PieceCount;
    MirrorInvariant(p);
    MovesNeverOverflow(p);
    MovesNeverOverflow(MirrorPosition(p));
    forall m | m in AllMoves(p.board, p.player)
      ensures MirrorMove(m) in AllMoves(Mirror(p.board), Opponent(p.player))
    {
      MirrorValidMove(p.board, m, p.player);
    }
  }

  /** A move is worth to one side what its mirror image is worth to the other. */
  lemma {:induction false} MirrorAfter(p: Position, m: Move, depth: nat, ai: Color)
    requires Invariant(p) && ai != NoColor && InBounds(m) && ValidMove(p.board, m, p.player)
    ensures After(Mirror(p.board), MirrorMove(m), depth, Opponent(p.player), Opponent(ai))
            == After(p.board, m, depth, p.player, ai)
    decreases depth, 2
  {
    hide Invariant, ValidMove, Value, Mirror, Moved;
    MoveKeepsInvariant(p, m);
    MirrorMoved(p.board, m);
    MirrorValue(Next(p, m), depth, ai);
    TwiceOpponent(p);
  }

  lemma TwiceOpponent(p: Position)
    requires Invariant(p)
    ensures Opponent(Opponent(p.player)) == p.player && p.player != NoColor
  {
  }

  /** The value of the best of all moves. */
  function BestValue(p: Position, depth: nat, ai: Color): int {
    AllMovesInBounds(p.board, p.player);
    Best(p.board, AllMoves(p.board, p.player), |AllMoves(p.board, p.player)|, depth, p.player, ai)
  }

  /** The best move's mirror image is among the other side's moves, so that side does at least as well. */
  lemma {:induction false} MirrorAsGood(p: Position, depth: nat, ai: Color)
    requires Invariant(p) && ai != NoColor && AllMoves(p.board, p.player) != []
    ensures if p.player == ai then BestValue(p, depth, ai) <= BestValue(MirrorPosition(p), depth, Opponent(ai))
            else BestValue(p, depth, ai) >= BestValue(MirrorPosition(p), depth, Opponent(ai))
    decreases depth, 3
  {
    hide Mirror, AllMoves, Best, After, Invariant, ValidMove;
    var n := Mirror(p.board);
    var ms, ns := AllMoves(p.board, p.player), AllMoves(n, Opponent(p.player));
    AllMovesInBounds(p.board, p.player);
    AllMovesInBounds(n, Opponent(p.player));
    MirrorMoves(p);
    assert ms[0] in ms && MirrorMove(ms[0]) in ns;
    BestIsExtreme(p.board, ms, |ms|, depth, p.player, ai);
    BestIsExtreme(n, ns, |ns|, depth, Opponent(p.player), Opponent(ai));
    var i :| 0 <= i < |ms|
             && Best(p.board, ms, |ms|, depth, p.player, ai) == After(p.board, ms[i], depth, p.player, ai);
    assert ms[i] in ms;
    MovesAreValid(p.board, p.player, ms[i]);
    MirrorAfter(p, ms[i], depth, ai);
    assert MirrorMove(ms[i]) in ns;
    var j :| 0 <= j < |ns| && ns[j] == MirrorMove(ms[i]);
    TwiceOpponent(p);
  }

  lemma MovesAreValid(b: Board, player: Color, m: Move)
    requires m in AllMoves(b, player)
    ensures ValidMove(b, m, player) && InBounds(m)
  {
  }

  lemma {:induction false} MirrorBestValue(p: Position, depth: nat, ai: Color)
    requires Invariant(p) && ai != NoColor && AllMoves(p.board, p.player) != []
    ensures BestValue(MirrorPosition(p), depth, Opponent(ai)) == BestValue(p, depth, ai)
    decreases depth, 4
  {
    hide Mirror, AllMoves, BestValue, Invariant;
    var q := MirrorPosition(p);
    MirrorAsGood(p, depth, ai);
    MirrorInvariant(p);
    NoMovesMirrored(p);
    MirrorAsGood(q, depth, Opponent(ai));
    MirrorTwice(p.board);
    TwiceOpponent(p);
    assert MirrorPosition(q) == p;
  }

  /** One side can move exactly when its mirror image can. */
  lemma NoMovesMirrored(p: Position)
    requires Invariant(p)
    ensures AllMoves(p.board, p.player) == [] <==> AllMoves(Mirror(p.board), Opponent(p.player)) == []
  {
    hide Mirror, AllMoves, Invariant;
    MirrorMoves(p);
    MirrorInvariant(p);
    MirrorMoves(MirrorPosition(p));
    MirrorTwice(p.board);
    TwiceOpponent(p);
    var ms, ns := AllMoves(p.board, p.player), AllMoves(Mirror(p.board), Opponent(p.player));
    if ms != [] { assert MirrorMove(ms[0]) in ns; }
    if ns != [] { assert MirrorMove(ns[0]) in ms; }
  }

  /** In every position of a game the minimax value of the mirror image for the other side is the same. */
  lemma {:induction false} MirrorValue(p: Position, depth: nat, ai: Color)
    requires Invariant(p) && ai != NoColor
    ensures Value(Mirror(p.board), depth, Opponent(p.player), Opponent(ai)) == Value(p.board, depth, p.player, ai)
    decreases depth, 1
  {
    hide Mirror, AllMoves, InCheck, Best, Evaluate, PieceCount, SoleKing, KingsApart, AllWellPlaced;
    if depth == 0 {
      MirrorEvaluate(p.board, ai);
    } else {
      NoMovesMirrored(p);
      if AllMoves(p.board, p.player) == [] {
        MirrorInCheck(p.board, p.player);
      } else {
        MirrorBestValue(p, depth - 1, ai);
      }
    }
  }
}
