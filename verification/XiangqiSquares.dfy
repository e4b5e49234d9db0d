/** The rules of Chinese chess told in squares, and the program's tests against them. */
module XiangqiSquares {
  import opened Bytes
  import opened XiangqiRules
  import opened XiangqiScan

  /** A row and a column. */
  type Square = (int, int)

  predicate On(q: Square) { 0 <= q.0 <= 9 && 0 <= q.1 <= 8 }

  function PieceOn(b: Board, q: Square): Piece
    requires On(q)
  {
    b[9 * q.0 + q.1]
  }

  predicate Free(b: Board, q: Square)
    requires On(q)
  {
    PieceOn(b, q).kind == Empty
  }

  /** Next to each other in a row or a column. */
  predicate Touch(p: Square, q: Square) {
    q in {(p.0 + 1, p.1), (p.0 - 1, p.1), (p.0, p.1 + 1), (p.0, p.1 - 1)}
  }

  /** Next to each other on a diagonal. */
  predicate Corner(p: Square, q: Square) {
    q in {(p.0 + 1, p.1 + 1), (p.0 + 1, p.1 - 1), (p.0 - 1, p.1 + 1), (p.0 - 1, p.1 - 1)}
  }

  predicate InLine(p: Square, q: Square) { p.0 == q.0 || p.1 == q.1 }

  predicate Between(p: Square, x: Square, q: Square) {
    || (p.0 == x.0 == q.0 && (p.1 < x.1 < q.1 || q.1 < x.1 < p.1))
    || (p.1 == x.1 == q.1 && (p.0 < x.0 < q.0 || q.0 < x.0 < p.0))
  }

  /** The squares with a piece strictly between two squares. */
  function Blockers(b: Board, p: Square, q: Square): set<Square> {
    set r, c | 0 <= r <= 9 && 0 <= c <= 8 && Between(p, (r, c), q) && !Free(b, (r, c)) :: (r, c)
  }

  function Enemy(color: Color): Color { if color == Red then Black else Red }

  function KingPiece(color: Color): Piece { if color == Red then Piece(RedKing, Red) else Piece(BlackKing, color) }

  /** The first square in reading order that holds a king of this colour. */
  predicate HoldsKing(b: Board, color: Color, k: Square) {
    && On(k) && PieceOn(b, k) == KingPiece(color)
    && forall i :: 0 <= i < 9 * k.0 + k.1 ==> b[i] != KingPiece(color)
  }

  predicate Palace(color: Color, q: Square) {
    q.1 in {3, 4, 5} && (if color == Red then q.0 in {0, 1, 2} else q.0 in {7, 8, 9})
  }

  /** The board after a move, whatever stood on the target. */
  function After(b: Board, p: Square, q: Square): Board
    requires On(p) && On(q)
  {
    b[9 * q.0 + q.1 := b[9 * p.0 + p.1]][9 * p.0 + p.1 := Piece(Empty, NoColor)]
  }

  // ----- the rules -----

  /** One step inside the palace, after which the kings do not face each other on an open file. */
  ghost predicate KingRule(b: Board, p: Square, q: Square, color: Color)
    requires On(p) && On(q)
  {
    && Touch(p, q) && Palace(color, q)
    && forall k :: HoldsKing(After(b, p, q), Enemy(color), k) && k.1 == q.1 ==> Blockers(After(b, p, q), q, k) != {}
  }

  predicate RookRule(b: Board, p: Square, q: Square) {
    InLine(p, q) && Blockers(b, p, q) == {}
  }

  /** Nothing between to move, exactly one piece between to capture. */
  predicate CannonRule(b: Board, p: Square, q: Square)
    requires On(q)
  {
    InLine(p, q) && |Blockers(b, p, q)| == if Free(b, q) then 0 else 1
  }

  /** Over a free square next to it, one corner on and away from it. */
  ghost predicate HorseRule(b: Board, p: Square, q: Square) {
    exists leg: Square :: On(leg) && Touch(p, leg) && Free(b, leg) && Corner(leg, q) && !Touch(p, q)
  }

  predicate AdvisorRule(p: Square, q: Square, color: Color) {
    Corner(p, q) && Palace(color, q)
  }

  /** Two corners straight on, over a free one, on its own side of the river. */
  ghost predicate ElephantRule(b: Board, p: Square, q: Square, color: Color) {
    && (if color == Red then q.0 <= 4 else q.0 >= 5)
    && exists eye: Square ::
         On(eye) && Corner(p, eye) && Free(b, eye) && q == (2 * eye.0 - p.0, 2 * eye.1 - p.1)
  }

  /** One step forward, or to the side on the far half of the board. */
  predicate PawnRule(p: Square, q: Square, color: Color) {
    if color == Red then q == (p.0 + 1, p.1) || (p.0 >= 5 && q in {(p.0, p.1 + 1), (p.0, p.1 - 1)})
    else q == (p.0 - 1, p.1) || (p.0 <= 4 && q in {(p.0, p.1 + 1), (p.0, p.1 - 1)})
  }

  ghost predicate PieceRule(b: Board, p: Square, q: Square, color: Color)
    requires On(p) && On(q)
  {
    var kind := PieceOn(b, p).kind;
    if kind in {RedKing, BlackKing} then KingRule(b, p, q, color)
    else if kind in {RedRook, BlackRook} then RookRule(b, p, q)
    else if kind in {RedCannon, BlackCannon} then CannonRule(b, p, q)
    else if kind in {RedHorse, BlackHorse} then HorseRule(b, p, q)
    else if kind in {RedAdvisor, BlackAdvisor} then AdvisorRule(p, q, color)
    else if kind in {RedElephant, BlackElephant} then ElephantRule(b, p, q, color)
    else if kind in {RedPawn, BlackPawn} then PawnRule(p, q, color)
    else false
  }

  /**
   * Whether the piece on `p` gives check to the king on `k`: as it would take it, but for pawns,
   * which are tested as if they moved the other way, and for a king on an open file.
   */
  ghost predicate ThreatRule(b: Board, p: Square, k: Square, color: Color)
    requires On(p) && On(k)
  {
    var kind := PieceOn(b, p).kind;
    if kind in {RedRook, BlackRook} then RookRule(b, p, k)
    else if kind in {RedCannon, BlackCannon} then InLine(p, k) && |Blockers(b, p, k)| == 1
    else if kind in {RedHorse, BlackHorse} then HorseRule(b, p, k)
    else if kind == BlackPawn then color == Red && PawnRule(p, k, Red)
    else if kind == RedPawn then color == Black && PawnRule(p, k, Black)
    else if kind in {RedKing, BlackKing} then p.1 == k.1 && Blockers(b, p, k) == {}
    else false
  }

  ghost predicate CheckRule(b: Board, color: Color) {
    exists k: Square, p: Square ::
      HoldsKing(b, color, k) && On(p) && PieceOn(b, p).color == Enemy(color) && ThreatRule(b, p, k, color)
  }

  // ----- counting what is between -----

  function InRow(b: Board, r: int, lo: int, hi: int): set<Square>
    requires 0 <= r <= 9 && 0 <= lo && hi <= 9
  {
    set c | lo <= c < hi && !Free(b, (r, c)) :: (r, c)
  }

  function InColumn(b: Board, c: int, lo: int, hi: int): set<Square>
    requires 0 <= c <= 8 && 0 <= lo && hi <= 10
  {
    set r | lo <= r < hi && !Free(b, (r, c)) :: (r, c)
  }

  lemma FreeIs(b: Board, r: int, c: int)
    requires On((r, c))
    ensures Occupied(b, r, c) == !Free(b, (r, c))
  {
  }

  lemma {:induction false} RowCounted(b: Board, r: int, lo: int, hi: int)
    requires 0 <= r <= 9 && 0 <= lo && hi <= 9
    ensures RowCount(b, r, lo, hi) == |InRow(b, r, lo, hi)|
    decreases hi - lo
  {
    hide Free, Occupied;
    if lo < hi {
      FreeIs(b, r, hi - 1);
      RowCounted(b, r, lo, hi - 1);
      var rest := InRow(b, r, lo, hi - 1);
      assert InRow(b, r, lo, hi) == if Free(b, (r, hi - 1)) then rest else rest + {(r, hi - 1)};
    } else {
      assert InRow(b, r, lo, hi) == {};
    }
  }

  lemma {:induction false} ColumnCounted(b: Board, c: int, lo: int, hi: int)
    requires 0 <= c <= 8 && 0 <= lo && hi <= 10
    ensures ColumnCount(b, c, lo, hi) == |InColumn(b, c, lo, hi)|
    decreases hi - lo
  {
    hide Free, Occupied;
    if lo < hi {
      FreeIs(b, hi - 1, c);
      ColumnCounted(b, c, lo, hi - 1);
      var rest := InColumn(b, c, lo, hi - 1);
      assert InColumn(b, c, lo, hi) == if Free(b, (hi - 1, c)) then rest else rest + {(hi - 1, c)};
    } else {
      assert InColumn(b, c, lo, hi) == {};
    }
  }

  /** The obstacles counted on a line are the squares with a piece strictly between its ends. */
  lemma ObstaclesAreBlockers(b: Board, p: Square, q: Square)
    requires On(p) && On(q) && InLine(p, q)
    ensures Obstacles(b, p.0, p.1, q.0, q.1) == |Blockers(b, p, q)|
  {
    if p.0 == q.0 {
      var lo, hi := Min(p.1, q.1) + 1, Max(p.1, q.1);
      RowCounted(b, p.0, lo, hi);
      assert Blockers(b, p, q) == InRow(b, p.0, lo, hi);
    } else {
      var lo, hi := Min(p.0, q.0) + 1, Max(p.0, q.0);
      ColumnCounted(b, p.1, lo, hi);
      assert Blockers(b, p, q) == InColumn(b, p.1, lo, hi);
    }
  }

  // ----- the program's tests are these rules -----

  lemma HorseIff(b: Board, p: Square, q: Square)
    requires On(p) && On(q)
    ensures HorseMove(b, Move(p.0, p.1, q.0, q.1)) <==> HorseRule(b, p, q)
  {
    var m := Move(p.0, p.1, q.0, q.1);
    if HorseMove(b, m) {
      var leg := LegOf(p, q);
      assert On(leg) && Touch(p, leg) && Free(b, leg) && Corner(leg, q) && !Touch(p, q);
    }
    if HorseRule(b, p, q) {
      HorseMayGo(b, p, q);
    }
  }

  /** The square next to the horse, on the longer side of its move. */
  function LegOf(p: Square, q: Square): Square {
    if Abs(q.0 - p.0) == 2 then (p.0 + (if q.0 > p.0 then 1 else -1), p.1)
    else (p.0, p.1 + if q.1 > p.1 then 1 else -1)
  }

  lemma HorseMayGo(b: Board, p: Square, q: Square)
    requires On(p) && On(q) && HorseRule(b, p, q)
    ensures HorseMove(b, Move(p.0, p.1, q.0, q.1))
  {
    hide Free, Occupied;
    var leg: Square :| On(leg) && Touch(p, leg) && Free(b, leg) && Corner(leg, q) && !Touch(p, q);
    assert leg == LegOf(p, q);
    FreeIs(b, leg.0, leg.1);
  }

  lemma ElephantIff(b: Board, p: Square, q: Square, color: Color)
    requires On(p) && On(q)
    ensures ElephantMove(b, Move(p.0, p.1, q.0, q.1), color) <==> ElephantRule(b, p, q, color)
  {
    hide Free, Occupied, Corner, Abs;
    if ElephantMove(b, Move(p.0, p.1, q.0, q.1), color) {
      var eye := ((p.0 + q.0) / 2, (p.1 + q.1) / 2);
      FreeIs(b, eye.0, eye.1);
      EyeBetween(p, q);
    }
    if ElephantRule(b, p, q, color) {
      ElephantMayGo(b, p, q, color);
    }
  }

  lemma ElephantMayGo(b: Board, p: Square, q: Square, color: Color)
    requires On(p) && On(q) && ElephantRule(b, p, q, color)
    ensures ElephantMove(b, Move(p.0, p.1, q.0, q.1), color)
  {
    hide Free, Occupied, Corner, Abs;
    var eye: Square :| On(eye) && Corner(p, eye) && Free(b, eye) && q == (2 * eye.0 - p.0, 2 * eye.1 - p.1);
    EyeIs(p, eye, q);
    FreeIs(b, eye.0, eye.1);
  }

  lemma EyeBetween(p: Square, q: Square)
    requires Abs(q.0 - p.0) == 2 && Abs(q.1 - p.1) == 2
    ensures
      var eye := ((p.0 + q.0) / 2, (p.1 + q.1) / 2);
      Corner(p, eye) && q == (2 * eye.0 - p.0, 2 * eye.1 - p.1)
  {
  }

  lemma EyeIs(p: Square, eye: Square, q: Square)
    requires Corner(p, eye) && q == (2 * eye.0 - p.0, 2 * eye.1 - p.1)
    ensures eye == ((p.0 + q.0) / 2, (p.1 + q.1) / 2) && Abs(q.0 - p.0) == 2 && Abs(q.1 - p.1) == 2
  {
  }

  lemma AdvisorIff(p: Square, q: Square, color: Color)
    ensures AdvisorMove(Move(p.0, p.1, q.0, q.1), color) <==> AdvisorRule(p, q, color)
  {
  }

  lemma PawnIff(p: Square, q: Square, color: Color)
    ensures PawnMove(Move(p.0, p.1, q.0, q.1), color) <==> PawnRule(p, q, color)
  {
  }

  lemma KingFound(b: Board, color: Color, k: Square)
    ensures HoldsKing(b, color, k) <==> FindKing(b, color) == Some(k)
  {
    KingFromFirst(b, color, 0);
  }

  /** A move takes the piece to its target and leaves its start empty. */
  lemma MovedIsAfter(b: Board, p: Square, q: Square)
    requires On(p) && On(q)
    ensures Moved(b, Move(p.0, p.1, q.0, q.1)) == After(b, p, q)
  {
    assert EMPTY == Piece(Empty, NoColor);
  }

  lemma KingIff(b: Board, p: Square, q: Square, color: Color)
    requires On(p) && On(q)
    ensures KingMove(b, Move(p.0, p.1, q.0, q.1), color) <==> KingRule(b, p, q, color)
  {
    hide FindKing, HoldsKing, Obstacles, Blockers;
    var m := Move(p.0, p.1, q.0, q.1);
    var after := After(b, p, q);
    assert Moved(b, m) == after;
    var found := FindKing(after, Enemy(color));
    forall k ensures HoldsKing(after, Enemy(color), k) <==> found == Some(k) {
      KingFound(after, Enemy(color), k);
    }
    if found.Some? && found.value.1 == q.1 { ObstaclesAreBlockers(after, q, found.value); }
  }

  /** Every piece may go exactly where the rules let it. */
  lemma PieceIff(b: Board, p: Square, q: Square, color: Color)
    requires On(p) && On(q)
    ensures PieceMove(b, Move(p.0, p.1, q.0, q.1), color) <==> PieceRule(b, p, q, color)
  {
    hide HorseMove, HorseRule, ElephantMove, ElephantRule, KingMove, KingRule, Obstacles, Blockers, AdvisorMove,
      AdvisorRule, PawnMove, PawnRule;
    AdvisorIff(p, q, color);
    PawnIff(p, q, color);
    HorseIff(b, p, q);
    ElephantIff(b, p, q, color);
    KingIff(b, p, q, color);
    if InLine(p, q) { ObstaclesAreBlockers(b, p, q); }
  }

  lemma ThreatIff(b: Board, p: Square, k: Square, color: Color)
    requires On(p) && On(k)
    ensures Attacks(b, p.0, p.1, k.0, k.1, color) <==> ThreatRule(b, p, k, color)
  {
    hide HorseMove, HorseRule, Obstacles, Blockers;
    HorseIff(b, p, k);
    if InLine(p, k) { ObstaclesAreBlockers(b, p, k); }
  }

  /** The program finds a check exactly when some enemy piece gives it. */
  lemma CheckIff(b: Board, color: Color)
    ensures InCheck(b, color) <==> CheckRule(b, color)
  {
    hide FindKing, HoldsKing, Attacks, ThreatRule;
    var found := FindKing(b, color);
    forall k ensures HoldsKing(b, color, k) <==> found == Some(k) {
      KingFound(b, color, k);
    }
    if found.Some? {
      var k := found.value;
      forall r, c | 0 <= r < 10 && 0 <= c < 9
        ensures AttackFrom(b, r, c, k.0, k.1, color)
                <==> PieceOn(b, (r, c)).color == Enemy(color) && ThreatRule(b, (r, c), k, color)
      {
        ThreatIff(b, (r, c), k, color);
      }
      if InCheck(b, color) {
        var r, c :| 0 <= r < 10 && 0 <= c < 9 && AttackFrom(b, r, c, k.0, k.1, color);
        assert HoldsKing(b, color, k) && On((r, c)) && ThreatRule(b, (r, c), k, color);
      }
    }
  }

  /**
   * A move is valid exactly when it goes from a square with a piece of the player to one without,
   * as the rules let that piece go, and leaves the player's king not in check.
   */
  lemma ValidIff(b: Board, m: Move, player: Color)
    ensures
      var p, q := (m.sr, m.sc), (m.er, m.ec);
      ValidMove(b, m, player) <==>
        && On(p) && On(q) && PieceOn(b, p).color == player && PieceOn(b, q).color != player
        && PieceRule(b, p, q, player) && !CheckRule(After(b, p, q), player)
  {
    hide PieceMove, PieceRule, InCheck, CheckRule;
    var p, q := (m.sr, m.sc), (m.er, m.ec);
    if On(p) && On(q) {
      PieceIff(b, p, q, player);
      assert Moved(b, m) == After(b, p, q);
      CheckIff(After(b, p, q), player);
    }
  }
}
