/** Board and movement rules of the Chinese chess program in "chess AI/". */
module XiangqiRules {
  import opened Bytes

  datatype Color = NoColor | Red | Black

  datatype Kind =
    | Empty
    | RedKing | RedAdvisor | RedElephant | RedRook | RedCannon | RedHorse | RedPawn
    | BlackKing | BlackAdvisor | BlackElephant | BlackRook | BlackCannon | BlackHorse | BlackPawn

  datatype Piece = Piece(kind: Kind, color: Color)

  const EMPTY := Piece(Empty, NoColor)

  /** Ten rows of nine squares, row by row. */
  type Board = b: seq<Piece> | |b| == 90 witness seq(90, _ => EMPTY)

  datatype Move = Move(sr: int, sc: int, er: int, ec: int)

  predicate OnBoard(r: int, c: int) { 0 <= r < 10 && 0 <= c < 9 }

  function At(b: Board, r: int, c: int): Piece
    requires OnBoard(r, c)
  {
    b[9 * r + c]
  }

  function Put(b: Board, r: int, c: int, p: Piece): (n: Board)
    requires OnBoard(r, c)
    ensures forall x, y {:trigger At(n, x, y)} :: OnBoard(x, y) ==>
              At(n, x, y) == if x == r && y == c then p else At(b, x, y)
  {
    b[9 * r + c := p]
  }

  predicate Occupied(b: Board, r: int, c: int)
    requires OnBoard(r, c)
  {
    At(b, r, c).kind != Empty
  }

  function Opponent(color: Color): Color { if color == Red then Black else Red }

  function Abs(x: int): nat { if x < 0 then -x else x }

  function Min(a: int, b: int): int { if a < b then a else b }

  function Max(a: int, b: int): int { if a < b then b else a }

  /** The squares a move starts and ends on exist. */
  predicate InBounds(m: Move) { OnBoard(m.sr, m.sc) && OnBoard(m.er, m.ec) }

  /** The board after a piece has gone to a square, whatever stood there. */
  function Moved(b: Board, m: Move): Board
    requires InBounds(m)
  {
    Put(Put(b, m.er, m.ec, At(b, m.sr, m.sc)), m.sr, m.sc, EMPTY)
  }

  // ----- lines -----

  /** Pieces in row `r` from column `lo` up to `hi`. */
  function RowCount(b: Board, r: int, lo: int, hi: int): nat
    requires 0 <= r < 10 && 0 <= lo && hi <= 9
    decreases hi - lo
  {
    if lo >= hi then 0
    else RowCount(b, r, lo, hi - 1) + if Occupied(b, r, hi - 1) then 1 else 0
  }

  /** Pieces in column `c` from row `lo` up to `hi`. */
  function ColumnCount(b: Board, c: int, lo: int, hi: int): nat
    requires 0 <= c < 9 && 0 <= lo && hi <= 10
    decreases hi - lo
  {
    if lo >= hi then 0
    else ColumnCount(b, c, lo, hi - 1) + if Occupied(b, hi - 1, c) then 1 else 0
  }

  /** Pieces strictly between two squares of one row or column; none if neither is shared. */
  function Obstacles(b: Board, r1: int, c1: int, r2: int, c2: int): nat
    requires OnBoard(r1, c1) && OnBoard(r2, c2)
  {
    if r1 == r2 then RowCount(b, r1, Min(c1, c2) + 1, Max(c1, c2))
    else if c1 == c2 then ColumnCount(b, c1, Min(r1, r2) + 1, Max(r1, r2))
    else 0
  }

  /** First square, row by row, holding the king of a colour. */
  function KingFrom(b: Board, color: Color, i: nat): (k: Option<(int, int)>)
    requires i <= 90
    ensures k.Some? ==> OnBoard(k.value.0, k.value.1)
    decreases 90 - i
  {
    if i == 90 then None
    else if b[i] == Piece(KingOf(color), color) then Some((i / 9, i % 9))
    else KingFrom(b, color, i + 1)
  }

  function KingOf(color: Color): Kind { if color == Red then RedKing else BlackKing }

  function FindKing(b: Board, color: Color): (k: Option<(int, int)>)
    ensures k.Some? ==> OnBoard(k.value.0, k.value.1)
  {
    KingFrom(b, color, 0)
  }

  // ----- pieces -----

  predicate InPalace(color: Color, r: int, c: int) {
    3 <= c <= 5 && (if color == Red then 0 <= r <= 2 else 7 <= r <= 9)
  }

  predicate KingMove(b: Board, m: Move, color: Color)
    requires InBounds(m)
  {
    var dr, dc := Abs(m.er - m.sr), Abs(m.ec - m.sc);
    && InPalace(color, m.er, m.ec)
    && ((dr == 1 && dc == 0) || (dr == 0 && dc == 1))
    && (var after := Moved(b, m);
        match FindKing(after, Opponent(color))
        case None => true
        case Some((r, c)) => m.ec == c ==> Obstacles(after, m.er, m.ec, r, c) != 0)
  }

  predicate RookMove(b: Board, m: Move)
    requires InBounds(m)
  {
    (m.sr == m.er || m.sc == m.ec) && Obstacles(b, m.sr, m.sc, m.er, m.ec) == 0
  }

  predicate CannonMove(b: Board, m: Move)
    requires InBounds(m)
  {
    && (m.sr == m.er || m.sc == m.ec)
    && Obstacles(b, m.sr, m.sc, m.er, m.ec) == (if Occupied(b, m.er, m.ec) then 1 else 0)
  }

  /** An L-shaped step whose leg, next to the horse along the long side, is free. */
  predicate HorseMove(b: Board, m: Move)
    requires InBounds(m)
  {
    var dr, dc := Abs(m.er - m.sr), Abs(m.ec - m.sc);
    if dr == 2 && dc == 1 then !Occupied(b, m.sr + (if m.er > m.sr then 1 else -1), m.sc)
    else if dr == 1 && dc == 2 then !Occupied(b, m.sr, m.sc + (if m.ec > m.sc then 1 else -1))
    else false
  }

  predicate AdvisorMove(m: Move, color: Color) {
    InPalace(color, m.er, m.ec) && Abs(m.er - m.sr) == 1 && Abs(m.ec - m.sc) == 1
  }

  predicate ElephantMove(b: Board, m: Move, color: Color)
    requires InBounds(m)
  {
    && Abs(m.er - m.sr) == 2 && Abs(m.ec - m.sc) == 2
    && !Occupied(b, (m.sr + m.er) / 2, (m.sc + m.ec) / 2)
    && (if color == Red then m.er <= 4 else m.er >= 5)
  }

  /** Red pawns go up the rows, black ones down; sideways only past the river. */
  predicate PawnMove(m: Move, color: Color) {
    var dr, dc := m.er - m.sr, Abs(m.ec - m.sc);
    if color == Red then
      (dr == 1 && dc == 0) || (m.sr >= 5 && dr == 0 && dc == 1)
    else
      (dr == -1 && dc == 0) || (m.sr <= 4 && dr == 0 && dc == 1)
  }

  /** The rule of the piece that stands on the first square. */
  predicate PieceMove(b: Board, m: Move, color: Color)
    requires InBounds(m)
  {
    match At(b, m.sr, m.sc).kind
    case RedKing | BlackKing => KingMove(b, m, color)
    case RedRook | BlackRook => RookMove(b, m)
    case RedCannon | BlackCannon => CannonMove(b, m)
    case RedHorse | BlackHorse => HorseMove(b, m)
    case RedAdvisor | BlackAdvisor => AdvisorMove(m, color)
    case RedElephant | BlackElephant => ElephantMove(b, m, color)
    case RedPawn | BlackPawn => PawnMove(m, color)
    case Empty => false
  }

  // ----- check -----

  /** Whether the piece on (r, c) gives check to the king on (kr, kc), as the program sees it. */
  predicate Attacks(b: Board, r: int, c: int, kr: int, kc: int, kingColor: Color)
    requires OnBoard(r, c) && OnBoard(kr, kc)
  {
    match At(b, r, c).kind
    case RedRook | BlackRook => (r == kr || c == kc) && Obstacles(b, r, c, kr, kc) == 0
    case RedCannon | BlackCannon => (r == kr || c == kc) && Obstacles(b, r, c, kr, kc) == 1
    case RedHorse | BlackHorse => HorseMove(b, Move(r, c, kr, kc))
    case BlackPawn =>
      kingColor == Red
      && ((kr == r + 1 && kc == c) || (kr == r && Abs(kc - c) == 1 && r >= 5))
    case RedPawn =>
      kingColor == Black
      && ((kr == r - 1 && kc == c) || (kr == r && Abs(kc - c) == 1 && r <= 4))
    case RedKing | BlackKing => kc == c && Obstacles(b, r, c, kr, kc) == 0
    case _ => false
  }

  predicate AttackFrom(b: Board, r: int, c: int, kr: int, kc: int, kingColor: Color)
    requires OnBoard(r, c) && OnBoard(kr, kc)
  {
    At(b, r, c).color == Opponent(kingColor) && Attacks(b, r, c, kr, kc, kingColor)
  }

  predicate InCheck(b: Board, kingColor: Color) {
    match FindKing(b, kingColor)
    case None => false
    case Some((kr, kc)) =>
      exists r, c :: 0 <= r < 10 && 0 <= c < 9 && AttackFrom(b, r, c, kr, kc, kingColor)
  }

  /** `isValidMove`: a piece's own move that does not leave its king in check. */
  predicate ValidMove(b: Board, m: Move, player: Color) {
    && InBounds(m)
    && At(b, m.sr, m.sc).color == player && At(b, m.er, m.ec).color != player
    && PieceMove(b, m, player)
    && !InCheck(Moved(b, m), player)
  }
}
