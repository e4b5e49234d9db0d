/** The board scans of move_validation.c, util.c and ai.c, written over one flat array of squares. */
module XiangqiScan {
  import opened Bytes
  import opened XiangqiRules

  // ----- what the counts mean -----

  /** The squares strictly between two squares of one row or column are all empty. */
  predicate OpenLine(b: Board, r1: int, c1: int, r2: int, c2: int)
    requires OnBoard(r1, c1) && OnBoard(r2, c2)
  {
    && (r1 == r2 ==> forall c :: Min(c1, c2) < c < Max(c1, c2) ==> !Occupied(b, r1, c))
    && (r1 != r2 && c1 == c2 ==> forall r :: Min(r1, r2) < r < Max(r1, r2) ==> !Occupied(b, r, c1))
  }

  lemma {:induction false} RowCountNone(b: Board, r: int, lo: int, hi: int)
    requires 0 <= r < 10 && 0 <= lo && hi <= 9
    ensures RowCount(b, r, lo, hi) == 0 <==> forall c :: lo <= c < hi ==> !Occupied(b, r, c)
    decreases hi - lo
  {
    if lo < hi { RowCountNone(b, r, lo, hi - 1); }
  }

  lemma {:induction false} ColumnCountNone(b: Board, c: int, lo: int, hi: int)
    requires 0 <= c < 9 && 0 <= lo && hi <= 10
    ensures ColumnCount(b, c, lo, hi) == 0 <==> forall r :: lo <= r < hi ==> !Occupied(b, r, c)
    decreases hi - lo
  {
    if lo < hi { ColumnCountNone(b, c, lo, hi - 1); }
  }

  lemma NoObstacles(b: Board, r1: int, c1: int, r2: int, c2: int)
    requires OnBoard(r1, c1) && OnBoard(r2, c2)
    ensures Obstacles(b, r1, c1, r2, c2) == 0 <==> OpenLine(b, r1, c1, r2, c2)
    ensures Obstacles(b, r1, c1, r2, c2) == Obstacles(b, r2, c2, r1, c1)
  {
    if r1 == r2 {
      RowCountNone(b, r1, Min(c1, c2) + 1, Max(c1, c2));
    } else if c1 == c2 {
      ColumnCountNone(b, c1, Min(r1, r2) + 1, Max(r1, r2));
    }
  }

  /** The king found stands there, and no square before it holds that king. */
  lemma {:induction false} KingFromFirst(b: Board, color: Color, i: nat)
    requires i <= 90
    ensures match KingFrom(b, color, i)
            case None => forall j :: i <= j < 90 ==> b[j] != Piece(KingOf(color), color)
            case Some((r, c)) =>
              && i <= 9 * r + c < 90 && b[9 * r + c] == Piece(KingOf(color), color)
              && forall j :: i <= j < 9 * r + c ==> b[j] != Piece(KingOf(color), color)
    decreases 90 - i
  {
    if i < 90 && b[i] != Piece(KingOf(color), color) { KingFromFirst(b, color, i + 1); }
  }

  // ----- scans -----

  /** `isPathClear`. */
  method IsPathClear(board: array<Piece>, r1: int, c1: int, r2: int, c2: int)
      returns (straight: bool, obstacles: nat)
    requires board.Length == 90 && OnBoard(r1, c1) && OnBoard(r2, c2)
    ensures straight == (r1 == r2 || c1 == c2)
    ensures obstacles == Obstacles(board[..], r1, c1, r2, c2)
  {
    obstacles := 0;
    if r1 == r2 {
      var c := Min(c1, c2) + 1;
      while c < Max(c1, c2)
        invariant Min(c1, c2) + 1 <= c <= Max(Max(c1, c2), Min(c1, c2) + 1)
        invariant obstacles == RowCount(board[..], r1, Min(c1, c2) + 1, c)
      {
        if board[9 * r1 + c].kind != Empty { obstacles := obstacles + 1; }
        c := c + 1;
      }
    } else if c1 == c2 {
      var r := Min(r1, r2) + 1;
      while r < Max(r1, r2)
        invariant Min(r1, r2) + 1 <= r <= Max(Max(r1, r2), Min(r1, r2) + 1)
        invariant obstacles == ColumnCount(board[..], c1, Min(r1, r2) + 1, r)
      {
        if board[9 * r + c1].kind != Empty { obstacles := obstacles + 1; }
        r := r + 1;
      }
    } else {
      return false, obstacles;
    }
    return true, obstacles;
  }

  /** `findKingPosition`, with (-1, -1) when there is no such king. */
  method FindKingPosition(board: array<Piece>, color: Color) returns (kingRow: int, kingCol: int)
    requires board.Length == 90
    ensures match FindKing(board[..], color)
            case None => kingRow == -1 && kingCol == -1
            case Some((r, c)) => kingRow == r && kingCol == c
  {
    var r := 0;
    while r < 10
      invariant 0 <= r <= 10
      invariant FindKing(board[..], color) == KingFrom(board[..], color, 9 * r)
    {
      var c := 0;
      while c < 9
        invariant 0 <= c <= 9
        invariant FindKing(board[..], color) == KingFrom(board[..], color, 9 * r + c)
      {
        if board[9 * r + c].kind == KingOf(color) && board[9 * r + c].color == color {
          return r, c;
        }
        c := c + 1;
      }
      r := r + 1;
    }
    return -1, -1;
  }

  /** The horse's case of that scan. */
  method HorseAttacks(board: array<Piece>, r: int, c: int, kr: int, kc: int) returns (attacks: bool)
    requires board.Length == 90 && OnBoard(r, c) && OnBoard(kr, kc)
    ensures attacks == HorseMove(board[..], Move(r, c, kr, kc))
  {
    var dr, dc := Abs(kr - r), Abs(kc - c);
    if (dr == 1 && dc == 2) || (dr == 2 && dc == 1) {
      if dr == 2 {
        return board[9 * (r + if kr > r then 1 else -1) + c].kind == Empty;
      }
      return board[9 * r + c + if kc > c then 1 else -1].kind == Empty;
    }
    return false;
  }

  /** One turn of the scan in `isKingInCheck`. */
  method AttacksKing(board: array<Piece>, r: int, c: int, kr: int, kc: int, kingColor: Color)
      returns (attacks: bool)
    requires board.Length == 90 && OnBoard(r, c) && OnBoard(kr, kc)
    ensures attacks == AttackFrom(board[..], r, c, kr, kc, kingColor)
  {
    hide Obstacles, HorseMove;
    var piece := board[9 * r + c];
    if piece.color != Opponent(kingColor) { return false; }
    match piece.kind {
      case RedRook | BlackRook =>
        if r == kr || c == kc {
          var _, obstacles := IsPathClear(board, r, c, kr, kc);
          return obstacles == 0;
        }
      case RedCannon | BlackCannon =>
        if r == kr || c == kc {
          var _, obstacles := IsPathClear(board, r, c, kr, kc);
          return obstacles == 1;
        }
      case RedHorse | BlackHorse =>
        attacks := HorseAttacks(board, r, c, kr, kc);
        return;
      case BlackPawn =>
        return kingColor == Red
               && ((kr == r + 1 && kc == c) || (kr == r && Abs(kc - c) == 1 && r >= 5));
      case RedPawn =>
        return kingColor == Black
               && ((kr == r - 1 && kc == c) || (kr == r && Abs(kc - c) == 1 && r <= 4));
      case RedKing | BlackKing =>
        if kc == c {
          var _, obstacles := IsPathClear(board, r, c, kr, kc);
          return obstacles == 0;
        }
      case _ =>
    }
    return false;
  }

  /** `isKingInCheck`. */
  method IsKingInCheck(board: array<Piece>, kingColor: Color) returns (check: bool)
    requires board.Length == 90
    ensures check == InCheck(board[..], kingColor)
  {
    hide Attacks, Obstacles;
    var kr, kc := FindKingPosition(board, kingColor);
    if kr == -1 { return false; }
    var r := 0;
    while r < 10
      invariant 0 <= r <= 10
      invariant forall x, y :: 0 <= x < r && 0 <= y < 9 ==> !AttackFrom(board[..], x, y, kr, kc, kingColor)
    {
      var c := 0;
      while c < 9
        invariant 0 <= c <= 9
        invariant forall y :: 0 <= y < c ==> !AttackFrom(board[..], r, y, kr, kc, kingColor)
      {
        var attacks := AttacksKing(board, r, c, kr, kc, kingColor);
        if attacks { return true; }
        c := c + 1;
      }
      r := r + 1;
    }
    return false;
  }

  // ----- moves -----

  /** `makeMove`. */
  method MakeMove(board: array<Piece>, m: Move)
    requires board.Length == 90 && InBounds(m)
    modifies board
    ensures board[..] == Moved(old(board[..]), m)
  {
    board[9 * m.er + m.ec] := board[9 * m.sr + m.sc];
    board[9 * m.sr + m.sc] := EMPTY;
  }

  function Unmoved(b: Board, m: Move, captured: Piece): Board
    requires InBounds(m)
  {
    Put(Put(b, m.sr, m.sc, At(b, m.er, m.ec)), m.er, m.ec, captured)
  }

  /** `unmakeMove`. */
  method UnmakeMove(board: array<Piece>, m: Move, captured: Piece)
    requires board.Length == 90 && InBounds(m)
    modifies board
    ensures board[..] == Unmoved(old(board[..]), m, captured)
  {
    board[9 * m.sr + m.sc] := board[9 * m.er + m.ec];
    board[9 * m.er + m.ec] := captured;
  }

  /** Taking a move back, with the piece it captured, restores the whole board. */
  lemma UnmakeUndoesMake(b: Board, m: Move)
    requires InBounds(m)
    ensures Unmoved(Moved(b, m), m, At(b, m.er, m.ec)) == b
  {
    assert |Unmoved(Moved(b, m), m, At(b, m.er, m.ec))| == |b|;
  }

  method Copy(board: array<Piece>) returns (copy: array<Piece>)
    requires board.Length == 90
    ensures fresh(copy) && copy[..] == board[..]
  {
    copy := new Piece[90];
    var i := 0;
    while i < 90
      modifies copy
      invariant 0 <= i <= 90 && copy[..i] == board[..i]
    {
      copy[i] := board[i];
      i := i + 1;
    }
    assert copy[..] == copy[..90] && board[..] == board[..90];
  }

  /** `isValidKingMove`: the facing-kings rule is checked on a copy of the board. */
  method IsValidKingMove(board: array<Piece>, m: Move, color: Color) returns (ok: bool)
    requires board.Length == 90 && InBounds(m)
    ensures ok == KingMove(board[..], m, color)
  {
    if !InPalace(color, m.er, m.ec) { return false; }
    var dr, dc := Abs(m.er - m.sr), Abs(m.ec - m.sc);
    if !((dr == 1 && dc == 0) || (dr == 0 && dc == 1)) { return false; }
    var after := Copy(board);
    MakeMove(after, m);
    var kr, kc := FindKingPosition(after, Opponent(color));
    if kr != -1 && kc != -1 && m.ec == kc {
      var _, obstacles := IsPathClear(after, m.er, m.ec, kr, kc);
      if obstacles == 0 { return false; }
    }
    return true;
  }

  /** `isValidHorseMove`. */
  method IsValidHorseMove(board: array<Piece>, m: Move) returns (ok: bool)
    requires board.Length == 90 && InBounds(m)
    ensures ok == HorseMove(board[..], m)
  {
    var dr, dc := Abs(m.er - m.sr), Abs(m.ec - m.sc);
    if !((dr == 1 && dc == 2) || (dr == 2 && dc == 1)) { return false; }
    if dr == 2 {
      if board[9 * (m.sr + if m.er > m.sr then 1 else -1) + m.sc].kind != Empty { return false; }
    } else {
      if board[9 * m.sr + m.sc + if m.ec > m.sc then 1 else -1].kind != Empty { return false; }
    }
    return true;
  }

  /** `isValidAdvisorMove`. */
  method IsValidAdvisorMove(m: Move, color: Color) returns (ok: bool)
    ensures ok == AdvisorMove(m, color)
  {
    if !InPalace(color, m.er, m.ec) { return false; }
    var dr, dc := Abs(m.er - m.sr), Abs(m.ec - m.sc);
    return dr == 1 && dc == 1;
  }

  /** `isValidElephantMove`. */
  method IsValidElephantMove(board: array<Piece>, m: Move, color: Color) returns (ok: bool)
    requires board.Length == 90 && InBounds(m)
    ensures ok == ElephantMove(board[..], m, color)
  {
    var dr, dc := Abs(m.er - m.sr), Abs(m.ec - m.sc);
    if !(dr == 2 && dc == 2) { return false; }
    var midRow, midCol := (m.sr + m.er) / 2, (m.sc + m.ec) / 2;
    if board[9 * midRow + midCol].kind != Empty { return false; }
    if color == Red { return m.er <= 4; }
    return m.er >= 5;
  }

  method IsPieceMove(board: array<Piece>, m: Move, color: Color) returns (ok: bool)
    requires board.Length == 90 && InBounds(m)
    ensures ok == PieceMove(board[..], m, color)
  {
    hide Obstacles, KingMove;
    match board[9 * m.sr + m.sc].kind {
      case RedKing | BlackKing => ok := IsValidKingMove(board, m, color);
      case RedRook | BlackRook =>
        if m.sr != m.er && m.sc != m.ec { return false; }
        var straight, obstacles := IsPathClear(board, m.sr, m.sc, m.er, m.ec);
        return straight && obstacles == 0;
      case RedCannon | BlackCannon =>
        if m.sr != m.er && m.sc != m.ec { return false; }
        var straight, obstacles := IsPathClear(board, m.sr, m.sc, m.er, m.ec);
        if !straight { return false; }
        return if board[9 * m.er + m.ec].kind == Empty then obstacles == 0 else obstacles == 1;
      case RedHorse | BlackHorse => ok := IsValidHorseMove(board, m);
      case RedAdvisor | BlackAdvisor => ok := IsValidAdvisorMove(m, color);
      case RedElephant | BlackElephant => ok := IsValidElephantMove(board, m, color);
      case RedPawn | BlackPawn => ok := IsValidPawnMove(m, color);
      case Empty => return false;
    }
  }

  /** `isValidPawnMove`. */
  method IsValidPawnMove(m: Move, color: Color) returns (ok: bool)
    ensures ok == PawnMove(m, color)
  {
    var dr, dc := m.er - m.sr, Abs(m.ec - m.sc);
    if color == Red {
      if dr < 0 || (dr == 0 && dc == 0) { return false; }
      if m.sr < 5 { return dr == 1 && dc == 0; }
      return (dr == 1 && dc == 0) || (dr == 0 && dc == 1);
    }
    if dr > 0 || (dr == 0 && dc == 0) { return false; }
    if m.sr > 4 { return dr == -1 && dc == 0; }
    return (dr == -1 && dc == 0) || (dr == 0 && dc == 1);
  }

  /** `isValidMove`. */
  method IsValidMove(board: array<Piece>, m: Move, player: Color) returns (ok: bool)
    requires board.Length == 90
    ensures ok == ValidMove(board[..], m, player)
  {
    hide PieceMove, InCheck;
    if !InBounds(m) { return false; }
    if board[9 * m.sr + m.sc].color != player { return false; }
    if board[9 * m.er + m.ec].color == player { return false; }
    var moveOk := IsPieceMove(board, m, player);
    if !moveOk { return false; }
    var after := Copy(board);
    MakeMove(after, m);
    var check := IsKingInCheck(after, player);
    return !check;
  }

  // ----- move generation -----

  const MAX_MOVES := 256

  /** The k-th pair of squares in the order of the four nested loops. */
  function Pair(k: nat): Move {
    Move(k / 810, k / 90 % 9, k / 9 % 10, k % 9)
  }

  lemma PairAt(sr: int, sc: int, er: int, ec: int)
    requires OnBoard(sr, sc) && OnBoard(er, ec)
    ensures Pair(90 * (9 * sr + sc) + 9 * er + ec) == Move(sr, sc, er, ec)
  {
    var k := 90 * (9 * sr + sc) + 9 * er + ec;
    assert k / 90 == 9 * sr + sc;
    assert k / 9 == 10 * (9 * sr + sc) + er;
  }

  function MovesUpTo(b: Board, player: Color, k: nat): (ms: seq<Move>)
    ensures forall m :: m in ms ==> ValidMove(b, m, player)
  {
    if k == 0 then []
    else MovesUpTo(b, player, k - 1) + if ValidMove(b, Pair(k - 1), player) then [Pair(k - 1)] else []
  }

  /** The valid moves in loop order, cut off where the buffer of 256 is full. */
  function AllMoves(b: Board, player: Color): (ms: seq<Move>)
    ensures |ms| <= MAX_MOVES
    ensures forall m :: m in ms ==> ValidMove(b, m, player)
  {
    var all := MovesUpTo(b, player, 8100);
    if |all| <= MAX_MOVES then all else all[..MAX_MOVES]
  }

  lemma NoMovesYet(b: Board, player: Color)
    ensures MovesUpTo(b, player, 0) == []
  {
  }

  /** One turn of the innermost loop. */
  lemma NextPair(b: Board, player: Color, sr: int, sc: int, er: int, ec: int)
    requires OnBoard(sr, sc) && OnBoard(er, ec)
    ensures var k := 90 * (9 * sr + sc) + 9 * er + ec; var m := Move(sr, sc, er, ec);
            MovesUpTo(b, player, k + 1)
            == MovesUpTo(b, player, k) + if ValidMove(b, m, player) then [m] else []
  {
    hide ValidMove, Pair;
    PairAt(sr, sc, er, ec);
  }

  lemma {:induction false} MovesUpToPrefix(b: Board, player: Color, j: nat, k: nat)
    requires j <= k
    ensures MovesUpTo(b, player, j) <= MovesUpTo(b, player, k)
    decreases k
  {
    hide ValidMove, Pair;
    if j < k { MovesUpToPrefix(b, player, j, k - 1); }
  }

  /** Every valid move is listed once it has been passed. */
  lemma ListedWhenPassed(b: Board, player: Color, m: Move, k: nat)
    requires InBounds(m) && ValidMove(b, m, player)
    requires 90 * (9 * m.sr + m.sc) + 9 * m.er + m.ec < k
    ensures m in MovesUpTo(b, player, k)
  {
    hide ValidMove, MovesUpTo, Pair;
    var at := 90 * (9 * m.sr + m.sc) + 9 * m.er + m.ec;
    NextPair(b, player, m.sr, m.sc, m.er, m.ec);
    MovesUpToPrefix(b, player, at + 1, k);
    assert m == MovesUpTo(b, player, at + 1)[|MovesUpTo(b, player, at)|];
  }

  /** Sound and, while the buffer does not fill up, complete; the empty list always means no valid move. */
  lemma MovesSoundAndComplete(b: Board, player: Color)
    ensures |MovesUpTo(b, player, 8100)| <= MAX_MOVES ==>
              forall m :: m in AllMoves(b, player) <==> ValidMove(b, m, player)
    ensures AllMoves(b, player) == [] <==> forall m :: !ValidMove(b, m, player)
  {
    hide ValidMove;
    forall m | ValidMove(b, m, player)
      ensures m in MovesUpTo(b, player, 8100)
    {
      ValidInBounds(b, m, player);
      ListedWhenPassed(b, player, m, 8100);
    }
    if AllMoves(b, player) != [] {
      assert ValidMove(b, AllMoves(b, player)[0], player);
    }
  }

  lemma ValidInBounds(b: Board, m: Move, player: Color)
    requires ValidMove(b, m, player)
    ensures InBounds(m) && At(b, m.sr, m.sc).color == player
    ensures 90 * (9 * m.sr + m.sc) + 9 * m.er + m.ec < 8100
  {
  }

  /** Nothing is listed for a square whose piece belongs to somebody else. */
  lemma {:induction false} SquareSkipped(b: Board, player: Color, sr: int, sc: int, n: nat)
    requires OnBoard(sr, sc) && At(b, sr, sc).color != player && n <= 90
    ensures MovesUpTo(b, player, 90 * (9 * sr + sc) + n) == MovesUpTo(b, player, 90 * (9 * sr + sc))
  {
    hide MovesUpTo, Pair;
    if n > 0 {
      SquareSkipped(b, player, sr, sc, n - 1);
      NextPair(b, player, sr, sc, (n - 1) / 9, (n - 1) % 9);
    }
  }

  /** `generateAllValidMoves`. */
  method GenerateAllValidMoves(board: array<Piece>, player: Color, moves: array<Move>) returns (n: nat)
    requires board.Length == 90 && moves.Length == MAX_MOVES
    modifies moves
    ensures n <= MAX_MOVES && moves[..n] == AllMoves(board[..], player)
  {
    hide ValidMove, MovesUpTo;
    NoMovesYet(board[..], player);
    n := 0;
    var sr := 0;
    while sr < 10
      invariant 0 <= sr <= 10 && n < MAX_MOVES
      invariant moves[..n] == MovesUpTo(board[..], player, 90 * (9 * sr))
    {
      var sc := 0;
      while sc < 9
        invariant 0 <= sc <= 9 && n < MAX_MOVES
        invariant moves[..n] == MovesUpTo(board[..], player, 90 * (9 * sr + sc))
      {
        if board[9 * sr + sc].color != player {
          SquareSkipped(board[..], player, sr, sc, 90);
        } else {
          n := GenerateFrom(board, player, sr, sc, moves, n);
          if n >= MAX_MOVES {
            MovesUpToPrefix(board[..], player, 90 * (9 * sr + sc + 1), 8100);
            return;
          }
        }
        sc := sc + 1;
      }
      sr := sr + 1;
    }
  }

  /** The two inner loops of `generateAllValidMoves`, for one starting square. */
  method GenerateFrom(board: array<Piece>, player: Color, sr: int, sc: int, moves: array<Move>, count: nat)
      returns (n: nat)
    requires board.Length == 90 && moves.Length == MAX_MOVES && OnBoard(sr, sc) && count < MAX_MOVES
    requires moves[..count] == MovesUpTo(board[..], player, 90 * (9 * sr + sc))
    modifies moves
    ensures n <= MAX_MOVES
    ensures moves[..n] <= MovesUpTo(board[..], player, 90 * (9 * sr + sc + 1))
    ensures n < MAX_MOVES ==> moves[..n] == MovesUpTo(board[..], player, 90 * (9 * sr + sc + 1))
  {
    hide ValidMove, MovesUpTo;
    n := count;
    var er := 0;
    while er < 10
      invariant 0 <= er <= 10 && n < MAX_MOVES
      invariant moves[..n] == MovesUpTo(board[..], player, 90 * (9 * sr + sc) + 9 * er)
    {
      var ec := 0;
      while ec < 9
        invariant 0 <= ec <= 9 && n < MAX_MOVES
        invariant moves[..n] == MovesUpTo(board[..], player, 90 * (9 * sr + sc) + 9 * er + ec)
      {
        var m := Move(sr, sc, er, ec);
        NextPair(board[..], player, sr, sc, er, ec);
        var valid := IsValidMove(board, m, player);
        if valid {
          moves[n] := m;
          assert moves[..n + 1] == moves[..n] + [m];
          n := n + 1;
          if n >= MAX_MOVES {
            MovesUpToPrefix(board[..], player, 90 * (9 * sr + sc) + 9 * er + ec + 1, 90 * (9 * sr + sc + 1));
            return;
          }
        }
        ec := ec + 1;
      }
      er := er + 1;
    }
  }
}
