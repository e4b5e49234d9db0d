/** What the evaluation weighs, counted in squares. */
module XiangqiWorth {
  import opened Bytes
  import opened Sums
  import opened XiangqiRules
  import opened XiangqiScan
  import opened XiangqiSearch
  import opened XiangqiSquares

  datatype Group =
    | Kings | Advisors | Elephants | Rooks | Cannons | Horses
    | HomePawns      // on their own half
    | CrossedPawns   // past the river
    | FilePawns      // past the river and on one of four columns

  predicate Crossed(p: Piece, r: int) { if p.color == Red then r >= 5 else r <= 4 }

  /** Whether the piece on (r, c) counts in a group. */
  predicate Belongs(p: Piece, r: int, c: int, g: Group) {
    match g
    case Kings => p.kind in {RedKing, BlackKing}
    case Advisors => p.kind in {RedAdvisor, BlackAdvisor}
    case Elephants => p.kind in {RedElephant, BlackElephant}
    case Rooks => p.kind in {RedRook, BlackRook}
    case Cannons => p.kind in {RedCannon, BlackCannon}
    case Horses => p.kind in {RedHorse, BlackHorse}
    case HomePawns => p.kind in {RedPawn, BlackPawn} && !Crossed(p, r)
    case CrossedPawns => p.kind in {RedPawn, BlackPawn} && Crossed(p, r)
    case FilePawns => p.kind in {RedPawn, BlackPawn} && Crossed(p, r) && c in {0, 2, 6, 8}
  }

  predicate IsMember(b: Board, g: Group, ai: Color, own: bool, i: nat)
    requires i < 90
  {
    Belongs(b[i], i / 9, i % 9, g) && (b[i].color == ai <==> own)
  }

  /** The squares, numbered row by row, with a piece of the group that is the side's own, or is not. */
  function Members(b: Board, g: Group, ai: Color, own: bool, k: nat): set<nat>
    requires k <= 90
  {
    set i: nat | i < k && IsMember(b, g, ai, own, i)
  }

  /** How many more of its own than of the others a side has among the first `k` squares. */
  function Lead(b: Board, g: Group, ai: Color, k: nat): int
    requires k <= 90
  {
    |Members(b, g, ai, true, k)| - |Members(b, g, ai, false, k)|
  }

  function Counted(p: Piece, r: int, c: int, g: Group, ai: Color): int {
    if !Belongs(p, r, c, g) then 0 else if p.color == ai then 1 else -1
  }

  lemma NoMembers(b: Board, g: Group, ai: Color)
    ensures Lead(b, g, ai, 0) == 0
  {
    assert Members(b, g, ai, true, 0) == {} && Members(b, g, ai, false, 0) == {};
  }

  lemma MembersNext(b: Board, g: Group, ai: Color, own: bool, k: nat)
    requires 0 < k <= 90
    ensures |Members(b, g, ai, own, k)|
         == |Members(b, g, ai, own, k - 1)| + if IsMember(b, g, ai, own, k - 1) then 1 else 0
  {
    hide IsMember;
    CountedNext(Members(b, g, ai, own, k - 1), Members(b, g, ai, own, k), k - 1, IsMember(b, g, ai, own, k - 1));
  }

  lemma LeadNext(b: Board, g: Group, ai: Color, k: nat)
    requires 0 < k <= 90
    ensures Lead(b, g, ai, k) == Lead(b, g, ai, k - 1) + Counted(b[k - 1], (k - 1) / 9, (k - 1) % 9, g, ai)
  {
    hide Belongs, Members;
    MembersNext(b, g, ai, true, k);
    MembersNext(b, g, ai, false, k);
  }

  /** What a piece adds to the score of a side, by its groups. */
  function Weighed(p: Piece, r: int, c: int, ai: Color): int {
    10000 * Counted(p, r, c, Kings, ai) + 300 * Counted(p, r, c, Advisors, ai)
    + 300 * Counted(p, r, c, Elephants, ai) + 900 * Counted(p, r, c, Rooks, ai)
    + 500 * Counted(p, r, c, Cannons, ai) + 400 * Counted(p, r, c, Horses, ai)
    + 120 * Counted(p, r, c, HomePawns, ai) + 220 * Counted(p, r, c, CrossedPawns, ai)
    + 10 * Counted(p, r, c, FilePawns, ai)
  }

  lemma WeighedIs(p: Piece, r: int, c: int, ai: Color)
    ensures var v: int := BaseValue(p, r, c); Weighed(p, r, c, ai) == if p.color == ai then v else -v
  {
  }

  /** The leads of the first `k` squares, weighed. */
  function Balance(b: Board, ai: Color, k: nat): int
    requires k <= 90
  {
    10000 * Lead(b, Kings, ai, k) + 300 * Lead(b, Advisors, ai, k) + 300 * Lead(b, Elephants, ai, k)
    + 900 * Lead(b, Rooks, ai, k) + 500 * Lead(b, Cannons, ai, k) + 400 * Lead(b, Horses, ai, k)
    + 120 * Lead(b, HomePawns, ai, k) + 220 * Lead(b, CrossedPawns, ai, k) + 10 * Lead(b, FilePawns, ai, k)
  }

  lemma {:induction false} MaterialIsBalance(b: Board, ai: Color, k: nat)
    requires k <= 90
    ensures Material(b, ai, k) == Balance(b, ai, k)
  {
    hide Lead, Counted, BaseValue;
    if k == 0 {
      forall g ensures Lead(b, g, ai, 0) == 0 { NoMembers(b, g, ai); }
    } else {
      MaterialIsBalance(b, ai, k - 1);
      forall g
        ensures Lead(b, g, ai, k) == Lead(b, g, ai, k - 1) + Counted(b[k - 1], (k - 1) / 9, (k - 1) % 9, g, ai)
      {
        LeadNext(b, g, ai, k);
      }
      WeighedIs(b[k - 1], (k - 1) / 9, (k - 1) % 9, ai);
    }
  }

  /**
   * On every board the evaluation is the weighed difference of the pieces of a side and the
   * others, and 800 for a check either way.
   */
  lemma EvaluateWeighs(b: Board, ai: Color)
    ensures Evaluate(b, ai) ==
              10000 * Lead(b, Kings, ai, 90) + 300 * Lead(b, Advisors, ai, 90) + 300 * Lead(b, Elephants, ai, 90)
              + 900 * Lead(b, Rooks, ai, 90) + 500 * Lead(b, Cannons, ai, 90) + 400 * Lead(b, Horses, ai, 90)
              + 120 * Lead(b, HomePawns, ai, 90) + 220 * Lead(b, CrossedPawns, ai, 90)
              + 10 * Lead(b, FilePawns, ai, 90)
              - (if CheckRule(b, ai) then 800 else 0) + (if CheckRule(b, Enemy(ai)) then 800 else 0)
  {
    hide Lead, Material, InCheck, CheckRule;
    MaterialIsBalance(b, ai, 90);
    CheckIff(b, ai);
    CheckIff(b, Enemy(ai));
  }
}
