/** The JSON tree of tcp/cJSON.c and the text its printer is meant to produce. */
module JsonTree {
  import opened Bytes
  import opened JsonNumber

  const INT_MAX: int := 2147483647
  const INT_MIN: int := -2147483648

  /** A node's children are chained as the source chains them, by `next`. */
  datatype Json =
    | Null
    | False
    | True
    | Number(value: real)
    | String(text: cstring)
    | Array(items: Items)
    | Object(members: Members)

  datatype Items = NoItem | Item(head: Json, next: Items)

  datatype Members = NoMember | Member(key: cstring, value: Json, next: Members)

  // ----- nesting -----

  function Max(a: nat, b: nat): nat { if a < b then b else a }

  function Depth(v: Json): nat {
    match v
    case Array(items) => 1 + ItemsDepth(items)
    case Object(members) => 1 + MembersDepth(members)
    case _ => 0
  }

  function ItemsDepth(items: Items): nat {
    match items
    case NoItem => 0
    case Item(head, next) => Max(Depth(head), ItemsDepth(next))
  }

  function MembersDepth(members: Members): nat {
    match members
    case NoMember => 0
    case Member(_, value, next) => Max(Depth(value), MembersDepth(next))
  }

  // ----- numbers -----

  /** `valueint`: the number truncated toward zero, saturating at the ends of `int`. */
  function ValueInt(d: real): (n: int)
    ensures INT_MIN <= n <= INT_MAX
  {
    if d >= INT_MAX as real then INT_MAX
    else if d <= INT_MIN as real then INT_MIN
    else if d >= 0.0 then d.Floor
    else -((-d).Floor)
  }

  /** The numbers printed with "%d". */
  predicate IsInteger(d: real) { d == ValueInt(d) as real }

  lemma IntegersAreTheInt32s(d: real)
    ensures IsInteger(d) <==> d == d.Floor as real && -0x8000_0000 <= d.Floor <= 0x7FFF_FFFF
  {
    if d == d.Floor as real {
      assert (-d).Floor == -(d.Floor);
    }
  }

  predicate IntegersOnly(v: Json) {
    match v
    case Number(d) => IsInteger(d)
    case Array(items) => IntegersOnlyItems(items)
    case Object(members) => IntegersOnlyMembers(members)
    case _ => true
  }

  predicate IntegersOnlyItems(items: Items) {
    match items
    case NoItem => true
    case Item(head, next) => IntegersOnly(head) && IntegersOnlyItems(next)
  }

  predicate IntegersOnlyMembers(members: Members) {
    match members
    case NoMember => true
    case Member(_, value, next) => IntegersOnly(value) && IntegersOnlyMembers(next)
  }

  function Digits(n: nat): (t: cstring)
    ensures |t| >= 1 && forall i :: 0 <= i < |t| ==> 48 <= t[i] <= 57
  {
    if n < 10 then [48 + n] else Digits(n / 10) + [48 + n % 10]
  }

  function IntText(n: int): cstring {
    if n < 0 then [45] + Digits(-n) else Digits(n)
  }

  /** What `sprintf` makes of a number with "%1.15g" and with "%1.17g". */
  datatype Formats = Formats(short: real -> strict, long: real -> strict)

  /** The results fit the number buffer, as those for a finite double do. */
  type Printf = g: Formats | forall d: real :: |SpellNum(g.short(d))| <= 25 && |SpellNum(g.long(d))| <= 25
    witness Formats(d => Num(false, [48], None, None), d => Num(false, [48], None, None))

  /** Fifteen digits if they are enough to get the number back, else seventeen. */
  function PrintedNum(d: real, g: Printf): strict {
    if CompareDouble(NumValue(g.short(d)), d) then g.short(d) else g.long(d)
  }

  function NumberText(d: real, g: Printf): cstring {
    if IsInteger(d) then IntText(ValueInt(d)) else SpellNum(PrintedNum(d, g))
  }

  lemma NumberTextBytes(d: real, g: Printf)
    ensures var t: bytes := NumberText(d, g); |t| > 0 && forall i :: 0 <= i < |t| ==> IsNumberByte(t[i])
  {
    hide SpellNum, ValueInt, IsNumberByte;
    var t: bytes := NumberText(d, g);
    if IsInteger(d) {
      var n := ValueInt(d);
      assert t == (if n < 0 then [45] else []) + Digits(if n < 0 then -n else n);
      forall i | 0 <= i < |t| ensures IsNumberByte(t[i]) { DigitIsNumberByte(t[i]); }
    } else {
      NumIsNotEmpty(PrintedNum(d, g));
      forall i | 0 <= i < |t| ensures IsNumberByte(t[i]) { NumBytes(PrintedNum(d, g), i); }
    }
  }

  // ----- strings -----

  function HexDigit(x: nat): cchar
    requires x < 16
  {
    if x < 10 then 48 + x else 87 + x
  }

  /** One byte of a string as it is printed between the quotes. */
  function EscapeByte(b: cchar): (t: cstring)
    ensures 1 <= |t| <= 6
  {
    if b == 34 then [92, 34]
    else if b == 92 then [92, 92]
    else if b == 8 then [92, 98]
    else if b == 12 then [92, 102]
    else if b == 10 then [92, 110]
    else if b == 13 then [92, 114]
    else if b == 9 then [92, 116]
    else if b < 32 then [92, 117, 48, 48, HexDigit(b / 16), HexDigit(b % 16)]
    else [b]
  }

  function Escape(s: cstring): cstring {
    if s == [] then [] else EscapeByte(s[0]) + Escape(s[1..])
  }

  function Quoted(s: cstring): cstring { [34] + Escape(s) + [34] }

  lemma {:induction false} EscapeConcat(s: cstring, t: cstring)
    ensures Escape(s + t) == Escape(s) + Escape(t)
  {
    if s == [] {
      assert s + t == t;
    } else {
      assert (s + t)[1..] == s[1..] + t;
      EscapeConcat(s[1..], t);
    }
  }

  // ----- values -----

  function Tabs(n: nat): (t: cstring)
    ensures |t| == n && forall i :: 0 <= i < n ==> t[i] == 9
  {
    seq(n, _ => 9)
  }

  function NullText(): cstring { [110, 117, 108, 108] }

  function FalseText(): cstring { [102, 97, 108, 115, 101] }

  function TrueText(): cstring { [116, 114, 117, 101] }

  /** The separator after an array element that has a successor. */
  function ItemComma(next: Items, format: bool): cstring {
    if next.NoItem? then [] else if format then [44, 32] else [44]
  }

  function Indent(depth: nat, format: bool): cstring {
    if format then Tabs(depth) else []
  }

  function Colon(format: bool): cstring { if format then [58, 9] else [58] }

  function OpenBrace(format: bool): cstring { if format then [123, 10] else [123] }

  /** What follows a member: a comma if it has a successor, a newline if formatted. */
  function MemberEnd(next: Members, format: bool): cstring {
    (if next.NoMember? then [] else [44]) + (if format then [10] else [])
  }

  /** The text of a value printed at nesting depth `depth`. */
  function Text(v: Json, depth: nat, format: bool, g: Printf): cstring {
    match v
    case Null => NullText()
    case False => FalseText()
    case True => TrueText()
    case Number(d) => NumberText(d, g)
    case String(s) => Quoted(s)
    case Array(items) => [91] + ItemsText(items, depth + 1, format, g) + [93]
    case Object(members) =>
      OpenBrace(format) + MembersText(members, depth + 1, format, g) + Indent(depth, format) + [125]
  }

  function ItemsText(items: Items, depth: nat, format: bool, g: Printf): cstring {
    match items
    case NoItem => []
    case Item(head, next) =>
      Text(head, depth, format, g) + ItemComma(next, format) + ItemsText(next, depth, format, g)
  }

  function MembersText(members: Members, depth: nat, format: bool, g: Printf): cstring {
    match members
    case NoMember => []
    case Member(key, value, next) =>
      Indent(depth, format) + Quoted(key) + Colon(format) + Text(value, depth, format, g)
      + MemberEnd(next, format) + MembersText(next, depth, format, g)
  }
}
