/** What the parser of tcp/cJSON.c accepts, as functions of the bytes and the offset. */
module JsonGrammar {
  import opened Bytes
  import opened JsonNumber
  import opened JsonTree

  const NESTING_LIMIT: nat := 1000

  datatype Parsed<+T> = Ok(value: T, end: nat) | Fail

  // ----- white space -----

  /** First offset from `o` on whose byte is above 32, or the end of the buffer. */
  function SpaceEnd(c: bytes, o: nat): (r: nat)
    requires o <= |c|
    ensures o <= r <= |c|
    ensures r < |c| ==> c[r] > 32
    ensures forall i :: o <= i < r ==> c[i] <= 32
    decreases |c| - o
  {
    if o < |c| && c[o] <= 32 then SpaceEnd(c, o + 1) else o
  }

  /** Skipping white space steps back onto the last byte when it runs into the end. */
  function SkipSpace(c: bytes, o: nat): (r: nat)
    requires o <= |c|
    ensures o <= r <= |c|
    ensures r == |c| <==> o == |c|
  {
    if o == |c| then o
    else if SpaceEnd(c, o) == |c| then |c| - 1
    else SpaceEnd(c, o)
  }

  // ----- numbers -----

  function NumberEnd(c: bytes, o: nat): (r: nat)
    requires o <= |c|
    ensures o <= r <= |c|
    ensures r < |c| ==> !IsNumberByte(c[r])
    ensures forall i :: o <= i < r ==> IsNumberByte(c[i])
    decreases |c| - o
  {
    if o < |c| && IsNumberByte(c[o]) then NumberEnd(c, o + 1) else o
  }

  function ParseNumber(c: bytes, o: nat): (r: Parsed<Json>)
    requires o <= |c|
    ensures r.Ok? ==> o < r.end <= |c|
  {
    match Strtod(c[o..NumberEnd(c, o)])
    case None => Fail
    case Some((d, n)) => Ok(Number(d), o + n)
  }

  // ----- strings -----

  /** First pass of `parse_string`: the closing quote, jumping over escaped bytes. */
  function ClosingQuote(c: bytes, p: nat): (r: Option<nat>)
    ensures r.Some? ==> p <= r.value < |c| && c[r.value] == 34
    decreases |c| - p
  {
    if p >= |c| then None
    else if c[p] == 34 then Some(p)
    else if c[p] == 92 then ClosingQuote(c, p + 2)
    else ClosingQuote(c, p + 1)
  }

  /** Hexadecimal value of a digit, if it is one. */
  function HexValue(b: byte): (h: Option<nat>)
    ensures h.Some? ==> h.value < 16
  {
    if 48 <= b <= 57 then Some(b - 48)
    else if 65 <= b <= 70 then Some(b - 55)
    else if 97 <= b <= 102 then Some(b - 87)
    else None
  }

  /** `parse_hex4`: four hexadecimal digits, or zero if any of them is not one. */
  function Hex4(c: bytes, p: nat): (h: nat)
    requires p + 4 <= |c|
    ensures h < 0x10000
  {
    match (HexValue(c[p]), HexValue(c[p + 1]), HexValue(c[p + 2]), HexValue(c[p + 3]))
    case (Some(x0), Some(x1), Some(x2), Some(x3)) =>
      4096 * x0 + 256 * x1 + 16 * x2 + x3
    case _ => 0
  }

  /** UTF-8 encoding of a code point, section 3 of RFC 3629. */
  function Utf8(cp: nat): (t: bytes)
    requires cp <= 0x10FFFF
    ensures 1 <= |t| <= 4
    ensures cp < 0x10000 ==> |t| <= 3
    ensures cp < 0x80 ==> |t| == 1
  {
    if cp < 0x80 then [cp]
    else if cp < 0x800 then [0xC0 + cp / 64, 0x80 + cp % 64]
    else if cp < 0x10000 then [0xE0 + cp / 64 / 64, 0x80 + cp / 64 % 64, 0x80 + cp % 64]
    else [0xF0 + cp / 64 / 64 / 64, 0x80 + cp / 64 / 64 % 64, 0x80 + cp / 64 % 64, 0x80 + cp % 64]
  }

  /** The code point a UTF-8 sequence stands for, read off its lead byte. */
  function Utf8Value(t: bytes): Option<int> {
    if |t| == 1 && t[0] < 0x80 then Some(t[0])
    else if |t| == 2 && 0xC0 <= t[0] < 0xE0 then
      Some((t[0] as int - 0xC0) * 64 + (t[1] as int - 0x80))
    else if |t| == 3 && 0xE0 <= t[0] < 0xF0 then
      Some((t[0] as int - 0xE0) * 4096 + (t[1] as int - 0x80) * 64 + (t[2] as int - 0x80))
    else if |t| == 4 && 0xF0 <= t[0] < 0xF8 then
      Some((t[0] as int - 0xF0) * 262144 + (t[1] as int - 0x80) * 4096
           + (t[2] as int - 0x80) * 64 + (t[3] as int - 0x80))
    else None
  }

  /** The encoding decodes to its code point and only its later bytes are 10xxxxxx. */
  lemma Utf8Decodes(cp: nat)
    requires cp <= 0x10FFFF
    ensures Utf8Value(Utf8(cp)) == Some(cp)
    ensures forall i :: 0 <= i < |Utf8(cp)| ==> (i > 0 <==> 0x80 <= Utf8(cp)[i] < 0xC0)
  {
    var a, b, d := cp / 64, cp / 64 / 64, cp / 64 / 64 / 64;
    assert cp == 64 * a + cp % 64 && a == 64 * b + a % 64 && b == 64 * d + b % 64;
  }

  /** A `\uXXXX` literal, or a surrogate pair of them: code point and bytes used. */
  function Utf16Literal(c: bytes, p: nat, e: nat): (r: Option<(nat, nat)>)
    requires p <= e + 1 <= |c|
    ensures r.Some? ==> r.value.0 <= 0x10FFFF && (r.value.1 == 6 || r.value.1 == 12)
    ensures r.Some? ==> p + r.value.1 <= e
  {
    if p + 6 > e then None
    else
      var first := Hex4(c, p + 2);
      if 0xDC00 <= first <= 0xDFFF then None
      else if 0xD800 <= first <= 0xDBFF then
        if p + 12 > e || c[p + 6] != 92 || c[p + 7] != 117 then None
        else
          var second := Hex4(c, p + 8);
          if second < 0xDC00 || second > 0xDFFF then None
          else Some((0x10000 + first % 0x400 * 0x400 + second % 0x400, 12))
      else Some((first, 6))
  }

  /** The byte a two-character escape stands for. */
  function SimpleEscape(b: byte): Option<byte> {
    if b == 98 then Some(8)
    else if b == 102 then Some(12)
    else if b == 110 then Some(10)
    else if b == 114 then Some(13)
    else if b == 116 then Some(9)
    else if b == 34 || b == 92 || b == 47 then Some(b)
    else None
  }

  /** What the byte or escape at `p` decodes to and how many bytes it uses. */
  function DecodeStep(c: bytes, p: nat, e: nat): (r: Option<(bytes, nat)>)
    requires p < e < |c|
    ensures r.Some? ==> r.value.1 >= 1 && p + r.value.1 <= e + 1
  {
    if c[p] != 92 then Some(([c[p]], 1))
    else if c[p + 1] == 117 then
      match Utf16Literal(c, p, e)
      case None => None
      case Some((cp, n)) => Some((Utf8(cp), n))
    else
      match SimpleEscape(c[p + 1])
      case None => None
      case Some(b) => Some(([b], 2))
  }

  /** Second pass of `parse_string`: the bytes between `p` and the closing quote `e`. */
  function Unescape(c: bytes, p: nat, e: nat): Option<bytes>
    requires p <= e + 1 <= |c|
    decreases e + 1 - p
  {
    if p >= e then Some([])
    else
      match DecodeStep(c, p, e)
      case None => None
      case Some((t, n)) => Prepend(t, Unescape(c, p + n, e))
  }

  lemma UnescapeStep(c: bytes, p: nat, e: nat)
    requires p < e < |c|
    ensures Unescape(c, p, e)
         == match DecodeStep(c, p, e)
            case None => None
            case Some((t, n)) => Prepend(t, Unescape(c, p + n, e))
  {
  }

  lemma NothingLeft(c: bytes, p: nat, e: nat)
    requires e < |c| && p >= e && p <= e + 1
    ensures Unescape(c, p, e) == Some([])
  {
  }

  function ParseString(c: bytes, o: nat): (r: Parsed<cstring>)
    requires o < |c|
    ensures r.Ok? ==> o < r.end <= |c|
  {
    if c[o] != 34 then Fail
    else
      match ClosingQuote(c, o + 1)
      case None => Fail
      case Some(e) =>
        match Unescape(c, o + 1, e)
        case None => Fail
        case Some(t) => Ok(CStr(t), e + 1)
  }

  // ----- values -----

  function ParseValue(c: bytes, o: nat, depth: nat): (r: Parsed<Json>)
    requires o <= |c|
    ensures r.Ok? ==> o < r.end <= |c|
    decreases |c| - o, 3
  {
    if Stands(c, o, NullText()) then Ok(Null, o + 4)
    else if Stands(c, o, FalseText()) then Ok(False, o + 5)
    else if Stands(c, o, TrueText()) then Ok(True, o + 4)
    else if o == |c| then Fail
    else if c[o] == 34 then
      match ParseString(c, o)
      case Fail => Fail
      case Ok(s, end) => Ok(String(s), end)
    else if c[o] == 45 || IsDigit(c[o]) then ParseNumber(c, o)
    else if c[o] == 91 then ParseArray(c, o, depth)
    else if c[o] == 123 then ParseObject(c, o, depth)
    else Fail
  }

  function ParseArray(c: bytes, o: nat, depth: nat): (r: Parsed<Json>)
    requires o < |c|
    ensures r.Ok? ==> o < r.end <= |c|
    decreases |c| - o, 1
  {
    if depth >= NESTING_LIMIT then Fail
    else
      var s := SkipSpace(c, o + 1);
      if s == |c| then Fail
      else if c[s] == 93 then Ok(Array(NoItem), s + 1)
      else
        match ParseItems(c, s - 1, depth + 1)
        case Fail => Fail
        case Ok(items, end) => Ok(Array(items), end)
  }

  /** The elements after the byte at `o` (a bracket or a comma), with their `]`. */
  function ParseItems(c: bytes, o: nat, depth: nat): (r: Parsed<Items>)
    requires o < |c|
    ensures r.Ok? ==> o < r.end <= |c|
    decreases |c| - o, 0
  {
    match ParseValue(c, SkipSpace(c, o + 1), depth)
    case Fail => Fail
    case Ok(v, end) =>
      var q := SkipSpace(c, end);
      if q == |c| then Fail
      else if c[q] == 44 then
        match ParseItems(c, q, depth)
        case Fail => Fail
        case Ok(rest, stop) => Ok(Item(v, rest), stop)
      else if c[q] == 93 then Ok(Item(v, NoItem), q + 1)
      else Fail
  }

  function ParseObject(c: bytes, o: nat, depth: nat): (r: Parsed<Json>)
    requires o < |c|
    ensures r.Ok? ==> o < r.end <= |c|
    decreases |c| - o, 2
  {
    if depth >= NESTING_LIMIT then Fail
    else
      var s := SkipSpace(c, o + 1);
      if s == |c| then Fail
      else if c[s] == 125 then Ok(Object(NoMember), s + 1)
      else
        match ParseMembers(c, s - 1, depth + 1)
        case Fail => Fail
        case Ok(members, end) => Ok(Object(members), end)
  }

  /** A member's name and the offset of the value after its colon. */
  function ParseName(c: bytes, o: nat): (r: Parsed<cstring>)
    requires o < |c|
    ensures r.Ok? ==> o + 1 < r.end <= |c|
  {
    if o + 1 >= |c| then Fail
    else
      match ParseString(c, SkipSpace(c, o + 1))
      case Fail => Fail
      case Ok(key, end) =>
        var q := SkipSpace(c, end);
        if q < |c| && c[q] == 58 then Ok(key, SkipSpace(c, q + 1)) else Fail
  }

  /** The member after the byte at `o` (a brace or a comma). */
  function ParseMember(c: bytes, o: nat, depth: nat): (r: Parsed<(cstring, Json)>)
    requires o < |c|
    ensures r.Ok? ==> o < r.end <= |c|
    decreases |c| - o, 0
  {
    match ParseName(c, o)
    case Fail => Fail
    case Ok(key, at) =>
      match ParseValue(c, at, depth)
      case Fail => Fail
      case Ok(v, end) => Ok((key, v), end)
  }

  /** The members after the byte at `o`, with their `}`. */
  function ParseMembers(c: bytes, o: nat, depth: nat): (r: Parsed<Members>)
    requires o < |c|
    ensures r.Ok? ==> o < r.end <= |c|
    decreases |c| - o, 1
  {
    match ParseMember(c, o, depth)
    case Fail => Fail
    case Ok((key, v), end) =>
      var q := SkipSpace(c, end);
      if q == |c| then Fail
      else if c[q] == 44 then
        match ParseMembers(c, q, depth)
        case Fail => Fail
        case Ok(rest, stop) => Ok(Member(key, v, rest), stop)
      else if c[q] == 125 then Ok(Member(key, v, NoMember), q + 1)
      else Fail
  }

  /** The three bytes of a UTF-8 byte order mark are skipped only before at least two more. */
  function BomLength(c: bytes): (n: nat)
    ensures n <= |c|
  {
    if |c| > 4 && c[..3] == [0xEF, 0xBB, 0xBF] then 3 else 0
  }

  /** `cJSON_ParseWithLengthOpts`: the tree and the reported parse end. */
  function ParseDocument(c: bytes, requireNul: bool): (r: Parsed<Json>)
    ensures r.Ok? ==> r.end <= |c|
  {
    if |c| == 0 then Fail
    else
      match ParseValue(c, SkipSpace(c, BomLength(c)), 0)
      case Fail => Fail
      case Ok(v, end) =>
        var q := SkipSpace(c, end);
        if !requireNul then Ok(v, end)
        else if q < |c| && c[q] == 0 then Ok(v, q)
        else Fail
  }

  // ----- bounds -----

  /** No accepted value nests deeper than the limit leaves room for. */
  lemma {:induction false} AcceptedDepth(c: bytes, o: nat, depth: nat)
    requires o <= |c| && depth <= NESTING_LIMIT
    ensures ParseValue(c, o, depth).Ok? ==>
              depth + Depth(ParseValue(c, o, depth).value) <= NESTING_LIMIT
    decreases |c| - o, 2
  {
    hide ParseString, Strtod, ParseItems, ParseMembers;
    if o < |c| && depth < NESTING_LIMIT {
      var s := SkipSpace(c, o + 1);
      if s < |c| && ParseValue(c, o, depth).Ok? {
        if c[o] == 91 {
          AcceptedItemsDepth(c, s - 1, depth + 1);
        } else if c[o] == 123 {
          AcceptedMembersDepth(c, s - 1, depth + 1);
        }
      }
    }
  }

  lemma {:induction false} AcceptedItemsDepth(c: bytes, o: nat, depth: nat)
    requires o < |c| && depth <= NESTING_LIMIT
    ensures ParseItems(c, o, depth).Ok? ==>
              depth + ItemsDepth(ParseItems(c, o, depth).value) <= NESTING_LIMIT
    decreases |c| - o, 0
  {
    hide ParseValue, SkipSpace;
    var at := SkipSpace(c, o + 1);
    AcceptedDepth(c, at, depth);
    match ParseValue(c, at, depth)
    case Fail =>
    case Ok(v, end) =>
      var q := SkipSpace(c, end);
      if q < |c| && c[q] == 44 {
        AcceptedItemsDepth(c, q, depth);
      }
  }

  lemma {:induction false} AcceptedMemberDepth(c: bytes, o: nat, depth: nat)
    requires o < |c| && depth <= NESTING_LIMIT
    ensures ParseMember(c, o, depth).Ok? ==>
              depth + Depth(ParseMember(c, o, depth).value.1) <= NESTING_LIMIT
    decreases |c| - o, 0
  {
    hide ParseValue, ParseName;
    if ParseName(c, o).Ok? {
      AcceptedDepth(c, ParseName(c, o).end, depth);
    }
  }

  lemma {:induction false} AcceptedMembersDepth(c: bytes, o: nat, depth: nat)
    requires o < |c| && depth <= NESTING_LIMIT
    ensures ParseMembers(c, o, depth).Ok? ==>
              depth + MembersDepth(ParseMembers(c, o, depth).value) <= NESTING_LIMIT
    decreases |c| - o, 1
  {
    hide ParseMember, SkipSpace;
    AcceptedMemberDepth(c, o, depth);
    match ParseMember(c, o, depth)
    case Fail =>
    case Ok(_, end) =>
      var q := SkipSpace(c, end);
      if q < |c| && c[q] == 44 {
        AcceptedMembersDepth(c, q, depth);
      }
  }
}
