/** The base64 encoder of tcp/mahoa.c and the decoder of tcp/giaima.c (section 4 of RFC 4648). */
module Base64 {
  import opened Bytes

  // ----- the format -----

  /** The four six-bit fields of the 24 bits of three octets, the first on top. */
  function Sextets(a: int, b: int, c: int): (t: (int, int, int, int))
    requires 0 <= a < 256 && 0 <= b < 256 && 0 <= c < 256
    ensures 0 <= t.0 < 64 && 0 <= t.1 < 64 && 0 <= t.2 < 64 && 0 <= t.3 < 64
  {
    var triple := 0x1_0000 * a + 0x100 * b + c;
    (triple / 0x4_0000, triple / 0x1000 % 64, triple / 64 % 64, triple % 64)
  }

  /** The three octets of four six-bit fields. */
  function Octets(x: int, y: int, z: int, w: int): (t: (int, int, int))
    requires 0 <= x < 64 && 0 <= y < 64 && 0 <= z < 64 && 0 <= w < 64
    ensures 0 <= t.0 < 256 && 0 <= t.1 < 256 && 0 <= t.2 < 256
  {
    var triple := 0x4_0000 * x + 0x1000 * y + 64 * z + w;
    (triple / 0x1_0000, triple / 0x100 % 256, triple % 256)
  }

  /** Four letters for three octets. */
  function Group(a: int, b: int, c: int): (g: string)
    requires 0 <= a < 256 && 0 <= b < 256 && 0 <= c < 256
    ensures |g| == 4
  {
    var (x, y, z, w) := Sextets(a, b, c);
    [Letter(x), Letter(y), Letter(z), Letter(w)]
  }

  /** The base64 alphabet. */
  function Letter(v: int): (c: char)
    requires 0 <= v < 64
  {
    if v < 26 then 'A' + v as char
    else if v < 52 then 'a' + (v - 26) as char
    else if v < 62 then '0' + (v - 52) as char
    else if v == 62 then '+' else '/'
  }

  /** Base64 with padding. */
  function Encode(d: bytes): (s: string)
    ensures d != [] ==> s != []
  {
    if d == [] then ""
    else if |d| == 1 then Group(d[0], 0, 0)[..2] + "=="
    else if |d| == 2 then Group(d[0], d[1], 0)[..3] + "="
    else Group(d[0], d[1], d[2]) + Encode(d[3..])
  }

  /** `base64_char_to_val`, with -1 for a character that is no base64. */
  function Value(c: char): (v: int)
    ensures -1 <= v < 64
  {
    if 'A' <= c <= 'Z' then c as int - 'A' as int
    else if 'a' <= c <= 'z' then c as int - 'a' as int + 26
    else if '0' <= c <= '9' then c as int - '0' as int + 52
    else if c == '+' then 62
    else if c == '/' then 63
    else if c == '=' then 0
    else -1
  }

  /** The bytes of one group of four characters; the third one alone decides whether all three count. */
  function GroupBytes(c0: char, c1: char, c2: char, c3: char): (g: bytes)
    requires Value(c0) != -1 && Value(c1) != -1 && Value(c2) != -1 && Value(c3) != -1
    ensures 1 <= |g| <= 3
  {
    var (a, b, c) := Octets(Value(c0), Value(c1), Value(c2), Value(c3));
    var g: bytes := [a, b, c];
    if c2 != '=' then g else if c3 == '=' then g[..1] else g[..2]
  }

  /** What `base64_decode` makes of a text; None stands for its null result. */
  function Decode(s: string): (r: Option<bytes>)
  {
    if |s| % 4 != 0 then None
    else if s == "" then Some([])
    else if Value(s[0]) == -1 || Value(s[1]) == -1 || Value(s[2]) == -1 || Value(s[3]) == -1 then None
    else
      match Decode(s[4..])
      case None => None
      case Some(rest) => Some(GroupBytes(s[0], s[1], s[2], s[3]) + rest)
  }

  // ----- the round trip -----

  /** The alphabet and the inverse table agree. */
  lemma LetterRoundTrip(v: int)
    requires 0 <= v < 64
    ensures Value(Letter(v)) == v && Letter(v) != '='
  {
  }

  lemma By64(t: int, q: int, r: int)
    requires t == 64 * q + r && 0 <= r < 64
    ensures t / 64 == q && t % 64 == r
  {
  }

  lemma By4096(t: int, q: int, r: int)
    requires t == 0x1000 * q + r && 0 <= r < 0x1000
    ensures t / 0x1000 == q
  {
  }

  lemma By262144(t: int, q: int, r: int)
    requires t == 0x4_0000 * q + r && 0 <= r < 0x4_0000
    ensures t / 0x4_0000 == q
  {
  }

  lemma By256(t: int, q: int, r: int)
    requires t == 0x100 * q + r && 0 <= r < 0x100
    ensures t / 0x100 == q && t % 0x100 == r
  {
  }

  lemma By65536(t: int, q: int, r: int)
    requires t == 0x1_0000 * q + r && 0 <= r < 0x1_0000
    ensures t / 0x1_0000 == q
  {
  }

  /** A number is put together from its remainder and three more base-64 digits. */
  lemma FieldsAddUp(t: nat, x: nat, y: nat, z: nat, w: nat)
    requires t == 0x4_0000 * x + 0x1000 * y + 64 * z + w && y < 64 && z < 64 && w < 64
    ensures t / 0x4_0000 == x && t / 0x1000 % 64 == y && t / 64 % 64 == z && t % 64 == w
  {
    By262144(t, x, 0x1000 * y + 64 * z + w);
    By4096(t, 64 * x + y, 64 * z + w);
    By64(64 * x + y, x, y);
    By64(t, 0x1000 * x + 64 * y + z, w);
    By64(0x1000 * x + 64 * y + z, 64 * x + y, z);
  }

  lemma OctetsAddUp(a: int, b: int, c: int)
    requires 0 <= a < 256 && 0 <= b < 256 && 0 <= c < 256
    ensures var t := 0x1_0000 * a + 0x100 * b + c;
            t / 0x1_0000 == a && t / 0x100 % 256 == b && t % 256 == c
  {
    var t := 0x1_0000 * a + 0x100 * b + c;
    By65536(t, a, 0x100 * b + c);
    By256(t, 0x100 * a + b, c);
    By256(0x100 * a + b, a, b);
  }

  /** The four fields of three octets, as parts of the octets. */
  lemma SextetsAre(a: int, b: int, c: int, b1: int, b0: int, a1: int, a0: int, c1: int, c0: int)
    requires 0 <= a1 < 64 && 0 <= a0 < 4 && a == 4 * a1 + a0
    requires 0 <= b1 < 16 && 0 <= b0 < 16 && b == 16 * b1 + b0
    requires 0 <= c1 < 4 && 0 <= c0 < 64 && c == 64 * c1 + c0
    ensures Sextets(a, b, c) == (a1, 16 * a0 + b1, 4 * b0 + c1, c0)
  {
    FieldsAddUp(0x1_0000 * a + 0x100 * b + c, a1, 16 * a0 + b1, 4 * b0 + c1, c0);
  }

  /** The fields put together again are the octets; octets that are missing leave zero fields. */
  lemma SextetsRoundTrip(a: int, b: int, c: int)
    requires 0 <= a < 256 && 0 <= b < 256 && 0 <= c < 256
    ensures var (x, y, z, w) := Sextets(a, b, c);
            && Octets(x, y, z, w) == (a, b, c)
            && (c == 0 ==> w == 0) && (b == 0 && c == 0 ==> z == 0)
  {
    SextetsAre(a, b, c, b / 16, b % 16, a / 4, a % 4, c / 64, c % 64);
    OctetsAddUp(a, b, c);
  }

  /** One group of the text, and what follows it. */
  lemma DecodeStep(c0: char, c1: char, c2: char, c3: char, rest: string)
    ensures Decode([c0, c1, c2, c3] + rest) ==
            if Value(c0) == -1 || Value(c1) == -1 || Value(c2) == -1 || Value(c3) == -1 then None
            else Prepend(GroupBytes(c0, c1, c2, c3), Decode(rest))
  {
    hide Value, GroupBytes;
    var s := [c0, c1, c2, c3] + rest;
    assert s[4..] == rest;
  }

  /** A whole group decodes to its three octets. */
  lemma GroupRoundTrip(a: int, b: int, c: int, rest: string)
    requires 0 <= a < 256 && 0 <= b < 256 && 0 <= c < 256
    ensures Decode(Group(a, b, c) + rest) == Prepend([a, b, c], Decode(rest))
  {
    hide Letter, Value, Decode, Sextets, Octets;
    SextetsRoundTrip(a, b, c);
    var (x, y, z, w) := Sextets(a, b, c);
    LetterRoundTrip(x);
    LetterRoundTrip(y);
    LetterRoundTrip(z);
    LetterRoundTrip(w);
    DecodeStep(Letter(x), Letter(y), Letter(z), Letter(w), rest);
  }

  lemma Padding()
    ensures Value('=') == 0 && Decode("") == Some([])
  {
  }

  /** One octet left over: both padding characters are seen, and one byte comes out. */
  lemma OneLeft(a: byte)
    ensures Decode(Group(a, 0, 0)[..2] + "==") == Some([a])
  {
    hide Letter, Value, Decode, Sextets, Octets;
    SextetsRoundTrip(a, 0, 0);
    var (x, y, z, w) := Sextets(a, 0, 0);
    LetterRoundTrip(x);
    LetterRoundTrip(y);
    Padding();
    DecodeStep(Letter(x), Letter(y), '=', '=', "");
    assert Group(a, 0, 0)[..2] + "==" == [Letter(x), Letter(y), '=', '='] + "";
    assert GroupBytes(Letter(x), Letter(y), '=', '=') == [a];
    assert [a] + [] == [a];
  }

  /** Two octets left over: the decoder looks at the third character only, and gives a third byte. */
  lemma TwoLeft(a: byte, b: byte)
    ensures Decode(Group(a, b, 0)[..3] + "=") == Some([a, b, 0])
  {
    hide Letter, Value, Decode, Sextets, Octets;
    SextetsRoundTrip(a, b, 0);
    var (x, y, z, w) := Sextets(a, b, 0);
    LetterRoundTrip(x);
    LetterRoundTrip(y);
    LetterRoundTrip(z);
    Padding();
    DecodeStep(Letter(x), Letter(y), Letter(z), '=', "");
    assert Group(a, b, 0)[..3] + "=" == [Letter(x), Letter(y), Letter(z), '='] + "";
    assert [a, b, 0] + [] == [a, b, 0];
  }

  /** Decoding an encoding gives the bytes back, with one zero byte too many when two were left over. */
  lemma {:induction false} RoundTrip(d: bytes)
    ensures Decode(Encode(d)) == Some(if |d| % 3 == 2 then d + [0] else d)
  {
    hide Group, Decode;
    if d == [] {
      Padding();
    } else if |d| == 1 {
      OneLeft(d[0]);
      assert d == [d[0]];
    } else if |d| == 2 {
      TwoLeft(d[0], d[1]);
      assert d + [0] == [d[0], d[1], 0];
    } else {
      var rest := d[3..];
      RoundTrip(rest);
      GroupRoundTrip(d[0], d[1], d[2], Encode(rest));
      assert d == [d[0], d[1], d[2]] + rest;
      assert [d[0], d[1], d[2]] + (rest + [0]) == d + [0];
    }
  }

  lemma RoundTripIff(d: bytes)
    ensures Decode(Encode(d)) == Some(d) <==> |d| % 3 != 2
  {
    hide Decode, Encode;
    RoundTrip(d);
  }

  lemma {:induction false} PaddedIff(d: bytes)
    requires d != []
    ensures Encode(d)[|Encode(d)| - 1] == '=' <==> |d| % 3 != 0
  {
    hide Letter, Sextets;
    if |d| >= 3 {
      var rest := d[3..];
      assert Encode(d) == Group(d[0], d[1], d[2]) + Encode(rest);
      if rest == [] {
        LetterRoundTrip(Sextets(d[0], d[1], d[2]).3);
      } else {
        PaddedIff(rest);
      }
    }
  }

  /** The encoding itself loses nothing: different data have different texts. */
  lemma EncodeInjective(d: bytes, e: bytes)
    requires Encode(d) == Encode(e)
    ensures d == e
  {
    hide Encode, Decode;
    RoundTrip(d);
    RoundTrip(e);
    if d != [] && e != [] {
      PaddedIff(d);
      PaddedIff(e);
    }
  }

  // ----- the programs -----

  const UPPER := "ABCDEFGHIJKLMNOPQRSTUVWXYZ"
  const LOWER := "abcdefghijklmnopqrstuvwxyz"
  const DIGITS := "0123456789"

  /** The table of the encoder. */
  const BASE64_CHARS := UPPER + LOWER + DIGITS + "+/"

  lemma TableIsAlphabet(v: int)
    requires 0 <= v < 64
    ensures v < |BASE64_CHARS| && BASE64_CHARS[v] == Letter(v)
  {
    if v < 26 {
      assert BASE64_CHARS[v] == UPPER[v];
    } else if v < 52 {
      assert BASE64_CHARS[v] == LOWER[v - 26];
    } else if v < 62 {
      assert BASE64_CHARS[v] == DIGITS[v - 52];
    } else {
      assert BASE64_CHARS[v] == "+/"[v - 62];
    }
  }

  method TableLookup(v: int) returns (c: char)
    requires 0 <= v < 64
    ensures c == Letter(v)
  {
    TableIsAlphabet(v);
    c := BASE64_CHARS[v];
  }

  /** What the encoder has written before it puts the padding in. */
  function Raw(d: bytes): (s: string)
    ensures |s| >= 4 || d == []
    decreases |d|
  {
    if d == [] then ""
    else
      Group(d[0], if |d| > 1 then d[1] else 0, if |d| > 2 then d[2] else 0)
      + Raw(if |d| > 3 then d[3..] else [])
  }

  /** The text with its last letters overwritten, when `left` octets were left over. */
  function Padded(raw: string, left: int): string
    requires |raw| >= 2 || left == 0
  {
    if left == 1 then raw[..|raw| - 2] + "=="
    else if left == 2 then raw[..|raw| - 1] + "="
    else raw
  }

  lemma PaddedBehind(g: string, raw: string, left: int)
    requires |raw| >= 2
    ensures Padded(g + raw, left) == g + Padded(raw, left)
  {
  }

  lemma LongText(d: bytes)
    requires |d| > 3
    ensures Encode(d) == Group(d[0], d[1], d[2]) + Encode(d[3..])
    ensures Raw(d) == Group(d[0], d[1], d[2]) + Raw(d[3..])
  {
    hide Group;
  }

  lemma ShortText(d: bytes)
    requires |d| <= 3
    ensures Encode(d) == Padded(Raw(d), |d| % 3)
  {
    hide Group, Encode, Raw, Padded;
    if d == [] {
      NoText();
    } else {
      ShortRaw(d);
      ShortEncode(d);
      PaddedGroup(Raw(d));
      assert |d| % 3 == if |d| == 3 then 0 else |d|;
    }
  }

  lemma PaddedGroup(g: string)
    requires |g| == 4
    ensures Padded(g, 0) == g && Padded(g, 1) == g[..2] + "==" && Padded(g, 2) == g[..3] + "="
  {
  }

  lemma NoText()
    ensures Encode([]) == "" && Raw([]) == "" && Padded("", 0) == ""
  {
  }

  lemma ShortEncode(d: bytes)
    requires 1 <= |d| <= 3
    ensures var g := Group(d[0], if |d| > 1 then d[1] else 0, if |d| > 2 then d[2] else 0);
            Encode(d) == if |d| == 1 then g[..2] + "==" else if |d| == 2 then g[..3] + "=" else g
  {
    hide Group;
    assert |d| == 3 ==> d[3..] == [];
    assert Encode([]) == "";
  }

  lemma ShortRaw(d: bytes)
    requires 1 <= |d| <= 3
    ensures Raw(d) == Group(d[0], if |d| > 1 then d[1] else 0, if |d| > 2 then d[2] else 0)
  {
    hide Group;
    assert Raw([]) == "";
  }

  lemma {:induction false} RawPadded(d: bytes)
    ensures Encode(d) == Padded(Raw(d), |d| % 3)
  {
    hide Group, Padded, Encode, Raw;
    if |d| > 3 {
      LongText(d);
      RawPadded(d[3..]);
      PaddedBehind(Group(d[0], d[1], d[2]), Raw(d[3..]), |d| % 3);
    } else {
      ShortText(d);
    }
  }

  lemma {:induction false} RawLength(d: bytes)
    ensures |Raw(d)| == 4 * ((|d| + 2) / 3)
    decreases |d|
  {
    hide Group;
    if d != [] { RawLength(if |d| > 3 then d[3..] else []); }
  }

  /** `base64_encode`; the result ends in a NUL. */
  method Base64Encode(data: array<byte>) returns (encoded: array<char>)
    ensures fresh(encoded) && encoded.Length == |Encode(data[..])| + 1
    ensures encoded[..encoded.Length - 1] == Encode(data[..]) && encoded[encoded.Length - 1] == '\0'
  {
    hide Encode, Group, Raw;
    RawLength(data[..]);
    var outputLength := 4 * ((data.Length + 2) / 3);
    encoded := new char[outputLength + 1];
    var i, j := 0, 0;
    while i < data.Length
      invariant 0 <= i <= data.Length && (i == data.Length || i % 3 == 0)
      invariant j == 4 * ((i + 2) / 3)
      invariant encoded[..j] + Raw(data[i..]) == Raw(data[..])
    {
      i, j := EncodeGroup(data, encoded, i, j);
    }
    RawEmpty(data[i..]);
    assert encoded[..j] == Raw(data[..]);
    Finish(data, encoded, j);
  }

  /** The padding and the terminator. */
  method Finish(data: array<byte>, encoded: array<char>, j: nat)
    requires encoded.Length == j + 1 && encoded[..j] == Raw(data[..])
    modifies encoded
    ensures j == |Encode(data[..])| && encoded[..j] == Encode(data[..]) && encoded[j] == '\0'
  {
    hide Encode, Raw;
    ghost var raw := Raw(data[..]);
    RawPadded(data[..]);
    RawLength(data[..]);
    if data.Length % 3 == 1 {
      encoded[j - 1] := '=';
      encoded[j - 2] := '=';
      assert encoded[..j] == raw[..j - 2] + "==";
    } else if data.Length % 3 == 2 {
      encoded[j - 1] := '=';
      assert encoded[..j] == raw[..j - 1] + "=";
    }
    encoded[j] := '\0';
  }

  lemma RawEmpty(d: bytes)
    ensures d == [] ==> Raw(d) == ""
  {
  }

  lemma RawStep(d: bytes)
    requires d != []
    ensures Raw(d) == Group(d[0], if |d| > 1 then d[1] else 0, if |d| > 2 then d[2] else 0)
                      + Raw(if |d| > 3 then d[3..] else [])
  {
  }

  /** One turn of its loop. */
  method EncodeGroup(data: array<byte>, encoded: array<char>, from: nat, to: nat) returns (i: nat, j: nat)
    requires from < data.Length && to + 4 <= encoded.Length
    modifies encoded
    ensures i == (if from + 3 <= data.Length then from + 3 else data.Length) && j == to + 4
    ensures encoded[..j] + Raw(data[i..]) == old(encoded[..to]) + Raw(data[from..])
  {
    hide Raw, Group;
    ghost var rest := data[from..];
    RawStep(rest);
    i, j := from, to;
    var a: int, b: int, c: int := data[i], 0, 0;
    i := i + 1;
    if i < data.Length { b := data[i]; i := i + 1; }
    if i < data.Length { c := data[i]; i := i + 1; }
    j := StoreGroup(encoded, j, a, b, c);
    assert data[i..] == if |rest| > 3 then rest[3..] else [];
    assert old(encoded[..to]) + (Group(a, b, c) + Raw(data[i..])) == encoded[..j] + Raw(data[i..]);
  }

  method StoreGroup(encoded: array<char>, to: nat, a: int, b: int, c: int) returns (j: nat)
    requires to + 4 <= encoded.Length && 0 <= a < 256 && 0 <= b < 256 && 0 <= c < 256
    modifies encoded
    ensures j == to + 4 && encoded[..j] == old(encoded[..to]) + Group(a, b, c)
  {
    hide Letter;
    var triple := 0x1_0000 * a + 0x100 * b + c;
    SextetsOf(a, b, c, triple);
    hide Sextets;
    var x, y, z, w := triple / 0x4_0000 % 64, triple / 0x1000 % 64, triple / 64 % 64, triple % 64;
    j := to;
    encoded[j] := TableLookup(x);
    encoded[j + 1] := TableLookup(y);
    encoded[j + 2] := TableLookup(z);
    encoded[j + 3] := TableLookup(w);
    j := j + 4;
  }

  lemma SextetsOf(a: int, b: int, c: int, triple: int)
    requires 0 <= a < 256 && 0 <= b < 256 && 0 <= c < 256 && triple == 0x1_0000 * a + 0x100 * b + c
    ensures Sextets(a, b, c) == (triple / 0x4_0000 % 64, triple / 0x1000 % 64, triple / 64 % 64, triple % 64)
  {
    TopSextet(triple);
  }

  lemma TopSextet(triple: int)
    requires 0 <= triple < 0x100_0000
    ensures triple / 0x4_0000 % 64 == triple / 0x4_0000
  {
    assert 0 <= triple / 0x4_0000 < 64;
  }

  /** `base64_decode`. */
  method Base64Decode(encoded: array<char>) returns (r: Option<bytes>)
    ensures r == Decode(encoded[..])
  {
    hide GroupBytes, Value, Decode;
    Refused(encoded[..]);
    if encoded.Length % 4 != 0 { return None; }
    var decoded := new byte[encoded.Length / 4 * 3];
    var i, j := 0, 0;
    assert encoded[0..] == encoded[..];
    assert decoded[..0] == [];
    PrependNothing(Decode(encoded[..]));
    while i < encoded.Length
      invariant 0 <= i <= encoded.Length && i % 4 == 0 && j <= i / 4 * 3
      invariant Decode(encoded[..]) == Prepend(decoded[..j], Decode(encoded[i..]))
    {
      var v0, v1, v2, v3 :=
        Value(encoded[i]), Value(encoded[i + 1]), Value(encoded[i + 2]), Value(encoded[i + 3]);
      DecodeStep(encoded[i], encoded[i + 1], encoded[i + 2], encoded[i + 3], encoded[i + 4..]);
      assert encoded[i..] == [encoded[i], encoded[i + 1], encoded[i + 2], encoded[i + 3]] + encoded[i + 4..];
      if v0 == -1 || v1 == -1 || v2 == -1 || v3 == -1 {
        return None;
      }
      ghost var group := GroupBytes(encoded[i], encoded[i + 1], encoded[i + 2], encoded[i + 3]);
      PrependStep(decoded[..j], group, Decode(encoded[i + 4..]));
      j := DecodeGroup(encoded, i, decoded, j);
      i := i + 4;
    }
    Padding();
    assert encoded[i..] == "";
    PrependLast(decoded[..j]);
    return Some(decoded[..j]);
  }

  lemma Refused(s: string)
    ensures |s| % 4 != 0 ==> Decode(s) == None
  {
  }

  /** The stores of one turn of its loop. */
  method DecodeGroup(encoded: array<char>, i: nat, decoded: array<byte>, from: nat) returns (j: nat)
    requires i + 4 <= encoded.Length && from + 3 <= decoded.Length
    requires Value(encoded[i]) != -1 && Value(encoded[i + 1]) != -1
    requires Value(encoded[i + 2]) != -1 && Value(encoded[i + 3]) != -1
    modifies decoded
    ensures from <= j <= from + 3
    ensures decoded[..j] == old(decoded[..from])
                            + GroupBytes(encoded[i], encoded[i + 1], encoded[i + 2], encoded[i + 3])
  {
    hide Value, Octets;
    var first, second, third :=
      Shifted(Value(encoded[i]), Value(encoded[i + 1]), Value(encoded[i + 2]), Value(encoded[i + 3]));
    j := from;
    if encoded[i + 2] != '=' {
      decoded[j] := first;
      decoded[j + 1] := second;
      decoded[j + 2] := third;
      j := j + 3;
    } else if encoded[i + 3] == '=' {
      decoded[j] := first;
      j := j + 1;
    } else {
      decoded[j] := first;
      decoded[j + 1] := second;
      j := j + 2;
    }
  }

  lemma TopOctet(t: nat)
    requires t < 0x100_0000
    ensures t / 0x1_0000 % 256 == t / 0x1_0000
  {
  }

  /** The shifts and masks on the 24-bit number of a group. */
  method Shifted(v0: int, v1: int, v2: int, v3: int) returns (first: byte, second: byte, third: byte)
    requires 0 <= v0 < 64 && 0 <= v1 < 64 && 0 <= v2 < 64 && 0 <= v3 < 64
    ensures (first as int, second as int, third as int) == Octets(v0, v1, v2, v3)
  {
    var triple := 0x4_0000 * v0 + 0x1000 * v1 + 64 * v2 + v3;
    TopOctet(triple);
    first, second, third := triple / 0x1_0000 % 256, triple / 0x100 % 256, triple % 256;
  }
}
