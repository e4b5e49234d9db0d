/**
 * The texts the parser takes, written as syntax trees with their spelling and their meaning: the
 * grammar of RFC 8259 (sections 2 to 7), and around it what else the program lets through.
 */
module JsonSyntax {
  import opened Bytes
  import opened JsonGrammar
  import opened JsonNumber
  import opened JsonTree

  // ----- the texts -----

  /** Every byte up to the space is white space. */
  predicate IsBlank(b: byte) { b <= 32 }

  type blank = s: bytes | forall b :: b in s ==> IsBlank(b)

  /** A byte that stands for itself inside a string. */
  type unescaped = b: byte | b != 92 witness 32

  /** The letter of a two-character escape. */
  type letter = b: byte | b in {34, 92, 47, 98, 102, 110, 114, 116} witness 34

  /** A `\u` takes any four bytes. */
  datatype Char = Plain(b: unescaped) | Short(letter: letter) | Unit(h0: byte, h1: byte, h2: byte, h3: byte)

  function SpellChar(c: Char): (t: bytes)
    ensures |t| >= 1
  {
    match c
    case Plain(b) => [b]
    case Short(l) => [92, l]
    case Unit(h0, h1, h2, h3) => [92, 117, h0, h1, h2, h3]
  }

  function SpellChars(s: seq<Char>): bytes {
    if s == [] then [] else SpellChar(s[0]) + SpellChars(s[1..])
  }

  /** No quote in these bytes but behind a backslash, and every backslash has a byte behind it. */
  predicate Sealed(body: bytes) {
    if body == [] then true
    else if body[0] == 92 then |body| > 1 && Sealed(body[2..])
    else body[0] != 34 && Sealed(body[1..])
  }

  /**
   * The bytes between the quotes are read twice: once, in steps of one byte or of a backslash and
   * a byte, to find the closing quote, and once as characters. The two readings may fall out of
   * step; then the last character can be an escaped quote whose quote is the closing one.
   */
  datatype Quoting = Quoting(body: bytes, chars: seq<Char>)

  predicate IsToken(q: Quoting) {
    && Sealed(q.body)
    && (|| SpellChars(q.chars) == q.body
        || (SpellChars(q.chars) == q.body + [34] && q.chars != [] && q.chars[|q.chars| - 1] == Short(34)))
  }

  type token = q: Quoting | IsToken(q) witness Quoting([], [])

  datatype Syntax =
    | SNull | SFalse | STrue
    | SNumber(n: lenient)
    | SString(s: token)
    | SArray(items: SItems)
    | SObject(members: SMembers)

  /** The elements of an array, each between white space, up to the closing bracket. */
  datatype SItems =
    | SItem(before: blank, value: Syntax, after: blank, next: SItems)
    | SEnd(inner: blank)

  datatype SMembers =
    | SMember(before: blank, key: token, mid: blank, lead: blank, value: Syntax, after: blank, next: SMembers)
    | SClose(inner: blank)

  // ----- the texts of RFC 8259 -----

  predicate IsRfcBlank(s: bytes) { forall b :: b in s ==> b == 32 || b == 9 || b == 10 || b == 13 }

  type rfcblank = s: blank | IsRfcBlank(s)

  predicate IsHex(b: byte) { 48 <= b <= 57 || 65 <= b <= 70 || 97 <= b <= 102 }

  predicate IsRfcChar(c: Char) {
    match c
    case Plain(b) => b >= 32 && b != 34
    case Short(_) => true
    case Unit(h0, h1, h2, h3) => IsHex(h0) && IsHex(h1) && IsHex(h2) && IsHex(h3)
  }

  predicate IsRfcToken(q: Quoting) {
    q.body == SpellChars(q.chars) && forall c :: c in q.chars ==> IsRfcChar(c)
  }

  predicate IsRfc(s: Syntax) {
    match s
    case SNumber(n) => IsStrict(n)
    case SString(q) => IsRfcToken(q)
    case SArray(items) => IsRfcItems(items)
    case SObject(members) => IsRfcMembers(members)
    case _ => true
  }

  predicate IsRfcItems(items: SItems) {
    match items
    case SEnd(inner) => IsRfcBlank(inner)
    case SItem(before, value, after, next) =>
      IsRfcBlank(before) && IsRfc(value) && IsRfcBlank(after) && IsRfcItems(next)
  }

  predicate IsRfcMembers(members: SMembers) {
    match members
    case SClose(inner) => IsRfcBlank(inner)
    case SMember(before, key, mid, lead, value, after, next) =>
      && IsRfcBlank(before) && IsRfcToken(key) && IsRfcBlank(mid) && IsRfcBlank(lead) && IsRfc(value)
      && IsRfcBlank(after) && IsRfcMembers(next)
  }

  type rfc = s: Syntax | IsRfc(s) witness SNull

  /** Characters of RFC 8259 in quotes are a token, the two readings in step. */
  lemma {:induction false} RfcSealed(s: seq<Char>)
    requires forall c :: c in s ==> IsRfcChar(c)
    ensures Sealed(SpellChars(s))
  {
    if s != [] {
      RfcSealed(s[1..]);
      SealedAfter(s[0], SpellChars(s[1..]));
    }
  }

  lemma SealedAfter(ch: Char, rest: bytes)
    requires IsRfcChar(ch) && Sealed(rest)
    ensures Sealed(SpellChar(ch) + rest)
  {
    var t := SpellChar(ch);
    match ch
    case Plain(b) => assert (t + rest)[1..] == rest;
    case Short(_) => assert (t + rest)[2..] == rest;
    case Unit(h0, h1, h2, h3) =>
      SealedByte(h3, rest);
      SealedByte(h2, [h3] + rest);
      SealedByte(h1, [h2] + ([h3] + rest));
      SealedByte(h0, [h1] + ([h2] + ([h3] + rest)));
      assert (t + rest)[2..] == [h0] + ([h1] + ([h2] + ([h3] + rest)));
  }

  lemma SealedByte(b: byte, rest: bytes)
    requires b != 92 && b != 34 && Sealed(rest)
    ensures Sealed([b] + rest)
  {
    assert ([b] + rest)[1..] == rest;
  }

  /** A string of RFC 8259. */
  function Quote(s: seq<Char>): (q: token)
    requires forall c :: c in s ==> IsRfcChar(c)
    ensures IsRfcToken(q) && q.chars == s
  {
    RfcSealed(s);
    Quoting(SpellChars(s), s)
  }

  // ----- spelling -----

  function SpellString(q: Quoting): (t: bytes)
    ensures |t| >= 2 && t[0] == 34
  {
    [34] + (q.body + [34])
  }

  function Spell(s: Syntax): bytes {
    match s
    case SNull => [110, 117, 108, 108]
    case SFalse => [102, 97, 108, 115, 101]
    case STrue => [116, 114, 117, 101]
    case SNumber(n) => SpellNum(n)
    case SString(q) => SpellString(q)
    case SArray(items) => [91] + SpellItems(items)
    case SObject(members) => [123] + SpellMembers(members)
  }

  function SpellItems(items: SItems): bytes {
    match items
    case SEnd(inner) => inner + [93]
    case SItem(before, value, after, next) =>
      before + (Spell(value) + (after + ((if next.SItem? then [44] else []) + SpellItems(next))))
  }

  function SpellMembers(members: SMembers): bytes {
    match members
    case SClose(inner) => inner + [125]
    case SMember(before, key, mid, lead, value, after, next) =>
      before + (SpellString(key) + (mid + ([58] + (lead + (Spell(value)
      + (after + ((if next.SMember? then [44] else []) + SpellMembers(next))))))))
  }

  // ----- meaning -----

  function HexOf(b: byte): (h: nat)
    requires IsHex(b)
    ensures h < 16
  {
    if b <= 57 then b - 48 else if b <= 70 then b - 55 else b - 87
  }

  /** The value of four hexadecimal digits; other bytes count as zero, all four of them. */
  function UnitValue(c: Char): (v: nat)
    requires c.Unit?
    ensures v < 0x10000
  {
    if IsHex(c.h0) && IsHex(c.h1) && IsHex(c.h2) && IsHex(c.h3) then
      4096 * HexOf(c.h0) + 256 * HexOf(c.h1) + 16 * HexOf(c.h2) + HexOf(c.h3)
    else 0
  }

  function EscapedByte(l: letter): byte {
    if l == 98 then 8
    else if l == 102 then 12
    else if l == 110 then 10
    else if l == 114 then 13
    else if l == 116 then 9
    else l
  }

  predicate IsHigh(c: Char) { c.Unit? && 0xD800 <= UnitValue(c) <= 0xDBFF }

  predicate IsLow(c: Char) { c.Unit? && 0xDC00 <= UnitValue(c) <= 0xDFFF }

  function PairValue(high: Char, low: Char): (cp: nat)
    requires IsHigh(high) && IsLow(low)
    ensures 0x10000 <= cp <= 0x10FFFF
  {
    0x10000 + (UnitValue(high) - 0xD800) * 0x400 + (UnitValue(low) - 0xDC00)
  }

  /** The UTF-8 bytes a string stands for; None if it has a surrogate that is not half of a pair. */
  function Meaning(s: seq<Char>): Option<bytes> {
    if s == [] then Some([])
    else if s[0].Plain? then Prepend([s[0].b], Meaning(s[1..]))
    else if s[0].Short? then Prepend([EscapedByte(s[0].letter)], Meaning(s[1..]))
    else if IsHigh(s[0]) && |s| > 1 && IsLow(s[1]) then Prepend(Utf8(PairValue(s[0], s[1])), Meaning(s[2..]))
    else if IsHigh(s[0]) || IsLow(s[0]) then None
    else Prepend(Utf8(UnitValue(s[0])), Meaning(s[1..]))
  }

  /** The C string a key or string value becomes: it ends at the first NUL the text escapes. */
  function StringOf(s: seq<Char>): cstring {
    match Meaning(s)
    case None => []
    case Some(t) => CStr(t)
  }

  /** The tree a text stands for. */
  function Meant(s: Syntax): Json {
    match s
    case SNull => Null
    case SFalse => False
    case STrue => True
    case SNumber(n) => Number(NumValue(n))
    case SString(q) => String(StringOf(q.chars))
    case SArray(items) => Array(MeantItems(items))
    case SObject(members) => Object(MeantMembers(members))
  }

  function MeantItems(items: SItems): Items {
    match items
    case SEnd(_) => NoItem
    case SItem(_, value, _, next) => Item(Meant(value), MeantItems(next))
  }

  function MeantMembers(members: SMembers): Members {
    match members
    case SClose(_) => NoMember
    case SMember(_, key, _, _, value, _, next) => Member(StringOf(key.chars), Meant(value), MeantMembers(next))
  }

  /** Every surrogate in every string and key is half of a pair. */
  predicate Paired(s: Syntax) {
    match s
    case SString(q) => Meaning(q.chars).Some?
    case SArray(items) => PairedItems(items)
    case SObject(members) => PairedMembers(members)
    case _ => true
  }

  predicate PairedItems(items: SItems) {
    match items
    case SEnd(_) => true
    case SItem(_, value, _, next) => Paired(value) && PairedItems(next)
  }

  predicate PairedMembers(members: SMembers) {
    match members
    case SClose(_) => true
    case SMember(_, key, _, _, value, _, next) =>
      Meaning(key.chars).Some? && Paired(value) && PairedMembers(next)
  }

  function Expected<T>(fits: bool, value: T, end: nat): Parsed<T> {
    if fits then Ok(value, end) else Fail
  }

  // ----- white space -----

  /** White space only, from `i` up to `j`. */
  predicate Blank(c: bytes, i: nat, j: nat) {
    j <= |c| && forall k :: i <= k < j ==> IsBlank(c[k])
  }

  lemma SkipTo(c: bytes, o: nat, p: nat)
    requires o <= p < |c| && c[p] > 32 && Blank(c, o, p)
    ensures SkipSpace(c, o) == p
  {
  }

  lemma BlankJoin(c: bytes, i: nat, j: nat, k: nat)
    requires Blank(c, i, j) && Blank(c, j, k)
    ensures Blank(c, i, k)
  {
  }

  lemma StandsBlank(c: bytes, o: nat, t: blank)
    requires Stands(c, o, t)
    ensures Blank(c, o, o + |t|)
  {
    forall k | o <= k < o + |t|
      ensures IsBlank(c[k])
    {
      StandsByte(c, o, t, k - o);
      assert t[k - o] in t;
    }
  }

  // ----- strings -----

  /** Where the first character of a string and the others stand. */
  lemma CharsStand(c: bytes, p: nat, s: seq<Char>)
    requires s != [] && Stands(c, p, SpellChars(s))
    ensures Stands(c, p, SpellChar(s[0])) && Stands(c, p + |SpellChar(s[0])|, SpellChars(s[1..]))
    ensures |SpellChars(s)| == |SpellChar(s[0])| + |SpellChars(s[1..])|
  {
    hide Stands, SpellChar;
    StandsConcat(c, p, SpellChar(s[0]), SpellChars(s[1..]));
  }

  /** The bytes of one character of a string. */
  lemma CharBytes(c: bytes, p: nat, ch: Char)
    requires Stands(c, p, SpellChar(ch))
    ensures ch.Plain? ==> p < |c| && c[p] == ch.b
    ensures ch.Short? ==> p + 1 < |c| && c[p] == 92 && c[p + 1] == ch.letter
    ensures ch.Unit? ==> p + 5 < |c| && c[p] == 92 && c[p + 1] == 117 && c[p + 2] == ch.h0
                         && c[p + 3] == ch.h1 && c[p + 4] == ch.h2 && c[p + 5] == ch.h3
  {
    hide Stands;
    var t := SpellChar(ch);
    StandsByte(c, p, t, 0);
    if !ch.Plain? {
      StandsByte(c, p, t, 1);
    }
    if ch.Unit? {
      StandsByte(c, p, t, 2);
      StandsByte(c, p, t, 3);
      StandsByte(c, p, t, 4);
      StandsByte(c, p, t, 5);
    }
  }

  lemma QuoteAtOnce(c: bytes, p: nat)
    requires Stands(c, p, [34])
    ensures p < |c| && c[p] == 34 && ClosingQuote(c, p) == Some(p)
  {
    StandsByte(c, p, [34], 0);
  }

  /** The first pass stops at the quote behind the body. */
  lemma {:induction false} QuoteFound(c: bytes, p: nat, body: bytes)
    requires Sealed(body) && Stands(c, p, body + [34])
    ensures p + |body| < |c| && ClosingQuote(c, p) == Some(p + |body|)
    decreases |body|
  {
    hide Stands;
    if body == [] {
      assert body + [34] == [34];
      QuoteAtOnce(c, p);
    } else {
      var n := if body[0] == 92 then 2 else 1;
      assert body + [34] == body[..n] + (body[n..] + [34]);
      StandsConcat(c, p, body[..n], body[n..] + [34]);
      StandsByte(c, p, body[..n], 0);
      QuoteFound(c, p + n, body[n..]);
    }
  }

  lemma HexRead(c: bytes, p: nat, ch: Char)
    requires ch.Unit? && Stands(c, p, SpellChar(ch))
    ensures p + 6 <= |c| && Hex4(c, p + 2) == UnitValue(ch)
  {
    hide Stands;
    CharBytes(c, p, ch);
  }

  /** A byte that stands for itself, or a two-character escape, whose letter may be the closing quote. */
  lemma SimpleStep(c: bytes, p: nat, e: nat, ch: Char)
    requires !ch.Unit? && Stands(c, p, SpellChar(ch)) && p < e < |c|
    ensures DecodeStep(c, p, e)
         == Some(([if ch.Plain? then ch.b else EscapedByte(ch.letter)], |SpellChar(ch)|))
  {
    hide Stands;
    CharBytes(c, p, ch);
  }

  /** A literal that is no surrogate. */
  lemma UnitStep(c: bytes, p: nat, e: nat, ch: Char)
    requires ch.Unit? && !IsHigh(ch) && Stands(c, p, SpellChar(ch)) && p + 6 <= e < |c|
    ensures DecodeStep(c, p, e) == if IsLow(ch) then None else Some((Utf8(UnitValue(ch)), 6))
  {
    hide Stands, Hex4, UnitValue, Utf8;
    CharBytes(c, p, ch);
    HexRead(c, p, ch);
  }

  lemma PairStep(c: bytes, p: nat, e: nat, high: Char, low: Char)
    requires IsHigh(high) && IsLow(low) && p + 12 <= e < |c|
    requires Stands(c, p, SpellChar(high)) && Stands(c, p + 6, SpellChar(low))
    ensures DecodeStep(c, p, e) == Some((Utf8(PairValue(high, low)), 12))
  {
    hide Stands, Hex4, UnitValue, Utf8;
    CharBytes(c, p, high);
    CharBytes(c, p + 6, low);
    HexRead(c, p, high);
    HexRead(c, p + 6, low);
  }

  /** A high surrogate before the end of the string or before anything but a low one. */
  lemma LoneStep(c: bytes, p: nat, e: nat, high: Char, rest: seq<Char>)
    requires IsHigh(high) && Stands(c, p, SpellChar(high)) && p + 6 <= e < |c|
    requires if rest == [] then e == p + 6
             else !IsLow(rest[0]) && Stands(c, p + 6, SpellChar(rest[0]))
    ensures DecodeStep(c, p, e) == None
  {
    hide Stands, Hex4, UnitValue, Utf8;
    CharBytes(c, p, high);
    HexRead(c, p, high);
    if rest != [] {
      CharBytes(c, p + 6, rest[0]);
      if rest[0].Unit? {
        HexRead(c, p + 6, rest[0]);
      }
    }
  }

  /** Characters spelled at `p` end at the closing quote, or behind it with an escaped quote. */
  predicate Reaches(s: seq<Char>, p: nat, e: nat) {
    var q := p + |SpellChars(s)|;
    q == e || (q == e + 1 && (s == [] || s[|s| - 1] == Short(34)))
  }

  /** The others reach it too, and no character but the last one does. */
  lemma ReachesNext(s: seq<Char>, p: nat, e: nat)
    requires s != [] && Reaches(s, p, e)
    ensures
      var q := p + |SpellChar(s[0])|;
      && Reaches(s[1..], q, e) && (s[0].Short? ==> q <= e + 1) && (!s[0].Short? ==> q <= e) && p < e
      && (s[1..] != [] ==> q < e)
  {
    if |s| > 1 { LastIsShort(s[1..]); }
  }

  lemma {:induction false} LastIsShort(s: seq<Char>)
    requires s != []
    ensures |SpellChars(s)| >= if s[|s| - 1].Short? then 2 else 1
  {
    if |s| > 1 { LastIsShort(s[1..]); } else { assert s[1..] == []; }
  }

  /** The second pass reads what the characters mean. */
  lemma {:induction false} UnescapeReads(c: bytes, p: nat, e: nat, s: seq<Char>)
    requires Stands(c, p, SpellChars(s)) && Reaches(s, p, e) && e < |c|
    ensures Unescape(c, p, e) == Meaning(s)
    decreases |s|
  {
    hide Unescape, DecodeStep, Stands, SpellChars, UnitValue, Utf8;
    if s == [] {
      NoChars();
      NothingLeft(c, p, e);
    } else {
      var q := p + |SpellChar(s[0])|;
      CharsStand(c, p, s);
      ReachesNext(s, p, e);
      UnescapeStep(c, p, e);
      if s[0].Unit? {
        if !IsHigh(s[0]) {
          UnitStep(c, p, e, s[0]);
          UnescapeReads(c, q, e, s[1..]);
        } else if |s| > 1 && IsLow(s[1]) {
          CharsStand(c, q, s[1..]);
          ReachesNext(s[1..], q, e);
          PairStep(c, p, e, s[0], s[1]);
          assert s[1..][1..] == s[2..];
          UnescapeReads(c, p + 12, e, s[2..]);
        } else {
          if |s| > 1 { CharsStand(c, q, s[1..]); } else { NoChars(); }
          LoneStep(c, p, e, s[0], s[1..]);
        }
      } else {
        SimpleStep(c, p, e, s[0]);
        UnescapeReads(c, q, e, s[1..]);
      }
    }
  }

  lemma NoChars()
    ensures SpellChars([]) == []
  {
  }

  /** Every string is read at its meaning, unless a surrogate in it stands alone. */
  lemma StringRead(c: bytes, o: nat, q: token)
    requires Stands(c, o, SpellString(q))
    ensures o < |c| && c[o] == 34
    ensures ParseString(c, o) == Expected(Meaning(q.chars).Some?, StringOf(q.chars), o + |SpellString(q)|)
  {
    hide Stands, ClosingQuote, Unescape, SpellChars, Meaning, Sealed;
    StandsConcat(c, o, [34], q.body + [34]);
    StandsByte(c, o, [34], 0);
    QuoteFound(c, o + 1, q.body);
    StandsConcat(c, o + 1, q.body, [34]);
    UnescapeReads(c, o + 1, o + 1 + |q.body|, q.chars);
  }

  /** What the first pass steps over is sealed. */
  lemma {:induction false} BodySealed(c: bytes, p: nat)
    requires ClosingQuote(c, p).Some?
    ensures Sealed(c[p..ClosingQuote(c, p).value])
    decreases |c| - p
  {
    var e := ClosingQuote(c, p).value;
    if c[p] == 92 {
      BodySealed(c, p + 2);
      assert c[p..e][2..] == c[p + 2..e];
    } else if c[p] != 34 {
      BodySealed(c, p + 1);
      assert c[p..e][1..] == c[p + 1..e];
    }
  }

  lemma UnitSpelled(c: bytes, p: nat) returns (u: Char)
    requires p + 6 <= |c| && c[p] == 92 && c[p + 1] == 117
    ensures SpellChars([u]) == c[p..p + 6]
  {
    u := Unit(c[p + 2], c[p + 3], c[p + 4], c[p + 5]);
    OneChar(u);
  }

  lemma TwoUnits(u: Char, w: Char)
    ensures SpellChars([u, w]) == SpellChars([u]) + SpellChars([w])
  {
    hide SpellChar;
    assert [u, w] == [u] + [w];
    SpellCharsConcat([u], [w]);
  }

  /** What one step of the second pass takes is one character or two. */
  lemma StepSpelled(c: bytes, p: nat, e: nat) returns (s: seq<Char>)
    requires p < e < |c| && c[e] == 34 && DecodeStep(c, p, e).Some?
    ensures s != [] && SpellChars(s) == c[p..p + DecodeStep(c, p, e).value.1]
    ensures p + |SpellChars(s)| > e ==> s[|s| - 1] == Short(34)
  {
    hide SpellChars, Hex4, Utf8;
    var n := DecodeStep(c, p, e).value.1;
    if c[p] != 92 {
      s := [Plain(c[p])];
      OneChar(s[0]);
    } else if c[p + 1] != 117 {
      s := [Short(c[p + 1])];
      OneChar(s[0]);
    } else {
      var u := UnitSpelled(c, p);
      s := [u];
      if n == 12 {
        var w := UnitSpelled(c, p + 6);
        s := [u, w];
        TwoUnits(u, w);
        assert c[p..p + 12] == c[p..p + 6] + c[p + 6..p + 12];
      }
    }
  }

  lemma OneChar(ch: Char)
    ensures SpellChars([ch]) == SpellChar(ch)
  {
    assert [ch][1..] == [];
  }

  /** What the second pass takes is spelled by characters. */
  lemma {:induction false} CharsSpelled(c: bytes, p: nat, e: nat) returns (s: seq<Char>)
    requires p <= e + 1 <= |c| && e < |c| && c[e] == 34 && Unescape(c, p, e).Some?
    ensures Stands(c, p, SpellChars(s)) && Reaches(s, p, e)
    decreases e + 1 - p
  {
    hide DecodeStep, Stands;
    if p >= e {
      s := [];
      StandsNothing(c, p);
    } else {
      var first := StepSpelled(c, p, e);
      StandsSlice(c, p, p + |SpellChars(first)|, SpellChars(first));
      var rest := CharsSpelled(c, p + |SpellChars(first)|, e);
      s := first + rest;
      SpellCharsConcat(first, rest);
      StandsConcat(c, p, SpellChars(first), SpellChars(rest));
      if rest == [] { NoChars(); }
    }
  }

  lemma StandsNothing(c: bytes, p: nat)
    requires p <= |c|
    ensures Stands(c, p, [])
  {
  }

  lemma {:induction false} SpellCharsConcat(a: seq<Char>, b: seq<Char>)
    ensures SpellChars(a + b) == SpellChars(a) + SpellChars(b)
  {
    if a == [] {
      assert a + b == b;
    } else {
      assert (a + b)[1..] == a[1..] + b;
      SpellCharsConcat(a[1..], b);
    }
  }

  lemma SpelledIs(c: bytes, o: nat, e: nat, s: seq<Char>)
    requires o < e < |c| && c[o] == 34 && c[e] == 34 && Stands(c, o + 1, SpellChars(s)) && Reaches(s, o + 1, e)
    ensures SpellChars(s) == if o + 1 + |SpellChars(s)| == e then c[o + 1..e] else c[o + 1..e] + [34]
    ensures Stands(c, o, [34] + (c[o + 1..e] + [34]))
  {
    hide SpellChars;
    assert c[o + 1..e + 1] == c[o + 1..e] + [34];
    assert c[o..e + 1] == [34] + c[o + 1..e + 1];
  }

  /** What is read as a string is one of the tokens. */
  lemma StringSpelled(c: bytes, o: nat) returns (q: token)
    requires o < |c| && ParseString(c, o).Ok?
    ensures Stands(c, o, SpellString(q))
  {
    hide Unescape, ClosingQuote, SpellChars, Sealed;
    var e := ClosingQuote(c, o + 1).value;
    var body := c[o + 1..e];
    BodySealed(c, o + 1);
    var s := CharsSpelled(c, o + 1, e);
    NoChars();
    SpelledIs(c, o, e, s);
    q := Quoting(body, s);
  }

  // ----- values -----

  /** The byte at `e`, if any, cannot extend a number. */
  predicate Ends(c: bytes, e: nat) {
    e < |c| ==> !IsNumberByte(c[e])
  }

  /** What stands behind a value, at `e`, does not carry it on if it is a number. */
  predicate Closes(s: Syntax, c: bytes, e: nat) {
    s.SNumber? ==> Stops(s.n, c, e)
  }

  lemma EndsCloses(s: Syntax, c: bytes, e: nat)
    requires Ends(c, e)
    ensures Closes(s, c, e)
  {
  }

  /** The bytes collected for the conversion hold the number and what stops it. */
  lemma Collected(c: bytes, o: nat, n: lenient)
    requires Stands(c, o, SpellNum(n)) && Stops(n, c, o + |SpellNum(n)|)
    ensures
      var t := c[o..NumberEnd(c, o)];
      Stands(t, 0, SpellNum(n)) && Stops(n, t, |SpellNum(n)|)
  {
    hide SpellNum, IsNumberByte;
    var u := SpellNum(n);
    forall i | o <= i < o + |u|
      ensures IsNumberByte(c[i])
    {
      StandsByte(c, o, u, i - o);
      NumBytes(n, i - o);
    }
    var t := c[o..NumberEnd(c, o)];
    assert o + |u| <= NumberEnd(c, o);
    assert t[0..0 + |u|] == c[o..o + |u|];
    forall k | 0 <= k < |t| ensures t[k] == c[o + k] {}
  }

  lemma NumberAt(c: bytes, o: nat, n: lenient)
    requires Stands(c, o, SpellNum(n)) && Stops(n, c, o + |SpellNum(n)|)
    ensures JsonGrammar.ParseNumber(c, o) == Ok(Number(NumValue(n)), o + |SpellNum(n)|)
  {
    hide Strtod, SpellNum, NumValue, Stops, Stands, NumberEnd;
    Collected(c, o, n);
    NumberRead(c[o..NumberEnd(c, o)], n);
    StandsInside(c, o, SpellNum(n));
  }

  /** What is read as a number is one of them, read to its end. */
  lemma NumberSpelledAt(c: bytes, o: nat) returns (n: lenient)
    requires o < |c| && (c[o] == 45 || IsDigit(c[o])) && JsonGrammar.ParseNumber(c, o).Ok?
    ensures Stands(c, o, SpellNum(n)) && Stops(n, c, o + |SpellNum(n)|)
  {
    hide Strtod, SpellNum, Stops, Stands;
    var e := NumberEnd(c, o);
    n := NumberSpelled(c[o..e]);
    StandsInside(c[o..e], 0, SpellNum(n));
    StandsFrom(c, o, e, SpellNum(n));
    StopsFrom(c, o, n, |SpellNum(n)|);
  }

  lemma StandsFrom(c: bytes, o: nat, e: nat, u: bytes)
    requires o <= e <= |c| && Stands(c[o..e], 0, u)
    ensures Stands(c, o, u)
  {
    assert c[o..e][0..0 + |u|] == c[o..o + |u|];
  }

  lemma StopsFrom(c: bytes, o: nat, n: Num, k: nat)
    requires o <= |c| && Stops(n, c[o..NumberEnd(c, o)], k) && k <= NumberEnd(c, o) - o
    ensures Stops(n, c, o + k)
  {
    var e := NumberEnd(c, o);
    var t := c[o..e];
    assert forall i :: 0 <= i < e - o ==> t[i] == c[o + i];
    if ExponentBegins(c, o + k) {
      assert IsNumberByte(c[o + k]) && o + k < e;
      assert IsNumberByte(c[o + k + 1]) && o + k + 1 < e;
    }
  }

  /** The first byte of a value selects its parser and is no closing bracket. */
  lemma SpellStart(s: Syntax)
    ensures
      var t := Spell(s);
      && |t| > 0 && 32 < t[0] < 128 && t[0] != 93 && t[0] != 125
      && (s.SNumber? ==> t[0] == 45 || IsDigit(t[0]))
      && (s.SString? ==> t[0] == 34) && (s.SArray? ==> t[0] == 91) && (s.SObject? ==> t[0] == 123)
  {
    hide SpellItems, SpellMembers;
    if s.SNumber? {
      hide SpellNum, Stands;
      StandsWhole(SpellNum(s.n));
      NumParts(SpellNum(s.n), s.n);
    }
  }

  function AsValue(r: Parsed<cstring>): Parsed<Json> {
    match r
    case Fail => Fail
    case Ok(t, end) => Ok(String(t), end)
  }

  /** Which parser a first byte selects. */
  lemma Dispatch(c: bytes, o: nat, depth: nat)
    requires o < |c|
    ensures Stands(c, o, NullText()) ==> ParseValue(c, o, depth) == Ok(Null, o + 4)
    ensures Stands(c, o, FalseText()) ==> ParseValue(c, o, depth) == Ok(False, o + 5)
    ensures Stands(c, o, TrueText()) ==> ParseValue(c, o, depth) == Ok(True, o + 4)
    ensures c[o] == 34 ==> ParseValue(c, o, depth) == AsValue(ParseString(c, o))
    ensures c[o] == 45 || IsDigit(c[o]) ==>
              ParseValue(c, o, depth) == JsonGrammar.ParseNumber(c, o)
    ensures c[o] == 91 ==> ParseValue(c, o, depth) == ParseArray(c, o, depth)
    ensures c[o] == 123 ==> ParseValue(c, o, depth) == ParseObject(c, o, depth)
  {
    hide ParseString, JsonGrammar.ParseNumber, ParseArray, ParseObject;
    if Stands(c, o, NullText()) {
      StandsByte(c, o, NullText(), 0);
    }
    if Stands(c, o, FalseText()) {
      StandsByte(c, o, FalseText(), 0);
    }
    if Stands(c, o, TrueText()) {
      StandsByte(c, o, TrueText(), 0);
    }
  }

  /**
   * Every value of the grammar is read at its meaning, up to its end, exactly when its surrogates
   * are paired and the nesting limit leaves room for it; no other value of the grammar is accepted.
   */
  lemma {:induction false} ValueRead(c: bytes, o: nat, s: Syntax, depth: nat)
    requires depth <= NESTING_LIMIT
    requires Stands(c, o, Spell(s)) && Closes(s, c, o + |Spell(s)|)
    ensures ParseValue(c, o, depth)
         == Expected(Paired(s) && depth + Depth(Meant(s)) <= NESTING_LIMIT, Meant(s), o + |Spell(s)|)
    decreases s, 1
  {
    hide ParseValue, ParseString, JsonGrammar.ParseNumber, ParseArray, ParseObject, Stands, StringOf, NumValue,
      SpellNum, SpellString, Meaning, PairedItems, PairedMembers, ItemsDepth, MembersDepth, SpellItems, SpellMembers,
      Stops;
    SpellStart(s);
    StandsByte(c, o, Spell(s), 0);
    Dispatch(c, o, depth);
    match s
    case SNull =>
    case SFalse =>
    case STrue =>
    case SNumber(n) => NumberAt(c, o, n);
    case SString(q) => StringRead(c, o, q);
    case SArray(items) => ArrayRead(c, o, items, depth);
    case SObject(members) => ObjectRead(c, o, members, depth);
  }

  /** The end of an array or object without further elements. */
  lemma EndParts(c: bytes, p: nat, inner: blank, close: byte)
    requires Stands(c, p, inner + [close])
    ensures Blank(c, p, p + |inner|) && p + |inner| < |c| && c[p + |inner|] == close
  {
    hide Stands;
    StandsConcat(c, p, inner, [close]);
    StandsBlank(c, p, inner);
    StandsByte(c, p + |inner|, [close], 0);
  }

  // ----- arrays -----

  /** Where the parts of an element stand. */
  lemma ItemStands(c: bytes, p: nat, items: SItems)
    requires items.SItem? && Stands(c, p, SpellItems(items))
    ensures
      var v := p + |items.before|;
      var e := v + |Spell(items.value)|;
      var a := e + |items.after|;
      var n := if items.next.SItem? then a + 1 else a;
      && Blank(c, p, v) && Stands(c, v, Spell(items.value)) && Blank(c, e, a)
      && (items.next.SItem? ==> a < |c| && c[a] == 44) && Stands(c, n, SpellItems(items.next))
      && p + |SpellItems(items)| == n + |SpellItems(items.next)|
  {
    hide Stands, Spell;
    var comma: bytes := if items.next.SItem? then [44] else [];
    var rest := SpellItems(items.next);
    var v := p + |items.before|;
    var e := v + |Spell(items.value)|;
    var a := e + |items.after|;
    assert SpellItems(items) == items.before + (Spell(items.value) + (items.after + (comma + rest)));
    hide SpellItems, Blank;
    StandsConcat(c, p, items.before, Spell(items.value) + (items.after + (comma + rest)));
    StandsConcat(c, v, Spell(items.value), items.after + (comma + rest));
    StandsConcat(c, e, items.after, comma + rest);
    StandsConcat(c, a, comma, rest);
    StandsBlank(c, p, items.before);
    StandsBlank(c, e, items.after);
    if items.next.SItem? { StandsByte(c, a, comma, 0); }
  }

  /** A value in front of white space and a comma or closing bracket ends there. */
  lemma EndsBefore(c: bytes, e: nat, q: nat)
    requires e <= q < |c| && Blank(c, e, q) && c[q] in {44, 93, 125}
    ensures Ends(c, e) && SkipSpace(c, e) == q
  {
    hide SkipSpace;
    SkipTo(c, e, q);
    if e < q { assert IsBlank(c[e]); }
  }

  /** Where the comma or the closing bracket after an element is found. */
  lemma ItemEnd(c: bytes, p: nat, items: SItems)
    requires items.SItem? && Stands(c, p, SpellItems(items))
    ensures
      var e := p + |items.before| + |Spell(items.value)|;
      var q := SkipSpace(c, e);
      && Ends(c, e) && e < |c| && e <= q < |c| && Stands(c, p + |items.before|, Spell(items.value))
      && (items.next.SItem? ==> c[q] == 44 && Stands(c, q + 1, SpellItems(items.next))
                                && p + |SpellItems(items)| == q + 1 + |SpellItems(items.next)|)
      && (items.next.SEnd? ==> c[q] == 93 && p + |SpellItems(items)| == q + 1)
  {
    hide Stands, Spell, SkipSpace, Blank;
    var e := p + |items.before| + |Spell(items.value)|;
    var a := e + |items.after|;
    ItemStands(c, p, items);
    if items.next.SItem? {
      hide SpellItems;
      EndsBefore(c, e, a);
    } else {
      EndParts(c, a, items.next.inner, 93);
      BlankJoin(c, e, a, a + |items.next.inner|);
      EndsBefore(c, e, a + |items.next.inner|);
    }
  }

  /** Skipping white space leads to the first value. */
  lemma ItemStart(c: bytes, p: nat, items: SItems)
    requires items.SItem? && Stands(c, p, SpellItems(items))
    ensures
      var v := p + |items.before|;
      v < |c| && SkipSpace(c, p) == v && c[v] > 32 && c[v] != 93
  {
    hide Stands, Spell, SpellItems, SkipSpace;
    var v := p + |items.before|;
    ItemStands(c, p, items);
    SpellStart(items.value);
    StandsByte(c, v, Spell(items.value), 0);
    SkipTo(c, p, v);
  }

  lemma ItemsStep(c: bytes, o: nat, v: Json, end: nat, depth: nat)
    requires o < |c| && end <= |c| && ParseValue(c, SkipSpace(c, o + 1), depth) == Ok(v, end) && SkipSpace(c, end) < |c|
    requires o < SkipSpace(c, end)
    ensures
      var q := SkipSpace(c, end);
      && (c[q] == 93 ==> ParseItems(c, o, depth) == Ok(Item(v, NoItem), q + 1))
      && (c[q] == 44 ==> ParseItems(c, o, depth) == AsItem(v, ParseItems(c, q, depth)))
  {
    hide ParseValue, SkipSpace;
  }

  function AsItem(v: Json, r: Parsed<Items>): Parsed<Items> {
    match r
    case Fail => Fail
    case Ok(rest, stop) => Ok(Item(v, rest), stop)
  }

  lemma ItemsFail(c: bytes, o: nat, depth: nat)
    requires o < |c| && ParseValue(c, SkipSpace(c, o + 1), depth) == Fail
    ensures ParseItems(c, o, depth) == Fail
  {
    hide ParseValue, SkipSpace;
  }

  lemma {:induction false} ItemsRead(c: bytes, o: nat, p: nat, items: SItems, depth: nat)
    requires items.SItem? && depth <= NESTING_LIMIT && o < |c|
    requires o < p + |items.before| && SkipSpace(c, o + 1) == p + |items.before|
    requires Stands(c, p, SpellItems(items))
    ensures ParseItems(c, o, depth)
         == Expected(PairedItems(items) && depth + ItemsDepth(MeantItems(items)) <= NESTING_LIMIT,
                     MeantItems(items), p + |SpellItems(items)|)
    decreases items, 1
  {
    hide ParseValue, ParseItems, Stands, Spell, SpellItems, SkipSpace, Depth, Meant, Paired, Ends, Closes;
    var (v, next) := (p + |items.before|, items.next);
    var e := v + |Spell(items.value)|;
    ItemEnd(c, p, items);
    EndsCloses(items.value, c, e);
    ValueRead(c, v, items.value, depth);
    if Paired(items.value) && depth + Depth(Meant(items.value)) <= NESTING_LIMIT {
      var q := SkipSpace(c, e);
      ItemsStep(c, o, Meant(items.value), e, depth);
      if next.SItem? {
        ItemStart(c, q + 1, next);
        ItemsRead(c, q, q + 1, next, depth);
      } else {
        assert MeantItems(next) == NoItem && PairedItems(next);
      }
    } else {
      ItemsFail(c, o, depth);
    }
  }

  function AsArray(r: Parsed<Items>): Parsed<Json> {
    match r
    case Fail => Fail
    case Ok(items, end) => Ok(Array(items), end)
  }

  lemma ArrayStep(c: bytes, o: nat, v: nat, depth: nat)
    requires o < v < |c| && SkipSpace(c, o + 1) == v && c[v] > 32
    ensures ParseArray(c, o, depth)
         == if depth >= NESTING_LIMIT then Fail
            else if c[v] == 93 then Ok(Array(NoItem), v + 1)
            else AsArray(ParseItems(c, v - 1, depth + 1))
    ensures SkipSpace(c, v) == v
  {
    hide ParseItems;
  }

  /** What the array spelled with these items is read as. */
  ghost predicate ArrayAt(c: bytes, o: nat, items: SItems, depth: nat)
    requires o < |c|
  {
    ParseArray(c, o, depth)
    == Expected(PairedItems(items) && depth + 1 + ItemsDepth(MeantItems(items)) <= NESTING_LIMIT,
                Array(MeantItems(items)), o + 1 + |SpellItems(items)|)
  }

  lemma EmptyArray(c: bytes, o: nat, items: SItems, depth: nat)
    requires items.SEnd? && Stands(c, o + 1, SpellItems(items)) && depth <= NESTING_LIMIT
    ensures o < |c| && ArrayAt(c, o, items, depth)
  {
    hide ParseArray, Stands, SkipSpace, Blank;
    var v := o + 1 + |items.inner|;
    EndParts(c, o + 1, items.inner, 93);
    SkipTo(c, o + 1, v);
    ArrayStep(c, o, v, depth);
  }

  lemma {:induction false} ArrayRead(c: bytes, o: nat, items: SItems, depth: nat)
    requires depth <= NESTING_LIMIT && Stands(c, o, [91] + SpellItems(items))
    ensures o < |c| && c[o] == 91 && ArrayAt(c, o, items, depth)
    decreases items, 2
  {
    hide ParseArray, ParseItems, Stands, SkipSpace, Blank, SpellItems, PairedItems, ItemsDepth, MeantItems;
    StandsConcat(c, o, [91], SpellItems(items));
    StandsByte(c, o, [91], 0);
    if items.SEnd? {
      EmptyArray(c, o, items, depth);
    } else {
      ItemStart(c, o + 1, items);
      var v := o + 1 + |items.before|;
      ArrayStep(c, o, v, depth);
      if depth < NESTING_LIMIT {
        ItemsRead(c, v - 1, o + 1, items, depth + 1);
      }
    }
  }

  // ----- objects -----

  /** Where the parts of a member spelled at `p` start, and where its value ends. */
  datatype Layout = Layout(name: nat, colon: nat, value: nat, end: nat)

  function LayoutOf(p: nat, m: SMembers): (l: Layout)
    requires m.SMember?
    ensures p <= l.name < l.colon < l.value < l.end
  {
    SpellStart(m.value);
    var name := p + |m.before|;
    var colon := name + |SpellString(m.key)| + |m.mid|;
    var value := colon + 1 + |m.lead|;
    Layout(name, colon, value, value + |Spell(m.value)|)
  }

  /** A member from its value on. */
  function SpellRest(m: SMembers): bytes
    requires m.SMember?
  {
    Spell(m.value) + (m.after + ((if m.next.SMember? then [44] else []) + SpellMembers(m.next)))
  }

  /** Where a member's name, colon and value stand. */
  lemma MemberStands(c: bytes, p: nat, m: SMembers)
    requires m.SMember? && Stands(c, p, SpellMembers(m))
    ensures
      var l := LayoutOf(p, m);
      && Blank(c, p, l.name) && Stands(c, l.name, SpellString(m.key))
      && Blank(c, l.name + |SpellString(m.key)|, l.colon) && l.colon < |c| && c[l.colon] == 58
      && Blank(c, l.colon + 1, l.value) && Stands(c, l.value, SpellRest(m))
      && p + |SpellMembers(m)| == l.value + |SpellRest(m)|
  {
    hide Stands, Spell, SpellString;
    var l := LayoutOf(p, m);
    var key := SpellString(m.key);
    var t := m.lead + SpellRest(m);
    assert SpellMembers(m) == m.before + (key + (m.mid + ([58] + t)));
    hide SpellMembers, SpellRest, Blank;
    StandsConcat(c, p, m.before, key + (m.mid + ([58] + t)));
    StandsConcat(c, l.name, key, m.mid + ([58] + t));
    StandsConcat(c, l.name + |key|, m.mid, [58] + t);
    StandsConcat(c, l.colon, [58], t);
    StandsConcat(c, l.colon + 1, m.lead, SpellRest(m));
    StandsBlank(c, p, m.before);
    StandsBlank(c, l.name + |key|, m.mid);
    StandsBlank(c, l.colon + 1, m.lead);
    StandsByte(c, l.colon, [58], 0);
  }

  lemma RestStands(c: bytes, v: nat, m: SMembers)
    requires m.SMember? && Stands(c, v, SpellRest(m))
    ensures
      var e := v + |Spell(m.value)|;
      var a := e + |m.after|;
      var n := if m.next.SMember? then a + 1 else a;
      && Stands(c, v, Spell(m.value)) && Blank(c, e, a)
      && (m.next.SMember? ==> a < |c| && c[a] == 44) && Stands(c, n, SpellMembers(m.next))
      && v + |SpellRest(m)| == n + |SpellMembers(m.next)|
  {
    hide Stands, Spell, SpellMembers, Blank;
    var comma: bytes := if m.next.SMember? then [44] else [];
    var rest := SpellMembers(m.next);
    var e := v + |Spell(m.value)|;
    var a := e + |m.after|;
    StandsConcat(c, v, Spell(m.value), m.after + (comma + rest));
    StandsConcat(c, e, m.after, comma + rest);
    StandsConcat(c, a, comma, rest);
    StandsBlank(c, e, m.after);
    if m.next.SMember? { StandsByte(c, a, comma, 0); }
  }

  /** Where the comma or the closing brace after a member is found. */
  lemma RestEnd(c: bytes, v: nat, m: SMembers)
    requires m.SMember? && Stands(c, v, SpellRest(m))
    ensures
      var e := v + |Spell(m.value)|;
      var q := SkipSpace(c, e);
      && Stands(c, v, Spell(m.value)) && Ends(c, e) && e < |c| && e <= q < |c|
      && (m.next.SMember? ==> c[q] == 44 && Stands(c, q + 1, SpellMembers(m.next))
                              && v + |SpellRest(m)| == q + 1 + |SpellMembers(m.next)|)
      && (m.next.SClose? ==> c[q] == 125 && v + |SpellRest(m)| == q + 1)
  {
    hide Stands, Spell, SkipSpace, Blank, SpellRest;
    var e := v + |Spell(m.value)|;
    var a := e + |m.after|;
    RestStands(c, v, m);
    if m.next.SMember? {
      hide SpellMembers;
      EndsBefore(c, e, a);
    } else {
      EndParts(c, a, m.next.inner, 125);
      BlankJoin(c, e, a, a + |m.next.inner|);
      EndsBefore(c, e, a + |m.next.inner|);
    }
  }

  /** Skipping white space leads to the quote of the first name. */
  lemma MemberStart(c: bytes, p: nat, m: SMembers)
    requires m.SMember? && Stands(c, p, SpellMembers(m))
    ensures
      var k := p + |m.before|;
      k < |c| && SkipSpace(c, p) == k && c[k] == 34
  {
    hide Stands, Spell, SpellMembers, SkipSpace, SpellRest;
    MemberStands(c, p, m);
    var k := p + |m.before|;
    StandsByte(c, k, SpellString(m.key), 0);
    SkipTo(c, p, k);
  }

  lemma NameRead(c: bytes, o: nat, p: nat, m: SMembers)
    requires m.SMember? && o < |c| && Stands(c, p, SpellMembers(m))
    requires o < p + |m.before| && SkipSpace(c, o + 1) == p + |m.before|
    ensures ParseName(c, o) == Expected(Meaning(m.key.chars).Some?, StringOf(m.key.chars), LayoutOf(p, m).value)
  {
    hide Stands, Spell, SpellMembers, SkipSpace, SpellRest, SpellString, ParseString, Meaning, StringOf, Blank;
    var l := LayoutOf(p, m);
    MemberStands(c, p, m);
    StringRead(c, l.name, m.key);
    SkipTo(c, l.name + |SpellString(m.key)|, l.colon);
    RestStart(c, l.value, m);
    SkipTo(c, l.colon + 1, l.value);
  }

  lemma RestStart(c: bytes, v: nat, m: SMembers)
    requires m.SMember? && Stands(c, v, SpellRest(m))
    ensures v < |c| && c[v] > 32
  {
    hide Stands, Spell;
    SpellStart(m.value);
    StandsByte(c, v, SpellRest(m), 0);
    assert SpellRest(m)[0] == Spell(m.value)[0];
  }

  lemma {:induction false} MemberRead(c: bytes, o: nat, p: nat, m: SMembers, depth: nat)
    requires m.SMember? && depth <= NESTING_LIMIT && o < |c|
    requires o < p + |m.before| && SkipSpace(c, o + 1) == p + |m.before|
    requires Stands(c, p, SpellMembers(m))
    ensures ParseMember(c, o, depth)
         == Expected(Meaning(m.key.chars).Some? && Paired(m.value) && depth + Depth(Meant(m.value)) <= NESTING_LIMIT,
                     (StringOf(m.key.chars), Meant(m.value)), LayoutOf(p, m).end)
    decreases m, 0
  {
    hide Stands, Spell, SpellMembers, SkipSpace, SpellRest, SpellString, ParseName, ParseValue, Meaning, StringOf,
      Depth, Meant, Paired, Ends, Closes, Blank;
    var l := LayoutOf(p, m);
    NameRead(c, o, p, m);
    MemberStands(c, p, m);
    RestEnd(c, l.value, m);
    EndsCloses(m.value, c, l.end);
    ValueRead(c, l.value, m.value, depth);
  }

  function AsMember(k: (cstring, Json), r: Parsed<Members>): Parsed<Members> {
    match r
    case Fail => Fail
    case Ok(rest, stop) => Ok(Member(k.0, k.1, rest), stop)
  }

  lemma MembersStep(c: bytes, o: nat, depth: nat)
    requires o < |c|
    ensures ParseMember(c, o, depth).Fail? ==> ParseMembers(c, o, depth).Fail?
    ensures
      var m := ParseMember(c, o, depth);
      m.Ok? ==>
        var q := SkipSpace(c, m.end);
        ParseMembers(c, o, depth)
        == if q < |c| && c[q] == 44 then AsMember(m.value, ParseMembers(c, q, depth))
           else if q < |c| && c[q] == 125 then Ok(Member(m.value.0, m.value.1, NoMember), q + 1)
           else Fail
  {
    hide ParseMember, SkipSpace;
  }

  lemma {:induction false} MembersRead(c: bytes, o: nat, p: nat, m: SMembers, depth: nat)
    requires m.SMember? && depth <= NESTING_LIMIT && o < |c|
    requires o < p + |m.before| && SkipSpace(c, o + 1) == p + |m.before|
    requires Stands(c, p, SpellMembers(m))
    ensures ParseMembers(c, o, depth)
         == Expected(PairedMembers(m) && depth + MembersDepth(MeantMembers(m)) <= NESTING_LIMIT,
                     MeantMembers(m), p + |SpellMembers(m)|)
    decreases m, 1
  {
    hide Stands, Spell, SpellMembers, SkipSpace, SpellRest, SpellString, ParseMember, Meaning, StringOf, Depth, Meant,
      Paired, Ends, Blank, ParseMembers, LayoutOf, MeantMembers, PairedMembers, MembersDepth;
    var (l, next) := (LayoutOf(p, m), m.next);
    LayoutEnds(p, m);
    MemberRead(c, o, p, m, depth);
    MemberStands(c, p, m);
    MembersStep(c, o, depth);
    MemberFolds(m);
    RestEnd(c, l.value, m);
    if ParseMember(c, o, depth).Ok? {
      var q := SkipSpace(c, l.end);
      if next.SMember? {
        MemberStart(c, q + 1, next);
        MembersRead(c, q, q + 1, next, depth);
        assert p + |SpellMembers(m)| == q + 1 + |SpellMembers(next)|;
      } else {
        NoMemberFolds(next);
      }
    }
  }

  lemma LayoutEnds(p: nat, m: SMembers)
    requires m.SMember?
    ensures LayoutOf(p, m).end == LayoutOf(p, m).value + |Spell(m.value)|
  {
    hide Spell, SpellString;
  }

  lemma MemberFolds(m: SMembers)
    requires m.SMember?
    ensures MeantMembers(m) == Member(StringOf(m.key.chars), Meant(m.value), MeantMembers(m.next))
    ensures PairedMembers(m) <==> Meaning(m.key.chars).Some? && Paired(m.value) && PairedMembers(m.next)
    ensures MembersDepth(MeantMembers(m)) == Max(Depth(Meant(m.value)), MembersDepth(MeantMembers(m.next)))
  {
    hide StringOf, Meaning, Meant, Paired, Depth;
  }

  lemma NoMemberFolds(m: SMembers)
    requires m.SClose?
    ensures MeantMembers(m) == NoMember && PairedMembers(m) && MembersDepth(MeantMembers(m)) == 0
  {
  }

  function AsObject(r: Parsed<Members>): Parsed<Json> {
    match r
    case Fail => Fail
    case Ok(members, end) => Ok(Object(members), end)
  }

  lemma ObjectStep(c: bytes, o: nat, v: nat, depth: nat)
    requires o < v < |c| && SkipSpace(c, o + 1) == v && c[v] > 32
    ensures ParseObject(c, o, depth)
         == if depth >= NESTING_LIMIT then Fail
            else if c[v] == 125 then Ok(Object(NoMember), v + 1)
            else AsObject(ParseMembers(c, v - 1, depth + 1))
    ensures SkipSpace(c, v) == v
  {
    hide ParseMembers;
  }

  /** What the object spelled with these members is read as. */
  ghost predicate ObjectAt(c: bytes, o: nat, members: SMembers, depth: nat)
    requires o < |c|
  {
    ParseObject(c, o, depth)
    == Expected(PairedMembers(members) && depth + 1 + MembersDepth(MeantMembers(members)) <= NESTING_LIMIT,
                Object(MeantMembers(members)), o + 1 + |SpellMembers(members)|)
  }

  lemma EmptyObject(c: bytes, o: nat, members: SMembers, depth: nat)
    requires members.SClose? && Stands(c, o + 1, SpellMembers(members)) && depth <= NESTING_LIMIT
    ensures o < |c| && ObjectAt(c, o, members, depth)
  {
    hide ParseObject, Stands, SkipSpace, Blank;
    var v := o + 1 + |members.inner|;
    EndParts(c, o + 1, members.inner, 125);
    SkipTo(c, o + 1, v);
    ObjectStep(c, o, v, depth);
  }

  lemma {:induction false} ObjectRead(c: bytes, o: nat, members: SMembers, depth: nat)
    requires depth <= NESTING_LIMIT && Stands(c, o, [123] + SpellMembers(members))
    ensures o < |c| && c[o] == 123 && ObjectAt(c, o, members, depth)
    decreases members, 2
  {
    hide ParseObject, ParseMembers, Stands, SkipSpace, Blank, SpellMembers, PairedMembers, MembersDepth, MeantMembers;
    StandsConcat(c, o, [123], SpellMembers(members));
    StandsByte(c, o, [123], 0);
    if members.SClose? {
      EmptyObject(c, o, members, depth);
    } else {
      MemberStart(c, o + 1, members);
      var v := o + 1 + |members.before|;
      ObjectStep(c, o, v, depth);
      if depth < NESTING_LIMIT {
        MembersRead(c, v - 1, o + 1, members, depth + 1);
      }
    }
  }

  // ----- documents -----

  function Mark(bom: bool): bytes { if bom then [0xEF, 0xBB, 0xBF] else [] }

  function Terminator(nul: bool): bytes { if nul then [0] else [] }

  /** A text with optional byte order mark, surrounding white space and terminator. */
  function Document(bom: bool, before: blank, s: Syntax, after: blank, nul: bool): bytes {
    Mark(bom) + (before + (Spell(s) + (after + Terminator(nul))))
  }

  lemma DocumentStands(bom: bool, before: blank, s: Syntax, after: blank, nul: bool)
    ensures
      var c := Document(bom, before, s, after, nul);
      var v := |Mark(bom)| + |before|;
      var e := v + |Spell(s)|;
      && Stands(c, 0, Mark(bom)) && Blank(c, |Mark(bom)|, v) && Stands(c, v, Spell(s))
      && Stands(c, e, after) && Stands(c, e + |after|, Terminator(nul))
      && |c| == e + |after| + |Terminator(nul)|
  {
    hide Stands, Blank, Spell, Mark, Terminator;
    var (m, z) := (Mark(bom), Terminator(nul));
    var v := |m| + |before|;
    var e := v + |Spell(s)|;
    var c := Document(bom, before, s, after, nul);
    StandsWhole(c);
    StandsConcat(c, 0, m, before + (Spell(s) + (after + z)));
    StandsConcat(c, |m|, before, Spell(s) + (after + z));
    StandsConcat(c, v, Spell(s), after + z);
    StandsConcat(c, e, after, z);
    StandsBlank(c, |m|, before);
  }

  /** The value of a text is what the parser starts at, unless a mark stands before too little. */
  lemma DocumentStart(bom: bool, before: blank, s: Syntax, after: blank, nul: bool)
    ensures
      var c := Document(bom, before, s, after, nul);
      var v := |Mark(bom)| + |before|;
      && |c| > v && (!bom || |c| > 4 ==> SkipSpace(c, BomLength(c)) == v)
      && (bom && |c| <= 4 ==> BomLength(c) == 0 && c[0] == 0xEF)
  {
    hide Stands, Spell, SkipSpace, Document;
    var c := Document(bom, before, s, after, nul);
    var v := |Mark(bom)| + |before|;
    DocumentStands(bom, before, s, after, nul);
    SpellStart(s);
    StandsByte(c, v, Spell(s), 0);
    SkipTo(c, |Mark(bom)|, v);
    if bom {
      MarkStands(c);
    } else if v > 0 {
      assert IsBlank(c[0]);
    }
  }

  lemma MarkStands(c: bytes)
    requires Stands(c, 0, Mark(true))
    ensures |c| >= 3 && c[..3] == [0xEF, 0xBB, 0xBF] && c[0] == 0xEF
  {
    assert c[0] == c[..3][0];
  }

  lemma StandsNot(c: bytes, t: bytes)
    requires |c| > 0 && |t| > 0 && c[0] != t[0]
    ensures !Stands(c, 0, t)
  {
  }

  /** A byte order mark that is not skipped is no value. */
  lemma NoMark(c: bytes)
    requires |c| > 0 && c[0] == 0xEF
    ensures ParseValue(c, SkipSpace(c, 0), 0) == Fail
  {
    hide SkipSpace, ParseString, JsonGrammar.ParseNumber, ParseArray, ParseObject, Stands;
    SkipTo(c, 0, 0);
    StandsNot(c, NullText());
    StandsNot(c, FalseText());
    StandsNot(c, TrueText());
  }

  /** From the end of the value on there is only white space and perhaps the terminator. */
  lemma DocumentEnd(c: bytes, e: nat, after: rfcblank, nul: bool)
    requires Stands(c, e, after) && Stands(c, e + |after|, Terminator(nul)) && |c| == e + |after| + |Terminator(nul)|
    ensures Ends(c, e)
    ensures var q := SkipSpace(c, e);
            if nul then q == |c| - 1 && c[q] == 0 else q < |c| ==> c[q] != 0
  {
    hide Stands;
    var z := e + |after|;
    StandsBlank(c, e, after);
    if nul { StandsByte(c, z, [0], 0); }
    if e < |c| { assert SpaceEnd(c, e) == |c|; }
    if e < z { assert IsBlank(c[e]); }
    if !nul && e < z {
      StandsByte(c, e, after, |after| - 1);
      assert after[|after| - 1] in after;
    }
  }

  /**
   * What `cJSON_ParseWithLengthOpts` makes of a text of RFC 8259: it gives the tree the text
   * stands for exactly when every surrogate is half of a pair, the tree nests no deeper than 1000
   * levels, a required terminator is there, and a byte order mark has at least two bytes behind it.
   */
  lemma DocumentRead(bom: bool, before: rfcblank, s: rfc, after: rfcblank, nul: bool, requireNul: bool)
    ensures
      var c := Document(bom, before, s, after, nul);
      var accepted := && Paired(s) && Depth(Meant(s)) <= 1000
                      && (requireNul ==> nul) && (bom ==> |c| > 4);
      var end := if requireNul then |c| - 1 else |Mark(bom)| + |before| + |Spell(s)|;
      ParseDocument(c, requireNul) == if accepted then Ok(Meant(s), end) else Fail
  {
    hide Spell, Depth, Meant, Paired, ParseValue, SkipSpace, Stands, Blank, Document, BomLength, Mark, Terminator,
      Closes, IsRfc;
    var c := Document(bom, before, s, after, nul);
    var v := |Mark(bom)| + |before|;
    var e := v + |Spell(s)|;
    DocumentStands(bom, before, s, after, nul);
    DocumentStart(bom, before, s, after, nul);
    if bom && |c| <= 4 {
      NoMark(c);
    } else {
      DocumentEnd(c, e, after, nul);
      EndsCloses(s, c, e);
      ValueRead(c, v, s, 0);
    }
  }

  // ----- nothing else is taken -----

  /** White space that was skipped, taken as it stands. */
  function Skipped(c: bytes, o: nat): (t: blank)
    requires o <= |c| && SkipSpace(c, o) < |c| && c[SkipSpace(c, o)] > 32
    ensures Stands(c, o, t) && o + |t| == SkipSpace(c, o)
  {
    assert forall b :: b in c[o..SkipSpace(c, o)] ==> IsBlank(b);
    c[o..SkipSpace(c, o)]
  }

  /** What a value starts with. */
  lemma ValueStarts(c: bytes, o: nat, depth: nat)
    requires o <= |c| && ParseValue(c, o, depth).Ok?
    ensures o < |c| && c[o] > 32 && c[o] != 93 && c[o] != 125
  {
    hide ParseString, JsonGrammar.ParseNumber, ParseArray, ParseObject, Stands;
    if Stands(c, o, NullText()) {
      StandsByte(c, o, NullText(), 0);
    } else if Stands(c, o, FalseText()) {
      StandsByte(c, o, FalseText(), 0);
    } else if Stands(c, o, TrueText()) {
      StandsByte(c, o, TrueText(), 0);
    }
  }

  /** Whatever the parser takes for a value is spelled by some syntax tree. */
  lemma {:induction false} ValueSpelled(c: bytes, o: nat, depth: nat) returns (s: Syntax)
    requires o <= |c| && depth <= NESTING_LIMIT && ParseValue(c, o, depth).Ok?
    ensures Stands(c, o, Spell(s)) && Closes(s, c, o + |Spell(s)|)
    ensures o + |Spell(s)| == ParseValue(c, o, depth).end
    decreases |c| - o, 3
  {
    hide ParseValue, ParseString, JsonGrammar.ParseNumber, ParseArray, ParseObject, Stands, SpellNum, Stops,
      SpellString, SpellItems, SpellMembers;
    ValueStarts(c, o, depth);
    Dispatch(c, o, depth);
    DispatchElse(c, o, depth);
    if Stands(c, o, NullText()) {
      s := SNull;
    } else if Stands(c, o, FalseText()) {
      s := SFalse;
    } else if Stands(c, o, TrueText()) {
      s := STrue;
    } else if c[o] == 34 {
      var q := StringSpelled(c, o);
      s := SString(q);
    } else if c[o] == 45 || IsDigit(c[o]) {
      var n := NumberSpelledAt(c, o);
      s := SNumber(n);
    } else if c[o] == 91 {
      var items := ArraySpelled(c, o, depth);
      s := SArray(items);
    } else {
      var members := ObjectSpelled(c, o, depth);
      s := SObject(members);
    }
    SpelledEnd(c, o, s, depth);
  }

  lemma SpelledEnd(c: bytes, o: nat, s: Syntax, depth: nat)
    requires o <= |c| && depth <= NESTING_LIMIT && ParseValue(c, o, depth).Ok?
    requires Stands(c, o, Spell(s)) && Closes(s, c, o + |Spell(s)|)
    ensures o + |Spell(s)| == ParseValue(c, o, depth).end
  {
    hide Spell, Closes, ParseValue, Stands, Meant, Paired, Depth;
    ValueRead(c, o, s, depth);
  }

  lemma DispatchElse(c: bytes, o: nat, depth: nat)
    requires o < |c| && ParseValue(c, o, depth).Ok?
    ensures || Stands(c, o, NullText()) || Stands(c, o, FalseText()) || Stands(c, o, TrueText())
            || c[o] == 34 || c[o] == 45 || IsDigit(c[o]) || c[o] == 91 || c[o] == 123
  {
    hide ParseString, JsonGrammar.ParseNumber, ParseArray, ParseObject, Stands;
  }

  lemma {:induction false} ArraySpelled(c: bytes, o: nat, depth: nat) returns (items: SItems)
    requires o < |c| && depth <= NESTING_LIMIT && c[o] == 91 && ParseArray(c, o, depth).Ok?
    ensures Stands(c, o, [91] + SpellItems(items))
    decreases |c| - o, 2
  {
    hide ParseItems, Stands, SkipSpace;
    var v := SkipSpace(c, o + 1);
    if c[v] == 93 {
      items := SEnd(Skipped(c, o + 1));
      EndSpelled(c, o + 1, items.inner, 93);
    } else {
      SkipTwice(c, o + 1);
      var rest := ItemsSpelled(c, v - 1, depth + 1);
      items := rest.(before := Skipped(c, o + 1));
      ItemsBefore(c, o + 1, rest, items.before);
    }
    StandsOne(c, o, 91);
    StandsConcat(c, o, [91], SpellItems(items));
  }

  lemma StandsOne(c: bytes, o: nat, b: byte)
    requires o < |c| && c[o] == b
    ensures Stands(c, o, [b])
  {
  }

  lemma EndSpelled(c: bytes, o: nat, inner: blank, close: byte)
    requires Stands(c, o, inner) && o + |inner| < |c| && c[o + |inner|] == close
    ensures Stands(c, o, inner + [close])
  {
    hide Stands;
    StandsOne(c, o + |inner|, close);
    StandsConcat(c, o, inner, [close]);
  }

  /** Skipping again does not move, even where skipping stepped back. */
  lemma SkipTwice(c: bytes, o: nat)
    requires o < |c|
    ensures SkipSpace(c, SkipSpace(c, o)) == SkipSpace(c, o) >= o
  {
  }

  lemma ItemsBefore(c: bytes, p: nat, rest: SItems, before: blank)
    requires rest.SItem? && rest.before == [] && Stands(c, p, before) && Stands(c, p + |before|, SpellItems(rest))
    ensures Stands(c, p, SpellItems(rest.(before := before)))
  {
    hide Stands, Spell, SpellString;
    assert SpellItems(rest.(before := before)) == before + SpellItems(rest);
    StandsConcat(c, p, before, SpellItems(rest));
  }

  /** The elements behind the byte at `o`, the first white space included. */
  lemma {:induction false} ItemsSpelled(c: bytes, o: nat, depth: nat) returns (items: SItems)
    requires o < |c| && depth <= NESTING_LIMIT && ParseItems(c, o, depth).Ok?
    ensures items.SItem? && o + 1 + |items.before| == SkipSpace(c, o + 1) && Stands(c, o + 1, SpellItems(items))
    ensures SkipSpace(c, o + 1) < |c| && c[SkipSpace(c, o + 1)] > 32
    decreases |c| - o, 1
  {
    hide ParseValue, Stands, SkipSpace, Spell, SpellItems, Closes;
    var v := SkipSpace(c, o + 1);
    ValueStarts(c, v, depth);
    var value := ValueSpelled(c, v, depth);
    var e := ParseValue(c, v, depth).end;
    var q := SkipSpace(c, e);
    var before, after := Skipped(c, o + 1), Skipped(c, e);
    if c[q] == 44 {
      var next := ItemsSpelled(c, q, depth);
      items := SItem(before, value, after, next);
    } else {
      items := SItem(before, value, [], SEnd(after));
      EndSpelled(c, e, after, 93);
      EndIs(after);
      StandsNothing(c, e);
    }
    ItemSpelled(c, o + 1, items);
  }

  lemma EndIs(inner: blank)
    ensures SpellItems(SEnd(inner)) == inner + [93]
  {
  }

  lemma ItemSpelled(c: bytes, p: nat, items: SItems)
    requires items.SItem?
    requires
      var v := p + |items.before|;
      var e := v + |Spell(items.value)|;
      var a := e + |items.after|;
      && Stands(c, p, items.before) && Stands(c, v, Spell(items.value)) && Stands(c, e, items.after)
      && (items.next.SItem? ==> a < |c| && c[a] == 44)
      && Stands(c, if items.next.SItem? then a + 1 else a, SpellItems(items.next))
    ensures Stands(c, p, SpellItems(items))
  {
    hide Stands, Spell;
    var comma: bytes := if items.next.SItem? then [44] else [];
    var rest := SpellItems(items.next);
    var v := p + |items.before|;
    var e := v + |Spell(items.value)|;
    var a := e + |items.after|;
    assert SpellItems(items) == items.before + (Spell(items.value) + (items.after + (comma + rest)));
    hide SpellItems;
    StandsInside(c, e, items.after);
    if items.next.SItem? { StandsOne(c, a, 44); } else { StandsNothing(c, a); }
    StandsConcat(c, a, comma, rest);
    StandsConcat(c, e, items.after, comma + rest);
    StandsConcat(c, v, Spell(items.value), items.after + (comma + rest));
    StandsConcat(c, p, items.before, Spell(items.value) + (items.after + (comma + rest)));
  }

  lemma {:induction false} ObjectSpelled(c: bytes, o: nat, depth: nat) returns (members: SMembers)
    requires o < |c| && depth <= NESTING_LIMIT && c[o] == 123 && ParseObject(c, o, depth).Ok?
    ensures Stands(c, o, [123] + SpellMembers(members))
    decreases |c| - o, 2
  {
    hide ParseMembers, Stands, SkipSpace;
    var v := SkipSpace(c, o + 1);
    if c[v] == 125 {
      members := SClose(Skipped(c, o + 1));
      EndSpelled(c, o + 1, members.inner, 125);
    } else {
      SkipTwice(c, o + 1);
      var rest := MembersSpelled(c, v - 1, depth + 1);
      members := rest.(before := Skipped(c, o + 1));
      MembersBefore(c, o + 1, rest, members.before);
    }
    StandsOne(c, o, 123);
    StandsConcat(c, o, [123], SpellMembers(members));
  }

  /** What was read as a name: white space, a string, white space, a colon and white space. */
  lemma NameSpelled(c: bytes, o: nat) returns (before: blank, key: token, mid: blank, q: nat)
    requires o < |c| && ParseName(c, o).Ok?
    ensures
      var k := o + 1 + |before|;
      var e := k + |SpellString(key)|;
      && Stands(c, o + 1, before) && Stands(c, k, SpellString(key)) && Stands(c, e, mid) && q == e + |mid|
      && q < |c| && c[q] == 58 && q + 1 <= |c| && ParseName(c, o).end == SkipSpace(c, q + 1)
      && o + 1 <= |c| && SkipSpace(c, o + 1) == k < |c| && c[k] > 32
  {
    hide Stands, SkipSpace, ParseString, SpellString, Meaning, StringOf;
    var k := SkipSpace(c, o + 1);
    StringStarts(c, k);
    before := Skipped(c, o + 1);
    key := StringSpelled(c, k);
    StringRead(c, k, key);
    var e := ParseString(c, k).end;
    mid := Skipped(c, e);
    q := SkipSpace(c, e);
  }

  lemma StringStarts(c: bytes, o: nat)
    requires o < |c| && ParseString(c, o).Ok?
    ensures c[o] == 34
  {
  }

  lemma MembersBefore(c: bytes, p: nat, rest: SMembers, before: blank)
    requires rest.SMember? && rest.before == [] && Stands(c, p, before) && Stands(c, p + |before|, SpellMembers(rest))
    ensures Stands(c, p, SpellMembers(rest.(before := before)))
  {
    hide Stands, Spell, SpellString;
    assert SpellMembers(rest.(before := before)) == before + SpellMembers(rest);
    StandsConcat(c, p, before, SpellMembers(rest));
  }

  /** The members behind the byte at `o`, the first white space included. */
  lemma {:induction false} MembersSpelled(c: bytes, o: nat, depth: nat) returns (m: SMembers)
    requires o < |c| && depth <= NESTING_LIMIT && ParseMembers(c, o, depth).Ok?
    ensures m.SMember? && o + 1 + |m.before| == SkipSpace(c, o + 1) && Stands(c, o + 1, SpellMembers(m))
    ensures SkipSpace(c, o + 1) < |c| && c[SkipSpace(c, o + 1)] > 32
    decreases |c| - o, 1
  {
    hide ParseValue, ParseName, ParseMembers, ParseMember, Stands, SkipSpace, Spell, SpellMembers, SpellRest,
      SpellString, Closes;
    var v, e, q := MembersGo(c, o, depth);
    var before, key, mid, colon := NameSpelled(c, o);
    ValueStarts(c, v, depth);
    var value := ValueSpelled(c, v, depth);
    var lead, after := Skipped(c, colon + 1), Skipped(c, e);
    var next := SClose([]);
    if c[q] == 44 {
      next := MembersSpelled(c, q, depth);
    }
    m := MemberMade(c, o + 1, before, key, mid, lead, value, after, next);
  }

  /** A member is spelled by its parts; the last one leaves its white space to the closing brace. */
  lemma MemberMade(c: bytes, p: nat, before: blank, key: token, mid: blank, lead: blank, value: Syntax, after: blank,
                   next: SMembers)
    returns (m: SMembers)
    requires
      var e := p + |before| + |SpellString(key)|;
      var q := e + |mid|;
      var a := q + 1 + |lead| + |Spell(value)|;
      && Stands(c, p, before) && Stands(c, p + |before|, SpellString(key)) && Stands(c, e, mid)
      && q < |c| && c[q] == 58 && Stands(c, q + 1, lead) && Stands(c, q + 1 + |lead|, Spell(value))
      && Stands(c, a, after) && a + |after| < |c|
      && (if next.SMember? then c[a + |after|] == 44 && Stands(c, a + |after| + 1, SpellMembers(next))
          else c[a + |after|] == 125)
    ensures m.SMember? && m.before == before && Stands(c, p, SpellMembers(m))
  {
    hide Stands, Spell, SpellMembers, SpellRest, SpellString;
    var v := p + |before| + |SpellString(key)| + |mid| + 1 + |lead|;
    var e := v + |Spell(value)|;
    if next.SMember? {
      m := SMember(before, key, mid, lead, value, after, next);
    } else {
      m := SMember(before, key, mid, lead, value, [], SClose(after));
      EndSpelled(c, e, after, 125);
      CloseIs(after);
      StandsNothing(c, e);
    }
    RestSpelled(c, v, m);
    MemberSpelled(c, p, m);
  }

  /** How the members after the byte at `o` go on. */
  lemma MembersGo(c: bytes, o: nat, depth: nat) returns (v: nat, e: nat, q: nat)
    requires o < |c| && ParseMembers(c, o, depth).Ok?
    ensures ParseName(c, o).Ok? && v == ParseName(c, o).end <= |c|
    ensures ParseValue(c, v, depth).Ok? && e == ParseValue(c, v, depth).end <= |c|
    ensures o < v && o < e && o < q < |c| && q == SkipSpace(c, e)
    ensures c[q] == 125 || (c[q] == 44 && ParseMembers(c, q, depth).Ok?)
  {
    hide ParseValue, ParseName;
    v := ParseName(c, o).end;
    e := ParseValue(c, v, depth).end;
    q := SkipSpace(c, e);
    hide SkipSpace;
    assert ParseMember(c, o, depth).Ok? && ParseMember(c, o, depth).end == e;
  }

  lemma CloseIs(inner: blank)
    ensures SpellMembers(SClose(inner)) == inner + [125]
  {
  }

  lemma RestSpelled(c: bytes, v: nat, m: SMembers)
    requires m.SMember?
    requires
      var e := v + |Spell(m.value)|;
      var a := e + |m.after|;
      && Stands(c, v, Spell(m.value)) && Stands(c, e, m.after)
      && (m.next.SMember? ==> a < |c| && c[a] == 44)
      && Stands(c, if m.next.SMember? then a + 1 else a, SpellMembers(m.next))
    ensures Stands(c, v, SpellRest(m))
  {
    hide Stands, Spell, SpellMembers;
    var comma: bytes := if m.next.SMember? then [44] else [];
    var rest := SpellMembers(m.next);
    var e := v + |Spell(m.value)|;
    var a := e + |m.after|;
    StandsInside(c, e, m.after);
    if m.next.SMember? { StandsOne(c, a, 44); } else { StandsNothing(c, a); }
    StandsConcat(c, a, comma, rest);
    StandsConcat(c, e, m.after, comma + rest);
    StandsConcat(c, v, Spell(m.value), m.after + (comma + rest));
  }

  lemma MemberSpelled(c: bytes, p: nat, m: SMembers)
    requires m.SMember?
    requires
      var k := p + |m.before|;
      var e := k + |SpellString(m.key)|;
      var q := e + |m.mid|;
      && Stands(c, p, m.before) && Stands(c, k, SpellString(m.key)) && Stands(c, e, m.mid)
      && q < |c| && c[q] == 58 && Stands(c, q + 1, m.lead) && Stands(c, q + 1 + |m.lead|, SpellRest(m))
    ensures Stands(c, p, SpellMembers(m))
  {
    hide Stands, Spell, SpellString;
    var key := SpellString(m.key);
    var t := m.lead + SpellRest(m);
    var k := p + |m.before|;
    var e := k + |key|;
    var q := e + |m.mid|;
    assert SpellMembers(m) == m.before + (key + (m.mid + ([58] + t)));
    hide SpellMembers, SpellRest;
    StandsOne(c, q, 58);
    StandsConcat(c, q + 1, m.lead, SpellRest(m));
    StandsConcat(c, q, [58], t);
    StandsConcat(c, e, m.mid, [58] + t);
    StandsConcat(c, k, key, m.mid + ([58] + t));
    StandsConcat(c, p, m.before, key + (m.mid + ([58] + t)));
  }

  // ----- exactly these texts -----

  /**
   * The bytes read: a byte order mark if at least two more bytes follow it, white space and the
   * text of a value, which stops there. With a required terminator, nothing but white space
   * follows up to the last byte, which is NUL; else the rest is not looked at.
   */
  ghost predicate Reads(c: bytes, requireNul: bool, e: nat, before: blank, s: Syntax) {
    var o := if |c| > 4 && Stands(c, 0, [0xEF, 0xBB, 0xBF]) then 3 else 0;
    var v := o + |before|;
    var z := v + |Spell(s)|;
    && Stands(c, o, before) && Stands(c, v, Spell(s)) && Closes(s, c, z)
    && if requireNul then z < |c| && Blank(c, z, |c|) && c[|c| - 1] == 0 && e == |c| - 1 else e == z
  }

  lemma MarkIs(c: bytes)
    ensures BomLength(c) == if |c| > 4 && Stands(c, 0, [0xEF, 0xBB, 0xBF]) then 3 else 0
  {
  }

  lemma SkipToEnd(c: bytes, z: nat)
    requires z < |c| && Blank(c, z, |c|)
    ensures SkipSpace(c, z) == |c| - 1
  {
    assert SpaceEnd(c, z) == |c|;
  }

  lemma SkippedToNul(c: bytes, z: nat)
    requires z <= |c| && SkipSpace(c, z) < |c| && c[SkipSpace(c, z)] == 0
    ensures z < |c| && Blank(c, z, |c|) && SkipSpace(c, z) == |c| - 1
  {
  }

  lemma ReadsParses(c: bytes, requireNul: bool, e: nat, before: blank, s: Syntax)
    requires Reads(c, requireNul, e, before, s) && Paired(s) && Depth(Meant(s)) <= NESTING_LIMIT
    ensures ParseDocument(c, requireNul) == Ok(Meant(s), e)
  {
    hide Spell, Depth, Meant, Paired, ParseValue, SkipSpace, Stands, BomLength, Closes;
    MarkIs(c);
    var o := BomLength(c);
    var v := o + |before|;
    var z := v + |Spell(s)|;
    SpellStart(s);
    StandsByte(c, v, Spell(s), 0);
    StandsBlank(c, o, before);
    hide Blank;
    SkipTo(c, o, v);
    ValueRead(c, v, s, 0);
    if requireNul { SkipToEnd(c, z); }
  }

  lemma ParsesReads(c: bytes, requireNul: bool) returns (before: blank, s: Syntax)
    requires ParseDocument(c, requireNul).Ok?
    ensures Reads(c, requireNul, ParseDocument(c, requireNul).end, before, s)
    ensures Paired(s) && Depth(Meant(s)) <= NESTING_LIMIT && ParseDocument(c, requireNul).value == Meant(s)
  {
    hide Spell, Depth, Meant, Paired, ParseValue, SkipSpace, Stands, BomLength, Closes, Blank;
    MarkIs(c);
    var o := BomLength(c);
    var v := SkipSpace(c, o);
    ValueStarts(c, v, 0);
    before := Skipped(c, o);
    s := ValueSpelled(c, v, 0);
    ValueRead(c, v, s, 0);
    if requireNul { SkippedToNul(c, v + |Spell(s)|); }
  }

  /**
   * `cJSON_ParseWithLengthOpts` takes exactly these texts, and returns what they mean: on every
   * buffer, a value and a parse end come back if and only if the buffer reads as such a text up to
   * that end, all surrogates are paired, it nests at most 1000 levels and it means that value.
   */
  lemma ParsesIff(c: bytes, requireNul: bool, v: Json, e: nat)
    ensures ParseDocument(c, requireNul) == Ok(v, e) <==>
              exists before: blank, s: Syntax ::
                Reads(c, requireNul, e, before, s) && Paired(s) && Depth(v) <= 1000 && Meant(s) == v
  {
    hide Reads, Depth, Meant, Paired, ParseDocument;
    if ParseDocument(c, requireNul) == Ok(v, e) {
      var before, s := ParsesReads(c, requireNul);
    }
    forall before: blank, s: Syntax
      | Reads(c, requireNul, e, before, s) && Paired(s) && Depth(v) <= 1000 && Meant(s) == v
      ensures ParseDocument(c, requireNul) == Ok(v, e)
    {
      ReadsParses(c, requireNul, e, before, s);
    }
  }
}
