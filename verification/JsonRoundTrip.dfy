/**
 * Parsing what the printer is meant to produce gives back the tree: printed text is one spelling
 * of a syntax tree that means the value.
 */
module JsonRoundTrip {
  import opened Bytes
  import opened JsonTree
  import opened JsonGrammar
  import opened JsonNumber
  import opened JsonSyntax

  // ----- numbers -----

  function DigitsOf(n: nat): (d: digits)
    ensures d[0] == 48 ==> n == 0
    ensures n == 0 ==> |d| == 1
  {
    if n < 10 then [48 + n] else DigitsOf(n / 10) + [48 + n % 10]
  }

  function NumOf(n: int): strict {
    Num(n < 0, DigitsOf(if n < 0 then -n else n), None, None)
  }

  lemma {:induction false} DigitsOfIsDigits(n: nat)
    ensures DigitsOf(n) == Digits(n) && DecimalValue(DigitsOf(n)) == n
  {
    if n >= 10 {
      DigitsOfIsDigits(n / 10);
      var d := DigitsOf(n / 10) + [48 + n % 10];
      assert d[..|d| - 1] == DigitsOf(n / 10);
    } else {
      assert DecimalValue([]) == 0;
    }
  }

  lemma NumberSpelling(n: int)
    ensures SpellNum(NumOf(n)) == IntText(n)
  {
    hide Digits, DigitsOf;
    DigitsOfIsDigits(if n < 0 then -n else n);
    assert SpellFraction(None) + SpellExp(None) == [];
  }

  /** Without fraction and exponent a number is worth its digits. */
  lemma PlainValue(minus: bool, d: digits)
    ensures var v := DecimalValue(d) as real; NumValue(Num(minus, d, None, None)) == if minus then -v else v
  {
    hide DecimalValue;
  }

  function NumOfReal(d: real, g: Printf): strict {
    if IsInteger(d) then NumOf(ValueInt(d)) else PrintedNum(d, g)
  }

  lemma RealSpelling(d: real, g: Printf)
    ensures SpellNum(NumOfReal(d, g)) == NumberText(d, g)
    ensures IsInteger(d) ==> NumValue(NumOfReal(d, g)) == d
  {
    hide SpellNum, IntText, ValueInt, NumValue, DigitsOf, DecimalValue;
    if IsInteger(d) {
      var n := ValueInt(d);
      var m := if n < 0 then -n else n;
      NumberSpelling(n);
      DigitsOfIsDigits(m);
      PlainValue(n < 0, DigitsOf(m));
    }
  }

  // ----- strings -----

  function CharOf(b: cchar): (ch: Char)
    ensures IsRfcChar(ch)
  {
    if b == 34 || b == 92 then Short(b)
    else if b == 8 then Short(98)
    else if b == 12 then Short(102)
    else if b == 10 then Short(110)
    else if b == 13 then Short(114)
    else if b == 9 then Short(116)
    else if b < 32 then Unit(48, 48, HexDigit(b / 16), HexDigit(b % 16))
    else Plain(b)
  }

  function CharsOf(s: cstring): (cs: seq<Char>)
    ensures forall c :: c in cs ==> IsRfcChar(c)
  {
    if s == [] then [] else [CharOf(s[0])] + CharsOf(s[1..])
  }

  function QuoteOf(s: cstring): (q: token)
    ensures IsRfcToken(q) && q.chars == CharsOf(s)
  {
    Quote(CharsOf(s))
  }

  lemma CharSpelling(b: cchar)
    ensures SpellChar(CharOf(b)) == EscapeByte(b)
  {
  }

  lemma {:induction false} StringSpelling(s: cstring)
    ensures SpellChars(CharsOf(s)) == Escape(s)
  {
    if s != [] {
      CharSpelling(s[0]);
      StringSpelling(s[1..]);
      assert CharsOf(s)[1..] == CharsOf(s[1..]);
    }
  }

  lemma QuoteSpelling(s: cstring)
    ensures SpellString(QuoteOf(s)) == Quoted(s)
  {
    hide SpellChars, Escape;
    StringSpelling(s);
    Concat3([34], Escape(s), [34]);
  }

  lemma {:induction false} StringMeaning(s: cstring)
    ensures Meaning(CharsOf(s)) == Some(s)
  {
    if s != [] {
      StringMeaning(s[1..]);
      CharMeaning(s[0]);
      var cs := CharsOf(s);
      assert cs[1..] == CharsOf(s[1..]);
      assert [s[0]] + s[1..] == s;
    }
  }

  lemma CharMeaning(b: cchar)
    ensures
      var ch := CharOf(b);
      && (ch.Plain? ==> ch.b == b) && (ch.Short? ==> EscapedByte(ch.letter) == b)
      && (ch.Unit? ==> UnitValue(ch) == b < 32 && Utf8(UnitValue(ch)) == [b])
  {
  }

  lemma StringOfChars(s: cstring)
    ensures StringOf(CharsOf(s)) == s
  {
    hide Meaning;
    StringMeaning(s);
    CStrOfCString(s);
  }

  // ----- values -----

  function NewLine(format: bool): rfcblank { if format then [10] else [] }

  function Space(next: Items, format: bool): rfcblank { if next.Item? && format then [32] else [] }

  function Lead(format: bool): rfcblank { if format then [9] else [] }

  function Line(depth: nat, format: bool): rfcblank {
    NewLine(format) + Indent(depth, format)
  }

  /** The syntax tree whose spelling is the printed text. */
  function SyntaxOf(v: Json, depth: nat, format: bool, g: Printf): (s: Syntax)
    ensures IsRfc(s)
  {
    match v
    case Null => SNull
    case False => SFalse
    case True => STrue
    case Number(d) => SNumber(NumOfReal(d, g))
    case String(s) => SString(QuoteOf(s))
    case Array(items) => SArray(ItemsOf(items, [], depth + 1, format, g))
    case Object(members) => SObject(MembersOf(members, depth + 1, format, g))
  }

  function ItemsOf(items: Items, before: rfcblank, depth: nat, format: bool, g: Printf): (s: SItems)
    ensures IsRfcItems(s)
  {
    match items
    case NoItem => SEnd(before)
    case Item(head, next) =>
      SItem(before, SyntaxOf(head, depth, format, g), [],
            ItemsOf(next, Space(next, format), depth, format, g))
  }

  function MembersOf(members: Members, depth: nat, format: bool, g: Printf): (s: SMembers)
    requires depth > 0
    ensures IsRfcMembers(s)
  {
    match members
    case NoMember => SClose(Line(depth - 1, format))
    case Member(key, value, next) =>
      SMember(Line(depth, format), QuoteOf(key), [], Lead(format), SyntaxOf(value, depth, format, g), [],
              MembersOf(next, depth, format, g))
  }

  lemma NothingFirst(t: bytes)
    ensures [] + t == t
  {
  }

  lemma ArrayConcat(t: bytes)
    ensures [91] + ([] + (t + [93])) == [91] + t + [93]
  {
    NothingFirst(t + [93]);
    Concat3([91], t, [93]);
  }

  lemma ObjectConcat(line: bytes, t: bytes, indent: bytes)
    ensures [123] + (line + (t + (indent + [125]))) == [123] + line + t + indent + [125]
  {
    Concat4([123] + line, t, indent, [125]);
    Concat3([123], line, t + (indent + [125]));
  }

  lemma ItemConcat(before: bytes, t: bytes, comma: bytes, space: bytes, rest: bytes, close: bytes)
    ensures before + (t + ([] + (comma + (space + (rest + close)))))
         == before + (t + (comma + space) + rest + close)
  {
    NothingFirst(comma + (space + (rest + close)));
    Concat3(comma, space, rest + close);
    Concat4(t, comma + space, rest, close);
  }

  lemma MemberConcat(line: bytes, indent: bytes, key: bytes, lead: bytes, t: bytes, comma: bytes, rest: bytes, z: bytes)
    ensures (line + indent) + (key + ([] + ([58] + (lead + (t + ([] + (comma + (line + (rest + z)))))))))
         == line + ((indent + key + ([58] + lead) + t + (comma + line) + rest) + z)
  {
    var x := rest + z;
    Concat3(comma, line, x);
    NothingFirst(comma + (line + x));
    var y := t + ((comma + line) + x);
    Concat3([58], lead, y);
    NothingFirst([58] + (lead + y));
    Concat3(line, indent, key + (([58] + lead) + y));
    Concat7(indent, key, [58] + lead, t, comma + line, rest, z);
  }

  lemma {:induction false} Spelling(v: Json, depth: nat, format: bool, g: Printf)
    ensures Spell(SyntaxOf(v, depth, format, g)) == Text(v, depth, format, g)
    decreases v, 1
  {
    hide SpellItems, ItemsOf, ItemsText, SpellMembers, MembersOf, MembersText, SpellNum, NumOfReal, NumberText,
      SpellString, QuoteOf, Quoted, Indent, OpenBrace, NewLine;
    match v
    case Null =>
    case False =>
    case True =>
    case Number(d) => RealSpelling(d, g);
    case String(s) => QuoteSpelling(s);
    case Array(items) =>
      ItemsSpelling(items, [], depth + 1, format, g);
      ArrayConcat(ItemsText(items, depth + 1, format, g));
    case Object(members) => ObjectSpelling(members, depth, format, g);
  }

  lemma {:induction false} ObjectSpelling(members: Members, depth: nat, format: bool, g: Printf)
    ensures Spell(SyntaxOf(Object(members), depth, format, g)) == Text(Object(members), depth, format, g)
    decreases members, 1
  {
    hide SpellItems, ItemsOf, ItemsText, SpellMembers, MembersOf, MembersText, Indent, OpenBrace, NewLine;
    MembersSpelling(members, depth + 1, format, g);
    OpeningLine(format);
    ObjectConcat(NewLine(format), MembersText(members, depth + 1, format, g), Indent(depth, format));
  }

  lemma OpeningLine(format: bool)
    ensures OpenBrace(format) == [123] + NewLine(format)
  {
  }

  lemma ItemSeparator(next: Items, format: bool)
    ensures ItemComma(next, format) == (if next.Item? then [44] else []) + Space(next, format)
  {
  }

  lemma MemberSeparator(next: Members, format: bool)
    ensures MemberEnd(next, format) == (if next.Member? then [44] else []) + NewLine(format)
    ensures Colon(format) == [58] + Lead(format)
  {
  }

  lemma {:induction false} ItemsSpelling(items: Items, before: rfcblank, depth: nat, format: bool, g: Printf)
    ensures SpellItems(ItemsOf(items, before, depth, format, g)) == before + (ItemsText(items, depth, format, g) + [93])
    decreases items, 0
  {
    hide Spell, SyntaxOf, Text, ItemComma, Space;
    match items
    case NoItem => NothingFirst([93]);
    case Item(head, next) =>
      var comma: bytes := if next.Item? then [44] else [];
      Spelling(head, depth, format, g);
      ItemsSpelling(next, Space(next, format), depth, format, g);
      ItemSeparator(next, format);
      ItemConcat(before, Text(head, depth, format, g), comma, Space(next, format),
                 ItemsText(next, depth, format, g), [93]);
  }

  lemma {:induction false} MembersSpelling(m: Members, depth: nat, format: bool, g: Printf)
    requires depth > 0
    ensures SpellMembers(MembersOf(m, depth, format, g))
         == NewLine(format) + (MembersText(m, depth, format, g) + (Indent(depth - 1, format) + [125]))
    decreases m, 0
  {
    hide Spell, SyntaxOf, Text, NewLine, Indent, MemberEnd, Colon, Lead, SpellString, QuoteOf, Quoted;
    var close := Indent(depth - 1, format) + [125];
    match m
    case NoMember =>
      NothingFirst(close);
      Concat3(NewLine(format), Indent(depth - 1, format), [125]);
    case Member(key, value, next) =>
      var comma: bytes := if next.Member? then [44] else [];
      Spelling(value, depth, format, g);
      QuoteSpelling(key);
      MembersSpelling(next, depth, format, g);
      MemberSeparator(next, format);
      MemberConcat(NewLine(format), Indent(depth, format), Quoted(key), Lead(format), Text(value, depth, format, g),
                   comma, MembersText(next, depth, format, g), close);
  }

  // ----- meaning -----

  /** The tree with every number replaced by what its text is worth. */
  function ReadBack(v: Json, g: Printf): Json {
    match v
    case Number(d) => Number(NumValue(NumOfReal(d, g)))
    case Array(items) => Array(ReadBackItems(items, g))
    case Object(members) => Object(ReadBackMembers(members, g))
    case _ => v
  }

  function ReadBackItems(items: Items, g: Printf): Items {
    match items
    case NoItem => NoItem
    case Item(head, next) => Item(ReadBack(head, g), ReadBackItems(next, g))
  }

  function ReadBackMembers(members: Members, g: Printf): Members {
    match members
    case NoMember => NoMember
    case Member(key, value, next) => Member(key, ReadBack(value, g), ReadBackMembers(next, g))
  }

  /** The same tree but for numbers, which compare equal as the program compares them. */
  predicate Alike(v: Json, w: Json) {
    match v
    case Number(d) => w.Number? && CompareDouble(w.value, d)
    case Array(items) => w.Array? && AlikeItems(items, w.items)
    case Object(members) => w.Object? && AlikeMembers(members, w.members)
    case _ => w == v
  }

  predicate AlikeItems(items: Items, others: Items) {
    match items
    case NoItem => others.NoItem?
    case Item(head, next) => others.Item? && Alike(head, others.head) && AlikeItems(next, others.next)
  }

  predicate AlikeMembers(members: Members, others: Members) {
    match members
    case NoMember => others.NoMember?
    case Member(key, value, next) =>
      others.Member? && key == others.key && Alike(value, others.value) && AlikeMembers(next, others.next)
  }

  /** For every number that is no 32-bit integer, fifteen or seventeen digits are enough to get it back. */
  predicate Precise(v: Json, g: Printf) {
    match v
    case Number(d) =>
      IsInteger(d) || CompareDouble(NumValue(g.short(d)), d) || CompareDouble(NumValue(g.long(d)), d)
    case Array(items) => PreciseItems(items, g)
    case Object(members) => PreciseMembers(members, g)
    case _ => true
  }

  predicate PreciseItems(items: Items, g: Printf) {
    match items
    case NoItem => true
    case Item(head, next) => Precise(head, g) && PreciseItems(next, g)
  }

  predicate PreciseMembers(members: Members, g: Printf) {
    match members
    case NoMember => true
    case Member(_, value, next) => Precise(value, g) && PreciseMembers(next, g)
  }

  lemma NumberReadBack(d: real, g: Printf)
    ensures IsInteger(d) ==> NumValue(NumOfReal(d, g)) == d
    ensures CompareDouble(NumValue(NumOfReal(d, g)), d) <==> Precise(Number(d), g)
  {
    hide NumValue, NumOf, ValueInt;
    RealSpelling(d, g);
  }

  /** Reading back changes no tree of integers, no shape, and no number that its digits are enough for. */
  lemma {:induction false} ReadsBack(v: Json, g: Printf)
    ensures IntegersOnly(v) ==> ReadBack(v, g) == v
    ensures Depth(ReadBack(v, g)) == Depth(v)
    ensures Alike(v, ReadBack(v, g)) <==> Precise(v, g)
  {
    hide NumOfReal, NumValue, CompareDouble, IsInteger;
    match v
    case Number(d) => NumberReadBack(d, g);
    case Array(items) => ItemsReadBack(items, g);
    case Object(members) => MembersReadBack(members, g);
    case _ =>
  }

  lemma {:induction false} ItemsReadBack(items: Items, g: Printf)
    ensures IntegersOnlyItems(items) ==> ReadBackItems(items, g) == items
    ensures ItemsDepth(ReadBackItems(items, g)) == ItemsDepth(items)
    ensures AlikeItems(items, ReadBackItems(items, g)) <==> PreciseItems(items, g)
  {
    if items.Item? {
      ReadsBack(items.head, g);
      ItemsReadBack(items.next, g);
    }
  }

  lemma {:induction false} MembersReadBack(m: Members, g: Printf)
    ensures IntegersOnlyMembers(m) ==> ReadBackMembers(m, g) == m
    ensures MembersDepth(ReadBackMembers(m, g)) == MembersDepth(m)
    ensures AlikeMembers(m, ReadBackMembers(m, g)) <==> PreciseMembers(m, g)
  {
    if m.Member? {
      ReadsBack(m.value, g);
      MembersReadBack(m.next, g);
    }
  }

  lemma {:induction false} Meanings(v: Json, depth: nat, format: bool, g: Printf)
    ensures Meant(SyntaxOf(v, depth, format, g)) == ReadBack(v, g) && Paired(SyntaxOf(v, depth, format, g))
  {
    hide StringOf, NumValue, NumOfReal, CharsOf;
    match v
    case Null =>
    case False =>
    case True =>
    case Number(_) =>
    case String(s) => StringOfChars(s); StringMeaning(s);
    case Array(items) => ItemsMeaning(items, [], depth + 1, format, g);
    case Object(members) => MembersMeaning(members, depth + 1, format, g);
  }

  lemma {:induction false} ItemsMeaning(items: Items, before: rfcblank, depth: nat, format: bool, g: Printf)
    ensures
      var s := ItemsOf(items, before, depth, format, g);
      MeantItems(s) == ReadBackItems(items, g) && PairedItems(s)
  {
    if items.Item? {
      Meanings(items.head, depth, format, g);
      ItemsMeaning(items.next, Space(items.next, format), depth, format, g);
    }
  }

  lemma {:induction false} MembersMeaning(m: Members, depth: nat, format: bool, g: Printf)
    requires depth > 0
    ensures
      var s := MembersOf(m, depth, format, g);
      MeantMembers(s) == ReadBackMembers(m, g) && PairedMembers(s)
  {
    hide StringOf, CharsOf, Meaning;
    if m.Member? {
      StringOfChars(m.key);
      StringMeaning(m.key);
      Meanings(m.value, depth, format, g);
      MembersMeaning(m.next, depth, format, g);
    }
  }

  // ----- round trips -----

  /** A string parses to the bytes it was printed from. */
  lemma StringRoundTrip(c: bytes, o: nat, s: cstring)
    requires Stands(c, o, Quoted(s))
    ensures o < |c| && ParseString(c, o) == Ok(s, o + |Quoted(s)|)
  {
    hide Meaning, StringOf, ParseString, Quoted, SpellString, SpellChars;
    QuoteSpelling(s);
    StringMeaning(s);
    StringOfChars(s);
    StringRead(c, o, QuoteOf(s));
  }

  /**
   * Parsing a printed value at nesting depth `depth` gives the value back, its numbers as their
   * texts say, and stops right after it if the nesting limit leaves room for it, and fails if not.
   */
  lemma ValueRoundTrip(c: bytes, o: nat, v: Json, indent: nat, format: bool, depth: nat, g: Printf)
    requires depth <= NESTING_LIMIT
    requires Stands(c, o, Text(v, indent, format, g)) && Ends(c, o + |Text(v, indent, format, g)|)
    ensures ParseValue(c, o, depth)
         == Expected(depth + Depth(v) <= NESTING_LIMIT, ReadBack(v, g), o + |Text(v, indent, format, g)|)
  {
    hide Text, Spell, ParseValue, Depth, Meant, Paired, IntegersOnly, SyntaxOf, ReadBack, Alike, Precise;
    Spelling(v, indent, format, g);
    Meanings(v, indent, format, g);
    ReadsBack(v, g);
    EndsCloses(SyntaxOf(v, indent, format, g), c, o + |Text(v, indent, format, g)|);
    ValueRead(c, o, SyntaxOf(v, indent, format, g), depth);
  }

  /**
   * `cJSON_Parse` of any printed tree, formatted or not, gives a tree back exactly when the tree
   * nests no deeper than the parser's limit; deeper ones are rejected. It is the same tree if all
   * numbers are 32-bit integers; in general its numbers compare equal to the ones printed exactly
   * when the digits printed are enough for that.
   */
  lemma DocumentRoundTrip(v: Json, format: bool, requireNul: bool, g: Printf)
    ensures
      var t: bytes := Text(v, 0, format, g);
      ParseDocument(t + [0], requireNul) == Expected(Depth(v) <= 1000, ReadBack(v, g), |t|)
    ensures IntegersOnly(v) ==> ReadBack(v, g) == v
    ensures Alike(v, ReadBack(v, g)) <==> Precise(v, g)
  {
    hide Text, Spell, ParseValue, Depth, Meant, Paired, IntegersOnly, SyntaxOf, ParseDocument, ReadBack, Alike, Precise;
    var t: bytes := Text(v, 0, format, g);
    Spelling(v, 0, format, g);
    Meanings(v, 0, format, g);
    ReadsBack(v, g);
    DocumentRead(false, [], SyntaxOf(v, 0, format, g), [], true, requireNul);
    assert Document(false, [], SyntaxOf(v, 0, format, g), [], true) == t + [0];
  }
}
