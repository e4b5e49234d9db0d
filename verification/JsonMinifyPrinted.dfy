/** Minifying formatted text: for which trees it gives the unformatted text. */
module JsonMinifyPrinted {
  import opened Bytes
  import opened JsonTree
  import opened JsonMinify
  import opened JsonNumber

  predicate EndsInBackslash(s: cstring) {
    s != [] && s[|s| - 1] == 92
  }

  /** No string and no key ends in a backslash. */
  predicate Clean(v: Json) {
    match v
    case String(s) => !EndsInBackslash(s)
    case Array(items) => CleanItems(items)
    case Object(members) => CleanMembers(members)
    case _ => true
  }

  predicate CleanItems(items: Items) {
    match items
    case NoItem => true
    case Item(head, next) => Clean(head) && CleanItems(next)
  }

  predicate CleanMembers(members: Members) {
    match members
    case NoMember => true
    case Member(key, value, next) => !EndsInBackslash(key) && Clean(value) && CleanMembers(next)
  }

  /** As `Clean`, but the very last string may end in a backslash if only `]` follows it. */
  predicate CleanButLast(v: Json) {
    match v
    case String(_) => true
    case Array(items) => CleanButLastItems(items)
    case Object(members) => CleanMembers(members)
    case _ => true
  }

  predicate CleanButLastItems(items: Items) {
    match items
    case NoItem => true
    case Item(head, NoItem) => CleanButLast(head)
    case Item(head, next) => Clean(head) && CleanButLastItems(next)
  }

  lemma {:induction false} CleanIsCleanButLast(v: Json)
    ensures Clean(v) ==> CleanButLast(v)
    decreases v, 1
  {
    if v.Array? {
      CleanItemsAreCleanButLast(v.items);
    }
  }

  lemma {:induction false} CleanItemsAreCleanButLast(items: Items)
    ensures CleanItems(items) ==> CleanButLastItems(items)
    decreases items, 0
  {
    if items.Item? {
      CleanIsCleanButLast(items.head);
      CleanItemsAreCleanButLast(items.next);
    }
  }

  // ----- texts that part ways -----

  /** Neither text is a prefix of the other: they differ at some position both have. */
  ghost predicate Diverges(a: bytes, b: bytes) {
    a != [] && b != [] && (a[0] != b[0] || Diverges(a[1..], b[1..]))
  }

  lemma {:induction false} DivergesMeansDifferent(a: bytes, b: bytes)
    requires Diverges(a, b)
    ensures a != b
  {
    if a[0] == b[0] {
      DivergesMeansDifferent(a[1..], b[1..]);
    }
  }

  lemma {:induction false} DivergesAfter(p: bytes, a: bytes, b: bytes)
    requires Diverges(a, b)
    ensures Diverges(p + a, p + b)
  {
    if p == [] {
      assert p + a == a && p + b == b;
    } else {
      assert (p + a)[1..] == p[1..] + a && (p + b)[1..] == p[1..] + b;
      DivergesAfter(p[1..], a, b);
    }
  }

  lemma {:induction false} DivergesBefore(a: bytes, b: bytes, q: bytes)
    requires Diverges(a, b)
    ensures Diverges(a, b + q)
  {
    assert (b + q)[0] == b[0] && (b + q)[1..] == b[1..] + q;
    if a[0] == b[0] {
      DivergesBefore(a[1..], b[1..], q);
    }
  }

  // ----- strings -----

  lemma StringCopies(b: byte, rest: bytes)
    requires b != 34 && (b != 92 || rest == [] || rest[0] != 34)
    ensures MinifiedString([b] + rest) == [b] + MinifiedString(rest)
  {
    assert ([b] + rest)[1..] == rest;
  }

  /** An escape other than `\\\\` is copied, whatever follows. */
  lemma EscapeCopies(b: cchar, rest: bytes)
    requires b != 92
    ensures MinifiedString(EscapeByte(b) + rest) == EscapeByte(b) + MinifiedString(rest)
  {
    var t: bytes := EscapeByte(b);
    if b == 34 {
      assert ([92, 34] + rest)[2..] == rest;
    } else if |t| == 1 {
      StringCopies(b, rest);
    } else if |t| == 2 {
      assert t + rest == [92] + ([t[1]] + rest);
      StringCopies(92, [t[1]] + rest);
      StringCopies(t[1], rest);
      assert t == [92] + [t[1]];
      Concat3([92], [t[1]], MinifiedString(rest));
    } else {
      UnicodeCopies(t[4], t[5], rest);
    }
  }

  lemma {:induction false} RunCopies(t: bytes, rest: bytes)
    requires forall i :: 0 <= i < |t| ==> t[i] != 34 && t[i] != 92
    ensures MinifiedString(t + rest) == t + MinifiedString(rest)
  {
    hide MinifiedString;
    if t == [] {
      assert t + rest == rest && t + MinifiedString(rest) == MinifiedString(rest);
    } else {
      assert t == [t[0]] + t[1..];
      Concat3([t[0]], t[1..], rest);
      StringCopies(t[0], t[1..] + rest);
      RunCopies(t[1..], rest);
      Concat3([t[0]], t[1..], MinifiedString(rest));
    }
  }

  lemma UnicodeCopies(x: cchar, y: cchar, rest: bytes)
    requires x != 34 && x != 92 && y != 34 && y != 92
    ensures MinifiedString([92, 117, 48, 48, x, y] + rest)
         == [92, 117, 48, 48, x, y] + MinifiedString(rest)
  {
    hide MinifiedString;
    var run: bytes := [117, 48, 48, x, y];
    assert [92, 117, 48, 48, x, y] == [92] + run;
    Concat3([92], run, rest);
    Concat3([92], run, MinifiedString(rest));
    StringCopies(92, run + rest);
    RunCopies(run, rest);
  }

  /** Inside the quotes everything survives; a final backslash hides the closing quote. */
  lemma {:induction false} EscapedSurvives(s: cstring, rest: bytes)
    ensures MinifiedString(Escape(s) + ([34] + rest))
         == Escape(s) + ([34] + (if EndsInBackslash(s) then MinifiedString(rest) else Minified(rest)))
  {
    var close := [34] + rest;
    var last := [34] + (if EndsInBackslash(s) then MinifiedString(rest) else Minified(rest));
    if s == [] {
      assert Escape(s) + close == close && close[1..] == rest;
      assert Escape(s) + last == last;
    } else if s == [92] {
      FinalBackslash(rest);
    } else {
      var b, tail := EscapeByte(s[0]), s[1..];
      assert tail == [] ==> !EndsInBackslash(s) && !EndsInBackslash(tail);
      assert tail != [] ==> s[|s| - 1] == tail[|tail| - 1];
      assert Escape(s) == b + Escape(tail);
      EscapedSurvives(tail, rest);
      hide MinifiedString, EscapeByte, Minified, Escape;
      Concat3(b, Escape(tail), close);
      Concat3(b, Escape(tail), last);
      if s[0] == 92 {
        BackslashCopies(tail, close);
      } else {
        EscapeCopies(s[0], Escape(tail) + close);
      }
    }
  }

  lemma FinalBackslash(rest: bytes)
    ensures MinifiedString(Escape([92]) + ([34] + rest))
         == Escape([92]) + ([34] + MinifiedString(rest))
  {
    assert Escape([92]) == [92, 92];
    var all := [92, 92] + ([34] + rest);
    assert all == [92] + ([92, 34] + rest);
    StringCopies(92, [92, 34] + rest);
    assert ([92, 34] + rest)[2..] == rest;
    assert [92] + ([92, 34] + MinifiedString(rest)) == [92, 92] + ([34] + MinifiedString(rest));
  }

  /** An escaped backslash is copied when the string goes on after it. */
  lemma BackslashCopies(tail: cstring, close: bytes)
    requires tail != []
    ensures MinifiedString(EscapeByte(92) + (Escape(tail) + close))
         == EscapeByte(92) + MinifiedString(Escape(tail) + close)
  {
    var rest := Escape(tail) + close;
    assert rest[0] == EscapeByte(tail[0])[0] != 34;
    assert [92, 92] + rest == [92] + ([92] + rest);
    StringCopies(92, [92] + rest);
    StringCopies(92, rest);
    assert [92] + ([92] + MinifiedString(rest)) == [92, 92] + MinifiedString(rest);
  }

  // ----- outside strings -----

  lemma CopyOne(b: byte, rest: bytes)
    requires !IsSpace(b) && b != 47 && b != 34
    ensures Minified([b] + rest) == [b] + Minified(rest)
  {
    assert ([b] + rest)[1..] == rest;
  }

  lemma DropOne(b: byte, rest: bytes)
    requires IsSpace(b)
    ensures Minified([b] + rest) == Minified(rest)
  {
    assert ([b] + rest)[1..] == rest;
  }

  lemma {:induction false} PlainCopies(t: bytes, rest: bytes)
    requires forall i :: 0 <= i < |t| ==> !IsSpace(t[i]) && t[i] != 47 && t[i] != 34
    ensures Minified(t + rest) == t + Minified(rest)
  {
    hide Minified;
    if t == [] {
      assert t + rest == rest && t + Minified(rest) == Minified(rest);
    } else {
      assert t == [t[0]] + t[1..];
      Concat3([t[0]], t[1..], rest);
      CopyOne(t[0], t[1..] + rest);
      PlainCopies(t[1..], rest);
      Concat3([t[0]], t[1..], Minified(rest));
    }
  }

  lemma {:induction false} SpacesDrop(t: bytes, rest: bytes)
    requires forall i :: 0 <= i < |t| ==> IsSpace(t[i])
    ensures Minified(t + rest) == Minified(rest)
  {
    hide Minified;
    if t == [] {
      assert t + rest == rest;
    } else {
      assert t == [t[0]] + t[1..];
      Concat3([t[0]], t[1..], rest);
      DropOne(t[0], t[1..] + rest);
      SpacesDrop(t[1..], rest);
    }
  }

  /** The minifier's reading of what follows a string, in or out of step. */
  function Onward(clean: bool, rest: bytes): bytes {
    if clean then Minified(rest) else MinifiedString(rest)
  }

  lemma QuotedSurvives(s: cstring, rest: bytes)
    ensures Minified(Quoted(s) + rest) == Quoted(s) + Onward(!EndsInBackslash(s), rest)
  {
    var last := Onward(!EndsInBackslash(s), rest);
    var inner := Escape(s) + ([34] + rest);
    EscapedSurvives(s, rest);
    QuoteOpens(inner);
    hide Minified, MinifiedString, Escape, Onward;
    Concat4([34], Escape(s), [34], rest);
    Concat4([34], Escape(s), [34], last);
  }

  lemma QuoteOpens(inner: bytes)
    ensures Minified([34] + inner) == [34] + MinifiedString(inner)
  {
    assert ([34] + inner)[1..] == inner;
  }

  lemma NumberCopies(d: real, rest: bytes, g: Printf)
    ensures Minified(NumberText(d, g) + rest) == NumberText(d, g) + Minified(rest)
  {
    hide NumberText, Minified;
    NumberTextBytes(d, g);
    PlainCopies(NumberText(d, g), rest);
  }

  lemma LiteralCopies(v: Json, d: nat, e: nat, rest: bytes, g: Printf)
    requires !v.String? && !v.Array? && !v.Object?
    ensures Text(v, d, true, g) == Text(v, e, false, g)
    ensures Minified(Text(v, d, true, g) + rest) == Text(v, e, false, g) + Minified(rest)
  {
    hide NumberText, Minified;
    match v
    case Null => PlainCopies(NullText(), rest);
    case False => PlainCopies(FalseText(), rest);
    case True => PlainCopies(TrueText(), rest);
    case Number(n) => NumberCopies(n, rest, g);
  }

  /** An unformatted value starts with a byte that is not white space. */
  lemma FirstByte(v: Json, e: nat, g: Printf)
    ensures Text(v, e, false, g) != [] && Text(v, e, false, g)[0] > 32
  {
    if v.Number? { NumberTextBytes(v.value, g); }
  }

  // ----- values -----

  /**
   * Minifying a formatted value leaves the unformatted one and goes on in step, goes on
   * as if inside a string, or has already gone wrong within the value.
   */
  lemma {:induction false} ValueMinified(v: Json, d: nat, e: nat, rest: bytes, g: Printf)
    ensures CleanButLast(v) ==>
              Minified(Text(v, d, true, g) + rest) == Text(v, e, false, g) + Onward(Clean(v), rest)
    ensures !CleanButLast(v) ==>
              Diverges(Minified(Text(v, d, true, g) + rest), Text(v, e, false, g))
    decreases v, 1
  {
    hide Text, Minified, MinifiedString;
    match v
    case String(s) =>
      QuotedText(s, d, e, g);
      QuotedSurvives(s, rest);
    case Array(items) => ArrayMinified(items, d, e, rest, g);
    case Object(members) => ObjectMinified(members, d, e, rest, g);
    case _ => LiteralCopies(v, d, e, rest, g);
  }

  lemma QuotedText(s: cstring, d: nat, e: nat, g: Printf)
    ensures Text(String(s), d, true, g) == Quoted(s) == Text(String(s), e, false, g)
  {
  }

  lemma ArrayTexts(items: Items, d: nat, format: bool, rest: bytes, g: Printf)
    ensures
      var body: bytes := ItemsText(items, d + 1, format, g);
      Text(Array(items), d, format, g) + rest == [91] + (body + ([93] + rest))
  {
    hide ItemsText;
  }

  lemma {:induction false} ArrayMinified(items: Items, d: nat, e: nat, rest: bytes, g: Printf)
    ensures
      var v := Array(items);
      && (CleanButLast(v) ==>
            Minified(Text(v, d, true, g) + rest) == Text(v, e, false, g) + Onward(Clean(v), rest))
      && (!CleanButLast(v) ==>
            Diverges(Minified(Text(v, d, true, g) + rest), Text(v, e, false, g)))
    decreases items, 2
  {
    hide Text, Minified, MinifiedString, ItemsText, Diverges, CleanItems, CleanButLastItems;
    var body: bytes := ItemsText(items, d + 1, true, g);
    var plain: bytes := ItemsText(items, e + 1, false, g);
    ArrayTexts(items, d, true, rest, g);
    ArrayTexts(items, e, false, Onward(CleanItems(items), rest), g);
    ArrayTexts(items, e, false, [], g);
    CopyOne(91, body + ([93] + rest));
    ItemsMinified(items, d + 1, e + 1, [93] + rest, g);
    CopyOne(93, rest);
    StringCopies(93, rest);
    if !CleanButLastItems(items) {
      DivergesBefore(Minified(body + ([93] + rest)), plain, [93] + []);
      DivergesAfter([91], Minified(body + ([93] + rest)), plain + ([93] + []));
      assert Text(Array(items), e, false, g) + [] == Text(Array(items), e, false, g);
    }
  }

  lemma ItemTexts(items: Items, d: nat, format: bool, rest: bytes, g: Printf)
    requires items.Item?
    ensures
      var t: bytes := Text(items.head, d, format, g);
      var comma: bytes := ItemComma(items.next, format);
      var tail: bytes := ItemsText(items.next, d, format, g);
      ItemsText(items, d, format, g) + rest == t + (comma + (tail + rest))
  {
    hide Text;
    Concat4(Text(items.head, d, format, g), ItemComma(items.next, format),
            ItemsText(items.next, d, format, g), rest);
  }

  lemma {:induction false} ItemsMinified(items: Items, d: nat, e: nat, rest: bytes, g: Printf)
    ensures CleanButLastItems(items) ==>
              Minified(ItemsText(items, d, true, g) + rest)
              == ItemsText(items, e, false, g) + Onward(CleanItems(items), rest)
    ensures !CleanButLastItems(items) ==>
              Diverges(Minified(ItemsText(items, d, true, g) + rest), ItemsText(items, e, false, g))
    decreases items, 1
  {
    if items == NoItem {
      NothingBefore(rest);
    } else if items.next == NoItem {
      LastItemMinified(items, d, e, rest, g);
    } else {
      InnerItemMinified(items, d, e, rest, g);
    }
  }

  lemma NothingBefore(rest: bytes)
    ensures [] + rest == rest && [] + Minified(rest) == Minified(rest)
  {
  }

  lemma {:induction false} LastItemMinified(items: Items, d: nat, e: nat, rest: bytes, g: Printf)
    requires items.Item? && items.next == NoItem
    ensures CleanButLastItems(items) ==>
              Minified(ItemsText(items, d, true, g) + rest)
              == ItemsText(items, e, false, g) + Onward(CleanItems(items), rest)
    ensures !CleanButLastItems(items) ==>
              Diverges(Minified(ItemsText(items, d, true, g) + rest), ItemsText(items, e, false, g))
    decreases items, 0
  {
    hide Text, Minified, MinifiedString, Diverges, Clean, CleanButLast;
    ValueMinified(items.head, d, e, rest, g);
    assert CleanItems(items) == Clean(items.head);
    var t: bytes := Text(items.head, d, true, g);
    var u: bytes := Text(items.head, e, false, g);
    assert ItemsText(items, d, true, g) == t;
    assert ItemsText(items, e, false, g) == u;
  }

  lemma {:induction false} InnerItemMinified(items: Items, d: nat, e: nat, rest: bytes, g: Printf)
    requires items.Item? && items.next.Item?
    ensures CleanButLastItems(items) ==>
              Minified(ItemsText(items, d, true, g) + rest)
              == ItemsText(items, e, false, g) + Onward(CleanItems(items), rest)
    ensures !CleanButLastItems(items) ==>
              Diverges(Minified(ItemsText(items, d, true, g) + rest), ItemsText(items, e, false, g))
    decreases items, 0
  {
    hide Text, Minified, MinifiedString, ItemsText, Diverges, Clean, CleanButLast;
    var u: bytes := Text(items.head, e, false, g);
    var tail: bytes := ItemsText(items.next, d, true, g);
    var plain: bytes := ItemsText(items.next, e, false, g);
    var after := [44, 32] + (tail + rest);
    ItemTexts(items, d, true, rest, g);
    ItemTexts(items, e, false, Onward(CleanItems(items), rest), g);
    ItemTexts(items, e, false, [], g);
    assert ItemsText(items, e, false, g) + [] == ItemsText(items, e, false, g) && plain + [] == plain;
    ValueMinified(items.head, d, e, after, g);
    if Clean(items.head) {
      CleanIsCleanButLast(items.head);
      CommaMinified(tail + rest);
      ItemsMinified(items.next, d, e, rest, g);
      if !CleanButLastItems(items.next) {
        DivergesAfter([44], Minified(tail + rest), plain);
        DivergesAfter(u, [44] + Minified(tail + rest), [44] + plain);
      }
    } else if CleanButLast(items.head) {
      SwallowedComma(items.next, e, tail + rest, g);
      DivergesAfter(u, MinifiedString(after), [44] + plain);
    } else {
      DivergesBefore(Minified(Text(items.head, d, true, g) + after), u, [44] + plain);
    }
  }

  lemma CommaMinified(rest: bytes)
    ensures Minified([44, 32] + rest) == [44] + Minified(rest)
  {
    assert [44, 32] + rest == [44] + ([32] + rest);
    CopyOne(44, [32] + rest);
    DropOne(32, rest);
  }

  /** Read as part of a string, the space after a comma stays. */
  lemma SwallowedComma(next: Items, e: nat, rest: bytes, g: Printf)
    requires next.Item?
    ensures Diverges(MinifiedString([44, 32] + rest), [44] + ItemsText(next, e, false, g))
  {
    var r: bytes := ItemsText(next, e, false, g);
    FirstByte(next.head, e, g);
    assert r[0] == Text(next.head, e, false, g)[0];
    assert [44, 32] + rest == [44] + ([32] + rest);
    StringCopies(44, [32] + rest);
    StringCopies(32, rest);
    hide MinifiedString, ItemsText;
    DivergesAfter([44], [32] + MinifiedString(rest), r);
  }

  lemma ObjectTexts(members: Members, d: nat, format: bool, rest: bytes, g: Printf)
    ensures
      var open: bytes := OpenBrace(format);
      var body: bytes := MembersText(members, d + 1, format, g);
      Text(Object(members), d, format, g) + rest
      == open + (body + (Indent(d, format) + ([125] + rest)))
  {
    hide MembersText, Indent, OpenBrace;
    var t: bytes := Text(Object(members), d, format, g);
    Concat4(OpenBrace(format) + MembersText(members, d + 1, format, g), Indent(d, format),
            [125], rest);
    Concat3(OpenBrace(format), MembersText(members, d + 1, format, g),
            Indent(d, format) + ([125] + rest));
  }

  lemma {:induction false} ObjectMinified(members: Members, d: nat, e: nat, rest: bytes, g: Printf)
    ensures
      var v := Object(members);
      && (CleanButLast(v) ==>
            Minified(Text(v, d, true, g) + rest) == Text(v, e, false, g) + Onward(Clean(v), rest))
      && (!CleanButLast(v) ==>
            Diverges(Minified(Text(v, d, true, g) + rest), Text(v, e, false, g)))
    decreases members, 3
  {
    hide Text, Minified, MinifiedString, MembersText, Diverges, CleanMembers;
    var body: bytes := MembersText(members, d + 1, true, g);
    var plain: bytes := MembersText(members, e + 1, false, g);
    var close: bytes := Indent(d, true) + ([125] + rest);
    ObjectTexts(members, d, true, rest, g);
    OpenObject(body + close);
    MembersMinified(members, d + 1, e + 1, close, g);
    if CleanMembers(members) {
      ObjectTexts(members, e, false, Minified(rest), g);
      SpacesDrop(Tabs(d), [125] + rest);
      CopyOne(125, rest);
      assert [] + ([125] + Minified(rest)) == [125] + Minified(rest);
    } else {
      ObjectTexts(members, e, false, [], g);
      assert Text(Object(members), e, false, g) + [] == Text(Object(members), e, false, g);
      assert [] + ([125] + []) == [125];
      DivergesAfter([123], Minified(body + close), plain + [125]);
    }
  }

  lemma OpenObject(rest: bytes)
    ensures Minified(OpenBrace(true) + rest) == [123] + Minified(rest)
  {
    assert OpenBrace(true) + rest == [123] + ([10] + rest);
    CopyOne(123, [10] + rest);
    DropOne(10, rest);
  }

  /** A member's text taken apart: name, colon, value, line end and what follows. */
  lemma MemberTexts(m: Members, d: nat, format: bool, rest: bytes, g: Printf)
    requires m.Member?
    ensures
      var value: bytes := Text(m.value, d, format, g);
      var end: bytes := MemberEnd(m.next, format);
      var tail: bytes := MembersText(m.next, d, format, g);
      MembersText(m, d, format, g) + rest
      == Indent(d, format) + (Quoted(m.key) + (Colon(format) + (value + (end + (tail + rest)))))
  {
    hide Text, Indent, Quoted, Colon, MemberEnd;
    var tail: bytes := MembersText(m.next, d, format, g);
    Concat7(Indent(d, format), Quoted(m.key), Colon(format), Text(m.value, d, format, g),
            MemberEnd(m.next, format), tail, rest);
  }

  lemma {:induction false} MembersMinified(m: Members, d: nat, e: nat, rest: bytes, g: Printf)
    ensures CleanMembers(m) ==>
              Minified(MembersText(m, d, true, g) + rest) == MembersText(m, e, false, g) + Minified(rest)
    ensures !CleanMembers(m) ==>
              Diverges(Minified(MembersText(m, d, true, g) + rest), MembersText(m, e, false, g) + [125])
    decreases m, 2
  {
    if m == NoMember {
      NothingBefore(rest);
    } else {
      OneMemberMinified(m, d, e, rest, g);
    }
  }

  lemma {:induction false} OneMemberMinified(m: Members, d: nat, e: nat, rest: bytes, g: Printf)
    requires m.Member?
    ensures CleanMembers(m) ==>
              Minified(MembersText(m, d, true, g) + rest) == MembersText(m, e, false, g) + Minified(rest)
    ensures !CleanMembers(m) ==>
              Diverges(Minified(MembersText(m, d, true, g) + rest), MembersText(m, e, false, g) + [125])
    decreases m, 1
  {
    hide Text, Minified, MinifiedString, MembersText, Diverges, Quoted, Clean, EndsInBackslash;
    var inner: bytes :=
      Text(m.value, d, true, g) + (MemberEnd(m.next, true) + (MembersText(m.next, d, true, g) + rest));
    var tail: bytes := MembersText(m.next, e, false, g);
    var comma: bytes := MemberEnd(m.next, false);
    var u: bytes := Text(m.value, e, false, g);
    FormattedMember(m, d, rest, g);
    PlainMember(m, e, [125], g);
    PlainMember(m, e, Minified(rest), g);
    QuotedSurvives(m.key, Colon(true) + inner);
    if EndsInBackslash(m.key) {
      SwallowedColon(m.value, e, inner, comma + (tail + [125]), g);
      DivergesAfter(Quoted(m.key), MinifiedString(Colon(true) + inner),
                    [58] + (u + (comma + (tail + [125]))));
    } else {
      ColonMinified(inner);
      MemberValueMinified(m, d, e, rest, g);
      if !CleanMembers(m) {
        DivergesAfter([58], Minified(inner), u + (comma + (tail + [125])));
        DivergesAfter(Quoted(m.key), [58] + Minified(inner), [58] + (u + (comma + (tail + [125]))));
      }
    }
  }

  lemma FormattedMember(m: Members, d: nat, rest: bytes, g: Printf)
    requires m.Member?
    ensures
      var tail: bytes := MembersText(m.next, d, true, g);
      var inner: bytes := Text(m.value, d, true, g) + (MemberEnd(m.next, true) + (tail + rest));
      Minified(MembersText(m, d, true, g) + rest) == Minified(Quoted(m.key) + (Colon(true) + inner))
  {
    hide Text, Minified, MembersText, Quoted, MemberEnd, Colon;
    var tail: bytes := MembersText(m.next, d, true, g);
    var inner: bytes := Text(m.value, d, true, g) + (MemberEnd(m.next, true) + (tail + rest));
    MemberTexts(m, d, true, rest, g);
    SpacesDrop(Tabs(d), Quoted(m.key) + (Colon(true) + inner));
  }

  lemma PlainMember(m: Members, e: nat, rest: bytes, g: Printf)
    requires m.Member?
    ensures
      var tail: bytes := MembersText(m.next, e, false, g);
      var inner: bytes := Text(m.value, e, false, g) + (MemberEnd(m.next, false) + (tail + rest));
      MembersText(m, e, false, g) + rest == Quoted(m.key) + ([58] + inner)
  {
    hide Text, MembersText, Quoted, MemberEnd;
    var tail: bytes := MembersText(m.next, e, false, g);
    var inner: bytes := Text(m.value, e, false, g) + (MemberEnd(m.next, false) + (tail + rest));
    MemberTexts(m, e, false, rest, g);
    EmptyFront(Quoted(m.key) + ([58] + inner));
  }

  lemma EmptyFront(t: bytes)
    ensures [] + t == t
  {
  }

  lemma ColonMinified(rest: bytes)
    ensures Minified(Colon(true) + rest) == [58] + Minified(rest)
  {
    assert Colon(true) + rest == [58] + ([9] + rest);
    CopyOne(58, [9] + rest);
    DropOne(9, rest);
  }

  /** Read as part of a string, the tab after a colon stays. */
  lemma SwallowedColon(v: Json, e: nat, rest: bytes, plain: bytes, g: Printf)
    ensures Diverges(MinifiedString(Colon(true) + rest), [58] + (Text(v, e, false, g) + plain))
  {
    FirstByte(v, e, g);
    var u := Text(v, e, false, g) + plain;
    assert u[0] == Text(v, e, false, g)[0];
    assert Colon(true) + rest == [58] + ([9] + rest);
    StringCopies(58, [9] + rest);
    StringCopies(9, rest);
    hide MinifiedString, Text;
    DivergesAfter([58], [9] + MinifiedString(rest), u);
  }

  /** A member's value with the rest of the object after it. */
  lemma {:induction false} MemberValueMinified(m: Members, d: nat, e: nat, rest: bytes, g: Printf)
    requires m.Member?
    ensures
      var value: bytes := Text(m.value, d, true, g);
      var end: bytes := MemberEnd(m.next, true);
      var inner := value + (end + (MembersText(m.next, d, true, g) + rest));
      var u: bytes := Text(m.value, e, false, g);
      var tail: bytes := MembersText(m.next, e, false, g);
      && (Clean(m.value) && CleanMembers(m.next) ==>
            Minified(inner) == u + (MemberEnd(m.next, false) + (tail + Minified(rest))))
      && (!(Clean(m.value) && CleanMembers(m.next)) ==>
            Diverges(Minified(inner), u + (MemberEnd(m.next, false) + (tail + [125]))))
    decreases m, 0
  {
    hide Text, Minified, MinifiedString, MembersText, Diverges, Clean, CleanButLast, CleanMembers,
      MemberEnd;
    var u: bytes := Text(m.value, e, false, g);
    var after := MembersText(m.next, d, true, g) + rest;
    var end: bytes := MemberEnd(m.next, true);
    var plainEnd: bytes := MemberEnd(m.next, false);
    var plain := MembersText(m.next, e, false, g) + [125];
    ValueMinified(m.value, d, e, end + after, g);
    if Clean(m.value) {
      CleanIsCleanButLast(m.value);
      MemberEndMinified(m.next, after);
      MembersMinified(m.next, d, e, rest, g);
      if CleanMembers(m.next) {
        Concat3(plainEnd, MembersText(m.next, e, false, g), Minified(rest));
      } else {
        DivergesAfter(plainEnd, Minified(after), plain);
        DivergesAfter(u, plainEnd + Minified(after), plainEnd + plain);
      }
    } else if CleanButLast(m.value) {
      SwallowedLineEnd(m.next, e, after, g);
      DivergesAfter(u, MinifiedString(end + after), plainEnd + plain);
    } else {
      DivergesBefore(Minified(Text(m.value, d, true, g) + (end + after)), u, plainEnd + plain);
    }
  }

  lemma MemberEndMinified(next: Members, rest: bytes)
    ensures Minified(MemberEnd(next, true) + rest) == MemberEnd(next, false) + Minified(rest)
  {
    if next.Member? {
      assert MemberEnd(next, true) + rest == [44] + ([10] + rest);
      assert MemberEnd(next, false) == [44];
      CopyOne(44, [10] + rest);
    } else {
      assert MemberEnd(next, true) + rest == [10] + rest;
      assert MemberEnd(next, false) + Minified(rest) == Minified(rest);
    }
    DropOne(10, rest);
  }

  lemma MemberStart(m: Members, e: nat, g: Printf)
    requires m.Member?
    ensures (MembersText(m, e, false, g) + [125])[0] == 34
  {
    hide Text, Escape;
    MemberTexts(m, e, false, [125], g);
  }

  /** Read as part of a string, the line end after a member stays. */
  lemma SwallowedLineEnd(next: Members, e: nat, rest: bytes, g: Printf)
    ensures Diverges(MinifiedString(MemberEnd(next, true) + rest),
                     MemberEnd(next, false) + (MembersText(next, e, false, g) + [125]))
  {
    hide MinifiedString, MembersText;
    var plain := MembersText(next, e, false, g) + [125];
    StringCopies(10, rest);
    if next.Member? {
      MemberStart(next, e, g);
      assert MemberEnd(next, true) + rest == [44] + ([10] + rest);
      assert MemberEnd(next, false) == [44];
      StringCopies(44, [10] + rest);
      DivergesAfter([44], [10] + MinifiedString(rest), plain);
    } else {
      NoMembers(e, g);
      assert MemberEnd(next, true) + rest == [10] + rest;
      assert MemberEnd(next, false) + plain == [125];
    }
  }

  lemma NoMembers(e: nat, g: Printf)
    ensures MembersText(NoMember, e, false, g) == []
  {
  }

  // ----- documents -----

  /**
   * Minifying a formatted document gives the unformatted one exactly when no key and no
   * string ends in a backslash, save a string that ends the document bar closing brackets.
   */
  lemma MinifyUndoesFormatting(v: Json, g: Printf)
    ensures Minified(Text(v, 0, true, g)) == Text(v, 0, false, g) <==> CleanButLast(v)
  {
    hide Text, Minified, MinifiedString, Diverges, Clean, CleanButLast;
    var t: bytes := Text(v, 0, true, g);
    var u: bytes := Text(v, 0, false, g);
    ValueMinified(v, 0, 0, [], g);
    NothingLeft();
    assert t + [] == t && u + [] == u;
    if !CleanButLast(v) {
      DivergesMeansDifferent(Minified(t), u);
    }
  }

  /** The smallest document the minifier gets wrong: a pair whose first string is `\`. */
  lemma BackslashDefeatsMinify(g: Printf)
    ensures
      var v := Array(Item(String([92]), Item(Null, NoItem)));
      Minified(Text(v, 0, true, g)) != Text(v, 0, false, g)
  {
    var v := Array(Item(String([92]), Item(Null, NoItem)));
    assert EndsInBackslash([92]);
    MinifyUndoesFormatting(v, g);
  }
}
