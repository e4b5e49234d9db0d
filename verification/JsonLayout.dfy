/** Where the white space of `cJSON_Print` stands: line feeds, tabs and blanks by position. */
module JsonLayout {
  import opened Bytes
  import opened JsonTree
  import opened JsonNumber
  import opened JsonSame

  /** The bytes `from` to `to` of a text are tabs, and byte `to` is the given one. */
  predicate Tabbed(t: bytes, from: int, to: int, b: byte) {
    0 <= from <= to < |t| && t[to] == b && forall i :: from <= i < to ==> t[i] == 9
  }

  /** An object opens a line; its closing brace stands on a line of its own, as deep as the object. */
  lemma ObjectLayout(members: Members, depth: nat, g: Printf)
    ensures var t := Text(Object(members), depth, true, g);
            && |t| >= depth + 3 && t[0] == 123 && t[1] == 10
            && t[|t| - depth - 2] == 10 && Tabbed(t, |t| - depth - 1, |t| - 1, 125)
  {
    LinesEnd(members, depth + 1, g);
    ObjectText(members, depth, g);
    hide MembersText, Text, Tabbed, Tabs;
    Closing(MembersText(members, depth + 1, true, g), depth);
  }

  lemma ObjectText(members: Members, depth: nat, g: Printf)
    ensures Text(Object(members), depth, true, g)
         == [123, 10] + MembersText(members, depth + 1, true, g) + Tabs(depth) + [125]
    ensures members.NoMember? ==> MembersText(members, depth + 1, true, g) == []
  {
  }

  lemma Closing(inside: bytes, depth: nat)
    requires inside != [] ==> inside[|inside| - 1] == 10
    ensures var t := [123, 10] + inside + Tabs(depth) + [125];
            && |t| == |inside| + depth + 3 && t[0] == 123 && t[1] == 10
            && t[|t| - depth - 2] == 10 && Tabbed(t, |t| - depth - 1, |t| - 1, 125)
  {
  }

  /** Members end in a line feed. */
  lemma {:induction false} LinesEnd(members: Members, depth: nat, g: Printf)
    ensures var t := MembersText(members, depth, true, g);
            members.Member? ==> t != [] && t[|t| - 1] == 10
  {
    if members.Member? {
      LinesEnd(members.next, depth, g);
      hide Text, Quoted;
    }
  }

  /**
   * A member stands on a line as deep as its nesting: its tabs, its name, a colon and a tab, its
   * value, a comma if another member follows, and a line feed.
   */
  lemma MemberLayout(key: cstring, value: Json, next: Members, depth: nat, g: Printf)
    ensures var t := MembersText(Member(key, value, next), depth, true, g);
            var colon := depth + |Quoted(key)|;
            var end := colon + 2 + |Text(value, depth, true, g)|;
            && Tabbed(t, 0, depth, 34) && Stands(t, depth, Quoted(key)) && Stands(t, colon, [58, 9])
            && Stands(t, colon + 2, Text(value, depth, true, g))
            && (if next.NoMember? then t[end..] == [10]
                else Stands(t, end, [44, 10]) && t[end + 2..] == MembersText(next, depth, true, g))
  {
    hide Text, Escape, Stands;
    var name, body := Quoted(key), Text(value, depth, true, g);
    var rest := MembersText(next, depth, true, g);
    MemberText(key, value, next, depth, g);
    hide MembersText, Quoted;
    var after: bytes := if next.NoMember? then [10] else [44, 10];
    Parts(Tabs(depth), name, [58, 9], body, after, rest);
    if next.NoMember? {
      assert after + rest == [10];
    }
  }

  lemma MemberText(key: cstring, value: Json, next: Members, depth: nat, g: Printf)
    ensures MembersText(Member(key, value, next), depth, true, g)
         == Tabs(depth) + Quoted(key) + [58, 9] + Text(value, depth, true, g)
            + (if next.NoMember? then [10] else [44, 10]) + MembersText(next, depth, true, g)
    ensures next.NoMember? ==> MembersText(next, depth, true, g) == []
    ensures |Quoted(key)| > 0 && Quoted(key)[0] == 34
  {
    hide Text;
  }

  lemma Parts(a: bytes, b: bytes, c: bytes, d: bytes, e: bytes, f: bytes)
    requires b != []
    ensures var t := a + b + c + d + e + f;
            && |t| > |a| && t[|a|] == b[0] && (forall i :: 0 <= i < |a| ==> t[i] == a[i])
            && Stands(t, |a|, b) && Stands(t, |a| + |b|, c) && Stands(t, |a| + |b| + |c|, d)
            && Stands(t, |a| + |b| + |c| + |d|, e) && t[|a| + |b| + |c| + |d|..] == e + f
            && t[|a| + |b| + |c| + |d| + |e|..] == f
  {
  }

  /** Elements stand on one line, with a comma and a blank between two of them. */
  lemma ItemLayout(head: Json, next: Items, depth: nat, g: Printf)
    ensures var t := ItemsText(Item(head, next), depth, true, g);
            var end := |Text(head, depth, true, g)|;
            && Stands(t, 0, Text(head, depth, true, g))
            && (if next.NoItem? then |t| == end
                else Stands(t, end, [44, 32]) && t[end + 2..] == ItemsText(next, depth, true, g))
  {
    hide Text;
  }

  // ----- strings -----

  /** Seven bytes have a short escape, other control bytes four lower-case digits; the rest is copied. */
  lemma EscapesAre(b: cchar)
    ensures forall k :: 0 <= k < 7 ==>
              EscapeByte([34, 92, 8, 12, 10, 13, 9][k]) == [92, [34, 92, 98, 102, 110, 114, 116][k]]
    ensures b < 32 && b !in {8, 9, 10, 12, 13} ==>
              EscapeByte(b)
              == [92, 117, 48, 48, "01"[b / 16] as int, "0123456789abcdef"[b % 16] as int]
    ensures b >= 32 && b !in {34, 92} ==> EscapeByte(b) == [b]
  {
    if b < 32 {
      HexIs(b % 16);
      HexIs(b / 16);
      assert b / 16 < 2;
      assert "01"[b / 16] == "0123456789abcdef"[b / 16];
    }
    hide HexDigit;
  }

  lemma HexIs(x: int)
    requires 0 <= x < 16
    ensures HexDigit(x) == "0123456789abcdef"[x] as int
  {
  }

  // ----- numbers -----

  /** A number that is no 32-bit integer is printed with fifteen digits where they tell it nearly enough. */
  lemma NumberTextIs(d: real, g: Printf)
    ensures d != d.Floor as real || d < -2147483648.0 || d > 2147483647.0 ==>
              NumberText(d, g) == SpellNum(if Near(NumValue(g.short(d)), d) then g.short(d) else g.long(d))
  {
    hide SpellNum, NumValue, IsInteger, Near, CompareDouble;
    IntegersAreTheInt32s(d);
    NearIff(NumValue(g.short(d)), d);
  }

  /** The texts `12.5`, `-1.25e-2` and `7E+3`. */
  lemma Decimals()
    ensures NumValue(Num(false, [49, 50], Some([53]), None)) == 12.5
    ensures NumValue(Num(true, [49], Some([50, 53]), Some(Exp(false, Minus, [50])))) == -0.0125
    ensures NumValue(Num(false, [55], None, Some(Exp(true, Plus, [51])))) == 7000.0
  {
    assert PowerOfTen(1) == 10.0 && PowerOfTen(2) == 100.0 && PowerOfTen(3) == 1000.0;
    assert DecimalValue([49]) == 1 && DecimalValue([50]) == 2 && DecimalValue([51]) == 3;
    assert DecimalValue([53]) == 5 && DecimalValue([55]) == 7;
    TwoDigits(49, 50);
    TwoDigits(50, 53);
  }

  lemma TwoDigits(a: digit, b: digit)
    ensures DecimalValue([a, b]) == 10 * (a - 48) + (b - 48)
  {
    assert [a, b][..1] == [a];
    assert DecimalValue([a]) == a - 48;
  }
}
