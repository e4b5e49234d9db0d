/** The in-place printer of tcp/cJSON.c: a buffer that regrows and an offset found by strlen. */
module JsonPrinter {
  import opened Bytes
  import opened JsonNumber
  import opened JsonTree

  method Allocate(size: nat) returns (block: array?<byte>)
    ensures block != null ==> fresh(block) && block.Length == size
  {
    if * {
      return null;
    }
    block := new byte[size];
  }

  class PrintBuffer {
    var buffer: array?<byte>
    var offset: nat
    var depth: nat
    const noalloc: bool
    const format: bool
    const g: Printf

    constructor (buffer: array<byte>, noalloc: bool, format: bool, g: Printf)
      ensures this.buffer == buffer && offset == 0 && depth == 0
      ensures this.noalloc == noalloc && this.format == format && this.g == g
    {
      this.buffer, offset, depth := buffer, 0, 0;
      this.noalloc, this.format, this.g := noalloc, format, g;
    }

    ghost predicate Ready()
      reads `buffer, `offset
    {
      buffer != null && offset <= buffer.Length
    }

    /** The text already accounted for by the offset. */
    ghost function Done(): (done: bytes)
      requires Ready()
      reads `buffer, `offset, buffer
      ensures |done| == offset
    {
      buffer[..offset]
    }

    /**
     * `t` has been printed after `before` and terminated, though the offset may still be
     * anywhere inside it.
     */
    ghost predicate Printed(before: bytes, t: cstring)
      reads `buffer, `offset, buffer
    {
      && Ready()
      && |before| <= offset <= |before| + |t| < buffer.Length
      && buffer[..|before| + |t|] == before + t
      && buffer[|before| + |t|] == 0
    }

    /** A block that is never replaced holds a text up to `end` with two bytes to spare. */
    ghost predicate Enough(end: nat)
      reads `buffer
    {
      noalloc && buffer != null && end + 2 <= buffer.Length <= INT_MAX
    }

    /** Text printed in two parts. */
    lemma PrintedAfter(before: bytes, first: bytes, last: cstring, t: cstring)
      requires Printed(before + first, last) && first + last == t
      ensures Printed(before, t)
    {
      assert before + first + last == before + t;
    }

    /** A block other than the caller's own may be written: it is new. */
    twostate predicate Owned()
      reads `buffer
    {
      && (buffer != null ==> buffer == old(buffer) || fresh(buffer))
      && (noalloc ==> buffer == old(buffer))
    }

    /** Room for `needed` more bytes and a terminator, moving to a larger block if allowed. */
    method Ensure(needed: nat) returns (ok: bool)
      requires Ready()
      modifies this
      ensures Owned() && offset == old(offset) && depth == old(depth)
      ensures ok ==> Ready() && offset + needed + 1 <= buffer.Length
      ensures ok ==> buffer[..offset] == old(buffer[..offset])
      ensures noalloc && needed <= INT_MAX ==>
                (ok <==> offset + needed + 1 <= buffer.Length)
    {
      if buffer.Length > 0 && offset >= buffer.Length {
        return false;
      }
      if needed > INT_MAX {
        return false;
      }
      var total := needed + offset + 1;
      if total <= buffer.Length {
        return true;
      }
      if noalloc {
        return false;
      }
      var size := total * 2;
      if total > INT_MAX / 2 {
        if total > INT_MAX {
          return false;
        }
        size := INT_MAX;
      }
      var block := Allocate(size);
      if block == null {
        buffer := null;
        return false;
      }
      var kept := if offset + 1 <= buffer.Length then offset + 1 else buffer.Length;
      forall i | 0 <= i < kept {
        block[i] := buffer[i];
      }
      assert block[..offset] == buffer[..offset];
      buffer := block;
      return true;
    }

    /** Copies bytes to `at`, as strcpy, memcpy and the pointer writes do. */
    method Store(at: nat, t: bytes)
      requires buffer != null && at + |t| <= buffer.Length
      modifies buffer
      ensures buffer[..at + |t|] == old(buffer[..at]) + t
    {
      forall i | 0 <= i < |t| {
        buffer[at + i] := t[i];
      }
      assert buffer[..at] == old(buffer[..at]);
      assert buffer[at..at + |t|] == t;
      assert buffer[..at + |t|] == buffer[..at] + buffer[at..at + |t|];
    }

    /** Moves the offset to the terminator of what was just printed. */
    method UpdateOffset(ghost before: bytes, ghost t: cstring)
      requires Printed(before, t)
      modifies this`offset
      ensures Ready() && offset < buffer.Length && Done() == before + t && buffer[offset] == 0
    {
      ghost var end := |before| + |t|;
      while buffer[offset] != 0
        invariant Printed(before, t)
        decreases end - offset
      {
        offset := offset + 1;
      }
      NoEarlyTerminator(buffer[..], offset, before, t);
    }

    /** Room for `needed` bytes, then the text and its terminator; the offset stays. */
    method PutTerminated(t: cstring, needed: nat) returns (ok: bool)
      requires Ready() && |t| <= needed
      modifies this, buffer
      ensures Owned() && depth == old(depth)
      ensures ok ==> Printed(old(Done()), t) && offset == old(offset)
      ensures ok ==> old(offset) + needed + 1 <= buffer.Length
      ensures needed > 0 && old(Enough(offset + needed - 1)) ==> ok
    {
      ghost var before := Done();
      ok := Ensure(needed);
      if ok {
        var text: bytes := t;
        Store(offset, text + [0]);
        Terminated(buffer[..], offset, before, t);
      }
    }

    /** Committed text: room for it, the bytes, and the offset moved past them. */
    method Append(t: cstring, needed: nat) returns (ok: bool)
      requires Ready() && |t| <= needed
      modifies this, buffer
      ensures Owned() && depth == old(depth)
      ensures ok ==> Ready() && Done() == old(Done()) + t
      ensures old(Enough(offset + needed)) || (needed > 0 && old(Enough(offset + needed - 1))) ==> ok
    {
      ok := Ensure(needed);
      if ok {
        Store(offset, t);
        offset := offset + |t|;
      }
    }

    /** An integer with "%d"; else fifteen digits, read back for comparison, or seventeen. */
    method PrintNumber(d: real) returns (ok: bool)
      requires Ready()
      modifies this, buffer
      ensures Owned() && depth == old(depth)
      ensures ok ==> Printed(old(Done()), NumberText(d, g))
      ensures ok ==> old(offset) + |NumberText(d, g)| + 2 <= buffer.Length
      ensures old(Enough(offset + |NumberText(d, g)|)) ==> ok
    {
      hide IntText, Strtod, NumValue, SpellNum;
      var t: cstring;
      if d == ValueInt(d) as real {
        t := IntText(ValueInt(d));
        IntTextIsShort(ValueInt(d));
      } else {
        t := SpellNum(g.short(d));
        WholeNumberRead(g.short(d));
        var test := Strtod(t);
        if test.None? || !CompareDouble(test.value.0, d) {
          t := SpellNum(g.long(d));
        }
      }
      assert t == NumberText(d, g);
      if |t| > 25 {
        return false;
      }
      ok := PutTerminated(t, |t| + 1);
      if ok {
        offset := offset + |t|;
      }
    }

    /** Bytes that escaping adds to a string. */
    method CountEscapes(s: cstring) returns (extra: nat)
      ensures |s| + extra == |Escape(s)|
    {
      extra := 0;
      assert s[..0] == [];
      for i := 0 to |s|
        invariant i + extra == |Escape(s[..i])|
      {
        EscapeNext(s, i);
        if s[i] == 34 || s[i] == 92 || s[i] == 8 || s[i] == 12 || s[i] == 10 || s[i] == 13
          || s[i] == 9
        {
          extra := extra + 1;
        } else if s[i] < 32 {
          extra := extra + 5;
        }
      }
      assert s[..|s|] == s;
    }

    /** One byte of a string, escaped if it has to be. */
    method WriteEscaped(at: nat, b: cchar) returns (next: nat)
      requires buffer != null && at + |EscapeByte(b)| <= buffer.Length
      modifies buffer
      ensures next == at + |EscapeByte(b)|
      ensures buffer[..next] == old(buffer[..at]) + EscapeByte(b)
    {
      var t: bytes := [b];
      if !(b > 31 && b != 34 && b != 92) {
        if b == 92 {
          t := [92, 92];
        } else if b == 34 {
          t := [92, 34];
        } else if b == 8 {
          t := [92, 98];
        } else if b == 12 {
          t := [92, 102];
        } else if b == 10 {
          t := [92, 110];
        } else if b == 13 {
          t := [92, 114];
        } else if b == 9 {
          t := [92, 116];
        } else {
          t := [92, 117, 48, 48, HexDigit(b / 16), HexDigit(b % 16)];
        }
      }
      Store(at, t);
      next := at + |t|;
    }

    method WriteEscapedString(at: nat, s: cstring) returns (next: nat)
      requires buffer != null && at + |Escape(s)| <= buffer.Length
      modifies buffer
      ensures next == at + |Escape(s)|
      ensures buffer[..next] == old(buffer[..at]) + Escape(s)
    {
      ghost var before := buffer[..at];
      next := at;
      assert s[..0] == [] && Escape([]) == [] && before + [] == before;
      hide EscapeByte, Escape;
      for i := 0 to |s|
        invariant next == at + |Escape(s[..i])| <= buffer.Length
        invariant buffer[..next] == before + Escape(s[..i])
      {
        EscapeNext(s, i);
        EscapePrefix(s, i + 1);
        next := WriteEscaped(next, s[i]);
        Concat3(before, Escape(s[..i]), EscapeByte(s[i]));
      }
      assert s[..|s|] == s;
    }

    /** The quotes, the string between them and the terminator, into room already made. */
    method WriteQuoted(s: cstring, extra: nat)
      requires Ready() && |s| + extra == |Escape(s)|
      requires offset + |s| + extra + 4 <= buffer.Length
      modifies buffer
      ensures
        var text: bytes := Quoted(s);
        buffer[..offset + |text| + 1] == old(Done()) + (text + [0])
    {
      hide Escape, Quoted;
      ghost var before := Done();
      ghost var text: bytes, body: bytes := Quoted(s), Escape(s);
      QuotedIs(s);
      Store(offset, [34]);
      var at := WriteBody(offset + 1, s, extra);
      Store(at, [34, 0]);
      Concat4(before, [34], body, [34, 0]);
      Concat3([34], body, [34, 0]);
    }

    /** The string itself, copied as it is if nothing has to be escaped. */
    method WriteBody(at: nat, s: cstring, extra: nat) returns (next: nat)
      requires buffer != null && |s| + extra == |Escape(s)| && at + |s| + extra <= buffer.Length
      modifies buffer
      ensures next == at + |Escape(s)| && buffer[..next] == old(buffer[..at]) + Escape(s)
    {
      if extra == 0 {
        NothingEscaped(s);
        Store(at, s);
        next := at + |s|;
      } else {
        next := WriteEscapedString(at, s);
      }
    }

    method PrintString(s: cstring) returns (ok: bool)
      requires Ready()
      modifies this, buffer
      ensures Owned() && depth == old(depth)
      ensures ok ==> Printed(old(Done()), Quoted(s))
      ensures ok ==> old(offset) + |Quoted(s)| + 2 <= buffer.Length
      ensures old(Enough(offset + |Quoted(s)|)) ==> ok
    {
      ghost var before := Done();
      var extra := CountEscapes(s);
      var length := |s| + extra;
      assert |Quoted(s)| == length + 2;
      ok := Ensure(length + 3);
      if ok {
        hide Quoted;
        WriteQuoted(s, extra);
        Terminated(buffer[..], offset, before, Quoted(s));
      }
    }

    method PrintValue(v: Json) returns (ok: bool)
      requires Ready()
      modifies this, buffer
      ensures Owned()
      ensures ok ==> depth == old(depth) && Printed(old(Done()), Text(v, old(depth), format, g))
      ensures ok ==> old(offset) + |Text(v, old(depth), format, g)| + 2 <= buffer.Length
      ensures old(Enough(offset + |Text(v, depth, format, g)|)) ==> ok
      decreases v, 3
    {
      match v
      case Null => ok := PutTerminated(NullText(), 5);
      case False => ok := PutTerminated(FalseText(), 6);
      case True => ok := PutTerminated(TrueText(), 5);
      case Number(d) => ok := PrintNumber(d);
      case String(s) => ok := PrintString(s);
      case Array(items) => ok := PrintArray(items);
      case Object(members) => ok := PrintObject(members);
    }

    /** The first value into an empty buffer, with the offset moved to its end. */
    method PrintDocument(v: Json) returns (ok: bool)
      requires Ready() && offset == 0 && depth == 0
      modifies this, buffer
      ensures Owned()
      ensures ok ==>
                var t: bytes := Text(v, 0, format, g);
                Ready() && offset < buffer.Length && Done() == t && buffer[offset] == 0
    {
      hide Text;
      assert Done() == [];
      ok := PrintValue(v);
      if ok {
        ghost var t := Text(v, 0, format, g);
        UpdateOffset([], t);
        assert [] + t == t;
      }
    }

    method PrintArray(items: Items) returns (ok: bool)
      requires Ready()
      modifies this, buffer
      ensures Owned()
      ensures ok ==>
                depth == old(depth) && Printed(old(Done()), Text(Array(items), old(depth), format, g))
      ensures ok ==> old(offset) + |Text(Array(items), old(depth), format, g)| + 2 <= buffer.Length
      ensures old(Enough(offset + |Text(Array(items), depth, format, g)|)) ==> ok
      decreases items, 2
    {
      hide Text, ItemsText, Done, Printed;
      ghost var before := Done();
      ArrayText(items, depth, format, g);
      ok := Append([91], 1);
      if !ok {
        return;
      }
      depth := depth + 1;
      ok := PrintElements(items);
      if !ok {
        return;
      }
      ok := CloseArray(before, items);
      depth := depth - 1;
    }

    /** The bracket that ends an array. */
    method CloseArray(ghost before: bytes, ghost items: Items) returns (ok: bool)
      requires Ready() && depth > 0 && Done() == before + [91] + ItemsText(items, depth, format, g)
      modifies this, buffer
      ensures Owned() && depth == old(depth)
      ensures ok ==> Printed(before, Text(Array(items), depth - 1, format, g))
      ensures ok ==> |before| + |Text(Array(items), depth - 1, format, g)| + 2 <= buffer.Length
      ensures old(Enough(|before| + |Text(Array(items), depth - 1, format, g)|)) ==> ok
    {
      hide Text, Printed, Done, ItemsText;
      ghost var inner := ItemsText(items, depth, format, g);
      ArrayText(items, depth - 1, format, g);
      Concat3(before, [91], inner);
      ok := PutTerminated([93], 2);
      if ok {
        PrintedAfter(before, [91] + inner, [93], Text(Array(items), depth - 1, format, g));
      }
    }

    method PrintElements(items: Items) returns (ok: bool)
      requires Ready()
      modifies this, buffer
      ensures Owned()
      ensures ok ==>
                depth == old(depth) && Ready()
                && Done() == old(Done()) + ItemsText(items, depth, format, g)
      ensures old(Enough(offset + |ItemsText(items, depth, format, g)|)) ==> ok
      decreases items, 1
    {
      hide Text, Done, ItemComma;
      var current := items;
      ghost var target := Done() + ItemsText(items, depth, format, g);
      while current != NoItem
        invariant Owned() && Ready() && depth == old(depth)
        invariant Done() + ItemsText(current, depth, format, g) == target
        invariant current == items || current < items
        decreases current
      {
        ghost var before := Done();
        ok := PrintElement(current);
        if !ok {
          return;
        }
        Concat4(before, Text(current.head, depth, format, g), ItemComma(current.next, format),
                ItemsText(current.next, depth, format, g));
        current := current.next;
      }
      assert Done() + [] == target;
      ok := true;
    }

    /** One turn of the loop over elements: the value, then a comma if another follows. */
    method PrintElement(item: Items) returns (ok: bool)
      requires Ready() && item.Item?
      modifies this, buffer
      ensures Owned()
      ensures ok ==>
                depth == old(depth) && Ready()
                && Done() == old(Done()) + Text(item.head, depth, format, g)
                             + ItemComma(item.next, format)
      ensures old(Enough(offset + |Text(item.head, depth, format, g)| + |ItemComma(item.next, format)|)) ==> ok
      decreases item, 0
    {
      hide Text, Done, Printed;
      ghost var before := Done();
      ghost var t := Text(item.head, depth, format, g);
      ok := PrintValue(item.head);
      if !ok {
        return;
      }
      UpdateOffset(before, t);
      if item.next != NoItem {
        hide ItemComma;
        ok := PrintComma(item.next);
      } else {
        assert before + t + ItemComma(item.next, format) == before + t;
      }
    }

    /** The comma between two elements. */
    method PrintComma(ghost next: Items) returns (ok: bool)
      requires Ready() && next.Item?
      modifies this, buffer
      ensures Owned() && depth == old(depth)
      ensures ok ==> Ready() && Done() == old(Done()) + ItemComma(next, format)
      ensures old(Enough(offset + |ItemComma(next, format)|)) ==> ok
    {
      ghost var before := Done();
      var length := if format then 2 else 1;
      ok := Ensure(length + 1);
      if ok {
        var comma: bytes := if format then [44, 32] else [44];
        Store(offset, comma + [0]);
        Terminated(buffer[..], offset, before, comma);
        offset := offset + length;
      }
    }

    method PrintObject(members: Members) returns (ok: bool)
      requires Ready()
      modifies this, buffer
      ensures Owned()
      ensures ok ==>
                depth == old(depth)
                && Printed(old(Done()), Text(Object(members), old(depth), format, g))
      ensures ok ==> old(offset) + |Text(Object(members), old(depth), format, g)| + 2 <= buffer.Length
      ensures old(Enough(offset + |Text(Object(members), depth, format, g)|)) ==> ok
      decreases members, 2
    {
      hide Text, MembersText, Done, Printed;
      ghost var before := Done();
      ObjectText(members, depth, format, g);
      var length := if format then 2 else 1;
      ok := Append(OpenBrace(format), length + 1);
      if !ok {
        return;
      }
      depth := depth + 1;
      ok := PrintMembers(members);
      if !ok {
        return;
      }
      ok := CloseObject(before, members);
    }

    /** The closing line, at the depth of the object itself. */
    method CloseObject(ghost before: bytes, ghost members: Members) returns (ok: bool)
      requires Ready() && depth > 0
      requires Done() == before + OpenBrace(format) + MembersText(members, depth, format, g)
      modifies this, buffer
      ensures Owned() && depth == old(depth) - 1
      ensures ok ==> Printed(before, Text(Object(members), depth, format, g))
      ensures ok ==> |before| + |Text(Object(members), depth, format, g)| + 2 <= buffer.Length
      ensures old(Enough(|before| + |Text(Object(members), depth - 1, format, g)|)) ==> ok
    {
      hide Text, Printed, Done, MembersText, Indent, OpenBrace;
      ghost var inner: bytes := OpenBrace(format) + MembersText(members, depth, format, g);
      Concat3(before, OpenBrace(format), MembersText(members, depth, format, g));
      IndentLength(depth - 1, format);
      ObjectText(members, depth - 1, format, g);
      var close := Indent(depth - 1, format) + [125];
      ok := PutTerminated(close, if format then depth + 1 else 2);
      depth := depth - 1;
      if ok {
        PrintedAfter(before, inner, close, Text(Object(members), depth, format, g));
      }
    }

    method PrintMembers(members: Members) returns (ok: bool)
      requires Ready()
      modifies this, buffer
      ensures Owned()
      ensures ok ==>
                depth == old(depth) && Ready()
                && Done() == old(Done()) + MembersText(members, depth, format, g)
      ensures old(Enough(offset + |MembersText(members, depth, format, g)|)) ==> ok
      decreases members, 1
    {
      hide Text, MemberText, Done;
      var current := members;
      ghost var target := Done() + MembersText(members, depth, format, g);
      while current != NoMember
        invariant Owned() && Ready() && depth == old(depth)
        invariant Done() + MembersText(current, depth, format, g) == target
        invariant current == members || current < members
        decreases current
      {
        ghost var before := Done();
        MembersTurn(before, current, depth, format, g);
        ok := PrintMember(current);
        if !ok {
          return;
        }
        current := current.next;
      }
      assert Done() + [] == target;
      ok := true;
    }

    /** One turn of the loop over members: indentation, name, colon, value and line end. */
    method PrintMember(m: Members) returns (ok: bool)
      requires Ready() && m.Member?
      modifies this, buffer
      ensures Owned()
      ensures ok ==>
                depth == old(depth) && Ready()
                && Done() == old(Done()) + MemberText(m, depth, format, g)
      ensures old(Enough(offset + |MemberText(m, depth, format, g)|)) ==> ok
      decreases m, 0
    {
      hide Text, Quoted, MemberEnd, Done, Printed, Colon, Indent;
      ghost var start := Done();
      MemberParts(start, m, depth, format, g);
      ok := PrintMemberStart(m.key);
      if !ok {
        return;
      }
      ghost var before := Done();
      ok := PrintValue(m.value);
      if !ok {
        return;
      }
      UpdateOffset(before, Text(m.value, depth, format, g));
      ok := PrintMemberEnd(m);
    }

    /** The indentation, the name and the colon. */
    method PrintMemberStart(key: cstring) returns (ok: bool)
      requires Ready()
      modifies this, buffer
      ensures Owned() && depth == old(depth)
      ensures ok ==> Ready() && Done() == old(Done()) + (Indent(depth, format) + (Quoted(key) + Colon(format)))
      ensures old(Enough(offset + |Indent(depth, format)| + |Quoted(key)| + |Colon(format)|)) ==> ok
    {
      hide Quoted, Done, Printed, Colon;
      ghost var start := Done();
      if format {
        ok := Append(Tabs(depth), depth);
        if !ok {
          return;
        }
      }
      assert Done() == start + Indent(depth, format);
      ok := PrintKey(key);
      hide Indent;
      Concat3(start, Indent(depth, format), Quoted(key) + Colon(format));
    }

    method PrintKey(key: cstring) returns (ok: bool)
      requires Ready()
      modifies this, buffer
      ensures Owned() && depth == old(depth)
      ensures ok ==> Ready() && Done() == old(Done()) + (Quoted(key) + Colon(format))
      ensures old(Enough(offset + |Quoted(key)| + |Colon(format)|)) ==> ok
    {
      hide Quoted;
      ghost var before := Done();
      ok := PrintString(key);
      if !ok {
        return;
      }
      UpdateOffset(before, Quoted(key));
      ok := Append(Colon(format), if format then 2 else 1);
    }

    method PrintMemberEnd(m: Members) returns (ok: bool)
      requires Ready() && m.Member?
      modifies this, buffer
      ensures Owned() && depth == old(depth)
      ensures ok ==> Ready() && Done() == old(Done()) + MemberEnd(m.next, format)
      ensures old(Enough(offset + |MemberEnd(m.next, format)|)) ==> ok
    {
      ghost var before := Done();
      var length := (if format then 1 else 0) + (if m.next != NoMember then 1 else 0);
      ok := Ensure(length + 1);
      if ok {
        var end: bytes := MemberEnd(m.next, format);
        Store(offset, end + [0]);
        Terminated(buffer[..], offset, before, end);
        offset := offset + length;
      }
    }
  }

  const DEFAULT_BUFFER_SIZE: nat := 256

  /** `print`: a fresh block holding exactly the text and its terminator. */
  method Print(v: Json, format: bool, g: Printf) returns (printed: array?<byte>)
    ensures printed != null ==>
              var t: bytes := Text(v, 0, format, g);
              fresh(printed) && printed[..] == t + [0]
  {
    var block := Allocate(DEFAULT_BUFFER_SIZE);
    if block == null {
      return null;
    }
    hide Text;
    var p := new PrintBuffer(block, false, format, g);
    var ok := p.PrintDocument(v);
    if !ok {
      return null;
    }
    printed := CopyTerminated(p.buffer, p.offset);
  }

  /** The text before a terminator, moved to a block of exactly its size. */
  method CopyTerminated(source: array<byte>, end: nat) returns (copy: array?<byte>)
    requires end < source.Length && source[end] == 0
    ensures copy != null ==> fresh(copy) && copy[..] == source[..end] + [0]
  {
    copy := Allocate(end + 1);
    if copy != null {
      forall i | 0 <= i <= end {
        copy[i] := source[i];
      }
      assert copy[..] == copy[..end] + [copy[end]];
    }
  }

  /** `cJSON_PrintBuffered`: the first block is as large as the caller says. */
  method PrintBuffered(v: Json, prebuffer: int, format: bool, g: Printf) returns (printed: array?<byte>)
    ensures prebuffer < 0 ==> printed == null
    ensures printed != null ==>
              var t: bytes := Text(v, 0, format, g);
              fresh(printed) && |t| < printed.Length
              && printed[..|t|] == t && printed[|t|] == 0
  {
    if prebuffer < 0 {
      return null;
    }
    var block := Allocate(prebuffer);
    if block == null {
      return null;
    }
    var p := new PrintBuffer(block, false, format, g);
    var ok := p.PrintValue(v);
    if !ok {
      return null;
    }
    return p.buffer;
  }

  /** `cJSON_PrintPreallocated`: the caller's block is written in place and never replaced. */
  method PrintPreallocated(v: Json, block: array<byte>, format: bool, g: Printf) returns (ok: bool)
    modifies block
    ensures ok ==>
              var t: bytes := Text(v, 0, format, g);
              |t| < block.Length && block[..|t|] == t && block[|t|] == 0
    ensures block.Length <= INT_MAX ==> (ok <==> |Text(v, 0, format, g)| + 2 <= block.Length)
  {
    var p := new PrintBuffer(block, true, format, g);
    ok := p.PrintValue(v);
  }

  /** A number of at most `k` digits, `p` being the power of ten with `k` zeros. */
  lemma {:induction false} DigitsAreFew(n: nat, k: nat, p: nat)
    requires k > 0 && n < p && p == TenTo(k)
    ensures |Digits(n)| <= k
  {
    if n >= 10 { DigitsAreFew(n / 10, k - 1, p / 10); }
  }

  function TenTo(k: nat): (p: nat)
    ensures p >= 1 && (k > 0 ==> p % 10 == 0)
  {
    if k == 0 then 1 else 10 * TenTo(k - 1)
  }

  /** The text of a 32-bit integer never reaches the size of the number buffer. */
  lemma IntTextIsShort(n: int)
    requires -INT_MAX - 1 <= n <= INT_MAX
    ensures |IntText(n)| <= 11
  {
    assert TenTo(5) == 10_0000;
    assert TenTo(10) == 100_0000_0000;
    DigitsAreFew(if n < 0 then -n else n, 10, TenTo(10));
  }

  /** The text of one member, with its line end. */
  function MemberText(m: Members, depth: nat, format: bool, g: Printf): cstring
    requires m.Member?
  {
    Indent(depth, format) + Quoted(m.key) + Colon(format) + Text(m.value, depth, format, g)
    + MemberEnd(m.next, format)
  }

  lemma MemberParts(before: bytes, m: Members, depth: nat, format: bool, g: Printf)
    requires m.Member?
    ensures before + (Indent(depth, format) + (Quoted(m.key) + Colon(format))) + Text(m.value, depth, format, g)
            + MemberEnd(m.next, format) == before + MemberText(m, depth, format, g)
    ensures |MemberText(m, depth, format, g)| == |Indent(depth, format)| + |Quoted(m.key)| + |Colon(format)|
              + |Text(m.value, depth, format, g)| + |MemberEnd(m.next, format)|
  {
    hide Text, Quoted, Indent, Colon, MemberEnd;
  }

  lemma ArrayText(items: Items, depth: nat, format: bool, g: Printf)
    ensures Text(Array(items), depth, format, g) == [91] + ItemsText(items, depth + 1, format, g) + [93]
  {
    hide ItemsText;
  }

  lemma ObjectText(members: Members, depth: nat, format: bool, g: Printf)
    ensures Text(Object(members), depth, format, g)
            == OpenBrace(format) + MembersText(members, depth + 1, format, g) + (Indent(depth, format) + [125])
  {
    hide MembersText, Indent, OpenBrace;
    var inner: bytes := OpenBrace(format) + MembersText(members, depth + 1, format, g);
    Concat3(inner, Indent(depth, format), [125]);
  }

  lemma IndentLength(depth: nat, format: bool)
    ensures |Indent(depth, format)| == if format then depth else 0
  {
  }

  lemma MembersTurn(before: bytes, m: Members, depth: nat, format: bool, g: Printf)
    requires m.Member?
    ensures before + MemberText(m, depth, format, g) + MembersText(m.next, depth, format, g)
         == before + MembersText(m, depth, format, g)
  {
    hide Text, Quoted, Indent, Colon, MemberEnd;
  }

  lemma QuotedIs(s: cstring)
    ensures |Quoted(s)| == |Escape(s)| + 2
    ensures var body: bytes, text: bytes := Escape(s), Quoted(s); [34] + body + [34, 0] == text + [0]
  {
    hide Escape;
  }

  lemma EscapeNext(s: cstring, i: nat)
    requires i < |s|
    ensures Escape(s[..i + 1]) == Escape(s[..i]) + EscapeByte(s[i])
  {
    assert s[..i + 1] == s[..i] + [s[i]];
    EscapeConcat(s[..i], [s[i]]);
    assert Escape([s[i]]) == EscapeByte(s[i]);
  }

  lemma EscapePrefix(s: cstring, i: nat)
    requires i <= |s|
    ensures |Escape(s[..i])| <= |Escape(s)|
  {
    assert s == s[..i] + s[i..];
    EscapeConcat(s[..i], s[i..]);
  }

  /** A string that grows by nothing is printed as it is. */
  lemma {:induction false} NothingEscaped(s: cstring)
    ensures |Escape(s)| >= |s|
    ensures |Escape(s)| == |s| ==> Escape(s) == s
  {
    if s != [] {
      NothingEscaped(s[1..]);
      assert s == [s[0]] + s[1..];
    }
  }

  /** A C string has no terminator before its end. */
  lemma NoEarlyTerminator(c: bytes, o: nat, before: bytes, t: cstring)
    requires |before| <= o <= |before| + |t| < |c| && c[..|before| + |t|] == before + t
    ensures o < |before| + |t| ==> c[o] == t[o - |before|] && c[o] != 0
  {
    if o < |before| + |t| {
      assert c[..|before| + |t|][o] == c[o];
    }
  }

  /** Reading a stored text and its terminator back. */
  lemma Terminated(c: bytes, o: nat, before: bytes, t: bytes)
    requires o == |before| && o + |t| < |c|
    requires c[..o + |t| + 1] == before + (t + [0])
    ensures c[..o + |t|] == before + t && c[o + |t|] == 0
  {
    assert c[..o + |t|] == c[..o + |t| + 1][..o + |t|];
    assert c[o + |t|] == c[..o + |t| + 1][o + |t|];
  }
}
