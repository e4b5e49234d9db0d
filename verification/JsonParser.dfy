/** The recursive-descent parser of tcp/cJSON.c over a mutable offset and depth. */
module JsonParser {
  import opened Bytes
  import opened JsonTree
  import opened JsonGrammar
  import opened JsonNumber
  import JsonStrings

  // ----- values collected by the loops -----

  ghost function Chained(items: seq<Json>, r: Parsed<Items>): Parsed<Items> {
    match r
    case Fail => Fail
    case Ok(rest, end) => Ok(ItemsOf(items, rest), end)
  }

  function ItemsOf(items: seq<Json>, rest: Items): Items {
    if items == [] then rest
    else ItemsOf(items[..|items| - 1], Item(items[|items| - 1], rest))
  }

  ghost function ChainedMembers(members: seq<(cstring, Json)>, r: Parsed<Members>)
    : Parsed<Members>
  {
    match r
    case Fail => Fail
    case Ok(rest, end) => Ok(MembersOf(members, rest), end)
  }

  function MembersOf(members: seq<(cstring, Json)>, rest: Members): Members {
    if members == [] then rest
    else
      var (key, value) := members[|members| - 1];
      MembersOf(members[..|members| - 1], Member(key, value, rest))
  }

  class ParseBuffer {
    const content: bytes
    var offset: nat
    var depth: nat

    constructor (content: bytes)
      ensures this.content == content && offset == 0 && depth == 0
    {
      this.content := content;
      offset, depth := 0, 0;
    }

    /** The offset never leaves the buffer, whatever the input. */
    predicate Valid()
      reads this
    {
      offset <= |content|
    }

    /** On success the parser stands where the grammar says, at the depth it started from. */
    ghost predicate Follows<T>(ok: bool, value: T, r: Parsed<T>, entry: nat)
      reads this
    {
      Valid() && (ok <==> r.Ok?) && (ok ==> value == r.value && offset == r.end && depth == entry)
    }

    method SkipWhitespace()
      requires Valid()
      modifies this
      ensures Valid() && depth == old(depth)
      ensures offset == SkipSpace(content, old(offset))
    {
      if offset == |content| {
        return;
      }
      while offset < |content| && content[offset] <= 32
        invariant old(offset) <= offset <= |content| && depth == old(depth)
        invariant SpaceEnd(content, offset) == SpaceEnd(content, old(offset))
      {
        offset := offset + 1;
      }
      if offset == |content| {
        offset := offset - 1;
      }
    }

    method ParseNumber() returns (ok: bool, value: Json)
      requires Valid()
      modifies this
      ensures Follows(ok, value, JsonGrammar.ParseNumber(content, old(offset)), old(depth))
    {
      var i := 0;
      while offset + i < |content| && IsNumberByte(content[offset + i])
        invariant 0 <= i && offset + i <= |content|
        invariant NumberEnd(content, offset + i) == NumberEnd(content, offset)
      {
        i := i + 1;
      }
      match Strtod(content[offset..offset + i])
      case None => return false, Null;
      case Some((d, n)) =>
        offset := offset + n;
        return true, Number(d);
    }

    method ParseString() returns (ok: bool, text: cstring)
      requires Valid() && offset < |content|
      modifies this
      ensures Follows(ok, text, JsonGrammar.ParseString(content, old(offset)), old(depth))
    {
      ok, text, offset := JsonStrings.DecodeString(content, offset);
    }

    method ParseValue() returns (ok: bool, value: Json)
      requires Valid()
      modifies this
      ensures
        Follows(ok, value, JsonGrammar.ParseValue(content, old(offset), old(depth)), old(depth))
      decreases |content| - offset, 3
    {
      if Stands(content, offset, NullText()) {
        offset := offset + 4;
        return true, Null;
      }
      if Stands(content, offset, FalseText()) {
        offset := offset + 5;
        return true, False;
      }
      if Stands(content, offset, TrueText()) {
        offset := offset + 4;
        return true, True;
      }
      if offset < |content| && content[offset] == 34 {
        var text;
        ok, text := ParseString();
        return ok, String(text);
      }
      if offset < |content| && (content[offset] == 45 || IsDigit(content[offset])) {
        ok, value := ParseNumber();
        return;
      }
      if offset < |content| && content[offset] == 91 {
        ok, value := ParseArray();
        return;
      }
      if offset < |content| && content[offset] == 123 {
        ok, value := ParseObject();
        return;
      }
      return false, Null;
    }

    method ParseArray() returns (ok: bool, value: Json)
      requires Valid() && offset < |content| && content[offset] == 91
      modifies this
      ensures
        Follows(ok, value, JsonGrammar.ParseArray(content, old(offset), old(depth)), old(depth))
      decreases |content| - offset, 2
    {
      hide ParseItems, JsonGrammar.ParseMembers, SkipSpace;
      if depth >= NESTING_LIMIT {
        return false, Null;
      }
      depth := depth + 1;
      offset := offset + 1;
      SkipWhitespace();
      if offset < |content| && content[offset] == 93 {
        depth := depth - 1;
        offset := offset + 1;
        return true, Array(NoItem);
      }
      if offset >= |content| {
        offset := offset - 1;
        return false, Null;
      }
      offset := offset - 1;
      var items;
      ok, items := ParseElements();
      if ok {
        depth := depth - 1;
      }
      return ok, Array(items);
    }

    /** The comma separated elements after the byte at the offset, with the closing byte. */
    method ParseElements() returns (ok: bool, chain: Items)
      requires Valid() && offset < |content|
      modifies this
      ensures Follows(ok, chain, ParseItems(content, old(offset), old(depth)), old(depth))
      decreases |content| - offset, 1
    {
      hide JsonGrammar.ParseValue, SkipSpace;
      var collected: seq<Json> := [];
      while true
        invariant old(offset) <= offset < |content| && depth == old(depth)
        invariant ParseItems(content, old(offset), depth)
               == Chained(collected, ParseItems(content, offset, depth))
        decreases |content| - offset
      {
        var parsed, element := ParseOneElement();
        if !parsed {
          return false, NoItem;
        }
        collected := collected + [element];
        SkipWhitespace();
        if !(offset < |content| && content[offset] == 44) {
          break;
        }
      }
      if offset >= |content| || content[offset] != 93 {
        return false, NoItem;
      }
      offset := offset + 1;
      return true, ItemsOf(collected, NoItem);
    }

    method ParseOneElement() returns (ok: bool, element: Json)
      requires Valid() && offset < |content|
      modifies this
      ensures
        Follows(ok, element,
                JsonGrammar.ParseValue(content, SkipSpace(content, old(offset) + 1), old(depth)),
                old(depth))
      decreases |content| - offset, 0
    {
      hide JsonGrammar.ParseValue, SkipSpace;
      offset := offset + 1;
      SkipWhitespace();
      ok, element := ParseValue();
    }

    method ParseObject() returns (ok: bool, value: Json)
      requires Valid() && offset < |content| && content[offset] == 123
      modifies this
      ensures
        Follows(ok, value, JsonGrammar.ParseObject(content, old(offset), old(depth)), old(depth))
      decreases |content| - offset, 2
    {
      hide ParseItems, JsonGrammar.ParseMembers, SkipSpace;
      if depth >= NESTING_LIMIT {
        return false, Null;
      }
      depth := depth + 1;
      offset := offset + 1;
      SkipWhitespace();
      if offset < |content| && content[offset] == 125 {
        depth := depth - 1;
        offset := offset + 1;
        return true, Object(NoMember);
      }
      if offset >= |content| {
        offset := offset - 1;
        return false, Null;
      }
      offset := offset - 1;
      var members;
      ok, members := ParseMembers();
      if ok {
        depth := depth - 1;
      }
      return ok, Object(members);
    }

    /** The comma separated elements after the byte at the offset, with the closing byte. */
    method ParseMembers() returns (ok: bool, chain: Members)
      requires Valid() && offset < |content|
      modifies this
      ensures Follows(ok, chain, JsonGrammar.ParseMembers(content, old(offset), old(depth)), old(depth))
      decreases |content| - offset, 1
    {
      hide ParseMember, SkipSpace;
      var collected: seq<(cstring, Json)> := [];
      while true
        invariant old(offset) <= offset < |content| && depth == old(depth)
        invariant JsonGrammar.ParseMembers(content, old(offset), depth)
               == ChainedMembers(collected, JsonGrammar.ParseMembers(content, offset, depth))
        decreases |content| - offset
      {
        var parsed, element := ParseOneMember();
        if !parsed {
          return false, NoMember;
        }
        collected := collected + [element];
        SkipWhitespace();
        if !(offset < |content| && content[offset] == 44) {
          break;
        }
      }
      if offset >= |content| || content[offset] != 125 {
        return false, NoMember;
      }
      offset := offset + 1;
      return true, MembersOf(collected, NoMember);
    }

    method ParseOneMember() returns (ok: bool, member: (cstring, Json))
      requires Valid() && offset < |content|
      modifies this
      ensures
        Follows(ok, member, ParseMember(content, old(offset), old(depth)), old(depth))
      decreases |content| - offset, 0
    {
      hide JsonGrammar.ParseValue, JsonGrammar.ParseString, SkipSpace;
      member := ([], Null);
      if offset + 1 >= |content| {
        return false, member;
      }
      offset := offset + 1;
      SkipWhitespace();
      var key, value;
      ok, key := ParseString();
      if !ok {
        return;
      }
      SkipWhitespace();
      if offset >= |content| || content[offset] != 58 {
        return false, member;
      }
      offset := offset + 1;
      SkipWhitespace();
      ok, value := ParseValue();
      member := (key, value);
    }
  }

  /** `cJSON_ParseWithLengthOpts` on a fresh parse buffer. */
  method Parse(content: bytes, requireNul: bool) returns (ok: bool, value: Json, end: nat)
    ensures ParseDocument(content, requireNul)
         == if ok then Ok(value, end) else Fail
  {
    value, end := Null, 0;
    if |content| == 0 {
      return false, Null, 0;
    }
    var buffer := new ParseBuffer(content);
    if |content| > 4 && content[..3] == [0xEF, 0xBB, 0xBF] {
      buffer.offset := 3;
    }
    buffer.SkipWhitespace();
    ok, value := buffer.ParseValue();
    if !ok {
      return;
    }
    if requireNul {
      buffer.SkipWhitespace();
      if buffer.offset >= |content| || content[buffer.offset] != 0 {
        return false, Null, 0;
      }
    }
    end := buffer.offset;
  }
}
