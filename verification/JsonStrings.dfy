/** The string decoder of tcp/cJSON.c: two passes and a buffer sized by the first. */
module JsonStrings {
  import opened Bytes
  import opened JsonTree
  import opened JsonGrammar

  // ----- the two passes of parse_string -----

  /** How many escapes the first pass, starting at `q`, meets before `p`. */
  ghost function Escapes(c: bytes, q: nat, p: nat): nat
    decreases |c| - q
  {
    if q >= p || q >= |c| then 0
    else if c[q] == 92 then 1 + Escapes(c, q + 2, p)
    else Escapes(c, q + 1, p)
  }

  /** Only a backslash can be the start of an escape. */
  lemma {:induction false} EscapesAtOther(c: bytes, q: nat, p: nat)
    requires p < |c| && c[p] != 92
    ensures Escapes(c, q, p + 1) == Escapes(c, q, p)
    decreases |c| - q
  {
    if q < p {
      EscapesAtOther(c, if c[q] == 92 then q + 2 else q + 1, p);
    }
  }

  /** Two adjacent bytes hold at most one escape start. */
  lemma {:induction false} EscapesInTwo(c: bytes, q: nat, p: nat)
    ensures Escapes(c, q, p) <= Escapes(c, q, p + 2) <= Escapes(c, q, p) + 1
    decreases |c| - q
  {
    if q < p && q < |c| {
      EscapesInTwo(c, if c[q] == 92 then q + 2 else q + 1, p);
    } else if q < |c| {
      assert Escapes(c, q + 2, p + 2) == 0;
      if c[q] != 92 && q + 1 < |c| {
        assert Escapes(c, q + 3, p + 2) == 0;
        assert Escapes(c, q + 2, p + 2) == 0;
      }
    }
  }

  lemma EscapesInSix(c: bytes, q: nat, p: nat)
    ensures Escapes(c, q, p + 6) <= Escapes(c, q, p) + 3
  {
    EscapesInTwo(c, q, p);
    EscapesInTwo(c, q, p + 2);
    EscapesInTwo(c, q, p + 4);
  }

  /** A valid `\uXXXX` has one escape start among its six bytes at most. */
  lemma EscapesInLiteral(c: bytes, q: nat, p: nat)
    requires p + 6 <= |c| && c[p + 1] == 117 && Hex4(c, p + 2) != 0
    ensures Escapes(c, q, p + 6) <= Escapes(c, q, p) + 1
  {
    EscapesInTwo(c, q, p);
    EscapesAtOther(c, q, p + 2);
    EscapesAtOther(c, q, p + 3);
    EscapesAtOther(c, q, p + 4);
    EscapesAtOther(c, q, p + 5);
  }

  /** A step saves at least as many bytes as the first pass counted escapes in it. */
  lemma StepSavesEnough(c: bytes, q: nat, p: nat, e: nat)
    requires p < e < |c| && DecodeStep(c, p, e).Some?
    ensures
      var (t, n) := DecodeStep(c, p, e).value;
      Escapes(c, q, p + n) + |t| <= Escapes(c, q, p) + n
  {
    hide Escapes;
    if c[p] != 92 {
      EscapesAtOther(c, q, p);
    } else {
      EscapesInTwo(c, q, p);
      EscapesInSix(c, q, p);
      if c[p + 1] == 117 && Hex4(c, p + 2) != 0 {
        EscapesInLiteral(c, q, p);
        if p + 12 <= |c| && Hex4(c, p + 8) != 0 && c[p + 7] == 117 {
          EscapesInLiteral(c, q, p + 6);
        }
      }
    }
  }

  /** No escape of the first pass starts at its closing quote or just before it. */
  lemma {:induction false} EscapesPastQuote(c: bytes, q: nat)
    requires ClosingQuote(c, q).Some?
    ensures
      var e := ClosingQuote(c, q).value;
      Escapes(c, q, e + 1) == Escapes(c, q, e) <= e - q
      && (e > q ==> Escapes(c, q, e - 1) == Escapes(c, q, e))
    decreases |c| - q
  {
    if c[q] == 92 {
      EscapesPastQuote(c, q + 2);
    } else if c[q] != 34 {
      EscapesPastQuote(c, q + 1);
    } else {
      assert Escapes(c, q + 1, q + 1) == 0;
    }
  }

  /** Only a two-character escape can swallow the closing quote. */
  lemma StepPastQuote(c: bytes, p: nat, e: nat)
    requires p < e < |c| && DecodeStep(c, p, e).Some? && p + DecodeStep(c, p, e).value.1 == e + 1
    ensures p == e - 1 && |DecodeStep(c, p, e).value.0| == 1
  {
  }

  /**
   * The second pass never outgrows the allocation: from any position it can reach, with
   * `k` bytes already written, what is still to come fits in the content bytes less the
   * escapes the first pass counted.
   */
  lemma {:induction false} UnescapeFits(c: bytes, q: nat, p: nat, k: nat)
    requires ClosingQuote(c, q).Some?
    requires
      var e := ClosingQuote(c, q).value;
      q <= p <= e && k + Escapes(c, q, p) <= p - q && Unescape(c, p, e).Some?
    ensures
      var e := ClosingQuote(c, q).value;
      k + |Unescape(c, p, e).value| + Escapes(c, q, e) <= e - q
    decreases |c| - p
  {
    hide DecodeStep, Escapes, ClosingQuote, Unescape;
    var e := ClosingQuote(c, q).value;
    EscapesPastQuote(c, q);
    if p == e {
      NothingLeft(c, p, e);
    } else {
      UnescapeStep(c, p, e);
      var (t, n) := DecodeStep(c, p, e).value;
      if p + n <= e {
        StepSavesEnough(c, q, p, e);
        UnescapeFits(c, q, p + n, k + |t|);
      } else {
        StepPastQuote(c, p, e);
        NothingLeft(c, p + n, e);
      }
    }
  }

  /** Between two positions the first pass meets at most one escape start a byte. */
  lemma {:induction false} EscapesInRange(c: bytes, q: nat, p: nat, r: nat)
    requires p <= r
    ensures Escapes(c, q, p) <= Escapes(c, q, r) <= Escapes(c, q, p) + (r - p)
    decreases |c| - q
  {
    if q < p && q < |c| {
      EscapesInRange(c, if c[q] == 92 then q + 2 else q + 1, p, r);
    } else if q < r && q < |c| {
      EscapesInRange(c, if c[q] == 92 then q + 2 else q + 1, p, r);
      EscapesUpTo(c, q, r);
    }
  }

  lemma {:induction false} EscapesUpTo(c: bytes, q: nat, r: nat)
    requires q <= r
    ensures Escapes(c, q, r) <= r - q
    decreases |c| - q
  {
    if q < r && q < |c| {
      if c[q] == 92 && q + 2 <= r {
        EscapesUpTo(c, q + 2, r);
      } else if c[q] != 92 {
        EscapesUpTo(c, q + 1, r);
      }
    }
  }

  // ----- converting \u literals -----

  ghost function HexPrefix(c: bytes, p: nat, i: nat): nat
    requires p + i <= |c|
  {
    if i == 0 then 0
    else
      16 * HexPrefix(c, p, i - 1)
      + (match HexValue(c[p + i - 1]) case None => 0 case Some(x) => x)
  }

  method ParseHex4(c: bytes, p: nat) returns (h: nat)
    requires p + 4 <= |c|
    ensures h == Hex4(c, p)
  {
    h := 0;
    for i := 0 to 4
      invariant h == HexPrefix(c, p, i) * (if 0 < i < 4 then 16 else 1)
      invariant forall k :: p <= k < p + i ==> HexValue(c[k]).Some?
    {
      if 48 <= c[p + i] <= 57 {
        h := h + (c[p + i] - 48);
      } else if 65 <= c[p + i] <= 70 {
        h := h + (10 + c[p + i] - 65);
      } else if 97 <= c[p + i] <= 102 {
        h := h + (10 + c[p + i] - 97);
      } else {
        assert HexValue(c[p + i]).None?;
        return 0;
      }
      if i < 3 {
        h := h * 16;
      }
    }
    assert HexValue(c[p]).Some? && HexValue(c[p + 1]).Some?;
    assert HexValue(c[p + 2]).Some? && HexValue(c[p + 3]).Some?;
    assert HexPrefix(c, p, 1) == HexValue(c[p]).value;
    assert HexPrefix(c, p, 2) == 16 * HexPrefix(c, p, 1) + HexValue(c[p + 1]).value;
    assert HexPrefix(c, p, 3) == 16 * HexPrefix(c, p, 2) + HexValue(c[p + 2]).value;
  }

  ghost function Shifted(cp: nat, k: nat): nat {
    if k == 0 then cp else Shifted(cp, k - 1) / 64
  }

  /** The code point of the literal at `p` and the bytes it uses: zero if it is bad. */
  method DecodeUtf16(c: bytes, p: nat, e: nat) returns (codepoint: nat, used: nat)
    requires p < e < |c|
    ensures
      match Utf16Literal(c, p, e)
      case None => used == 0
      case Some((cp, n)) => codepoint == cp && used == n
  {
    codepoint := 0;
    if e - p < 6 {
      return 0, 0;
    }
    var first := ParseHex4(c, p + 2);
    if 0xDC00 <= first <= 0xDFFF {
      return 0, 0;
    }
    if 0xD800 <= first <= 0xDBFF {
      if e - (p + 6) < 6 || c[p + 6] != 92 || c[p + 7] != 117 {
        return 0, 0;
      }
      var second := ParseHex4(c, p + 8);
      if second < 0xDC00 || second > 0xDFFF {
        return 0, 0;
      }
      return 0x10000 + first % 0x400 * 0x400 + second % 0x400, 12;
    }
    return first, 6;
  }

  lemma ShiftMore(cp: nat, k: nat)
    ensures Shifted(cp, 0) == cp && Shifted(cp, k + 1) == Shifted(cp, k) / 64
  {
  }

  /** The length of the encoding, its lead byte and its later bytes. */
  lemma Utf8Parts(cp: nat)
    requires cp <= 0x10FFFF
    ensures
      var t := Utf8(cp);
      var n := if cp < 0x80 then 1 else if cp < 0x800 then 2 else if cp < 0x10000 then 3 else 4;
      && |t| == n && t[0] == Lead(n) + Shifted(cp, n - 1)
      && forall k :: 1 <= k < n ==> t[k] == 0x80 + Shifted(cp, n - 1 - k) % 64
  {
    assert Shifted(cp, 1) == cp / 64;
    assert Shifted(cp, 2) == cp / 64 / 64;
    assert Shifted(cp, 3) == cp / 64 / 64 / 64;
  }

  function Lead(n: nat): nat { if n == 1 then 0 else if n == 2 then 0xC0 else if n == 3 then 0xE0 else 0xF0 }

  /** Writes the UTF-8 bytes of `whole` at `at`, last byte first. */
  method WriteUtf8(whole: nat, output: array<byte>, at: nat) returns (after: nat)
    requires whole <= 0x10FFFF && at + |Utf8(whole)| <= output.Length
    modifies output
    ensures after == at + |Utf8(whole)|
    ensures output[..after] == old(output[..at]) + Utf8(whole)
  {
    hide Utf8, Shifted;
    ghost var text := Utf8(whole);
    Utf8Parts(whole);
    var length, mark := 1, 0;
    if whole >= 0x10000 {
      length, mark := 4, 0xF0;
    } else if whole >= 0x800 {
      length, mark := 3, 0xE0;
    } else if whole >= 0x80 {
      length, mark := 2, 0xC0;
    }
    ShiftMore(whole, 0);
    var codepoint, position := whole, length - 1;
    while position > 0
      invariant 0 <= position < length == |text|
      invariant codepoint == Shifted(whole, length - 1 - position)
      invariant forall k :: at + position < k < at + length ==> output[k] == text[k - at]
      invariant output[..at] == old(output[..at])
    {
      output[at + position] := 0x80 + codepoint % 64;
      ShiftMore(whole, length - 1 - position);
      codepoint := codepoint / 64;
      position := position - 1;
    }
    output[at] := mark + codepoint;
    after := at + length;
    assert output[at..after] == text;
    assert output[..after] == output[..at] + output[at..after];
  }

  /** The first pass: the closing quote and the number of escapes before it. */
  method FindClosingQuote(c: bytes, start: nat) returns (ok: bool, e: nat, skipped: nat)
    requires start <= |c|
    ensures
      match ClosingQuote(c, start)
      case None => !ok
      case Some(q) => ok && e == q && skipped == Escapes(c, start, q)
  {
    ghost var quote := match ClosingQuote(c, start) case None => 0 case Some(q) => q;
    e, skipped := start, 0;
    while e < |c| && c[e] != 34
      invariant start <= e
      invariant ClosingQuote(c, start) == ClosingQuote(c, e)
      invariant ClosingQuote(c, start).Some? ==>
                  Escapes(c, start, quote) == skipped + Escapes(c, e, quote)
      decreases |c| - e
    {
      if c[e] == 92 {
        if e + 1 >= |c| {
          return false, e, skipped;
        }
        skipped := skipped + 1;
        e := e + 1;
      }
      e := e + 1;
    }
    ok := e < |c| && c[e] == 34;
  }

  /** Writes what the byte or escape at `p` decodes to; zero bytes used if it is bad. */
  method WriteStep(c: bytes, p: nat, e: nat, output: array<byte>, at: nat)
    returns (used: nat, after: nat)
    requires p < e < |c|
    requires DecodeStep(c, p, e).Some? ==> at + |DecodeStep(c, p, e).value.0| <= output.Length
    modifies output
    ensures
      match DecodeStep(c, p, e)
      case None => used == 0
      case Some((t, n)) =>
        used == n && after == at + |t| && output[..after] == old(output[..at]) + t
  {
    if c[p] != 92 {
      output[at] := c[p];
      return 1, at + 1;
    }
    used, after := 2, at + 1;
    if c[p + 1] == 98 {
      output[at] := 8;
    } else if c[p + 1] == 102 {
      output[at] := 12;
    } else if c[p + 1] == 110 {
      output[at] := 10;
    } else if c[p + 1] == 114 {
      output[at] := 13;
    } else if c[p + 1] == 116 {
      output[at] := 9;
    } else if c[p + 1] == 34 || c[p + 1] == 92 || c[p + 1] == 47 {
      output[at] := c[p + 1];
    } else if c[p + 1] == 117 {
      var cp;
      cp, used := DecodeUtf16(c, p, e);
      if used != 0 {
        after := WriteUtf8(cp, output, at);
      }
    } else {
      used := 0;
    }
  }

  /** However far a step reaches, its end is within the content less the skipped bytes. */
  lemma RoomForStep(c: bytes, q: nat, p: nat, e: nat)
    requires ClosingQuote(c, q) == Some(e) && q <= p < e
    requires DecodeStep(c, p, e).Some?
    ensures
      var n := DecodeStep(c, p, e).value.1;
      p + n - Escapes(c, q, p + n) <= e + 1 - Escapes(c, q, e)
  {
    var n := DecodeStep(c, p, e).value.1;
    EscapesPastQuote(c, q);
    if p + n <= e {
      EscapesInRange(c, q, p + n, e);
    }
  }

  /** With `k` bytes written before it, a step's bytes fit the allocation. */
  lemma StepFits(c: bytes, q: nat, p: nat, e: nat, k: nat)
    requires ClosingQuote(c, q) == Some(e) && q <= p < e && k + Escapes(c, q, p) <= p - q
    ensures
      match DecodeStep(c, p, e)
      case None => true
      case Some((t, n)) =>
        k + |t| + Escapes(c, q, p + n) <= p + n - q && k + |t| < (e - q) + 2 - Escapes(c, q, e)
  {
    hide DecodeStep, Escapes, ClosingQuote;
    if DecodeStep(c, p, e).Some? {
      StepSavesEnough(c, q, p, e);
      RoomForStep(c, q, p, e);
    }
  }

  /** The second pass has written `done` and goes on at `p`. */
  ghost predicate Decoded(c: bytes, start: nat, e: nat, p: nat, done: bytes)
    requires start <= e < |c| && p <= e + 1
  {
    Unescape(c, start, e) == Prepend(done, Unescape(c, p, e))
  }

  lemma DecodedFirst(c: bytes, start: nat, e: nat)
    requires start <= e < |c|
    ensures Decoded(c, start, e, start, [])
  {
    PrependNothing(Unescape(c, start, e));
  }

  lemma DecodedNext(c: bytes, start: nat, e: nat, p: nat, done: bytes)
    requires start <= e < |c| && p < e && Decoded(c, start, e, p, done)
    ensures
      match DecodeStep(c, p, e)
      case None => Unescape(c, start, e) == None
      case Some((t, n)) => Decoded(c, start, e, p + n, done + t)
  {
    hide Unescape, DecodeStep;
    UnescapeStep(c, p, e);
    if DecodeStep(c, p, e).Some? {
      var (t, n) := DecodeStep(c, p, e).value;
      PrependStep(done, t, Unescape(c, p + n, e));
    }
  }

  lemma DecodedEnd(c: bytes, start: nat, e: nat, p: nat, done: bytes)
    requires start <= e < |c| && e <= p <= e + 1 && Decoded(c, start, e, p, done)
    ensures Unescape(c, start, e) == Some(done)
  {
    NothingLeft(c, p, e);
    PrependLast(done);
  }

  /**
   * The second pass, into a buffer holding no more than the content less the skipped bytes
   * and a terminator: every write is inside it, whatever the content. `p` is where it stops.
   */
  method UnescapeInto(c: bytes, start: nat, e: nat, output: array<byte>)
    returns (ok: bool, k: nat, p: nat)
    requires start <= e && ClosingQuote(c, start) == Some(e)
    requires output.Length == (e - start) + 2 - Escapes(c, start, e)
    modifies output
    ensures p <= e + 1
    ensures
      match Unescape(c, start, e)
      case None => !ok
      case Some(t) => ok && k < output.Length && output[..k] == t && output[k] == 0
  {
    assert Escapes(c, start, start) == 0;
    hide DecodeStep, Escapes, ClosingQuote, Unescape, Decoded;
    p, k := start, 0;
    EscapesPastQuote(c, start);
    DecodedFirst(c, start, e);
    assert output[..k] == [];
    while p < e
      invariant start <= p <= e + 1
      invariant k + Escapes(c, start, p) <= p - start
      invariant k < output.Length
      invariant Decoded(c, start, e, p, output[..k])
      decreases e + 1 - p
    {
      DecodedNext(c, start, e, p, output[..k]);
      StepFits(c, start, p, e, k);
      var used, after := WriteStep(c, p, e, output, k);
      if used == 0 {
        return false, k, p;
      }
      k, p := after, p + used;
    }
    DecodedEnd(c, start, e, p, output[..k]);
    ghost var text := output[..k];
    output[k] := 0;
    assert output[..k] == text;
    ok := true;
  }

  /** Decodes the string whose opening quote is at `o`; `stop` is the parser's next offset. */
  method DecodeString(c: bytes, o: nat) returns (ok: bool, text: cstring, stop: nat)
    requires o < |c|
    ensures stop <= |c|
    ensures
      match ParseString(c, o)
      case Fail => !ok
      case Ok(s, end) => ok && text == s && stop == end
  {
    var start := o + 1;
    text, stop := [], start;
    if c[o] != 34 {
      return false, [], start;
    }
    var found, e, skipped := FindClosingQuote(c, start);
    if !found {
      return false, [], start;
    }
    EscapesPastQuote(c, start);
    var capacity := (e - o) - skipped;
    var output := new byte[capacity + 1];
    var k;
    ok, k, stop := UnescapeInto(c, start, e, output);
    if ok {
      text, stop := CStr(output[..k]), e + 1;
    }
  }
}
