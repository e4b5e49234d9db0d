/** `cJSON_Minify`, in place, and when it undoes formatted printing. */
module JsonMinify {
  import opened Bytes
  import opened JsonTree

  predicate IsSpace(b: byte) { b == 32 || b == 9 || b == 13 || b == 10 }

  /** What follows a one-line comment. */
  function AfterLine(t: bytes): (r: bytes)
    ensures |r| <= |t|
  {
    if t == [] then [] else if t[0] == 10 then t[1..] else AfterLine(t[1..])
  }

  /** What follows a block comment. */
  function AfterBlock(t: bytes): (r: bytes)
    ensures |r| <= |t|
  {
    if t == [] then []
    else if t[0] == 42 && |t| > 1 && t[1] == 47 then t[2..]
    else AfterBlock(t[1..])
  }

  /** What is left of the text outside strings. */
  function Minified(t: bytes): (r: bytes)
    ensures |r| <= |t|
    decreases |t|
  {
    if t == [] then []
    else if IsSpace(t[0]) then Minified(t[1..])
    else if t[0] == 47 then
      if |t| > 1 && t[1] == 47 then Minified(AfterLine(t[2..]))
      else if |t| > 1 && t[1] == 42 then Minified(AfterBlock(t[2..]))
      else Minified(t[1..])
    else if t[0] == 34 then [34] + MinifiedString(t[1..])
    else [t[0]] + Minified(t[1..])
  }

  /** What is left inside a string: a backslash before a quote always escapes it. */
  function MinifiedString(t: bytes): (r: bytes)
    ensures |r| <= |t|
    decreases |t|
  {
    if t == [] then []
    else if t[0] == 34 then [34] + Minified(t[1..])
    else if t[0] == 92 && |t| > 1 && t[1] == 34 then [92, 34] + MinifiedString(t[2..])
    else [t[0]] + MinifiedString(t[1..])
  }

  // ----- in place -----

  /** From `r` on the block still holds the text `t` it held at first, and its terminator. */
  ghost predicate Unread(json: array<byte>, t: bytes, r: nat)
    reads json
  {
    && r <= |t| < json.Length && json[|t|] == 0
    && (forall i :: r <= i < |t| ==> json[i] == t[i])
    && (forall i :: 0 <= i < |t| ==> t[i] != 0)
  }

  method SkipLine(json: array<byte>, ghost t: bytes, from: nat) returns (r: nat)
    requires from + 2 <= |t| && Unread(json, t, from)
    ensures from < r <= |t| && t[r..] == AfterLine(t[from + 2..])
  {
    r := from + 2;
    while json[r] != 0
      invariant from + 2 <= r <= |t|
      invariant AfterLine(t[r..]) == AfterLine(t[from + 2..])
      decreases |t| - r
    {
      assert t[r..][1..] == t[r + 1..];
      if json[r] == 10 {
        return r + 1;
      }
      r := r + 1;
    }
    assert t[r..] == [];
  }

  lemma AfterBlockStep(t: bytes, r: nat)
    requires r < |t|
    ensures AfterBlock(t[r..])
         == if t[r] == 42 && r + 1 < |t| && t[r + 1] == 47 then t[r + 2..] else AfterBlock(t[r + 1..])
  {
    assert t[r..][1..] == t[r + 1..];
    if r + 1 < |t| { assert t[r..][2..] == t[r + 2..]; }
  }

  lemma AfterBlockEnd(t: bytes)
    ensures t[|t|..] == [] && AfterBlock(t[|t|..]) == []
  {
  }

  method SkipBlock(json: array<byte>, ghost t: bytes, from: nat) returns (r: nat)
    requires from + 2 <= |t| && Unread(json, t, from)
    ensures from < r <= |t| && t[r..] == AfterBlock(t[from + 2..])
  {
    hide AfterBlock;
    r := from + 2;
    while json[r] != 0
      invariant from + 2 <= r <= |t|
      invariant AfterBlock(t[r..]) == AfterBlock(t[from + 2..])
      decreases |t| - r
    {
      AfterBlockStep(t, r);
      if json[r] == 42 && json[r + 1] == 47 { return r + 2; }
      r := r + 1;
    }
    AfterBlockEnd(t);
  }

  /** One byte written at `w`, at most where the next byte to read is. */
  method Put(json: array<byte>, w: nat, b: byte, ghost t: bytes, ghost r: nat)
    requires w < r && Unread(json, t, r)
    modifies json
    ensures Unread(json, t, r) && json[..w + 1] == old(json[..w]) + [b]
  {
    json[w] := b;
    assert json[..w + 1] == old(json[..w]) + [b];
  }

  /** Copies a string, from its opening quote at `from`; the write position is behind. */
  method MinifyString(json: array<byte>, ghost t: bytes, from: nat, at: nat)
    returns (r: nat, w: nat)
    requires at <= from < |t| && Unread(json, t, from) && json[from] == 34
    modifies json
    ensures w <= r && from < r && Unread(json, t, r)
    ensures json[..w] + Minified(t[r..]) == old(json[..at]) + Minified(t[from..])
  {
    ghost var whole := json[..at] + Minified(t[from..]);
    ghost var done := json[..at];
    OpeningQuote(t, from, done);
    hide Minified, MinifiedString;
    Put(json, at, json[from], t, from + 1);
    r, w := from + 1, at + 1;
    while json[r] != 0
      invariant w <= r && from < r && Unread(json, t, r)
      invariant json[..w] + MinifiedString(t[r..]) == whole
      decreases |t| - r
    {
      var closed;
      closed, r, w := MinifyStringTurn(json, t, r, w);
      if closed {
        return;
      }
    }
    assert t[r..] == [];
    NothingLeft();
  }

  /** One turn of the loop over a string; an escaped quote takes two bytes at once. */
  method MinifyStringTurn(json: array<byte>, ghost t: bytes, from: nat, at: nat)
    returns (closed: bool, r: nat, w: nat)
    requires at <= from < |t| && Unread(json, t, from)
    modifies json
    ensures w <= r && from < r && Unread(json, t, r)
    ensures json[..w] + (if closed then Minified(t[r..]) else MinifiedString(t[r..]))
         == old(json[..at]) + MinifiedString(t[from..])
  {
    hide Minified, MinifiedString;
    StringTurn(t, from, json[..at]);
    var b, next := json[from], json[from + 1];
    Put(json, at, b, t, from + 1);
    closed, r, w := b == 34, from + 1, at + 1;
    if b == 92 && next == 34 {
      Put(json, w, next, t, r + 1);
      r, w := r + 1, w + 1;
    }
  }

  lemma NothingLeft()
    ensures Minified([]) == [] && MinifiedString([]) == []
  {
  }

  lemma OpeningQuote(t: bytes, r: nat, done: bytes)
    requires r < |t| && t[r] == 34
    ensures done + Minified(t[r..]) == done + [34] + MinifiedString(t[r + 1..])
  {
    assert t[r..][1..] == t[r + 1..];
  }

  /** One turn inside a string, with what has been written so far. */
  lemma StringTurn(t: bytes, r: nat, done: bytes)
    requires r < |t|
    ensures t[r] == 34 ==>
              done + MinifiedString(t[r..]) == done + [34] + Minified(t[r + 1..])
    ensures t[r] == 92 && r + 1 < |t| && t[r + 1] == 34 ==>
              done + MinifiedString(t[r..]) == done + [92] + [34] + MinifiedString(t[r + 2..])
    ensures t[r] != 34 && !(t[r] == 92 && r + 1 < |t| && t[r + 1] == 34) ==>
              done + MinifiedString(t[r..]) == done + [t[r]] + MinifiedString(t[r + 1..])
  {
    assert t[r..][1..] == t[r + 1..];
    if r + 1 < |t| {
      assert t[r..][2..] == t[r + 2..];
    }
    assert done + [92] + [34] == done + [92, 34];
  }

  /** One turn outside strings, with what has been written so far. */
  lemma OutsideTurn(t: bytes, r: nat, done: bytes)
    requires r < |t|
    ensures IsSpace(t[r]) ==> Minified(t[r..]) == Minified(t[r + 1..])
    ensures t[r] == 47 && r + 1 < |t| && t[r + 1] == 47 ==>
              Minified(t[r..]) == Minified(AfterLine(t[r + 2..]))
    ensures t[r] == 47 && r + 1 < |t| && t[r + 1] == 42 ==>
              Minified(t[r..]) == Minified(AfterBlock(t[r + 2..]))
    ensures t[r] == 47 && !(r + 1 < |t| && (t[r + 1] == 47 || t[r + 1] == 42)) ==>
              Minified(t[r..]) == Minified(t[r + 1..])
    ensures !IsSpace(t[r]) && t[r] != 47 && t[r] != 34 ==>
              done + Minified(t[r..]) == done + [t[r]] + Minified(t[r + 1..])
  {
    assert t[r..][1..] == t[r + 1..];
    if r + 1 < |t| {
      assert t[r..][2..] == t[r + 2..];
    }
  }

  /** The result overwrites the text it is made from and never outruns what is still unread. */
  method Minify(json: array<byte>, ghost t: bytes) returns (length: nat)
    requires Unread(json, t, 0)
    modifies json
    ensures length <= |t| && json[..length] == Minified(t) && json[length] == 0
  {
    hide Minified, MinifiedString, AfterLine, AfterBlock;
    var r: nat, w: nat := 0, 0;
    assert t[0..] == t && json[..0] == [];
    assert [] + Minified(t) == Minified(t);
    while json[r] != 0
      invariant w <= r && Unread(json, t, r)
      invariant json[..w] + Minified(t[r..]) == Minified(t)
      decreases |t| - r
    {
      OutsideTurn(t, r, json[..w]);
      if json[r] == 32 || json[r] == 9 || json[r] == 13 || json[r] == 10 {
        r := r + 1;
      } else if json[r] == 47 {
        if json[r + 1] == 47 {
          r := SkipLine(json, t, r);
        } else if json[r + 1] == 42 {
          r := SkipBlock(json, t, r);
        } else {
          r := r + 1;
        }
      } else if json[r] == 34 {
        r, w := MinifyString(json, t, r, w);
      } else {
        Put(json, w, json[r], t, r + 1);
        r, w := r + 1, w + 1;
      }
    }
    assert t[r..] == [];
    NothingLeft();
    ghost var done := json[..w];
    assert done + [] == done;
    json[w] := 0;
    assert json[..w] == done;
    return w;
  }
}
