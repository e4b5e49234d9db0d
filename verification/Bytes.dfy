/** Bytes, C strings and the "this text stands at that offset" relation. */
module Bytes {
  type byte = x: int | 0 <= x < 256

  type bytes = seq<byte>

  /** A byte that may occur before the terminator of a C string. */
  type cchar = x: int | 1 <= x < 256 witness 1

  type cstring = seq<cchar>

  datatype Option<+T> = None | Some(value: T)

  /** What the C string functions see of a buffer: everything before the first NUL. */
  function CStr(t: bytes): cstring {
    if t == [] || t[0] == 0 then [] else [t[0] as cchar] + CStr(t[1..])
  }

  lemma {:induction false} CStrOfCString(s: cstring)
    ensures CStr(s) == s
  {
    if s != [] {
      CStrOfCString(s[1..]);
    }
  }

  /** Text `t` stands in `c` at offset `o`. */
  predicate Stands(c: bytes, o: nat, t: bytes) {
    o + |t| <= |c| && c[o..o + |t|] == t
  }

  lemma StandsConcat(c: bytes, o: nat, a: bytes, b: bytes)
    ensures Stands(c, o, a + b) <==> Stands(c, o, a) && Stands(c, o + |a|, b)
  {
    if o + |a| + |b| <= |c| {
      assert c[o..o + |a + b|] == c[o..o + |a|] + c[o + |a|..o + |a| + |b|];
      if Stands(c, o, a + b) {
        assert c[o..o + |a|] == (a + b)[..|a|];
        assert c[o + |a|..o + |a| + |b|] == (a + b)[|a|..];
      }
    }
  }

  lemma StandsByte(c: bytes, o: nat, t: bytes, i: nat)
    requires Stands(c, o, t) && i < |t|
    ensures o + i < |c| && c[o + i] == t[i]
  {
    assert c[o..o + |t|][i] == c[o + i];
  }

  lemma Concat3(a: bytes, b: bytes, c: bytes)
    ensures a + b + c == a + (b + c)
  {
  }

  /** Concatenation, bracketed to the right. */
  lemma Concat4(a: bytes, b: bytes, c: bytes, d: bytes)
    ensures a + b + c + d == a + (b + (c + d))
  {
  }

  lemma Concat7(a: bytes, b: bytes, c: bytes, d: bytes, e: bytes, f: bytes, g: bytes)
    ensures a + b + c + d + e + f + g == a + (b + (c + (d + (e + (f + g)))))
  {
    assert e + f + g == e + (f + g);
    Concat4(a + b, c, d, e + f + g);
    assert a + b + c + d + e + f + g == a + b + c + d + (e + f + g);
    assert c + (d + (e + f + g)) == c + (d + (e + (f + g)));
  }

  /** Text in front of an optional text. */
  function Prepend(t: bytes, r: Option<bytes>): Option<bytes> {
    match r
    case None => None
    case Some(rest) => Some(t + rest)
  }

  lemma PrependNothing(r: Option<bytes>)
    ensures Prepend([], r) == r
  {
    if r.Some? {
      assert [] + r.value == r.value;
    }
  }

  lemma PrependLast(s: bytes)
    ensures Prepend(s, Some([])) == Some(s)
  {
    assert s + [] == s;
  }

  lemma PrependStep(s: bytes, t: bytes, r: Option<bytes>)
    ensures Prepend(s, Prepend(t, r)) == Prepend(s + t, r)
  {
    if r.Some? {
      assert s + (t + r.value) == s + t + r.value;
    }
  }
}
