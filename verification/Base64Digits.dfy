/** The base64 text as the format describes it: octets written as numbers to the base 64. */
module Base64Digits {
  import opened Bytes
  import opened Base64

  /** Table 1 of RFC 4648. */
  function Alphabet(): (t: string)
    ensures |t| == 64
  {
    "ABCDEFGHIJKLMNOPQRSTUVWXYZ" + "abcdefghijklmnopqrstuvwxyz" + "0123456789" + "+/"
  }

  /** The letters at a place of the text are the digits of a number to the base 64, the first on top. */
  predicate Spells(s: string, at: nat, digits: nat, n: nat) {
    if digits == 0 then n == 0
    else
      && at + digits <= |s|
      && s[at + digits - 1] == Alphabet()[n % 64]
      && Spells(s, at, digits - 1, n / 64)
  }

  lemma {:induction false} SpellsBehind(g: string, s: string, at: nat, digits: nat, n: nat)
    ensures Spells(g + s, |g| + at, digits, n) <==> Spells(s, at, digits, n)
  {
    hide Alphabet;
    if digits > 0 && at + digits <= |s| {
      SpellsBehind(g, s, at, digits - 1, n / 64);
      assert (g + s)[|g| + at + digits - 1] == s[at + digits - 1];
    }
  }

  /** Only the text up to the last of the letters matters. */
  lemma {:induction false} SpellsBefore(s: string, t: string, at: nat, digits: nat, n: nat)
    requires at + digits <= |s|
    ensures Spells(s + t, at, digits, n) <==> Spells(s, at, digits, n)
  {
    hide Alphabet;
    if digits > 0 {
      SpellsBefore(s, t, at, digits - 1, n / 64);
    }
  }

  lemma LetterOf(v: int)
    requires 0 <= v < 64
    ensures Letter(v) == Alphabet()[v]
  {
    TableIsAlphabet(v);
    AlphabetIsTable();
    hide Alphabet, Letter;
  }

  lemma AlphabetIsTable()
    ensures Alphabet() == BASE64_CHARS
  {
  }

  lemma SpellsNext(s: string, at: nat, digits: nat, n: nat)
    requires at + digits < |s| && s[at + digits] == Letter(n % 64) && Spells(s, at, digits, n / 64)
    ensures Spells(s, at, digits + 1, n)
  {
    LetterOf(n % 64);
    hide Letter, Alphabet;
  }

  lemma Divided(t: nat)
    ensures t / 64 / 64 == t / 0x1000 && t / 0x1000 / 64 == t / 0x4_0000
  {
  }

  /** Two, three and four letters of a group. */
  lemma GroupSpells(a: byte, b: byte, c: byte)
    ensures var t := 0x1_0000 * a as int + 0x100 * b as int + c as int; var g := Group(a, b, c);
            Spells(g, 0, 2, t / 0x1000) && Spells(g, 0, 3, t / 64) && Spells(g, 0, 4, t)
  {
    hide Letter, Alphabet;
    var t := 0x1_0000 * a as int + 0x100 * b as int + c as int;
    var g := Group(a, b, c);
    Divided(t);
    assert 0 <= t / 0x4_0000 < 64;
    assert Spells(g, 0, 0, t / 0x4_0000 / 64);
    hide Spells;
    SpellsNext(g, 0, 0, t / 0x4_0000);
    SpellsNext(g, 0, 1, t / 0x1000);
    SpellsNext(g, 0, 2, t / 64);
    SpellsNext(g, 0, 3, t);
  }

  /** The first letters of a group, whatever follows them. */
  lemma FrontSpells(g: string, digits: nat, n: nat, t: string)
    requires digits <= |g| && Spells(g, 0, digits, n)
    ensures Spells(g[..digits] + t, 0, digits, n) && (g[..digits] + t)[digits..] == t
  {
    hide Spells;
    assert g == g[..digits] + g[digits..];
    SpellsBefore(g[..digits], g[digits..], 0, digits, n);
    SpellsBefore(g[..digits], t, 0, digits, n);
  }

  lemma LeftOver(a: byte, b: byte)
    ensures 0x1_0000 * a as int / 0x1000 == 16 * a as int
    ensures (0x1_0000 * a as int + 0x100 * b as int) / 64 == 4 * (0x100 * a as int + b as int)
  {
  }

  /** Two letters hold one octet, three letters two. */
  lemma FewSpelled(a: byte, b: byte)
    ensures Spells(Group(a, 0, 0), 0, 2, 16 * a as int)
    ensures Spells(Group(a, b, 0), 0, 3, 4 * (0x100 * a as int + b as int))
  {
    hide Spells, Group;
    GroupSpells(a, 0, 0);
    GroupSpells(a, b, 0);
    LeftOver(a, b);
  }

  lemma OneSpells(a: byte)
    ensures var s := Group(a, 0, 0)[..2] + "=="; Spells(s, 0, 2, 16 * a as int) && s[2..] == "=="
  {
    hide Spells, Group;
    FewSpelled(a, 0);
    FrontSpells(Group(a, 0, 0), 2, 16 * a as int, "==");
  }

  lemma TwoSpells(a: byte, b: byte)
    ensures var s := Group(a, b, 0)[..3] + "=";
            Spells(s, 0, 3, 4 * (0x100 * a as int + b as int)) && s[3..] == "="
  {
    hide Spells, Group;
    FewSpelled(a, b);
    FrontSpells(Group(a, b, 0), 3, 4 * (0x100 * a as int + b as int), "=");
  }

  /** The octets from `i` on as one number. */
  function Triple(d: bytes, i: nat): nat
    requires i + 2 < |d|
  {
    0x1_0000 * d[i] as int + 0x100 * d[i + 1] as int + d[i + 2] as int
  }

  /** Each three octets are one number written in four letters. */
  lemma {:induction false} ThreesSpelled(d: bytes, k: nat)
    requires 3 * k + 2 < |d|
    ensures Spells(Encode(d), 4 * k, 4, Triple(d, 3 * k))
  {
    hide Spells, Group, Alphabet;
    var g := Group(d[0], d[1], d[2]);
    assert Encode(d) == g + Encode(d[3..]);
    if k == 0 {
      GroupSpells(d[0], d[1], d[2]);
      SpellsBefore(g, Encode(d[3..]), 0, 4, Triple(d, 0));
    } else {
      ThreesSpelled(d[3..], k - 1);
      SpellsBehind(g, Encode(d[3..]), 4 * (k - 1), 4, Triple(d, 3 * k));
    }
  }

  /** How the text ends: one octet left over takes two letters, with four zero bits; two take three, with two. */
  predicate EndsIn(s: string, d: bytes) {
    var n := |d|;
    && |s| == (n + 2) / 3 * 4
    && (n % 3 == 1 ==>
          && Spells(s, |s| - 4, 2, 16 * d[n - 1] as int)
          && s[|s| - 2..] == "==")
    && (n % 3 == 2 ==>
          && Spells(s, |s| - 4, 3, 4 * (0x100 * d[n - 2] as int + d[n - 1] as int))
          && s[|s| - 1..] == "=")
  }

  lemma EndsBehind(g: string, s: string, d: bytes)
    requires |g| == 4 && |d| >= 3 && EndsIn(s, d[3..])
    ensures EndsIn(g + s, d)
  {
    hide Spells;
    var n, rest := |d|, d[3..];
    LengthBehind(n);
    assert forall i :: 0 <= i < n - 3 ==> rest[i] == d[i + 3];
    if n % 3 == 1 {
      SpellsBehind(g, s, |s| - 4, 2, 16 * d[n - 1] as int);
      TailBehind(g, s, 2);
    } else if n % 3 == 2 {
      SpellsBehind(g, s, |s| - 4, 3, 4 * (0x100 * d[n - 2] as int + d[n - 1] as int));
      TailBehind(g, s, 1);
    }
  }

  lemma LengthBehind(n: nat)
    requires n >= 3
    ensures (n + 2) / 3 * 4 == (n - 3 + 2) / 3 * 4 + 4 && (n - 3) % 3 == n % 3
    ensures n % 3 != 0 ==> (n - 3 + 2) / 3 * 4 >= 4
  {
  }

  lemma TailBehind(g: string, s: string, k: nat)
    requires k <= |s|
    ensures (g + s)[|g + s| - k..] == s[|s| - k..]
  {
  }

  lemma {:induction false} RestSpelled(d: bytes)
    ensures EndsIn(Encode(d), d)
  {
    hide Spells, Group;
    if |d| == 1 {
      OneSpells(d[0]);
    } else if |d| == 2 {
      TwoSpells(d[0], d[1]);
    } else if |d| > 2 {
      var g, rest := Group(d[0], d[1], d[2]), d[3..];
      RestSpelled(rest);
      EndsBehind(g, Encode(rest), d);
    }
  }

  // ----- any text -----

  /** What a character stands for: its place in the alphabet, and nothing for the padding. */
  predicate StandsFor(c: char, v: nat) { v < 64 && (c == Alphabet()[v] || (c == '=' && v == 0)) }

  ghost predicate Readable(c: char) { exists v :: StandsFor(c, v) }

  lemma ValueIff(c: char, v: nat)
    ensures Value(c) == v <==> StandsFor(c, v)
  {
    if v < 64 {
      LetterOf(v);
      LetterRoundTrip(v);
      hide Alphabet;
    }
  }

  /** A text is decoded exactly when it is whole groups of letters and padding, wherever that stands. */
  lemma {:induction false} DecodedIff(s: string)
    ensures Decode(s).Some? <==>
              |s| % 4 == 0 && forall i :: 0 <= i < |s| ==> Readable(s[i])
  {
    hide Readable, Value, GroupBytes;
    if |s| % 4 == 0 && s != "" {
      var rest := s[4..];
      DecodedIff(rest);
      assert s == [s[0], s[1], s[2], s[3]] + rest;
      DecodeStep(s[0], s[1], s[2], s[3], rest);
      hide Decode;
      forall i | 0 <= i < |s| ensures Value(s[i]) != -1 <==> Readable(s[i]) {
        SomeValue(s[i]);
      }
      assert forall i :: 4 <= i < |s| ==> s[i] == rest[i - 4];
    }
  }

  lemma SomeValue(c: char)
    ensures Value(c) != -1 <==> Readable(c)
  {
    hide StandsFor, Value;
    forall v: nat ensures Value(c) == v <==> StandsFor(c, v) {
      ValueIff(c, v);
    }
    if Value(c) != -1 {
      assert StandsFor(c, Value(c));
    }
  }

  /** Four characters are one number of 24 bits; the third alone decides whether all its octets count. */
  lemma GroupDecoded(c: string, v: seq<nat>, d: bytes, rest: string)
    requires |c| == |v| == 4 && |d| == 3 && forall i :: 0 <= i < 4 ==> StandsFor(c[i], v[i])
    requires 0x4_0000 * v[0] + 0x1000 * v[1] + 64 * v[2] + v[3]
          == 0x1_0000 * d[0] as int + 0x100 * d[1] as int + d[2] as int
    ensures Decode(c + rest)
         == Prepend(if c[2] != '=' then d else if c[3] == '=' then d[..1] else d[..2], Decode(rest))
  {
    hide StandsFor, Value, Decode, Octets;
    forall i | 0 <= i < 4 ensures Value(c[i]) == v[i] && v[i] < 64 {
      ValueIff(c[i], v[i]);
    }
    assert c == [c[0], c[1], c[2], c[3]] && d == [d[0], d[1], d[2]];
    DecodeStep(c[0], c[1], c[2], c[3], rest);
    OctetsAre(v[0], v[1], v[2], v[3], d);
  }

  lemma OctetsAre(x: nat, y: nat, z: nat, w: nat, d: bytes)
    requires x < 64 && y < 64 && z < 64 && w < 64 && |d| == 3
    requires 0x4_0000 * x + 0x1000 * y + 64 * z + w == 0x1_0000 * d[0] as int + 0x100 * d[1] as int + d[2] as int
    ensures Octets(x, y, z, w) == (d[0] as int, d[1] as int, d[2] as int)
  {
    OctetsAddUp(d[0], d[1], d[2]);
  }
}
