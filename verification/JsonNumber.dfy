/** Decimal numbers: the grammar of section 6 of RFC 8259 and what `strtod` reads. */
module JsonNumber {
  import opened Bytes

  // ----- the grammar -----

  type digit = b: byte | 48 <= b <= 57 witness 48

  type digits = s: seq<digit> | s != [] witness [48]

  datatype Sign = NoSign | Plus | Minus

  datatype Exp = Exp(upper: bool, sign: Sign, digits: digits)

  datatype Num = Num(minus: bool, whole: seq<digit>, fraction: Option<seq<digit>>, exponent: Option<Exp>)

  /** A number of RFC 8259: no leading zero, and digits on both sides of a point. */
  predicate IsStrict(n: Num) {
    n.whole != [] && (n.whole[0] != 48 || |n.whole| == 1) && (n.fraction.Some? ==> n.fraction.value != [])
  }

  /**
   * What the program takes for a number where a value starts: any digits, before a point or after
   * a minus and a point.
   */
  predicate IsLenient(n: Num) {
    n.whole != [] || (n.minus && n.fraction.Some? && n.fraction.value != [])
  }

  type strict = n: Num | IsStrict(n) witness Num(false, [48], None, None)

  type lenient = n: Num | IsLenient(n) witness Num(false, [48], None, None)

  function SpellNum(n: Num): cstring {
    (if n.minus then [45] else []) + (n.whole + (SpellFraction(n.fraction) + SpellExp(n.exponent)))
  }

  function SpellFraction(f: Option<seq<digit>>): cstring {
    match f
    case None => []
    case Some(d) => Pointed(d)
  }

  function Pointed(d: seq<digit>): cstring { var t: bytes := d; [46] + t }

  function SpellExp(e: Option<Exp>): cstring {
    match e
    case None => []
    case Some(x) => [if x.upper then 69 else 101] + (SpellSign(x.sign) + x.digits)
  }

  function SpellSign(s: Sign): cstring {
    match s
    case NoSign => []
    case Plus => [43]
    case Minus => [45]
  }

  // ----- the value -----

  function PowerOfTen(n: nat): (p: real)
    ensures p > 0.0
  {
    if n == 0 then 1.0 else 10.0 * PowerOfTen(n - 1)
  }

  function DecimalValue(d: seq<digit>): nat {
    if d == [] then 0 else 10 * DecimalValue(d[..|d| - 1]) + (d[|d| - 1] as int - 48)
  }

  function NumValue(n: Num): real {
    var magnitude := Scaled(Mantissa(n.whole, n.fraction), n.exponent);
    if n.minus then -magnitude else magnitude
  }

  function Mantissa(d: seq<digit>, f: Option<seq<digit>>): real {
    match f
    case None => DecimalValue(d) as real
    case Some(x) => DecimalValue(d) as real + DecimalValue(x) as real / PowerOfTen(|x|)
  }

  function Scaled(m: real, e: Option<Exp>): real {
    match e
    case None => m
    case Some(_) => m * ExpValue(e)
  }

  function ExpValue(e: Option<Exp>): real {
    match e
    case None => 1.0
    case Some(x) => Scale(x.sign == Minus, DecimalValue(x.digits))
  }

  function Scale(down: bool, n: nat): real { if down then 1.0 / PowerOfTen(n) else PowerOfTen(n) }

  const EPSILON: real := 1.0 / 4503599627370496.0

  function Magnitude(x: real): real { if x < 0.0 then -x else x }

  /** Equal up to the relative precision of a double. */
  predicate CompareDouble(a: real, b: real) {
    Magnitude(a - b) <= (if Magnitude(a) > Magnitude(b) then Magnitude(a) else Magnitude(b)) * EPSILON
  }

  // ----- strtod -----

  predicate IsDigit(b: byte) { 48 <= b <= 57 }

  /** The bytes collected for `strtod`: digits, `+`, `-`, `e`, `E` and `.`. */
  predicate IsNumberByte(b: byte) {
    IsDigit(b) || b == 43 || b == 45 || b == 101 || b == 69 || b == 46
  }

  function DigitsEnd(t: bytes, i: nat): (r: nat)
    requires i <= |t|
    ensures i <= r <= |t|
    ensures r < |t| ==> !IsDigit(t[r])
    ensures forall k :: i <= k < r ==> IsDigit(t[k])
    decreases |t| - i
  {
    if i < |t| && IsDigit(t[i]) then DigitsEnd(t, i + 1) else i
  }

  /** Value of the decimal digits `t[i..j]`. */
  function Nat(t: bytes, i: nat, j: nat): nat
    requires i <= j <= |t|
    requires forall k :: i <= k < j ==> IsDigit(t[k])
  {
    if i == j then 0
    else
      assert IsDigit(t[j - 1]);
      10 * Nat(t, i, j - 1) + (t[j - 1] as int - 48)
  }

  /** Length of the optional exponent of `t` at `m`; zero when it has no digit. */
  function ExponentEnd(t: bytes, m: nat): (r: nat)
    requires m <= |t|
    ensures m <= r <= |t|
  {
    if m < |t| && (t[m] == 101 || t[m] == 69) then
      var j := ExponentDigits(t, m);
      var k := DigitsEnd(t, j);
      if k > j then k else m
    else m
  }

  /** Where the exponent digits would start: past the letter and an optional sign. */
  function ExponentDigits(t: bytes, m: nat): (j: nat)
    requires m < |t|
    ensures m < j <= |t|
  {
    if m + 1 < |t| && (t[m + 1] == 43 || t[m + 1] == 45) then m + 2 else m + 1
  }

  function SignLength(t: bytes): (s: nat)
    ensures s <= |t|
  {
    if |t| > 0 && (t[0] == 43 || t[0] == 45) then 1 else 0
  }

  /** Decimal subset of `strtod`: the number read and how many bytes it used. */
  function Strtod(t: bytes): (r: Option<(real, nat)>)
    ensures r.Some? ==> 0 < r.value.1 <= |t|
  {
    var s := SignLength(t);
    var whole := DigitsEnd(t, s);
    var point := whole < |t| && t[whole] == 46;
    var m := if point then DigitsEnd(t, whole + 1) else whole;
    var digits := if point then m - s - 1 else m - s;
    if digits == 0 then None
    else
      var fraction :=
        if point then Nat(t, whole + 1, m) as real / PowerOfTen(m - whole - 1) else 0.0;
      var magnitude := (Nat(t, s, whole) as real + fraction) * Exponent(t, m);
      Some((if s == 1 && t[0] == 45 then -magnitude else magnitude, ExponentEnd(t, m)))
  }

  function Exponent(t: bytes, m: nat): real
    requires m <= |t|
  {
    var k := ExponentEnd(t, m);
    if k == m then 1.0
    else
      var j := ExponentDigits(t, m);
      Scale(t[j - 1] == 45, Nat(t, j, k))
  }

  // ----- every number of the grammar is read -----

  lemma StandsWhole(t: bytes)
    ensures Stands(t, 0, t)
  {
    assert t[0..0 + |t|] == t;
  }

  lemma DigitsEndAt(t: bytes, i: nat, d: seq<digit>)
    requires Stands(t, i, d) && (i + |d| < |t| ==> !IsDigit(t[i + |d|]))
    ensures DigitsEnd(t, i) == i + |d|
  {
    forall k | i <= k < i + |d|
      ensures IsDigit(t[k])
    {
      StandsByte(t, i, d, k - i);
    }
  }

  lemma {:induction false} NatOfDigits(t: bytes, i: nat, d: seq<digit>)
    requires Stands(t, i, d)
    ensures forall k :: i <= k < i + |d| ==> IsDigit(t[k])
    ensures Nat(t, i, i + |d|) == DecimalValue(d)
  {
    if d != [] {
      var n := |d| - 1;
      assert d == d[..n] + [d[n]];
      StandsConcat(t, i, d[..n], [d[n]]);
      StandsByte(t, i + n, [d[n]], 0);
      NatOfDigits(t, i, d[..n]);
      assert IsDigit(d[n]);
    }
  }

  /** An exponent with at least one digit starts at `m`. */
  predicate ExponentBegins(t: bytes, m: nat) {
    && m + 1 < |t| && (t[m] == 101 || t[m] == 69)
    && (IsDigit(t[m + 1]) || (m + 2 < |t| && (t[m + 1] == 43 || t[m + 1] == 45) && IsDigit(t[m + 2])))
  }

  /** What stands at `m` does not carry the exponent on, or is none if there was none. */
  predicate ExpStops(e: Option<Exp>, t: bytes, m: nat) {
    if e.Some? then m < |t| ==> !IsDigit(t[m]) else !ExponentBegins(t, m)
  }

  /** What stands behind a number, at `m`, does not carry it on. */
  predicate Stops(n: Num, t: bytes, m: nat) {
    && (m < |t| ==> !IsDigit(t[m])) && (n.exponent.None? ==> !ExponentBegins(t, m))
    && (n.exponent.None? && n.fraction.None? && m < |t| ==> t[m] != 46)
  }

  /** Where the parts of a number stand. */
  lemma NumParts(t: bytes, n: lenient)
    requires Stands(t, 0, SpellNum(n))
    ensures
      var s := if n.minus then 1 else 0;
      var w := s + |n.whole|;
      var m := w + |SpellFraction(n.fraction)|;
      && Stands(t, s, n.whole) && Stands(t, w, SpellFraction(n.fraction)) && Stands(t, m, SpellExp(n.exponent))
      && |SpellNum(n)| == m + |SpellExp(n.exponent)| <= |t| && s == SignLength(t) && (n.minus ==> t[0] == 45)
      && 0 < |SpellNum(n)| && (t[0] == 45 || IsDigit(t[0])) && SpellNum(n)[0] == t[0]
  {
    hide Stands, SpellFraction, SpellExp;
    var sign: bytes := if n.minus then [45] else [];
    var tail := SpellFraction(n.fraction) + SpellExp(n.exponent);
    StandsConcat(t, 0, sign, n.whole + tail);
    StandsConcat(t, |sign|, n.whole, tail);
    StandsConcat(t, |sign| + |n.whole|, SpellFraction(n.fraction), SpellExp(n.exponent));
    StandsByte(t, 0, SpellNum(n), 0);
    StandsInside(t, 0, SpellNum(n));
    if !n.minus { assert IsDigit(n.whole[0]); }
  }

  lemma StandsInside(t: bytes, o: nat, u: bytes)
    requires Stands(t, o, u)
    ensures o + |u| <= |t|
  {
  }

  lemma ExponentAt(t: bytes, m: nat, j: nat, k: nat)
    requires m < j < k <= |t| && (t[m] == 101 || t[m] == 69) && ExponentDigits(t, m) == j && DigitsEnd(t, j) == k
    ensures ExponentEnd(t, m) == k && Exponent(t, m) == Scale(t[j - 1] == 45, Nat(t, j, k))
  {
    hide Nat, Scale, ExponentDigits;
  }

  lemma NothingExp()
    ensures SpellExp(None) == []
  {
  }

  lemma NoExponent(t: bytes, m: nat)
    requires m <= |t| && !ExponentBegins(t, m)
    ensures SpellExp(None) == [] && ExponentEnd(t, m) == m && Exponent(t, m) == 1.0 == ExpValue(None)
  {
  }

  lemma ExponentRead(t: bytes, m: nat, e: Option<Exp>)
    requires Stands(t, m, SpellExp(e)) && m <= |t| && ExpStops(e, t, m + |SpellExp(e)|)
    ensures ExponentEnd(t, m) == m + |SpellExp(e)| && Exponent(t, m) == ExpValue(e)
  {
    hide DigitsEnd, Nat, DecimalValue, Scale, SpellExp, SpellSign, Exponent, ExponentEnd, ExponentDigits, Stands,
      ExponentBegins;
    match e
    case None =>
      NothingExp();
      NoExponent(t, m);
    case Some(x) =>
      var j := m + 1 + |SpellSign(x.sign)|;
      ExponentParts(t, m, x);
      DigitsEndAt(t, j, x.digits);
      NatOfDigits(t, j, x.digits);
      ExponentAt(t, m, j, j + |x.digits|);
  }

  /** The digits come behind the sign, if there is one. */
  lemma DigitsAfterSign(t: bytes, m: nat, s: Sign)
    requires m + 1 + |SpellSign(s)| < |t| && IsDigit(t[m + 1 + |SpellSign(s)|]) && t[m] != 45
    requires |SpellSign(s)| == 1 ==> t[m + 1] == SpellSign(s)[0]
    ensures
      var j := m + 1 + |SpellSign(s)|;
      ExponentDigits(t, m) == j && (t[j - 1] == 45 <==> s == Minus)
  {
  }

  lemma ExponentStands(t: bytes, m: nat, x: Exp)
    requires Stands(t, m, SpellExp(Some(x)))
    ensures
      var sign: bytes := SpellSign(x.sign);
      var j := m + 1 + |sign|;
      && m + |SpellExp(Some(x))| == j + |x.digits| <= |t|
      && Stands(t, m + 1, sign) && Stands(t, j, x.digits) && (t[m] == 101 || t[m] == 69)
  {
    hide Stands, SpellSign;
    var first: bytes := [if x.upper then 69 else 101];
    var sign: bytes := SpellSign(x.sign);
    StandsConcat(t, m, first, sign + x.digits);
    StandsConcat(t, m + 1, sign, x.digits);
    StandsByte(t, m, first, 0);
    StandsInside(t, m + 1 + |sign|, x.digits);
  }

  lemma ExponentParts(t: bytes, m: nat, x: Exp)
    requires Stands(t, m, SpellExp(Some(x)))
    ensures
      var j := m + 1 + |SpellSign(x.sign)|;
      && j < |t| && m + |SpellExp(Some(x))| == j + |x.digits| <= |t| && Stands(t, j, x.digits)
      && (t[m] == 101 || t[m] == 69) && ExponentDigits(t, m) == j && (t[j - 1] == 45 <==> x.sign == Minus)
  {
    hide Stands, SpellSign, SpellExp, ExponentDigits;
    var sign: bytes := SpellSign(x.sign);
    ExponentStands(t, m, x);
    StandsByte(t, m + 1 + |sign|, x.digits, 0);
    assert IsDigit(x.digits[0]);
    if |sign| == 1 { StandsByte(t, m + 1, sign, 0); }
    DigitsAfterSign(t, m, x.sign);
  }

  /** What follows the fraction is no digit and no point. */
  lemma ExponentFirst(t: bytes, m: nat, e: Option<Exp>)
    requires Stands(t, m, SpellExp(e)) && e.Some?
    ensures m < |t| && (t[m] == 69 || t[m] == 101)
  {
    hide Stands;
    StandsByte(t, m, SpellExp(e), 0);
  }

  /** A point and digits behind it. */
  lemma PointRead(t: bytes, w: nat, d: seq<digit>)
    requires Stands(t, w, Pointed(d)) && (w + 1 + |d| < |t| ==> !IsDigit(t[w + 1 + |d|]))
    ensures w + 1 + |d| <= |t| && t[w] == 46 && DigitsEnd(t, w + 1) == w + 1 + |d|
    ensures Nat(t, w + 1, w + 1 + |d|) == DecimalValue(d)
  {
    hide DigitsEnd, Nat, DecimalValue, Stands;
    StandsConcat(t, w, [46], d);
    StandsByte(t, w, [46], 0);
    StandsInside(t, w + 1, d);
    DigitsEndAt(t, w + 1, d);
    NatOfDigits(t, w + 1, d);
  }

  lemma FractionLength(f: Option<seq<digit>>)
    ensures |SpellFraction(f)| == if f.Some? then 1 + |f.value| else 0
    ensures f.Some? ==> SpellFraction(f) == Pointed(f.value)
  {
  }

  /** The fraction, if any, starts with the point and ends before the exponent or where the number stops. */
  lemma FractionRead(t: bytes, w: nat, n: Num)
    requires Stands(t, w, SpellFraction(n.fraction)) && Stands(t, w + |SpellFraction(n.fraction)|, SpellExp(n.exponent))
    requires Stops(n, t, w + |SpellFraction(n.fraction)| + |SpellExp(n.exponent)|)
    ensures w < |t| ==> !IsDigit(t[w])
    ensures n.fraction.Some? <==> w < |t| && t[w] == 46
    ensures n.fraction.Some? ==>
              var m := w + |SpellFraction(n.fraction)|;
              m <= |t| && DigitsEnd(t, w + 1) == m && Nat(t, w + 1, m) == DecimalValue(n.fraction.value)
  {
    hide DigitsEnd, Nat, DecimalValue, Stands, Pointed, ExponentBegins, SpellExp, SpellFraction;
    var m := w + |SpellFraction(n.fraction)|;
    if n.exponent.Some? { ExponentFirst(t, m, n.exponent); }
    NothingExp();
    FractionLength(n.fraction);
    if n.fraction.Some? { PointRead(t, w, n.fraction.value); }
  }

  lemma ScaledIs(m: real, e: Option<Exp>)
    ensures Scaled(m, e) == m * ExpValue(e)
  {
  }

  /** Every number is read at its value, as far as it goes. */
  lemma NumberRead(t: bytes, n: lenient)
    requires Stands(t, 0, SpellNum(n)) && Stops(n, t, |SpellNum(n)|)
    ensures Strtod(t) == Some((NumValue(n), |SpellNum(n)|))
  {
    hide Exponent, ExponentEnd, ExpValue, SpellNum, SpellFraction, SpellExp, Nat, DecimalValue, PowerOfTen, Stands,
      Scaled, ExponentBegins, Stops;
    var s := if n.minus then 1 else 0;
    var w := s + |n.whole|;
    var m := w + |SpellFraction(n.fraction)|;
    NumParts(t, n);
    FractionRead(t, w, n);
    DigitsEndAt(t, s, n.whole);
    NatOfDigits(t, s, n.whole);
    StopsExp(n, t, |SpellNum(n)|);
    ExponentRead(t, m, n.exponent);
    FractionLength(n.fraction);
    ScaledIs(Mantissa(n.whole, n.fraction), n.exponent);
    assert DigitsEnd(t, SignLength(t)) == w;
    var point := w < |t| && t[w] == 46;
    assert point == n.fraction.Some?;
    assert m == if point then DigitsEnd(t, w + 1) else w;
    assert Nat(t, s, w) == DecimalValue(n.whole);
    assert Strtod(t).Some?;
    assert Strtod(t).value.1 == |SpellNum(n)|;
    assert Strtod(t).value.0 == NumValue(n);
  }

  lemma StopsExp(n: Num, t: bytes, m: nat)
    requires Stops(n, t, m)
    ensures ExpStops(n.exponent, t, m)
  {
  }

  lemma WholeNumberRead(n: lenient)
    ensures Strtod(SpellNum(n)) == Some((NumValue(n), |SpellNum(n)|))
  {
    hide Strtod, SpellNum, NumValue;
    StandsWhole(SpellNum(n));
    NumberRead(SpellNum(n), n);
  }

  // ----- every number that is read is spelled -----

  function DigitsFrom(t: bytes, i: nat, j: nat): (d: seq<digit>)
    requires i <= j <= |t| && forall k :: i <= k < j ==> IsDigit(t[k])
    ensures d == t[i..j]
  {
    assert forall k :: 0 <= k < j - i ==> IsDigit(t[i..j][k]);
    t[i..j]
  }

  lemma StandsSlice(t: bytes, i: nat, j: nat, u: bytes)
    requires i <= j <= |t| && u == t[i..j]
    ensures Stands(t, i, u) && i + |u| == j
  {
  }

  lemma ExponentSpelled(t: bytes, m: nat) returns (e: Option<Exp>)
    requires m <= |t|
    ensures Stands(t, m, SpellExp(e)) && ExpStops(e, t, m + |SpellExp(e)|)
  {
    if ExponentBegins(t, m) {
      var j := ExponentDigits(t, m);
      var k := DigitsEnd(t, j);
      var sign := if j == m + 1 then NoSign else if t[m + 1] == 43 then Plus else Minus;
      e := Some(Exp(t[m] == 69, sign, DigitsFrom(t, j, k)));
      var first: bytes := [t[m]];
      assert t[m..k] == first + (t[m + 1..j] + t[j..k]);
      assert t[m + 1..j] == SpellSign(sign);
      StandsSlice(t, m, k, SpellExp(e));
    } else {
      e := None;
      NothingExp();
      StandsSlice(t, m, m, []);
    }
  }

  /** What `strtod` reads where a value starts is a number, and it reads it to its end. */
  lemma NumberSpelled(t: bytes) returns (n: lenient)
    requires Strtod(t).Some? && (t[0] == 45 || IsDigit(t[0]))
    ensures Stands(t, 0, SpellNum(n)) && Stops(n, t, |SpellNum(n)|)
  {
    hide Nat, PowerOfTen, Exponent, ExponentEnd, SpellExp, ExponentBegins, Stands;
    var s := SignLength(t);
    var w := DigitsEnd(t, s);
    var point := w < |t| && t[w] == 46;
    var m := if point then DigitsEnd(t, w + 1) else w;
    var e := ExponentSpelled(t, m);
    var f := if point then Some(DigitsFrom(t, w + 1, m)) else None;
    var r := Num(s == 1, DigitsFrom(t, s, w), f, e);
    n := r;
    Assemble(t, n, s, w, m);
    if e.Some? { ExponentFirst(t, m, e); }
    NothingExp();
  }

  lemma Assemble(t: bytes, n: Num, s: nat, w: nat, m: nat)
    requires s <= w <= m <= |t| && t[..s] == (if n.minus then [45] else []) && t[s..w] == n.whole
    requires t[w..m] == SpellFraction(n.fraction) && Stands(t, m, SpellExp(n.exponent))
    ensures Stands(t, 0, SpellNum(n)) && |SpellNum(n)| == m + |SpellExp(n.exponent)|
  {
    hide SpellFraction, SpellExp, Stands;
    var f, e := SpellFraction(n.fraction), SpellExp(n.exponent);
    StandsSlice(t, 0, s, t[..s]);
    StandsSlice(t, s, w, n.whole);
    StandsSlice(t, w, m, f);
    StandsConcat(t, w, f, e);
    StandsConcat(t, s, n.whole, f + e);
    StandsConcat(t, 0, t[..s], n.whole + (f + e));
  }

  predicate AllNumberBytes(t: bytes) {
    forall i :: 0 <= i < |t| ==> IsNumberByte(t[i])
  }

  lemma NumberBytesJoin(a: bytes, b: bytes)
    requires AllNumberBytes(a) && AllNumberBytes(b)
    ensures AllNumberBytes(a + b)
  {
    hide IsNumberByte;
  }

  lemma DigitBytes(d: seq<digit>)
    ensures AllNumberBytes(d)
  {
    forall i | 0 <= i < |d| ensures IsNumberByte(d[i]) { DigitIsNumberByte(d[i]); }
  }

  lemma Marks()
    ensures AllNumberBytes([]) && AllNumberBytes([45]) && AllNumberBytes([43]) && AllNumberBytes([46])
    ensures AllNumberBytes([69]) && AllNumberBytes([101])
  {
  }

  /** Every byte of a number's text is collected for the conversion. */
  lemma NumBytes(n: Num, i: nat)
    requires i < |SpellNum(n)|
    ensures IsNumberByte(SpellNum(n)[i])
  {
    hide IsNumberByte, AllNumberBytes, SpellFraction, SpellExp;
    Marks();
    var f, e := SpellFraction(n.fraction), SpellExp(n.exponent);
    FractionBytes(n.fraction);
    ExpBytes(n.exponent);
    DigitBytes(n.whole);
    NumberBytesJoin(f, e);
    NumberBytesJoin(n.whole, f + e);
    NumberBytesJoin(if n.minus then [45] else [], n.whole + (f + e));
    EachNumberByte(SpellNum(n), i);
  }

  lemma EachNumberByte(t: bytes, i: nat)
    requires AllNumberBytes(t) && i < |t|
    ensures IsNumberByte(t[i])
  {
    hide IsNumberByte;
  }

  lemma DigitIsNumberByte(d: byte)
    requires IsDigit(d) || d == 45
    ensures IsNumberByte(d)
  {
  }

  lemma FractionBytes(f: Option<seq<digit>>)
    ensures AllNumberBytes(SpellFraction(f))
  {
    hide AllNumberBytes;
    Marks();
    if f.Some? {
      DigitBytes(f.value);
      NumberBytesJoin([46], f.value);
    }
  }

  lemma ExpBytes(e: Option<Exp>)
    ensures AllNumberBytes(SpellExp(e))
  {
    hide AllNumberBytes;
    Marks();
    if e.Some? {
      var x := e.value;
      DigitBytes(x.digits);
      NumberBytesJoin(SpellSign(x.sign), x.digits);
      NumberBytesJoin([if x.upper then 69 else 101], SpellSign(x.sign) + x.digits);
    }
  }

  lemma NumIsNotEmpty(n: lenient)
    ensures |SpellNum(n)| > 0
  {
  }
}
