/** What `cJSON_Minify` leaves of any text: the text cut into pieces, each kept or dropped. */
module JsonComments {
  import opened Bytes
  import opened JsonMinify

  datatype Piece =
    | Blank(b: byte)
    | Line(s: bytes)
    | Block(s: bytes)
    | Quoted(s: bytes)
    | Slash
    | Plain(b: byte)

  /** How a text ends: after a piece, or inside a comment or a string that is never closed. */
  datatype End =
    | Done
    | OpenLine(s: bytes)
    | OpenBlock(s: bytes)
    | OpenQuote(s: bytes)

  predicate NoMark(s: bytes) {
    forall i :: 0 <= i < |s| - 1 ==> !(s[i] == 42 && s[i + 1] == 47)
  }

  predicate QuotesEscaped(s: bytes) {
    forall i :: 0 <= i < |s| && s[i] == 34 ==> i > 0 && s[i - 1] == 92
  }

  predicate IsPiece(p: Piece) {
    match p
    case Blank(b) => b in {9, 10, 13, 32}
    case Line(s) => 10 !in s
    case Block(s) => NoMark(s)
    case Quoted(s) => QuotesEscaped(s) && (s != [] ==> s[|s| - 1] != 92)
    case Slash => true
    case Plain(b) => b !in {9, 10, 13, 32, 34, 47}
  }

  predicate IsEnd(e: End) {
    match e
    case Done => true
    case OpenLine(s) => 10 !in s
    case OpenBlock(s) => NoMark(s)
    case OpenQuote(s) => QuotesEscaped(s)
  }

  function Text(p: Piece): (r: bytes)
    ensures r != []
  {
    match p
    case Blank(b) => [b]
    case Line(s) => [47, 47] + s + [10]
    case Block(s) => [47, 42] + s + [42, 47]
    case Quoted(s) => [34] + s + [34]
    case Slash => [47]
    case Plain(b) => [b]
  }

  function EndText(e: End): bytes {
    match e
    case Done => []
    case OpenLine(s) => [47, 47] + s
    case OpenBlock(s) => [47, 42] + s
    case OpenQuote(s) => [34] + s
  }

  predicate Stays(p: Piece) { p.Quoted? || p.Plain? }

  function Joined(ps: seq<Piece>): bytes {
    if ps == [] then [] else Text(ps[0]) + Joined(ps[1..])
  }

  /** The pieces that stay. */
  function Staying(ps: seq<Piece>): seq<Piece> {
    if ps == [] then []
    else if Stays(ps[0]) then [ps[0]] + Staying(ps[1..])
    else Staying(ps[1..])
  }

  function EndStaying(e: End): End { if e.OpenQuote? then e else Done }

  /** The pieces are proper, and what follows a single slash starts no comment with it. */
  predicate Fits(ps: seq<Piece>, rest: bytes) {
    ps == [] ||
    (&& IsPiece(ps[0]) && Fits(ps[1..], rest)
     && (ps[0].Slash? ==>
           var after := Joined(ps[1..]) + rest; after == [] || after[0] !in {42, 47}))
  }

  // ----- one piece -----

  lemma {:induction false} LineSkipped(s: bytes, v: bytes)
    requires 10 !in s
    ensures AfterLine(s + [10] + v) == v && AfterLine(s) == []
  {
    var t := s + [10] + v;
    if s != [] {
      LineSkipped(s[1..], v);
      assert t[1..] == s[1..] + [10] + v;
    } else {
      assert t[1..] == v;
    }
  }

  lemma {:induction false} BlockSkipped(s: bytes, v: bytes)
    requires NoMark(s)
    ensures AfterBlock(s + [42, 47] + v) == v && AfterBlock(s) == []
  {
    var t := s + [42, 47] + v;
    if s != [] {
      BlockSkipped(s[1..], v);
      assert t[1..] == s[1..] + [42, 47] + v;
    } else {
      assert t[2..] == v;
    }
  }

  lemma EscapedRest(s: bytes)
    requires QuotesEscaped(s) && s != []
    ensures s[0] != 34
    ensures s[0] == 92 && |s| > 1 && s[1] == 34 ==> QuotesEscaped(s[2..])
    ensures !(s[0] == 92 && |s| > 1 && s[1] == 34) ==> QuotesEscaped(s[1..])
  {
    if s[0] == 92 && |s| > 1 && s[1] == 34 {
      assert forall i :: 0 <= i < |s[2..]| ==> s[2..][i] == s[i + 2];
    } else {
      assert forall i :: 0 <= i < |s[1..]| ==> s[1..][i] == s[i + 1];
    }
  }

  lemma StringSteps(b: byte, v: bytes)
    ensures MinifiedString([34] + v) == [34] + Minified(v)
    ensures MinifiedString([92, 34] + v) == [92, 34] + MinifiedString(v)
    ensures b != 34 && !(b == 92 && v != [] && v[0] == 34) ==>
              MinifiedString([b] + v) == [b] + MinifiedString(v)
  {
    assert ([34] + v)[1..] == v && ([92, 34] + v)[2..] == v && ([b] + v)[1..] == v;
  }

  lemma {:induction false} QuotedStays(s: bytes, v: bytes)
    requires QuotesEscaped(s) && (s != [] ==> s[|s| - 1] != 92)
    ensures MinifiedString(s + [34] + v) == s + [34] + Minified(v)
  {
    hide MinifiedString, Minified, QuotesEscaped;
    if s == [] {
      StringSteps(0, v);
      assert s + [34] + v == [34] + v;
    } else {
      EscapedRest(s);
      var n := if s[0] == 92 && |s| > 1 && s[1] == 34 then 2 else 1;
      QuotedStays(s[n..], v);
      StringSteps(s[0], s[n..] + [34] + v);
      assert s + [34] + v == s[..n] + (s[n..] + [34] + v);
      assert s[..n] + (s[n..] + [34] + Minified(v)) == s + [34] + Minified(v);
      assert s[..n] == if n == 2 then [92, 34] else [s[0]];
    }
  }

  lemma {:induction false} OpenQuoteStays(s: bytes)
    requires QuotesEscaped(s)
    ensures MinifiedString(s) == s
  {
    hide MinifiedString, QuotesEscaped;
    NothingLeft();
    if s != [] {
      EscapedRest(s);
      var n := if s[0] == 92 && |s| > 1 && s[1] == 34 then 2 else 1;
      OpenQuoteStays(s[n..]);
      StringSteps(s[0], s[n..]);
      assert s == s[..n] + s[n..];
      assert s[..n] == if n == 2 then [92, 34] else [s[0]];
    }
  }

  lemma LineMinified(s: bytes, v: bytes)
    requires 10 !in s
    ensures Minified([47, 47] + s + [10] + v) == Minified(v) && Minified([47, 47] + s) == []
  {
    LineSkipped(s, v);
    assert ([47, 47] + s + [10] + v)[2..] == s + [10] + v && ([47, 47] + s)[2..] == s;
  }

  lemma BlockMinified(s: bytes, v: bytes)
    requires NoMark(s)
    ensures Minified([47, 42] + s + [42, 47] + v) == Minified(v) && Minified([47, 42] + s) == []
  {
    BlockSkipped(s, v);
    assert ([47, 42] + s + [42, 47] + v)[2..] == s + [42, 47] + v && ([47, 42] + s)[2..] == s;
  }

  lemma QuoteOpens(v: bytes)
    ensures Minified([34] + v) == [34] + MinifiedString(v)
  {
    assert ([34] + v)[1..] == v;
  }

  lemma QuotedMinified(s: bytes, v: bytes)
    requires QuotesEscaped(s) && (s != [] ==> s[|s| - 1] != 92)
    ensures Minified([34] + s + [34] + v) == [34] + s + [34] + Minified(v)
  {
    QuotedStays(s, v);
    QuoteOpens(s + [34] + v);
    hide Minified, MinifiedString, QuotesEscaped;
    assert [34] + s + [34] + v == [34] + (s + [34] + v);
    assert [34] + (s + [34] + Minified(v)) == [34] + s + [34] + Minified(v);
  }

  /** A piece in front of any text is kept or dropped whole. */
  lemma PieceMinified(p: Piece, v: bytes)
    requires IsPiece(p) && (p.Slash? ==> v == [] || v[0] !in {42, 47})
    ensures Minified(Text(p) + v) == (if Stays(p) then Text(p) else []) + Minified(v)
  {
    hide NoMark, QuotesEscaped, MinifiedString, AfterLine, AfterBlock;
    assert [] + Minified(v) == Minified(v);
    match p
    case Line(s) => LineMinified(s, v);
    case Block(s) => BlockMinified(s, v);
    case Quoted(s) => QuotedMinified(s, v);
    case _ => assert (Text(p) + v)[1..] == v;
  }

  lemma EndMinified(e: End)
    requires IsEnd(e)
    ensures Minified(EndText(e)) == EndText(EndStaying(e))
  {
    hide NoMark, AfterLine, AfterBlock;
    match e
    case Done =>
    case OpenLine(s) => LineMinified(s, []);
    case OpenBlock(s) => BlockMinified(s, []);
    case OpenQuote(s) =>
      OpenQuoteStays(s);
      QuoteOpens(s);
  }

  lemma {:induction false} PiecesMinified(ps: seq<Piece>, rest: bytes)
    requires Fits(ps, rest)
    ensures Minified(Joined(ps) + rest) == Joined(Staying(ps)) + Minified(rest)
  {
    hide Minified, Text, IsPiece;
    if ps == [] {
      assert Joined(ps) + rest == rest;
    } else {
      var after := Joined(ps[1..]) + rest;
      PiecesMinified(ps[1..], rest);
      PieceMinified(ps[0], after);
      assert Joined(ps) + rest == Text(ps[0]) + after;
      if Stays(ps[0]) {
        assert Staying(ps)[0] == ps[0] && Staying(ps)[1..] == Staying(ps[1..]);
      }
    }
  }

  // ----- every text is cut this way -----

  lemma {:induction false} CutLine(t: bytes) returns (s: bytes, closed: bool)
    ensures 10 !in s && |s| + (if closed then 1 else 0) <= |t|
    ensures if closed then t == s + [10] + t[|s| + 1..] else t == s
  {
    if t == [] || t[0] == 10 {
      s, closed := [], t != [];
    } else {
      var r;
      r, closed := CutLine(t[1..]);
      s := [t[0]] + r;
      assert t == [t[0]] + t[1..];
      if closed {
        assert t[1..][|r| + 1..] == t[|s| + 1..];
        assert [t[0]] + (r + [10] + t[|s| + 1..]) == s + [10] + t[|s| + 1..];
      }
    }
  }

  lemma {:induction false} CutBlock(t: bytes) returns (s: bytes, closed: bool)
    ensures NoMark(s) && |s| + (if closed then 2 else 0) <= |t|
    ensures if closed then t == s + [42, 47] + t[|s| + 2..] else t == s
  {
    if t == [] {
      s, closed := [], false;
    } else if t[0] == 42 && |t| > 1 && t[1] == 47 {
      s, closed := [], true;
    } else {
      var r;
      r, closed := CutBlock(t[1..]);
      s := [t[0]] + r;
      if r != [] {
        assert r[0] == t[1];
      }
      if closed {
        assert t == [t[0]] + (r + [42, 47] + t[1..][|r| + 2..]);
      }
    }
  }

  lemma EscapedBehind(b: byte, r: bytes)
    requires QuotesEscaped(r) && b != 34
    ensures QuotesEscaped([b] + r) && QuotesEscaped([92, 34] + r)
  {
    var s, w := [b] + r, [92, 34] + r;
    assert forall i :: 1 <= i < |s| ==> s[i] == r[i - 1];
    assert forall i :: 2 <= i < |w| ==> w[i] == r[i - 2];
  }

  lemma {:induction false} CutQuoted(t: bytes) returns (s: bytes, closed: bool)
    ensures QuotesEscaped(s) && |s| + (if closed then 1 else 0) <= |t|
    ensures closed ==> s != [] ==> s[|s| - 1] != 92
    ensures if closed then t == s + [34] + t[|s| + 1..] else t == s
  {
    if t == [] || t[0] == 34 {
      s, closed := [], t != [];
    } else {
      var n, r := if t[0] == 92 && |t| > 1 && t[1] == 34 then 2 else 1, [];
      r, closed := CutQuoted(t[n..]);
      s := t[..n] + r;
      EscapedBehind(t[0], r);
      assert t[..n] == if n == 2 then [92, 34] else [t[0]];
      if closed {
        assert t == t[..n] + (r + [34] + t[n..][|r| + 1..]);
        assert t[n..][|r| + 1..] == t[|s| + 1..];
        assert t == s + [34] + t[|s| + 1..];
      } else {
        assert t == t[..n] + t[n..];
      }
    }
    hide QuotesEscaped;
  }

  lemma FirstComment(t: bytes) returns (p: Piece, e: End, whole: bool)
    requires |t| > 1 && t[0] == 47 && t[1] in {42, 47}
    ensures whole ==> IsEnd(e) && EndText(e) == t
    ensures !whole ==> !p.Slash? && IsPiece(p) && |Text(p)| <= |t| && t == Text(p) + t[|Text(p)|..]
  {
    hide NoMark;
    assert t == [47, t[1]] + t[2..];
    if t[1] == 47 {
      var s, closed := CutLine(t[2..]);
      p, e, whole := Line(s), OpenLine(s), !closed;
      if closed {
        assert t == Text(p) + t[2..][|s| + 1..];
      }
    } else {
      var s, closed := CutBlock(t[2..]);
      p, e, whole := Block(s), OpenBlock(s), !closed;
      if closed {
        assert t == Text(p) + t[2..][|s| + 2..];
      }
    }
  }

  lemma FirstString(t: bytes) returns (p: Piece, e: End, whole: bool)
    requires t != [] && t[0] == 34
    ensures whole ==> IsEnd(e) && EndText(e) == t
    ensures !whole ==> !p.Slash? && IsPiece(p) && |Text(p)| <= |t| && t == Text(p) + t[|Text(p)|..]
  {
    hide QuotesEscaped;
    assert t == [34] + t[1..];
    var s, closed := CutQuoted(t[1..]);
    p, e, whole := Quoted(s), OpenQuote(s), !closed;
    if closed {
      assert t == Text(p) + t[1..][|s| + 1..];
    }
  }

  /** The first piece of a text, or its end. */
  lemma FirstPiece(t: bytes) returns (p: Piece, e: End, whole: bool)
    requires t != []
    ensures whole ==> IsEnd(e) && EndText(e) == t
    ensures !whole ==> IsPiece(p) && |Text(p)| <= |t| && t == Text(p) + t[|Text(p)|..]
                       && (p.Slash? ==> |t| == 1 || t[1] !in {42, 47})
  {
    if t[0] == 34 {
      p, e, whole := FirstString(t);
    } else if t[0] == 47 && |t| > 1 && t[1] in {42, 47} {
      p, e, whole := FirstComment(t);
    } else {
      e, whole := Done, false;
      p := if t[0] == 47 then Slash else if t[0] in {9, 10, 13, 32} then Blank(t[0]) else Plain(t[0]);
    }
  }

  /** Every text is pieces and an end. */
  lemma {:induction false} Cut(t: bytes) returns (ps: seq<Piece>, e: End)
    ensures IsEnd(e) && Fits(ps, EndText(e)) && Joined(ps) + EndText(e) == t
    decreases |t|
  {
    if t == [] {
      ps, e := [], Done;
    } else {
      var p, last, whole := FirstPiece(t);
      if whole {
        ps, e := [], last;
        assert Joined(ps) + EndText(e) == t;
      } else {
        var after;
        after, e := Cut(t[|Text(p)|..]);
        ps := [p] + after;
        CutOnce(t, p, after, e);
      }
    }
  }

  lemma CutOnce(t: bytes, p: Piece, after: seq<Piece>, e: End)
    requires IsPiece(p) && |Text(p)| <= |t| && t == Text(p) + t[|Text(p)|..]
    requires p.Slash? ==> |t| == 1 || t[1] !in {42, 47}
    requires Fits(after, EndText(e)) && Joined(after) + EndText(e) == t[|Text(p)|..]
    ensures Fits([p] + after, EndText(e)) && Joined([p] + after) + EndText(e) == t
  {
    var whole, rest := [p] + after, t[|Text(p)|..];
    SlashStarts();
    hide IsPiece, EndText, Text;
    assert whole[0] == p && whole[1..] == after;
    Concat3(Text(p), Joined(after), EndText(e));
    if p.Slash? && rest != [] {
      assert rest[0] == t[1];
    }
  }

  lemma SlashStarts()
    ensures Text(Slash) == [47]
  {
  }

  // ----- what is left -----

  /** Any text, cut in any way into pieces and an end, keeps its strings and its plain bytes. */
  ghost predicate Leaves(t: bytes, m: bytes) {
    exists ps, e :: IsEnd(e) && Fits(ps, EndText(e)) && t == Joined(ps) + EndText(e)
                    && m == Joined(Staying(ps)) + EndText(EndStaying(e))
  }

  lemma MinifiedIff(t: bytes, m: bytes)
    ensures Minified(t) == m <==> Leaves(t, m)
  {
    hide Minified, IsEnd, Text, EndText, Joined, Staying, EndStaying, Fits;
    forall ps, e | IsEnd(e) && Fits(ps, EndText(e)) && t == Joined(ps) + EndText(e)
      ensures Minified(t) == Joined(Staying(ps)) + EndText(EndStaying(e))
    {
      PiecesMinified(ps, EndText(e));
      EndMinified(e);
    }
    var ps, e := Cut(t);
    assert Minified(t) == Joined(Staying(ps)) + EndText(EndStaying(e));
  }

  /** What stays fits together and stays when minified once more. */
  lemma {:induction false} StayingFits(ps: seq<Piece>, rest: bytes, after: bytes)
    requires Fits(ps, rest)
    ensures Fits(Staying(ps), after) && Staying(Staying(ps)) == Staying(ps)
  {
    if ps != [] {
      StayingFits(ps[1..], rest, after);
      if Stays(ps[0]) {
        assert Staying(ps)[0] == ps[0] && Staying(ps)[1..] == Staying(ps[1..]);
      }
    }
  }

  /** Minifying twice is minifying once, for every text. */
  lemma MinifyTwice(t: bytes)
    ensures Minified(Minified(t)) == Minified(t)
  {
    var ps, e := Cut(t);
    PiecesMinified(ps, EndText(e));
    EndMinified(e);
    var last := EndStaying(e);
    StayingFits(ps, EndText(e), EndText(last));
    PiecesMinified(Staying(ps), EndText(last));
    EndMinified(last);
  }

  /** The text ends outside strings and comments, and not in a slash that could start one. */
  ghost predicate Outside(u: bytes) {
    exists ps :: Fits(ps, [47]) && Joined(ps) == u
  }

  lemma {:induction false} FitsAny(ps: seq<Piece>, rest: bytes)
    requires Fits(ps, [47])
    ensures Fits(ps, rest)
  {
    if ps != [] {
      FitsAny(ps[1..], rest);
      if ps[0].Slash? {
        assert ps[1..] != [];
      }
    }
  }

  /** What follows such a text is minified as if it stood alone. */
  lemma OutsideMinified(u: bytes, v: bytes)
    requires Outside(u)
    ensures Minified(u + v) == Minified(u) + Minified(v)
  {
    var ps :| Fits(ps, [47]) && Joined(ps) == u;
    NothingLeft();
    hide Minified, Fits, Joined, Staying;
    FitsAny(ps, v);
    FitsAny(ps, []);
    PiecesMinified(ps, v);
    PiecesMinified(ps, []);
    assert u + [] == u && Joined(Staying(ps)) + [] == Joined(Staying(ps));
  }

  lemma LineCommentGone(u: bytes, s: bytes, v: bytes)
    requires Outside(u) && 10 !in s
    ensures Minified(u + [47, 47] + s + [10] + v) == Minified(u + v)
    ensures Minified(u + [47, 47] + s) == Minified(u)
  {
    hide Minified, Outside;
    CommentGone(u, Line(s), OpenLine(s), v);
    assert u + [47, 47] + s + [10] + v == u + (Text(Line(s)) + v);
    assert u + [47, 47] + s == u + EndText(OpenLine(s));
  }

  lemma BlockCommentGone(u: bytes, s: bytes, v: bytes)
    requires Outside(u) && NoMark(s)
    ensures Minified(u + [47, 42] + s + [42, 47] + v) == Minified(u + v)
    ensures Minified(u + [47, 42] + s) == Minified(u)
  {
    hide Minified, Outside, NoMark;
    CommentGone(u, Block(s), OpenBlock(s), v);
    assert u + [47, 42] + s + [42, 47] + v == u + (Text(Block(s)) + v);
    assert u + [47, 42] + s == u + EndText(OpenBlock(s));
  }

  lemma CommentGone(u: bytes, p: Piece, e: End, v: bytes)
    requires Outside(u) && IsPiece(p) && IsEnd(e) && (p.Line? || p.Block?) && (e.OpenLine? || e.OpenBlock?)
    ensures Minified(u + (Text(p) + v)) == Minified(u + v)
    ensures Minified(u + EndText(e)) == Minified(u)
  {
    hide Outside, Minified, IsPiece, IsEnd, Text;
    OutsideMinified(u, Text(p) + v);
    OutsideMinified(u, v);
    OutsideMinified(u, EndText(e));
    PieceMinified(p, v);
    EndMinified(e);
  }
}
