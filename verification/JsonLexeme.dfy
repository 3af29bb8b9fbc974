// What the minifier drops and what it keeps, said of a text that is put together
// from blanks, comments, strings and other bytes.
module JsonLexeme {
  import opened CText
  import opened JsonParse
  import opened JsonMinify

  /** A byte of a string, or a backslash and the byte it takes along. */
  datatype Sign = One(c: byte) | Two(c: byte)

  /**
   * A line comment goes up to its line end. A block comment is a slash, a body
   * that starts with a star, and the star-slash; the shortest has no body.
   */
  datatype Lexeme =
    | Gap(c: byte)
    | LineNote(body: seq<byte>)
    | BlockNote(body: seq<byte>)
    | Literal(signs: seq<Sign>)
    | Other(c: byte)

  function SignsText(signs: seq<Sign>): seq<byte> {
    if signs == [] then []
    else (match signs[0] case One(c) => [c] case Two(c) => [BACKSLASH, c]) + SignsText(signs[1..])
  }

  function LexemeText(l: Lexeme): (t: seq<byte>)
    ensures t != []
  {
    match l
    case Gap(c) => [c]
    case LineNote(body) => [SLASH, SLASH] + body
    case BlockNote(body) => [SLASH] + (body + [STAR, SLASH])
    case Literal(signs) => [QUOTE] + (SignsText(signs) + [QUOTE])
    case Other(c) => [c]
  }

  function TextOf(ls: seq<Lexeme>): seq<byte> {
    if ls == [] then [] else LexemeText(ls[0]) + TextOf(ls[1..])
  }

  /** Strings and other bytes stay; blanks and comments go. */
  function Kept(ls: seq<Lexeme>): seq<byte> {
    if ls == [] then []
    else (if ls[0].Literal? || ls[0].Other? then LexemeText(ls[0]) else []) + Kept(ls[1..])
  }

  predicate NoEnd(t: seq<byte>, n: nat) {
    n < |t| && forall i :: 0 <= i < n ==> !(t[i] == STAR && t[i + 1] == SLASH)
  }

  predicate Proper(l: Lexeme) {
    match l
    case Gap(c) => c == 9 || c == 10 || c == 13 || c == 32
    case LineNote(body) => NulFree(body) && LF !in body
    case BlockNote(body) => NulFree(body) && (body != [] ==> body[0] == STAR) && NoEnd(body + [STAR, SLASH], |body|)
    case Literal(signs) =>
      forall i :: 0 <= i < |signs| ==>
        signs[i].c != 0 && (signs[i].One? ==> signs[i].c != QUOTE && signs[i].c != BACKSLASH)
    case Other(c) => c != 0 && c != 9 && c != 10 && c != 13 && c != 32 && c != QUOTE
  }

  /** Proper parts, of which none runs into what follows. */
  predicate Fine(ls: seq<Lexeme>) {
    ls == [] || (
      && Proper(ls[0]) && Fine(ls[1..])
      && (ls[0].LineNote? ==> ls[1..] == [] || ls[1] == Gap(LF))
      && (ls[0] == Other(SLASH) ==> Hd(TextOf(ls[1..])) != SLASH && Hd(TextOf(ls[1..])) != STAR))
  }

  // ----- from parts to the minified text

  lemma {:induction false} LineEnds(body: seq<byte>, rest: seq<byte>)
    requires LF !in body && (rest == [] || rest[0] == LF)
    ensures LineLength(body + rest) == |body|
  {
    var s := body + rest;
    if body == [] {
      assert s == rest;
    } else {
      assert s[0] == body[0] && s[1..] == body[1..] + rest;
      LineEnds(body[1..], rest);
    }
  }

  lemma {:induction false} BlockEnds(t: seq<byte>, n: nat)
    requires n + 2 <= |t| && t[n] == STAR && t[n + 1] == SLASH && NoEnd(t, n)
    ensures BlockLength(t) == Some(n)
    decreases n
  {
    if n > 0 {
      assert !(t[0] == STAR && t[1] == SLASH);
      forall i | 0 <= i < n - 1
        ensures !(t[1..][i] == STAR && t[1..][i + 1] == SLASH)
      {
        assert t[1..][i] == t[i + 1] && t[1..][i + 1] == t[i + 2];
      }
      BlockEnds(t[1..], n - 1);
    }
  }

  lemma {:induction false} SignsScan(signs: seq<Sign>, tail: seq<byte>)
    requires Proper(Literal(signs)) && Hd(tail) == QUOTE
    ensures var r := Scan(SignsText(signs) + tail); r.Some? && r.value.1 == |SignsText(signs)|
  {
    var s := SignsText(signs) + tail;
    if signs == [] {
      assert s == tail;
    } else {
      SignsScan(signs[1..], tail);
      var rest := SignsText(signs[1..]) + tail;
      match signs[0]
      case One(c) => assert s[0] == c && s[1..] == rest;
      case Two(c) => assert s[0] == BACKSLASH && s[1..][0] == c && s[2..] == rest;
    }
  }

  lemma LiteralEnds(signs: seq<Sign>, rest: seq<byte>)
    requires Proper(Literal(signs))
    ensures StringLength(LexemeText(Literal(signs)) + rest) == Some(|SignsText(signs)| + 2)
  {
    hide Scan, SignsText;
    var s := LexemeText(Literal(signs)) + rest;
    SignsScan(signs, [QUOTE] + rest);
    assert s[1..] == SignsText(signs) + ([QUOTE] + rest);
  }

  /** The first part is dropped or kept. */
  lemma FirstPart(ls: seq<Lexeme>)
    requires ls != [] && Fine(ls) && Closed(TextOf(ls[1..]))
    ensures Closed(TextOf(ls))
    ensures Minified(TextOf(ls)) ==
            (if ls[0].Literal? || ls[0].Other? then LexemeText(ls[0]) else []) + Minified(TextOf(ls[1..]))
  {
    var l, rest := ls[0], TextOf(ls[1..]);
    match l
    case Gap(c) => GapPart(c, rest);
    case LineNote(body) =>
      LineRest(ls);
      LinePart(body, rest);
    case BlockNote(body) => BlockPart(body, rest);
    case Literal(signs) => LiteralPart(signs, rest);
    case Other(c) => OtherPart(c, rest);
  }

  lemma LineRest(ls: seq<Lexeme>)
    requires Fine(ls) && ls != [] && ls[0].LineNote?
    ensures var rest := TextOf(ls[1..]); rest == [] || rest[0] == LF
  {
    if ls[1..] != [] {
      assert ls[1..][0] == ls[1];
    }
  }

  lemma GapPart(c: byte, rest: seq<byte>)
    requires Proper(Gap(c)) && Closed(rest)
    ensures Closed([c] + rest) && Minified([c] + rest) == [] + Minified(rest)
  {
    assert ([c] + rest)[1..] == rest;
  }

  lemma LinePart(body: seq<byte>, rest: seq<byte>)
    requires Proper(LineNote(body)) && Closed(rest) && (rest == [] || rest[0] == LF)
    ensures Closed([SLASH, SLASH] + body + rest) && Minified([SLASH, SLASH] + body + rest) == [] + Minified(rest)
  {
    hide LineLength;
    var s := [SLASH, SLASH] + body + rest;
    LineEnds([SLASH, SLASH] + body, rest);
    assert s[|body| + 2..] == rest;
  }

  lemma BlockPart(body: seq<byte>, rest: seq<byte>)
    requires Proper(BlockNote(body)) && Closed(rest)
    ensures var s := [SLASH] + (body + [STAR, SLASH]) + rest;
      Closed(s) && Minified(s) == [] + Minified(rest)
  {
    hide BlockLength;
    var t := body + [STAR, SLASH];
    var s := [SLASH] + t + rest;
    assert forall i :: 0 <= i < |t| ==> s[i + 1] == t[i];
    assert s[1] == STAR;
    assert NoEnd(s, |body| + 1) by {
      forall i | 0 <= i < |body| + 1
        ensures !(s[i] == STAR && s[i + 1] == SLASH)
      {
        if i > 0 {
          assert s[i] == t[i - 1] && s[i + 1] == t[i];
        }
      }
    }
    BlockEnds(s, |body| + 1);
    assert s[|body| + 3..] == rest;
  }

  lemma LiteralPart(signs: seq<Sign>, rest: seq<byte>)
    requires Proper(Literal(signs)) && Closed(rest)
    ensures var t := LexemeText(Literal(signs));
      Closed(t + rest) && Minified(t + rest) == t + Minified(rest)
  {
    hide StringLength, SignsText;
    var t := LexemeText(Literal(signs));
    var s := t + rest;
    LiteralEnds(signs, rest);
    assert s[..|t|] == t && s[|t|..] == rest;
  }

  lemma OtherPart(c: byte, rest: seq<byte>)
    requires Proper(Other(c)) && Closed(rest) && (c == SLASH ==> Hd(rest) != SLASH && Hd(rest) != STAR)
    ensures Closed([c] + rest) && Minified([c] + rest) == [c] + Minified(rest)
  {
    assert ([c] + rest)[1..] == rest;
  }

  /** Blanks and comments are dropped, strings and all other bytes stay as they are and in order. */
  lemma {:induction false} MinifyKeeps(ls: seq<Lexeme>)
    requires Fine(ls)
    ensures Closed(TextOf(ls)) && Minified(TextOf(ls)) == Kept(ls)
    decreases |ls|
  {
    hide LexemeText, Closed, Minified;
    if ls == [] {
      EmptyText();
    } else {
      MinifyKeeps(ls[1..]);
      FirstPart(ls);
    }
  }

  lemma EmptyText()
    ensures Closed([]) && Minified([]) == []
  {
  }

  // ----- every text is put together like that

  lemma {:induction false} LineBody(s: seq<byte>)
    ensures LF !in s[..LineLength(s)]
    ensures LineLength(s) == |s| || s[LineLength(s)] == LF
  {
    if s != [] && s[0] != LF {
      LineBody(s[1..]);
      assert s[..LineLength(s)] == [s[0]] + s[1..][..LineLength(s[1..])];
    }
  }

  lemma {:induction false} BlockBody(s: seq<byte>)
    requires BlockLength(s).Some?
    ensures var n := BlockLength(s).value;
      n + 2 <= |s| && s[n] == STAR && s[n + 1] == SLASH && NoEnd(s, n)
  {
    if !(s[0] == STAR && s[1] == SLASH) {
      BlockBody(s[1..]);
      var n := BlockLength(s).value;
      forall i | 0 <= i < n
        ensures !(s[i] == STAR && s[i + 1] == SLASH)
      {
        if i > 0 {
          assert s[i] == s[1..][i - 1] && s[i + 1] == s[1..][i];
        }
      }
    }
  }

  lemma {:induction false} SignsOf(b: seq<byte>) returns (signs: seq<Sign>)
    requires NulFree(b) && Scan(b).Some?
    ensures Proper(Literal(signs)) && SignsText(signs) == b[..Scan(b).value.1]
    decreases |b|
  {
    hide Scan;
    if b == [] || b[0] == QUOTE {
      ScanStop(b);
      signs := [];
    } else if b[0] == BACKSLASH {
      ScanNext(b);
      var rest := SignsOf(b[2..]);
      signs := [Two(b[1])] + rest;
      assert signs[1..] == rest;
      assert b[..Scan(b).value.1] == [BACKSLASH, b[1]] + b[2..][..Scan(b[2..]).value.1];
    } else {
      ScanNext(b);
      var rest := SignsOf(b[1..]);
      signs := [One(b[0])] + rest;
      assert signs[1..] == rest;
      assert b[..Scan(b).value.1] == [b[0]] + b[1..][..Scan(b[1..]).value.1];
    }
  }

  /** The first part of a closed text, and the closed text behind it. */
  lemma FirstLexeme(s: seq<byte>) returns (l: Lexeme, rest: seq<byte>)
    requires s != [] && NulFree(s) && Closed(s)
    ensures Proper(l) && s == LexemeText(l) + rest && Closed(rest) && NulFree(rest)
    ensures IsBlank(s[0]) ==> l == Gap(s[0])
    ensures l.LineNote? ==> rest == [] || rest[0] == LF
    ensures l == Other(SLASH) ==> Hd(rest) != SLASH && Hd(rest) != STAR
  {
    hide Scan;
    if IsBlank(s[0]) {
      l, rest := Gap(s[0]), s[1..];
    } else if StartsLineComment(s) {
      var n := LineLength(s);
      LineBody(s);
      hide LineLength;
      l, rest := LineNote(s[2..n]), s[n..];
      assert s[..n] == [SLASH, SLASH] + s[2..n];
      assert forall i :: 2 <= i < n ==> s[i] == s[..n][i];
    } else if StartsBlockComment(s) {
      l, rest := FirstBlock(s);
    } else if s[0] == QUOTE {
      l, rest := FirstLiteral(s);
    } else {
      l, rest := Other(s[0]), s[1..];
    }
  }

  lemma FirstBlock(s: seq<byte>) returns (l: Lexeme, rest: seq<byte>)
    requires StartsBlockComment(s) && NulFree(s) && Closed(s)
    ensures l.BlockNote? && Proper(l) && s == LexemeText(l) + rest && Closed(rest) && NulFree(rest)
  {
    BlockBody(s);
    hide BlockLength;
    var n := BlockLength(s).value;
    var body := s[1..n];
    l, rest := BlockNote(body), s[n + 2..];
    var t := body + [STAR, SLASH];
    forall i | 0 <= i < |body|
      ensures !(t[i] == STAR && t[i + 1] == SLASH)
    {
      assert t[i] == s[i + 1] && t[i + 1] == s[i + 2];
    }
    assert s == [SLASH] + t + rest;
  }

  lemma FirstLiteral(s: seq<byte>) returns (l: Lexeme, rest: seq<byte>)
    requires s != [] && s[0] == QUOTE && NulFree(s) && Closed(s)
    ensures l.Literal? && Proper(l) && s == LexemeText(l) + rest && Closed(rest) && NulFree(rest)
  {
    hide Scan, SignsText;
    var n := StringLength(s).value;
    var signs := SignsOf(s[1..]);
    l, rest := Literal(signs), s[n..];
    assert SignsText(signs) == s[1..n - 1];
    assert s == [QUOTE] + (s[1..n - 1] + [QUOTE]) + rest;
  }

  /** Every text in which strings and block comments are closed is made of such parts. */
  lemma {:induction false} Lexed(s: seq<byte>) returns (ls: seq<Lexeme>)
    requires NulFree(s) && Closed(s)
    ensures Fine(ls) && TextOf(ls) == s
    ensures s != [] && IsBlank(s[0]) ==> ls != [] && ls[0] == Gap(s[0])
    decreases |s|
  {
    hide LexemeText, Closed;
    if s == [] {
      ls := [];
    } else {
      var l, rest := FirstLexeme(s);
      var more := Lexed(rest);
      ls := [l] + more;
      assert ls[1..] == more;
    }
  }

  /** So the minifier drops the blanks and the comments of any closed text, and nothing else. */
  lemma DropsNothingElse(s: seq<byte>) returns (ls: seq<Lexeme>)
    requires NulFree(s) && Closed(s)
    ensures Fine(ls) && TextOf(ls) == s && Minified(s) == Kept(ls)
  {
    ls := Lexed(s);
    MinifyKeeps(ls);
  }
}
