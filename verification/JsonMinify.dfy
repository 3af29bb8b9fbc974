// The in-place minifier, and the law that minifying a formatted text gives the
// compact text of the same value.
module JsonMinify {
  import opened CText
  import opened JsonValue
  import opened JsonParse
  import opened JsonRoundTrip

  predicate IsBlank(c: byte) {
    c == SPACE || c == TAB || c == CR || c == LF
  }

  predicate StartsLineComment(s: seq<byte>) {
    |s| >= 2 && s[0] == SLASH && s[1] == SLASH
  }

  predicate StartsBlockComment(s: seq<byte>) {
    |s| >= 2 && s[0] == SLASH && s[1] == STAR
  }

  /** The number of bytes before the end of the line. */
  function LineLength(s: seq<byte>): (n: nat)
    ensures n <= |s|
  {
    if s == [] || s[0] == LF then 0 else 1 + LineLength(s[1..])
  }

  /** The number of bytes before the first star-slash, if there is one. */
  function BlockLength(s: seq<byte>): (n: Option<nat>)
    ensures n.Some? ==> n.value + 2 <= |s|
  {
    if |s| < 2 then None
    else if s[0] == STAR && s[1] == SLASH then Some(0)
    else match BlockLength(s[1..])
      case None => None
      case Some(n) => Some(n + 1)
  }

  /** The length of the string literal that starts at s, with both quotes, if it is closed. */
  function StringLength(s: seq<byte>): (n: Option<nat>)
    ensures n.Some? ==> 2 <= n.value <= |s|
  {
    if s == [] then None
    else match Scan(s[1..])
      case None => None
      case Some((len, n)) => if At(s, n + 1) == QUOTE then Some(n + 2) else None
  }

  /** Every string literal and every block comment of the text is closed. */
  predicate Closed(s: seq<byte>)
    decreases |s|
  {
    if s == [] then true
    else if StartsLineComment(s) then Closed(s[LineLength(s)..])
    else if StartsBlockComment(s) then
      BlockLength(s).Some? && Closed(s[BlockLength(s).value + 2..])
    else if s[0] == QUOTE then
      StringLength(s).Some? && Closed(s[StringLength(s).value..])
    else Closed(s[1..])
  }

  /** The text without blanks and comments. */
  function Minified(s: seq<byte>): seq<byte>
    requires Closed(s)
    decreases |s|
  {
    if s == [] then []
    else if IsBlank(s[0]) then Minified(s[1..])
    else if StartsLineComment(s) then Minified(s[LineLength(s)..])
    else if StartsBlockComment(s) then Minified(s[BlockLength(s).value + 2..])
    else if s[0] == QUOTE then
      s[..StringLength(s).value] + Minified(s[StringLength(s).value..])
    else [s[0]] + Minified(s[1..])
  }

  // ----- where the minifier reads

  /** Where the loop over a block comment ends: at a star-slash or at the terminator. */
  function BlockEnd(s: seq<byte>): nat {
    if s == [] || (s[0] == STAR && At(s, 1) == SLASH) then 0 else 1 + BlockEnd(s[1..])
  }

  /** Where the loop over a string ends; a backslash takes the next byte along, even the terminator. */
  function LiteralEnd(b: seq<byte>): nat {
    if b == [] || b[0] == QUOTE then 0
    else if b[0] == BACKSLASH then if |b| == 1 then 2 else 2 + LiteralEnd(b[2..])
    else 1 + LiteralEnd(b[1..])
  }

  /** How far one round of the main loop goes, in front of s. */
  function RoundLength(s: seq<byte>): (n: nat)
    requires s != []
    ensures n > 0
  {
    if IsBlank(s[0]) then 1
    else if StartsLineComment(s) then LineLength(s)
    else if StartsBlockComment(s) then BlockEnd(s) + 2
    else if s[0] == QUOTE then LiteralEnd(s[1..]) + 2
    else 1
  }

  /** How many bytes it writes: none for blanks and comments, all for strings and other bytes. */
  function KeptLength(s: seq<byte>): nat
    requires s != []
  {
    if IsBlank(s[0]) || StartsLineComment(s) || StartsBlockComment(s) then 0 else RoundLength(s)
  }

  /** The position where the main loop stops, or where it is when it has left the text behind the terminator. */
  function Reach(s: seq<byte>): nat
    decreases |s|
  {
    if s == [] then 0
    else
      var n := RoundLength(s);
      if n > |s| then n else n + Reach(s[n..])
  }

  lemma {:induction false} BlockReach(s: seq<byte>)
    ensures BlockLength(s) == if BlockEnd(s) + 2 <= |s| then Some(BlockEnd(s)) else None
  {
    if |s| >= 2 && !(s[0] == STAR && s[1] == SLASH) {
      BlockReach(s[1..]);
    } else if |s| == 1 {
      assert BlockEnd(s[1..]) == 0;
    }
  }

  lemma {:induction false} LiteralReach(b: seq<byte>)
    requires NulFree(b)
    ensures match Scan(b)
      case None => LiteralEnd(b) > |b|
      case Some((_, n)) => LiteralEnd(b) == n && (n == |b| || b[n] == QUOTE)
    decreases |b|
  {
    if b != [] && b[0] == BACKSLASH {
      if |b| > 1 {
        assert b[1..][0] != 0;
        LiteralReach(b[2..]);
      }
    } else if b != [] && b[0] != QUOTE {
      LiteralReach(b[1..]);
    }
  }

  lemma StringReach(s: seq<byte>)
    requires NulFree(s) && s != [] && s[0] == QUOTE
    ensures StringLength(s) == var n := LiteralEnd(s[1..]) + 2; if n <= |s| then Some(n) else None
  {
    hide Scan, LiteralEnd;
    LiteralReach(s[1..]);
  }

  /**
   * The minifier stays inside the text, and stops at its end, if and only if
   * every string and block comment is closed.
   */
  lemma {:induction false} ReadsInside(s: seq<byte>)
    requires NulFree(s)
    ensures Reach(s) <= |s| <==> Closed(s)
    ensures Closed(s) ==> Reach(s) == |s|
    decreases |s|
  {
    hide StringLength, LiteralEnd, BlockLength, BlockEnd, LineLength;
    if s != [] {
      var n := RoundLength(s);
      BlockReach(s);
      if s[0] == QUOTE {
        StringReach(s);
      }
      if n <= |s| {
        ReadsInside(s[n..]);
      }
    }
  }

  /** A quote alone: the terminator is copied as if it were the closing quote, and the next byte read is behind it. */
  lemma LoneQuote()
    ensures Reach([QUOTE]) == 2
  {
  }

  // ----- texts that minify independently of what follows

  /** In front of any closed text, x minifies to out. */
  ghost predicate Neutral(x: seq<byte>, out: seq<byte>) {
    forall y :: Closed(y) ==> Closed(x + y) && Minified(x + y) == out + Minified(y)
  }

  lemma NeutralEmpty()
    ensures Neutral([], [])
  {
    forall y | Closed(y)
      ensures Closed([] + y) && Minified([] + y) == [] + Minified(y)
    {
      assert [] + y == y;
    }
  }

  lemma NeutralConcat(x1: seq<byte>, o1: seq<byte>, x2: seq<byte>, o2: seq<byte>)
    requires Neutral(x1, o1) && Neutral(x2, o2)
    ensures Neutral(x1 + x2, o1 + o2)
  {
    forall y | Closed(y)
      ensures Closed(x1 + x2 + y) && Minified(x1 + x2 + y) == o1 + o2 + Minified(y)
    {
      assert Closed(x2 + y);
      Assoc(x1, x2, y);
      Assoc(o1, o2, Minified(y));
    }
  }

  lemma NeutralBlank(c: byte)
    requires IsBlank(c)
    ensures Neutral([c], [])
  {
    forall y | Closed(y)
      ensures Closed([c] + y) && Minified([c] + y) == [] + Minified(y)
    {
      assert ([c] + y)[1..] == y;
    }
  }

  /** A byte that is copied as it is and starts neither a string nor a comment. */
  predicate IsWordByte(c: byte) {
    c != 0 && !IsBlank(c) && c != QUOTE && c != SLASH
  }

  lemma NeutralByte(c: byte)
    requires IsWordByte(c)
    ensures Neutral([c], [c])
  {
    forall y | Closed(y)
      ensures Closed([c] + y) && Minified([c] + y) == [c] + Minified(y)
    {
      assert ([c] + y)[1..] == y;
    }
  }

  lemma {:induction false} NeutralWord(w: seq<byte>)
    requires forall i :: 0 <= i < |w| ==> IsWordByte(w[i])
    ensures Neutral(w, w)
  {
    if w == [] {
      NeutralEmpty();
    } else {
      NeutralByte(w[0]);
      NeutralWord(w[1..]);
      NeutralConcat([w[0]], [w[0]], w[1..], w[1..]);
      FirstAndRest(w);
    }
  }

  lemma QuotedLength(s: seq<byte>, y: seq<byte>)
    requires NulFree(s)
    ensures StringLength(StringText(s) + y) == Some(|StringText(s)|)
  {
    var text := StringText(s) + y;
    var b := Escape(s) + ([QUOTE] + y);
    EscapedString(s, [QUOTE] + y);
    assert text == [QUOTE] + b;
    assert text[1..] == b;
    assert text[|Escape(s)| + 1] == QUOTE;
  }

  lemma StringStep(text: seq<byte>, n: nat)
    requires Hd(text) == QUOTE && StringLength(text) == Some(n)
    requires Closed(text[n..])
    ensures Closed(text) && Minified(text) == text[..n] + Minified(text[n..])
  {
  }

  lemma NeutralString(s: seq<byte>)
    requires NulFree(s)
    ensures Neutral(StringText(s), StringText(s))
  {
    var q := StringText(s);
    forall y | Closed(y)
      ensures Closed(q + y) && Minified(q + y) == q + Minified(y)
    {
      QuotedLength(s, y);
      assert (q + y)[..|q|] == q && (q + y)[|q|..] == y;
      StringStep(q + y, |q|);
    }
  }

  lemma {:induction false} DecimalDigits(k: nat)
    ensures forall i :: 0 <= i < |Decimal(k)| ==> IsDigit(Decimal(k)[i])
  {
    if k >= 10 {
      DecimalDigits(k / 10);
    }
  }

  lemma NeutralNumber(d: real, n: int)
    ensures Neutral(NumberText(d, n), NumberText(d, n))
  {
    DecimalDigits(if n < 0 then -n else n);
    NeutralWord(NumberText(d, n));
  }

  lemma {:induction false} NeutralTabs(n: nat)
    ensures Neutral(Tabs(n), [])
  {
    if n == 0 {
      NeutralEmpty();
    } else {
      NeutralBlank(TAB);
      NeutralTabs(n - 1);
      NeutralConcat([TAB], [], Tabs(n - 1), []);
    }
  }

  // ----- formatted and compact texts

  /** The pieces that differ between the two formats. */
  lemma NeutralPieces(depth: nat, last: bool)
    ensures Neutral(Indent(depth, true), [])
    ensures Neutral(Open(true), Open(false))
    ensures Neutral(Colon(true), Colon(false))
    ensures Neutral(ItemSep(true), ItemSep(false))
    ensures Neutral(MemberEnd(last, true), MemberEnd(last, false))
  {
    NeutralTabs(depth);
    NeutralBlank(LF);
    NeutralBlank(TAB);
    NeutralBlank(SPACE);
    NeutralByte(LBRACE);
    NeutralByte(COLON);
    NeutralByte(COMMA);
    NeutralConcat([LBRACE], [LBRACE], [LF], []);
    NeutralConcat([COLON], [COLON], [TAB], []);
    NeutralConcat([COMMA], [COMMA], [SPACE], []);
    NeutralConcat([COMMA], [COMMA], [LF], []);
    PieceSums();
  }

  lemma PieceSums()
    ensures [LBRACE] + [LF] == Open(true) && [LBRACE] + [] == Open(false)
    ensures [COLON] + [TAB] == Colon(true) && [COLON] + [] == Colon(false)
    ensures [COMMA] + [SPACE] == ItemSep(true) && [COMMA] + [] == ItemSep(false)
    ensures [COMMA] + [LF] == MemberEnd(false, true) && [COMMA] + [] == MemberEnd(false, false)
    ensures [LF] == MemberEnd(true, true) && [] == MemberEnd(true, false)
  {
  }

  lemma {:induction false} NeutralText(j: Json, d1: nat, d2: nat)
    requires Printable(j)
    ensures Neutral(Text(j, d1, true), Text(j, d2, false))
    decreases j, 0
  {
    hide Neutral;
    match j
    case Null => NeutralWord(NULL_TEXT);
    case False => NeutralWord(FALSE_TEXT);
    case True => NeutralWord(TRUE_TEXT);
    case Number(d, n) => NeutralNumber(d, n);
    case String(s) => NeutralString(s);
    case Array(items) => NeutralArray(items, d1, d2);
    case Object(members) => NeutralObject(members, d1, d2);
  }

  lemma {:induction false} NeutralArray(items: seq<Json>, d1: nat, d2: nat)
    requires PrintableItems(items)
    ensures Neutral(Text(Array(items), d1, true), Text(Array(items), d2, false))
    decreases items, 2
  {
    hide Neutral;
    var f, c := ItemsText(items, d1 + 1, true), ItemsText(items, d2 + 1, false);
    NeutralItems(items, d1 + 1, d2 + 1);
    NeutralByte(LBRACKET);
    NeutralByte(RBRACKET);
    NeutralConcat(f, c, [RBRACKET], [RBRACKET]);
    NeutralConcat([LBRACKET], [LBRACKET], f + [RBRACKET], c + [RBRACKET]);
  }

  lemma {:induction false} NeutralItems(items: seq<Json>, d1: nat, d2: nat)
    requires PrintableItems(items)
    ensures Neutral(ItemsText(items, d1, true), ItemsText(items, d2, false))
    decreases items, 1
  {
    hide Neutral;
    if items == [] {
      NeutralEmpty();
    } else {
      NeutralText(items[0], d1, d2);
      if |items| > 1 {
        var f, c := ItemsText(items[1..], d1, true), ItemsText(items[1..], d2, false);
        NeutralPieces(0, false);
        NeutralItems(items[1..], d1, d2);
        NeutralConcat(ItemSep(true), ItemSep(false), f, c);
        NeutralConcat(Text(items[0], d1, true), Text(items[0], d2, false), ItemSep(true) + f, ItemSep(false) + c);
      }
    }
  }

  lemma {:induction false} NeutralObject(members: seq<Member>, d1: nat, d2: nat)
    requires PrintableMembers(members)
    ensures Neutral(Text(Object(members), d1, true), Text(Object(members), d2, false))
    decreases members, 2
  {
    hide Neutral;
    var f, c := MembersText(members, d1 + 1, true), MembersText(members, d2 + 1, false);
    NeutralPieces(d1, false);
    NeutralByte(RBRACE);
    NeutralConcat(Indent(d1, true), [], [RBRACE], [RBRACE]);
    NeutralMembers(members, d1 + 1, d2 + 1);
    NeutralConcat(f, c, Indent(d1, true) + [RBRACE], [] + [RBRACE]);
    NeutralConcat(Open(true), Open(false), f + (Indent(d1, true) + [RBRACE]), c + ([] + [RBRACE]));
  }

  lemma {:induction false} NeutralMember(m: Member, d1: nat, d2: nat)
    requires NulFree(m.name) && Printable(m.value)
    ensures Neutral(MemberText(m, d1, true), MemberText(m, d2, false))
    decreases m, 1
  {
    hide Neutral;
    var f, c := Text(m.value, d1, true), Text(m.value, d2, false);
    var q := StringText(m.name);
    NeutralPieces(d1, false);
    NeutralString(m.name);
    NeutralText(m.value, d1, d2);
    NeutralConcat(Colon(true), Colon(false), f, c);
    NeutralConcat(q, q, Colon(true) + f, Colon(false) + c);
    NeutralConcat(Indent(d1, true), [], q + (Colon(true) + f), q + (Colon(false) + c));
  }

  lemma {:induction false} NeutralMembers(members: seq<Member>, d1: nat, d2: nat)
    requires PrintableMembers(members)
    ensures Neutral(MembersText(members, d1, true), MembersText(members, d2, false))
    decreases members, 1
  {
    hide Neutral;
    if members == [] {
      NeutralEmpty();
    } else {
      var f, c := MembersText(members[1..], d1, true), MembersText(members[1..], d2, false);
      var ef, ec := MemberEnd(|members| == 1, true), MemberEnd(|members| == 1, false);
      NeutralMember(members[0], d1, d2);
      NeutralPieces(0, |members| == 1);
      NeutralMembers(members[1..], d1, d2);
      NeutralConcat(ef, ec, f, c);
      NeutralConcat(MemberText(members[0], d1, true), MemberText(members[0], d2, false), ef + f, ec + c);
    }
  }

  /** Minify after Print is PrintUnformatted. */
  lemma MinifyPrint(j: Json)
    requires Printable(j)
    ensures Closed(Text(j, 0, true))
    ensures Minified(Text(j, 0, true)) == Text(j, 0, false)
  {
    NeutralText(j, 0, 0);
    assert Closed([]);
    assert Text(j, 0, true) + [] == Text(j, 0, true);
    assert Text(j, 0, false) + [] == Text(j, 0, false);
  }

  // ----- the minifier, in place

  /** The loop over a comment that runs to the end of its line. */
  method SkipLine(json: array<byte>, start: nat, ghost n: nat) returns (j: nat)
    requires start <= n < json.Length && json[n] == 0 && NulFree(json[start..n])
    ensures j == start + LineLength(json[start..n])
  {
    j := start;
    while json[j] != 0 && json[j] != LF
      invariant start <= j <= n
      invariant j + LineLength(json[j..n]) == start + LineLength(json[start..n])
      decreases n - j
    {
      assert json[j..n][1..] == json[j + 1..n];
      j := j + 1;
    }
    assert j < n ==> json[start..n][j - start] != 0;
  }

  /** The loop over a block comment, and the step past its end. */
  method SkipBlock(json: array<byte>, start: nat, ghost n: nat) returns (j: nat)
    requires start <= n < json.Length && json[n] == 0 && NulFree(json[start..n])
    ensures j == start + BlockEnd(json[start..n]) + 2
  {
    j := start;
    while json[j] != 0 && !(json[j] == STAR && json[j + 1] == SLASH)
      invariant start <= j <= n
      invariant j + BlockEnd(json[j..n]) == start + BlockEnd(json[start..n])
      decreases n - j
    {
      assert json[j..n][1..] == json[j + 1..n];
      j := j + 1;
    }
    assert j < n ==> json[start..n][j - start] != 0;
    j := j + 2;
  }

  /** The loop over a string, and the step past its end, without the copying; it is stopped outside of the text. */
  method SkipLiteral(json: array<byte>, start: nat, n: nat) returns (j: nat)
    requires start < n < json.Length && json[n] == 0 && NulFree(json[start..n])
    ensures j == start + LiteralEnd(json[start + 1..n]) + 2
  {
    j := start + 1;
    while j <= n && json[j] != 0 && json[j] != QUOTE
      invariant start < j <= n + 1
      invariant j + LiteralRest(json[..], j, n) == start + 1 + LiteralEnd(json[start + 1..n])
      decreases n + 1 - j
    {
      LiteralPointer(json[..], j, n);
      if json[j] == BACKSLASH {
        j := j + 1;
      }
      j := j + 1;
    }
    assert j < n ==> json[start..n][j - start] != 0;
    j := j + 1;
  }

  function LiteralRest(json: seq<byte>, j: nat, n: nat): nat
    requires n < |json|
  {
    if j <= n then LiteralEnd(json[j..n]) else 0
  }

  lemma LiteralPointer(json: seq<byte>, j: nat, n: nat)
    requires j < n < |json| && json[j] != QUOTE
    ensures LiteralRest(json, j, n) ==
            if json[j] == BACKSLASH then 2 + LiteralRest(json, j + 2, n) else 1 + LiteralRest(json, j + 1, n)
  {
    var b := json[j..n];
    assert b[1..] == json[j + 1..n];
    assert j + 2 <= n ==> b[2..] == json[j + 2..n];
  }

  /** The way of the read pointer through any text: the main loop without the copying, stopped outside of the text. */
  method ReadPointer(json: array<byte>, n: nat) returns (j: nat)
    requires n < json.Length && json[n] == 0 && NulFree(json[..n])
    ensures j == Reach(json[..n])
  {
    hide BlockEnd, LiteralEnd, LineLength, Following, Reach;
    j := 0;
    FollowingStart(json[..], n);
    while j <= n && json[j] != 0
      invariant Following(json[..], j, n)
      decreases n - j
    {
      PointerRound(json[..], j, n);
      if json[j] == SPACE || json[j] == TAB || json[j] == CR || json[j] == LF {
        j := j + 1;
      } else if json[j] == SLASH && json[j + 1] == SLASH {
        j := SkipLine(json, j, n);
      } else if json[j] == SLASH && json[j + 1] == STAR {
        j := SkipBlock(json, j, n);
      } else if json[j] == QUOTE {
        j := SkipLiteral(json, j, n);
      } else {
        j := j + 1;
      }
    }
    FollowingEnd(json[..], j, n);
  }

  /** From j on, inside the text, the pointer goes where it goes from the start; outside, it is there. */
  ghost predicate Following(json: seq<byte>, j: nat, n: nat) {
    && n < |json| && json[n] == 0 && NulFree(json[..n])
    && if j <= n then j + Reach(json[j..n]) == Reach(json[..n]) else j == Reach(json[..n])
  }

  lemma FollowingStart(json: seq<byte>, n: nat)
    requires n < |json| && json[n] == 0 && NulFree(json[..n])
    ensures Following(json, 0, n)
  {
    assert json[0..n] == json[..n];
  }

  lemma FollowingEnd(json: seq<byte>, j: nat, n: nat)
    requires Following(json, j, n) && (j <= n ==> json[j] == 0)
    ensures j == Reach(json[..n])
  {
    NotZero(json, n);
  }

  lemma NotZero(json: seq<byte>, n: nat)
    requires n < |json| && NulFree(json[..n])
    ensures forall j :: 0 <= j < n ==> json[j] != 0
  {
    forall j | 0 <= j < n
      ensures json[j] != 0
    {
      assert json[..n][j] != 0;
    }
  }

  lemma PointerRound(json: seq<byte>, j: nat, n: nat)
    requires Following(json, j, n) && j <= n && json[j] != 0
    ensures j < n
    ensures var s := json[j..n];
      && s != [] && s[0] == json[j] && NulFree(s)
      && (StartsLineComment(s) <==> json[j] == SLASH && json[j + 1] == SLASH)
      && (StartsBlockComment(s) <==> json[j] == SLASH && json[j + 1] == STAR)
      && s[1..] == json[j + 1..n] && Following(json, j + RoundLength(s), n)
  {
    hide RoundLength;
    var s := json[j..n];
    assert forall i :: 0 <= i < |s| ==> s[i] == json[..n][j + i];
    var k := j + RoundLength(s);
    if k <= n {
      assert s[RoundLength(s)..] == json[k..n];
    }
  }

  /** The first pass of a string, started at j, ends at end. */
  ghost predicate ScanTo(text: seq<byte>, j: nat, end: nat) {
    j <= end < |text| && InStep(text[j..], end - j)
  }

  lemma ScanMore(text: seq<byte>, j: nat, end: nat)
    requires ScanTo(text, j, end) && text[j] != 0 && text[j] != QUOTE
    ensures if text[j] == BACKSLASH then ScanTo(text, j + 2, end) else ScanTo(text, j + 1, end)
  {
    DropDrop(text, j, 1);
    if text[j] == BACKSLASH {
      DropDrop(text, j, 2);
    }
  }

  lemma ScanStart(text: seq<byte>, start: nat)
    requires start < |text| && StringLength(text[start..]).Some?
    ensures var end := start + StringLength(text[start..]).value - 1;
      ScanTo(text, start + 1, end) && text[end] == QUOTE
  {
    DropDrop(text, start, 1);
  }

  lemma ScanDone(text: seq<byte>, j: nat, end: nat)
    requires ScanTo(text, j, end) && (text[j] == 0 || text[j] == QUOTE)
    ensures j == end
  {
  }

  /** json with the bytes moved so far: done bytes from start on now stand at into0. */
  ghost predicate Moved(before: seq<byte>, after: seq<byte>, into0: nat, start: nat, done: nat) {
    && |before| == |after| && into0 <= start && start + done <= |before|
    && (forall k :: 0 <= k < into0 ==> after[k] == before[k])
    && (forall k :: into0 <= k < into0 + done ==> after[k] == before[k + (start - into0)])
    && (forall k :: start + done <= k < |before| ==> after[k] == before[k])
  }

  /** One byte: *into++ = *json++. */
  method Move(json: array<byte>, ghost before: seq<byte>, into0: nat, start: nat, done: nat)
    requires Moved(before, json[..], into0, start, done) && start + done < json.Length
    modifies json
    ensures Moved(before, json[..], into0, start, done + 1)
  {
    json[into0 + done] := json[start + done];
  }

  /** The copying loop stands at done; the literal of text ends at end. */
  ghost predicate Copying(before: seq<byte>, now: seq<byte>, text: seq<byte>,
                          into0: nat, start: nat, done: nat, end: nat) {
    && Moved(before, now, into0, start, done)
    && start + done <= end < |text| <= |before|
    && before[start..|text|] == text[start..]
    && text[end] == QUOTE
    && ScanTo(text, start + done, end)
    && now[start + done] == text[start + done]
  }

  /** An unread literal of text stands in before, from start to end. */
  ghost predicate LiteralAt(before: seq<byte>, text: seq<byte>, into0: nat, start: nat, end: nat) {
    && into0 <= start < end < |text| <= |before|
    && before[start..|text|] == text[start..]
    && text[end] == QUOTE
    && ScanTo(text, start + 1, end)
  }

  lemma CopyingInit(before: seq<byte>, now: seq<byte>, text: seq<byte>, into0: nat, start: nat, end: nat)
    requires LiteralAt(before, text, into0, start, end)
    requires Moved(before, now, into0, start, 1)
    ensures Copying(before, now, text, into0, start, 1, end)
  {
    assert before[start..|text|][1] == text[start..][1];
  }

  lemma CopyingStep(before: seq<byte>, now: seq<byte>, now': seq<byte>, text: seq<byte>,
                    into0: nat, start: nat, done: nat, done': nat, end: nat)
    requires Copying(before, now, text, into0, start, done, end)
    requires now[start + done] != 0 && now[start + done] != QUOTE
    requires done' == if now[start + done] == BACKSLASH then done + 2 else done + 1
    requires Moved(before, now', into0, start, done')
    ensures Copying(before, now', text, into0, start, done', end)
  {
    hide Scan;
    ScanMore(text, start + done, end);
    assert before[start..|text|][done'] == text[start..][done'];
  }

  /** One byte of a string literal, with the byte after it if it is a backslash. */
  method CopyByte(json: array<byte>, ghost before: seq<byte>, into0: nat, start: nat, done: nat) returns (done': nat)
    requires Moved(before, json[..], into0, start, done) && start + done + 1 < json.Length
    modifies json
    ensures done' == if old(json[start + done]) == BACKSLASH then done + 2 else done + 1
    ensures Moved(before, json[..], into0, start, done')
  {
    done' := done;
    if json[start + done] == BACKSLASH {
      Move(json, before, into0, start, done);
      done' := done + 1;
    }
    Move(json, before, into0, start, done');
    done' := done' + 1;
  }

  /** The loop over a string literal: every byte moves from the read to the write position. */
  method CopyLiteral(json: array<byte>, into0: nat, start: nat, ghost text: seq<byte>, ghost end: nat)
    returns (done: nat)
    requires LiteralAt(json[..], text, into0, start, end)
    modifies json
    ensures done == end + 1 - start
    ensures Moved(old(json[..]), json[..], into0, start, done)
  {
    ghost var before := json[..];
    Move(json, before, into0, start, 0);
    CopyingInit(before, json[..], text, into0, start, end);
    done := 1;
    while json[start + done] != 0 && json[start + done] != QUOTE
      invariant Copying(before, json[..], text, into0, start, done, end)
      decreases end - done
    {
      ghost var now, was := json[..], done;
      done := CopyByte(json, before, into0, start, done);
      CopyingStep(before, now, json[..], text, into0, start, was, done, end);
    }
    ScanDone(text, start + done, end);
    Move(json, before, into0, start, done);
    done := done + 1;
  }

  /** The minifier has read j bytes of text and written into bytes. */
  ghost predicate Minifying(text: seq<byte>, now: seq<byte>, into: nat, j: nat) {
    && NulFree(text) && Closed(text)
    && into <= j <= |text| < |now|
    && now[j..|text|] == text[j..] && now[|text|] == 0
    && Closed(text[j..])
    && now[..into] + Minified(text[j..]) == Minified(text)
  }

  lemma MinifyStart(text: seq<byte>, now: seq<byte>)
    requires NulFree(text) && Closed(text) && text <= now && |text| < |now| && now[|text|] == 0
    ensures Minifying(text, now, 0, 0)
  {
    assert text[0..] == text;
    assert now[..0] + Minified(text[0..]) == Minified(text);
  }

  /** Dropping d bytes that leave no trace. */
  lemma MinifyDrop(text: seq<byte>, now: seq<byte>, into: nat, j: nat, d: nat)
    requires Minifying(text, now, into, j) && j + d <= |text|
    requires Closed(text[j..][d..]) && Minified(text[j..]) == Minified(text[j..][d..])
    ensures Minifying(text, now, into, j + d)
  {
    DropDrop(text, j, d);
    DropDrop(now[..|text|], j, d);
    assert now[..|text|][j + d..] == now[j + d..|text|];
    assert now[..|text|][j..] == now[j..|text|];
  }

  /** Moving d bytes that are kept. */
  lemma MinifyKeep(text: seq<byte>, now: seq<byte>, now': seq<byte>, into: nat, j: nat, d: nat)
    requires Minifying(text, now, into, j) && j + d <= |text|
    requires Moved(now, now', into, j, d)
    requires Closed(text[j..][d..]) && Minified(text[j..]) == text[j..][..d] + Minified(text[j..][d..])
    ensures Minifying(text, now', into + d, j + d)
  {
    DropDrop(text, j, d);
    hide Closed, Minified;
    assert now'[j + d..|text|] == text[j + d..];
    assert now'[..into + d] == now[..into] + text[j..][..d];
    Assoc(now[..into], text[j..][..d], Minified(text[j + d..]));
  }

  lemma DropStep(s: seq<byte>)
    requires s != [] && Closed(s)
    ensures IsBlank(s[0]) ==> Closed(s[1..]) && Minified(s) == Minified(s[1..])
    ensures StartsLineComment(s) ==> Closed(s[LineLength(s)..]) && Minified(s) == Minified(s[LineLength(s)..])
    ensures StartsBlockComment(s) ==>
              BlockEnd(s) + 2 <= |s| && Closed(s[BlockEnd(s) + 2..]) && Minified(s) == Minified(s[BlockEnd(s) + 2..])
  {
    hide BlockEnd;
    BlockReach(s);
  }

  lemma KeepStep(s: seq<byte>)
    requires s != [] && Closed(s) && !IsBlank(s[0]) && !StartsLineComment(s) && !StartsBlockComment(s)
    ensures s[0] == QUOTE ==>
              StringLength(s).Some? && Closed(s[StringLength(s).value..])
              && Minified(s) == s[..StringLength(s).value] + Minified(s[StringLength(s).value..])
    ensures s[0] != QUOTE ==> Closed(s[1..]) && Minified(s) == s[..1] + Minified(s[1..])
  {
    assert s[..1] == [s[0]];
  }

  lemma LiteralStart(text: seq<byte>, now: seq<byte>, into: nat, j: nat)
    requires Minifying(text, now, into, j) && j < |text| && text[j] == QUOTE
    ensures StringLength(text[j..]).Some?
    ensures LiteralAt(now, text, into, j, j + StringLength(text[j..]).value - 1)
  {
    KeepStep(text[j..]);
    ScanStart(text, j);
  }

  lemma MinifyByte(text: seq<byte>, now: seq<byte>, into: nat, j: nat)
    requires Minifying(text, now, into, j)
    ensures into <= j <= |text| < |now|
    ensures if j == |text| then now[j] == 0 else now[j] == text[j] == text[j..][0] && now[j] != 0
    ensures j < |text| ==> now[j + 1] == At(text[j..], 1)
    ensures j < |text| ==> (StartsLineComment(text[j..]) <==> now[j] == SLASH && now[j + 1] == SLASH)
    ensures j < |text| ==> (StartsBlockComment(text[j..]) <==> now[j] == SLASH && now[j + 1] == STAR)
  {
    if j < |text| {
      assert now[j..|text|][0] == text[j..][0];
      if j + 1 < |text| {
        assert now[j..|text|][1] == text[j..][1];
      }
    }
  }

  lemma DropRound(text: seq<byte>, now: seq<byte>, into: nat, j: nat)
    requires Minifying(text, now, into, j) && j < |text|
    ensures var s := text[j..];
      && now[j..|text|] == s && NulFree(s) && now[|text|] == 0
      && (IsBlank(s[0]) ==> Minifying(text, now, into, j + 1))
      && (StartsLineComment(s) ==> LineLength(s) > 0 && Minifying(text, now, into, j + LineLength(s)))
      && (StartsBlockComment(s) ==> Minifying(text, now, into, j + BlockEnd(s) + 2))
  {
    hide Closed, Minified, LineLength, BlockEnd;
    var s := text[j..];
    DropStep(s);
    DropFacts(text, now, into, j);
    if IsBlank(s[0]) { MinifyDrop(text, now, into, j, 1); }
    if StartsLineComment(s) { MinifyDrop(text, now, into, j, LineLength(s)); }
    if StartsBlockComment(s) { MinifyDrop(text, now, into, j, BlockEnd(s) + 2); }
  }

  lemma DropFacts(text: seq<byte>, now: seq<byte>, into: nat, j: nat)
    requires Minifying(text, now, into, j) && j < |text|
    ensures var s := text[j..];
      now[j..|text|] == s && NulFree(s) && Closed(s) && (StartsLineComment(s) ==> LineLength(s) > 0)
  {
    hide Closed, Minified;
  }

  lemma LiteralRound(text: seq<byte>, now: seq<byte>, now': seq<byte>, into: nat, j: nat, end: nat)
    requires Minifying(text, now, into, j) && j < |text| && text[j] == QUOTE
    requires StringLength(text[j..]).Some? && end == j + StringLength(text[j..]).value - 1
    requires Moved(now, now', into, j, end + 1 - j)
    ensures Minifying(text, now', into + (end + 1 - j), end + 1)
  {
    hide Closed, Minified, Moved, StringLength;
    KeepStep(text[j..]);
    MinifyKeep(text, now, now', into, j, end + 1 - j);
  }

  lemma LiteralLength(text: seq<byte>, now: seq<byte>, into: nat, j: nat)
    requires Minifying(text, now, into, j) && j < |text| && text[j] == QUOTE
    ensures StringLength(text[j..]) == Some(LiteralEnd(text[j..][1..]) + 2)
  {
    hide StringLength, LiteralEnd;
    KeepStep(text[j..]);
    StringReach(text[j..]);
  }

  /** A string literal in the main loop. */
  method LiteralStep(json: array<byte>, ghost text: seq<byte>, into: nat, j: nat) returns (into': nat, j': nat)
    requires Minifying(text, json[..], into, j) && j < |text| && text[j] == QUOTE
    modifies json
    ensures j' == j + LiteralEnd(text[j..][1..]) + 2 && into' == into + (j' - j) && Minifying(text, json[..], into', j')
  {
    hide LiteralAt, Moved, StringLength, Minifying, LiteralEnd;
    ghost var now := json[..];
    LiteralStart(text, now, into, j);
    LiteralLength(text, now, into, j);
    ghost var end := j + StringLength(text[j..]).value - 1;
    var done := CopyLiteral(json, into, j, text, end);
    LiteralRound(text, now, json[..], into, j, end);
    into', j' := into + done, j + done;
  }

  lemma ByteRound(text: seq<byte>, now: seq<byte>, now': seq<byte>, into: nat, j: nat)
    requires Minifying(text, now, into, j) && j < |text|
    requires var s := text[j..];
      !IsBlank(s[0]) && !StartsLineComment(s) && !StartsBlockComment(s) && s[0] != QUOTE
    requires Moved(now, now', into, j, 1)
    ensures Minifying(text, now', into + 1, j + 1)
  {
    KeepStep(text[j..]);
    MinifyKeep(text, now, now', into, j, 1);
  }

  /** Any other byte in the main loop. */
  method OtherStep(json: array<byte>, ghost text: seq<byte>, into: nat, j: nat)
    requires Minifying(text, json[..], into, j) && j < |text|
    requires var s := text[j..];
      !IsBlank(s[0]) && !StartsLineComment(s) && !StartsBlockComment(s) && s[0] != QUOTE
    modifies json
    ensures Minifying(text, json[..], into + 1, j + 1)
  {
    ghost var now := json[..];
    Move(json, now, into, j, 0);
    ByteRound(text, now, json[..], into, j);
  }

  /** One round of the main loop. */
  method MinifyRound(json: array<byte>, ghost text: seq<byte>, into: nat, j: nat) returns (into': nat, j': nat)
    requires Minifying(text, json[..], into, j) && j < |text|
    modifies json
    ensures j' == j + RoundLength(text[j..]) && into' == into + KeptLength(text[j..])
    ensures j < j' && Minifying(text, json[..], into', j')
  {
    hide Minifying, LineLength, BlockEnd, LiteralEnd, Closed;
    MinifyByte(text, json[..], into, j);
    DropRound(text, json[..], into, j);
    into' := into;
    if IsBlank(json[j]) {
      j' := j + 1;
    } else if json[j] == SLASH && json[j + 1] == SLASH {
      j' := SkipLine(json, j, |text|);
    } else if json[j] == SLASH && json[j + 1] == STAR {
      j' := SkipBlock(json, j, |text|);
    } else if json[j] == QUOTE {
      into', j' := LiteralStep(json, text, into, j);
    } else {
      OtherStep(json, text, into, j);
      into', j' := into + 1, j + 1;
    }
  }

  /**
   * The minifier. The text occupies the first n bytes of the array; afterwards
   * the array holds the minified text, and no byte was written at a position
   * that had not been read before.
   */
  method Minify(json: array<byte>, ghost n: nat) returns (ghost len: nat)
    requires n < json.Length && json[n] == 0 && NulFree(json[..n])
    requires Closed(json[..n])
    modifies json
    ensures len <= n && Holds(json[..], 0, old(Minified(json[..n])))
    ensures len == |old(Minified(json[..n]))|
  {
    ghost var text := json[..n];
    var into: nat, j: nat := 0, 0;
    MinifyStart(text, json[..]);
    MinifyByte(text, json[..], into, j);
    while json[j] != 0
      invariant j <= n && Minifying(text, json[..], into, j)
      decreases n - j
    {
      MinifyByte(text, json[..], into, j);
      into, j := MinifyRound(json, text, into, j);
    }
    MinifyByte(text, json[..], into, j);
    MinifyEnd(text, json[..], into, j);
    json[into] := 0;
    len := into;
  }

  lemma MinifyEnd(text: seq<byte>, now: seq<byte>, into: nat, j: nat)
    requires Minifying(text, now, into, j) && j == |text|
    ensures into <= |text| && now[..into] == Minified(text)
  {
    assert text[j..] == [];
  }
}
