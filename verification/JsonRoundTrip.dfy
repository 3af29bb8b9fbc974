// Parsing a printed value gives the value back and stops at the end of its text.
module JsonRoundTrip {
  import opened CText
  import opened Bits
  import opened JsonValue
  import opened JsonParse

  /** Texts that cannot be read as the continuation of a number. */
  predicate Delimits(tail: seq<byte>) {
    && !IsDigit(Hd(tail))
    && Hd(tail) != 101 && Hd(tail) != 69
    && !(Hd(tail) == DOT && IsDigit(Hd(tail[1..])))
  }

  predicate IsSpace(c: byte) {
    0 < c <= 32
  }

  predicate Blank(w: seq<byte>) {
    forall i :: 0 <= i < |w| ==> IsSpace(w[i])
  }

  // ----- strings

  lemma UnicodeByte(c: byte, r: seq<byte>, n: nat)
    requires 0 < c < 32 && InStep(r, n)
    requires c != 8 && c != 9 && c != 10 && c != 12 && c != 13
    ensures var b := EscapeByte(c) + r;
      |EscapeByte(c)| == 6 && InStep(b, n + 6) && Copy(b, n + 6) == Cons([c], Copy(r, n))
  {
    var e := EscapeByte(c);
    var b := e + r;
    HexOfByte(c, b[2..]);
    hide ParseHex4, EncodeUtf8, Or, Shr;
    OneUnicodeStep(b, 0);
    assert b[0..] == b && b[6..] == r;
    assert b[0] == BACKSLASH && b[1] == 117;
    EncodeOne(c);
    OneUnicodeCopy(b, n + 6);
  }

  lemma OneUnicodeCopy(b: seq<byte>, n: nat)
    requires InStep(b, n) && n >= 6 && b[0] == BACKSLASH && b[1] == 117
    requires 0 < ParseHex4(b[2..]) < 0x80 && InStep(b[6..], n - 6)
    ensures Copy(b, n) == Cons(EncodeUtf8(ParseHex4(b[2..])), Copy(b[6..], n - 6))
  {
  }

  lemma HexOfByte(c: byte, s: seq<byte>)
    requires c < 32
    requires |s| >= 4 && s[0] == 48 && s[1] == 48 && s[2] == HexDigit(c / 16) && s[3] == HexDigit(c % 16)
    ensures ParseHex4(s) == c
  {
  }

  lemma LetterEscape(b: seq<byte>, n: nat)
    requires |b| >= 2 && b[0] == BACKSLASH && b[1] != 0 && b[1] != 117
    requires InStep(b[2..], n)
    ensures InStep(b, n + 2) && Copy(b, n + 2) == Cons([SimpleEscape(b[1])], Copy(b[2..], n))
  {
    assert b[1..][0] == b[1];
  }

  lemma PlainByte(b: seq<byte>, n: nat)
    requires |b| >= 1 && Plain(b[0])
    requires InStep(b[1..], n)
    ensures InStep(b, n + 1) && Copy(b, n + 1) == Cons([b[0]], Copy(b[1..], n))
  {
  }

  lemma EscapeForms(c: byte)
    requires c != 0
    ensures var e := EscapeByte(c);
      || (e == [c] && Plain(c))
      || (|e| == 2 && e[0] == BACKSLASH && e[1] != 0 && e[1] != 117 && SimpleEscape(e[1]) == c)
      || (|e| == 6 && c < 32 && c != 8 && c != 9 && c != 10 && c != 12 && c != 13)
  {
  }

  lemma EscapedByte(c: byte, r: seq<byte>, n: nat)
    requires c != 0 && InStep(r, n)
    ensures var e := EscapeByte(c);
      InStep(e + r, n + |e|) && Copy(e + r, n + |e|) == Cons([c], Copy(r, n))
  {
    var e := EscapeByte(c);
    var b := e + r;
    EscapeForms(c);
    assert b[|e|..] == r;
    if |e| == 1 {
      PlainByte(b, n);
    } else if |e| == 2 {
      LetterEscape(b, n);
    } else {
      UnicodeByte(c, r, n);
    }
  }

  lemma {:induction false} EscapedString(s: seq<byte>, tail: seq<byte>)
    requires NulFree(s) && Hd(tail) == QUOTE
    ensures var b := Escape(s) + tail;
      InStep(b, |Escape(s)|) && Copy(b, |Escape(s)|) == Copied(s, tail)
  {
    if s == [] {
      assert Escape(s) + tail == tail;
    } else {
      EscapedString(s[1..], tail);
      EscapedByte(s[0], Escape(s[1..]) + tail, |Escape(s[1..])|);
      assert Escape(s) + tail == EscapeByte(s[0]) + (Escape(s[1..]) + tail);
      assert [s[0]] + s[1..] == s;
    }
  }

  /** Every NUL-free byte string is read back from its quoted form. */
  lemma StringRoundTrip(s: seq<byte>, tail: seq<byte>)
    requires NulFree(s)
    ensures ParseString(StringText(s) + tail) == Ok(s, tail)
  {
    var text := StringText(s) + tail;
    EscapedString(s, [QUOTE] + tail);
    assert text[1..] == Escape(s) + ([QUOTE] + tail);
    assert ([QUOTE] + tail)[1..] == tail;
  }

  // ----- numbers

  lemma {:induction false} DecimalRead(k: nat, tail: seq<byte>)
    ensures Digits(Decimal(k) + tail, 0.0) == Digits(tail, k as real)
  {
    if k < 10 {
      assert (Decimal(k) + tail)[1..] == tail;
    } else {
      var d: byte := ZERO + k % 10;
      DecimalRead(k / 10, [d] + tail);
      assert Decimal(k) + tail == Decimal(k / 10) + ([d] + tail);
      assert ([d] + tail)[1..] == tail;
      assert (k / 10) as real * 10.0 + (k % 10) as real == (k / 10 * 10 + k % 10) as real;
    }
  }

  lemma {:induction false} DecimalHead(k: nat)
    ensures Decimal(k) != []
    ensures if k == 0 then Decimal(k)[0] == ZERO else 49 <= Decimal(k)[0] <= 57
  {
    if k >= 10 {
      DecimalHead(k / 10);
    }
  }

  lemma DecimalNumber(k: nat, tail: seq<byte>)
    requires Delimits(tail)
    ensures IntegerPart(Decimal(k) + tail) == (k as real, tail)
    ensures IsDigit(Hd(Decimal(k) + tail))
  {
    DecimalHead(k);
    var s := Decimal(k) + tail;
    assert s[0] == Decimal(k)[0];
    if k == 0 {
      assert s[1..] == tail;
    } else {
      DecimalRead(k, tail);
    }
  }

  lemma NoMoreDigits(n: real, tail: seq<byte>)
    requires Delimits(tail)
    ensures Fraction(tail, n) == (n, 0, tail) && Exponent(tail) == (0, tail)
  {
  }

  lemma SignedValue(n: int, k: nat)
    requires k == if n < 0 then -n else n
    ensures Scaled(if n < 0 then -1.0 else 1.0, k as real, 0 + 0) == n as real
  {
    assert Pow10(0) == 1.0;
  }

  lemma NumberStep(s: seq<byte>, d: real, rest: seq<byte>)
    requires ParseNumber(s) == (d, rest) && (Hd(s) == MINUS || IsDigit(Hd(s)))
    ensures ParseValue(s) == Ok(Number(d, Truncate(d)), rest)
  {
    hide ParseNumber;
  }

  lemma NumberTextIs(d: real, n: int)
    requires IsInt32(d) && n == d.Floor
    ensures NumberText(d, n) == IntText(n) && Truncate(d) == n && d == n as real
  {
  }

  /** Every 32-bit integer is read back from its decimal form. */
  lemma NumberRoundTrip(d: real, n: int, tail: seq<byte>)
    requires IsInt32(d) && n == d.Floor && Delimits(tail)
    ensures ParseNumber(NumberText(d, n) + tail) == (d, tail)
    ensures ParseValue(NumberText(d, n) + tail) == Ok(Number(d, n), tail)
  {
    hide Decimal, Scaled, NumberText, Fraction, Exponent, IntegerPart, Delimits;
    NumberTextIs(d, n);
    var s := NumberText(d, n) + tail;
    var k: nat := if n < 0 then -n else n;
    DecimalNumber(k, tail);
    NoMoreDigits(k as real, tail);
    SignedValue(n, k);
    if n < 0 {
      assert s == [MINUS] + (Decimal(k) + tail);
      assert s[1..] == Decimal(k) + tail;
    }
    NumberStep(s, d, tail);
  }

  // ----- whitespace

  lemma {:induction false} SkipBlank(w: seq<byte>, s: seq<byte>)
    requires Blank(w)
    ensures Skip(w + s) == Skip(s)
  {
    if w == [] {
      assert w + s == s;
    } else {
      assert IsSpace(w[0]);
      assert (w + s)[1..] == w[1..] + s;
      SkipBlank(w[1..], s);
    }
  }

  lemma {:induction false} TabsBlank(n: nat)
    ensures Blank(Tabs(n))
  {
    if n > 0 {
      TabsBlank(n - 1);
    }
  }

  /** A byte that starts a value or a key. */
  predicate Starts(c: byte) {
    c > 32 && c != RBRACKET && c != RBRACE && c != COMMA
  }

  lemma TextHead(j: Json, depth: nat, fmt: bool)
    ensures var t := Text(j, depth, fmt); t != [] && Starts(t[0])
  {
    if j.Number? {
      var n := j.n;
      DecimalHead(if n < 0 then -n else n);
    }
  }

  lemma ItemsHead(items: seq<Json>, depth: nat, fmt: bool, tail: seq<byte>)
    requires items != []
    ensures var t := ItemsText(items, depth, fmt) + tail;
      t != [] && Starts(t[0]) && Skip(t) == t
  {
    TextHead(items[0], depth, fmt);
  }

  // ----- values

  /**
   * The round trip: the text of a value, followed by anything, which for a number
   * must not extend it, parses to that value and leaves exactly what followed.
   */
  lemma {:induction false} RoundTrip(j: Json, depth: nat, fmt: bool, tail: seq<byte>)
    requires Printable(j) && (j.Number? ==> Delimits(tail))
    ensures ParseValue(Text(j, depth, fmt) + tail) == Ok(j, tail)
    decreases j, 0
  {
    var s := Text(j, depth, fmt) + tail;
    match j
    case Null => assert s[4..] == tail;
    case False => assert s[0] == 102 && s[5..] == tail;
    case True => assert s[0] == 116 && s[4..] == tail;
    case Number(d, n) => NumberRoundTrip(d, n, tail);
    case String(str) => StringRoundTrip(str, tail); assert s[0] == QUOTE;
    case Array(items) => ArrayRoundTrip(items, depth, fmt, tail);
    case Object(members) => ObjectRoundTrip(members, depth, fmt, tail);
  }

  lemma ArrayStep(s: seq<byte>, t: seq<byte>, items: seq<Json>, tail: seq<byte>)
    requires s == [LBRACKET] + t && Skip(t) == t
    requires if items == [] then t == [RBRACKET] + tail
             else Hd(t) != RBRACKET && ParseItems(t) == Ok(items, tail)
    ensures ParseValue(s) == Ok(Array(items), tail)
  {
    assert s[1..] == t;
    assert items == [] ==> t[1..] == tail;
  }

  lemma {:induction false} ArrayRoundTrip(items: seq<Json>, depth: nat, fmt: bool, tail: seq<byte>)
    requires PrintableItems(items)
    ensures ParseValue(Text(Array(items), depth, fmt) + tail) == Ok(Array(items), tail)
    decreases items, 2
  {
    var text := ItemsText(items, depth + 1, fmt);
    var body := text + ([RBRACKET] + tail);
    Assoc([LBRACKET], text + [RBRACKET], tail);
    Assoc(text, [RBRACKET], tail);
    if items == [] {
      assert body == [RBRACKET] + tail;
    } else {
      ItemsHead(items, depth + 1, fmt, [RBRACKET] + tail);
      ItemsRoundTrip(items, depth + 1, fmt, tail);
    }
    ArrayStep([LBRACKET] + body, body, items, tail);
  }

  lemma LastItemStep(s: seq<byte>, v: Json, tail: seq<byte>)
    requires Skip(s) == s && ParseValue(s) == Ok(v, [RBRACKET] + tail)
    ensures ParseItems(s) == Ok([v], tail)
  {
    var close := [RBRACKET] + tail;
    assert Skip(close) == close && close[1..] == tail;
  }

  lemma NextItemStep(s: seq<byte>, v: Json, rest: seq<byte>, vs: seq<Json>, tail: seq<byte>)
    requires Skip(s) == s && ParseValue(s) == Ok(v, [COMMA] + rest)
    requires ParseItems(rest) == Ok(vs, tail)
    ensures ParseItems(s) == Ok([v] + vs, tail)
  {
    var t := [COMMA] + rest;
    assert Skip(t) == t && t[1..] == rest;
  }

  lemma ItemsShape(items: seq<Json>, depth: nat, fmt: bool, close: seq<byte>)
    requires |items| > 1
    ensures ItemsText(items, depth, fmt) + close ==
            Text(items[0], depth, fmt) + (ItemSep(fmt) + (ItemsText(items[1..], depth, fmt) + close))
  {
    var more := ItemsText(items[1..], depth, fmt);
    Assoc(Text(items[0], depth, fmt), ItemSep(fmt) + more, close);
    Assoc(ItemSep(fmt), more, close);
  }

  lemma {:induction false} ItemsRoundTrip(items: seq<Json>, depth: nat, fmt: bool, tail: seq<byte>)
    requires items != [] && PrintableItems(items)
    ensures ParseItems(ItemsText(items, depth, fmt) + ([RBRACKET] + tail)) == Ok(items, tail)
    decreases items, 1
  {
    var close := [RBRACKET] + tail;
    var s := ItemsText(items, depth, fmt) + close;
    ItemsHead(items, depth, fmt, close);
    if |items| == 1 {
      RoundTrip(items[0], depth, fmt, close);
      LastItemStep(s, items[0], tail);
      assert items == [items[0]];
    } else {
      var rest := ItemsText(items[1..], depth, fmt) + close;
      var blank := if fmt then [SPACE] else [];
      ItemsShape(items, depth, fmt, close);
      Assoc([COMMA], blank, rest);
      assert ItemSep(fmt) == [COMMA] + blank;
      RoundTrip(items[0], depth, fmt, [COMMA] + (blank + rest));
      ItemsBlank(blank, rest);
      ItemsRoundTrip(items[1..], depth, fmt, tail);
      NextItemStep(s, items[0], blank + rest, items[1..], tail);
      FirstAndRest(items);
    }
  }

  lemma ItemsBlank(w: seq<byte>, s: seq<byte>)
    requires Blank(w)
    ensures ParseItems(w + s) == ParseItems(s)
  {
    SkipBlank(w, s);
  }

  lemma MembersBlank(w: seq<byte>, s: seq<byte>)
    requires Blank(w)
    ensures ParseMembers(w + s) == ParseMembers(s)
  {
    SkipBlank(w, s);
    assert ParseMember(w + s) == ParseMember(s);
  }

  lemma MemberStep(s: seq<byte>, q: seq<byte>, name: seq<byte>, colon: seq<byte>,
                   value: seq<byte>, v: Json, rest: seq<byte>)
    requires Skip(s) == q && ParseString(q) == Ok(name, colon)
    requires Hd(colon) == COLON && Skip(colon[1..]) == value
    requires ParseValue(value) == Ok(v, rest)
    ensures ParseMember(s) == Ok(Member(name, v), rest)
  {
    assert Skip(colon) == colon;
  }

  lemma MemberShape(m: Member, depth: nat, fmt: bool, tail: seq<byte>)
    ensures MemberText(m, depth, fmt) + tail ==
            Indent(depth, fmt) + (StringText(m.name) + (Colon(fmt) + (Text(m.value, depth, fmt) + tail)))
  {
    var value := Text(m.value, depth, fmt);
    Assoc(Indent(depth, fmt), StringText(m.name) + (Colon(fmt) + value), tail);
    Assoc(StringText(m.name), Colon(fmt) + value, tail);
    Assoc(Colon(fmt), value, tail);
  }

  lemma SkipQuoted(w: seq<byte>, s: seq<byte>, t: seq<byte>)
    requires Blank(w)
    ensures Skip(w + (StringText(s) + t)) == StringText(s) + t
    ensures Hd(StringText(s) + t) == QUOTE
  {
    SkipBlank(w, StringText(s) + t);
  }

  lemma ColonSkip(fmt: bool, value: seq<byte>)
    requires value != [] && value[0] > 32
    ensures Hd(Colon(fmt) + value) == COLON && Skip((Colon(fmt) + value)[1..]) == value
  {
    var gap := if fmt then [TAB] else [];
    assert (Colon(fmt) + value)[1..] == gap + value;
    SkipBlank(gap, value);
  }

  lemma IndentBlank(depth: nat, fmt: bool)
    ensures Blank(Indent(depth, fmt))
  {
    TabsBlank(depth);
  }

  lemma {:induction false} MemberRoundTrip(m: Member, depth: nat, fmt: bool, tail: seq<byte>)
    requires NulFree(m.name) && Printable(m.value) && Delimits(tail)
    ensures ParseMember(MemberText(m, depth, fmt) + tail) == Ok(m, tail)
    decreases m, 1
  {
    var value := Text(m.value, depth, fmt) + tail;
    var colon := Colon(fmt) + value;
    var q := StringText(m.name) + colon;
    var s := MemberText(m, depth, fmt) + tail;
    MemberShape(m, depth, fmt, tail);
    IndentBlank(depth, fmt);
    SkipQuoted(Indent(depth, fmt), m.name, colon);
    StringRoundTrip(m.name, colon);
    TextHead(m.value, depth, fmt);
    ColonSkip(fmt, value);
    RoundTrip(m.value, depth, fmt, tail);
    MemberStep(s, q, m.name, colon, value, m.value, tail);
  }

  lemma LastMemberStep(s: seq<byte>, m: Member, rest: seq<byte>, close: seq<byte>)
    requires ParseMember(s) == Ok(m, rest)
    requires Skip(rest) == close && Hd(close) == RBRACE
    ensures ParseMembers(s) == Ok([m], close[1..])
  {
  }

  lemma NextMemberStep(s: seq<byte>, m: Member, rest: seq<byte>, ms: seq<Member>, tail: seq<byte>)
    requires ParseMember(s) == Ok(m, [COMMA] + rest)
    requires ParseMembers(rest) == Ok(ms, tail)
    ensures ParseMembers(s) == Ok([m] + ms, tail)
  {
    var t := [COMMA] + rest;
    assert Skip(t) == t && t[1..] == rest;
  }

  lemma MembersShape(members: seq<Member>, depth: nat, fmt: bool, close: seq<byte>)
    requires members != []
    ensures MembersText(members, depth, fmt) + close ==
            MemberText(members[0], depth, fmt)
            + (MemberEnd(|members| == 1, fmt) + (MembersText(members[1..], depth, fmt) + close))
  {
    var end := MemberEnd(|members| == 1, fmt);
    var more := MembersText(members[1..], depth, fmt);
    Assoc(MemberText(members[0], depth, fmt), end + more, close);
    Assoc(end, more, close);
  }

  lemma {:induction false} MembersRoundTrip(members: seq<Member>, depth: nat, fmt: bool,
                                            indent: seq<byte>, tail: seq<byte>)
    requires members != [] && PrintableMembers(members)
    requires Blank(indent)
    ensures ParseMembers(MembersText(members, depth, fmt) + (indent + ([RBRACE] + tail))) == Ok(members, tail)
    decreases members, 1
  {
    var close := indent + ([RBRACE] + tail);
    var s := MembersText(members, depth, fmt) + close;
    var eol := if fmt then [LF] else [];
    MembersShape(members, depth, fmt, close);
    Assoc([COMMA], eol, MembersText(members[1..], depth, fmt) + close);
    assert MemberEnd(false, fmt) == [COMMA] + eol;
    if |members| == 1 {
      assert MembersText(members[1..], depth, fmt) + close == close;
      LastMember(members, depth, fmt, eol, indent, tail);
    } else {
      var rest := MembersText(members[1..], depth, fmt) + close;
      MemberRoundTrip(members[0], depth, fmt, [COMMA] + (eol + rest));
      MembersRoundTrip(members[1..], depth, fmt, indent, tail);
      MembersBlank(eol, rest);
      NextMemberStep(s, members[0], eol + rest, members[1..], tail);
      FirstAndRest(members);
    }
  }

  lemma FirstAndRest<T>(s: seq<T>)
    requires s != []
    ensures [s[0]] + s[1..] == s
  {
  }

  lemma LastMember(members: seq<Member>, depth: nat, fmt: bool, eol: seq<byte>, indent: seq<byte>, tail: seq<byte>)
    requires |members| == 1 && PrintableMembers(members)
    requires Blank(indent) && eol == MemberEnd(true, fmt)
    ensures ParseMembers(MemberText(members[0], depth, fmt) + (eol + (indent + ([RBRACE] + tail)))) == Ok(members, tail)
    decreases members, 0
  {
    var close := indent + ([RBRACE] + tail);
    LastDelimits(eol, indent, tail);
    MemberRoundTrip(members[0], depth, fmt, eol + close);
    SkipClose(eol, indent, tail);
    LastMemberStep(MemberText(members[0], depth, fmt) + (eol + close), members[0], eol + close, [RBRACE] + tail);
    assert ([RBRACE] + tail)[1..] == tail && members == [members[0]];
  }

  lemma SkipClose(eol: seq<byte>, indent: seq<byte>, tail: seq<byte>)
    requires Blank(eol) && Blank(indent)
    ensures Skip(eol + (indent + ([RBRACE] + tail))) == [RBRACE] + tail
  {
    SkipBlank(eol, indent + ([RBRACE] + tail));
    SkipBlank(indent, [RBRACE] + tail);
  }

  lemma LastDelimits(eol: seq<byte>, indent: seq<byte>, tail: seq<byte>)
    requires Blank(eol) && Blank(indent)
    ensures Delimits(eol + (indent + ([RBRACE] + tail)))
  {
    var s := eol + (indent + ([RBRACE] + tail));
    assert s[0] == if eol != [] then eol[0] else if indent != [] then indent[0] else RBRACE;
  }

  lemma ObjectShape(members: seq<Member>, depth: nat, fmt: bool, tail: seq<byte>)
    ensures Text(Object(members), depth, fmt) + tail ==
            Open(fmt) + (MembersText(members, depth + 1, fmt) + (Indent(depth, fmt) + ([RBRACE] + tail)))
  {
    var ms := MembersText(members, depth + 1, fmt);
    Assoc(Open(fmt), ms + (Indent(depth, fmt) + [RBRACE]), tail);
    Assoc(ms, Indent(depth, fmt) + [RBRACE], tail);
    Assoc(Indent(depth, fmt), [RBRACE], tail);
  }

  lemma OpenSkip(fmt: bool, body: seq<byte>)
    ensures Hd(Open(fmt) + body) == LBRACE && Skip((Open(fmt) + body)[1..]) == Skip(body)
  {
    var eol := if fmt then [LF] else [];
    assert (Open(fmt) + body)[1..] == eol + body;
    SkipBlank(eol, body);
  }

  lemma ObjectStep(s: seq<byte>, t: seq<byte>, members: seq<Member>, tail: seq<byte>)
    requires Hd(s) == LBRACE && Skip(s[1..]) == t
    requires if members == [] then t == [RBRACE] + tail
             else Hd(t) != RBRACE && ParseMembers(t) == Ok(members, tail)
    ensures ParseValue(s) == Ok(Object(members), tail)
  {
    assert members == [] ==> t[1..] == tail;
  }

  /** Skipping the indentation leads to the first key. */
  lemma MembersStart(members: seq<Member>, depth: nat, fmt: bool, close: seq<byte>)
    requires members != []
    ensures var s := MembersText(members, depth, fmt) + close;
      Hd(Skip(s)) == QUOTE && ParseMembers(Skip(s)) == ParseMembers(s)
  {
    var s := MembersText(members, depth, fmt) + close;
    var m := members[0];
    var after := MemberEnd(|members| == 1, fmt) + (MembersText(members[1..], depth, fmt) + close);
    MembersShape(members, depth, fmt, close);
    MemberShape(m, depth, fmt, after);
    IndentBlank(depth, fmt);
    var rest := Colon(fmt) + (Text(m.value, depth, fmt) + after);
    SkipQuoted(Indent(depth, fmt), m.name, rest);
    MembersBlank(Indent(depth, fmt), StringText(m.name) + rest);
  }

  lemma {:induction false} ObjectRoundTrip(members: seq<Member>, depth: nat, fmt: bool, tail: seq<byte>)
    requires PrintableMembers(members)
    ensures ParseValue(Text(Object(members), depth, fmt) + tail) == Ok(Object(members), tail)
    decreases members, 2
  {
    var s := Text(Object(members), depth, fmt) + tail;
    var close := Indent(depth, fmt) + ([RBRACE] + tail);
    var body := MembersText(members, depth + 1, fmt) + close;
    IndentBlank(depth, fmt);
    ObjectShape(members, depth, fmt, tail);
    OpenSkip(fmt, body);
    if members == [] {
      assert body == close;
      SkipBlank(Indent(depth, fmt), [RBRACE] + tail);
    } else {
      MembersRoundTrip(members, depth + 1, fmt, Indent(depth, fmt), tail);
      MembersStart(members, depth + 1, fmt, close);
    }
    ObjectStep(s, Skip(body), members, tail);
  }
}
