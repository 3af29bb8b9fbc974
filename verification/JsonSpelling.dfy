// Strings and numbers in all their spellings (sections 6 and 7 of RFC 8259),
// with a meaning that does not mention the parser.
module JsonSpelling {
  import opened CText
  import opened Bits
  import opened JsonParse
  import opened JsonRoundTrip
  import opened JsonUnicode
  import Hex

  // ----- four hexadecimal digits

  /** The four digits of a code unit, each in either case. */
  function HexUnit(u: nat, upper: seq<bool>): (s: seq<byte>)
    requires u < 0x1_0000 && |upper| == 4
    ensures |s| == 4
  {
    Hex.Written([u / 4096, u / 256 % 16, u / 16 % 16, u % 16], upper)
  }

  lemma HexDigitRead(d: nat, upper: bool)
    requires d < 16
    ensures HexValue(Hex.Digit(d, upper)) == Some(d)
  {
    Hex.DigitForm(d, upper);
  }

  lemma PlacesOf(u: nat)
    requires u < 0x1_0000
    ensures ((u / 4096 * 16 + u / 256 % 16) * 16 + u / 16 % 16) * 16 + u % 16 == u
  {
    var a, b := u / 16, u / 256;
    assert b == a / 16 && u / 4096 == b / 16;
    assert u == a * 16 + u % 16 && a == b * 16 + a % 16 && b == b / 16 * 16 + b % 16;
  }

  /** Four digits are read as the number they stand for. */
  lemma HexUnitRead(u: nat, upper: seq<bool>, r: seq<byte>)
    requires u < 0x1_0000 && |upper| == 4
    ensures ParseHex4(HexUnit(u, upper) + r) == u
  {
    hide HexValue;
    var s := HexUnit(u, upper) + r;
    HexDigitRead(u / 4096, upper[0]);
    HexDigitRead(u / 256 % 16, upper[1]);
    HexDigitRead(u / 16 % 16, upper[2]);
    HexDigitRead(u % 16, upper[3]);
    PlacesOf(u);
  }

  /** Nothing else is read as a number other than zero. */
  lemma HexUnitOnly(s: seq<byte>) returns (upper: seq<bool>)
    requires ParseHex4(s) != 0
    ensures |upper| == 4 && |s| >= 4 && s[..4] == HexUnit(ParseHex4(s), upper)
  {
    hide ParseHex4, HexValue, Hex.Digit, HexUnit, FourValues;
    var (a, b, c, d) := FourValues(s);
    upper := [s[0] < 97, s[1] < 97, s[2] < 97, s[3] < 97];
    DigitBack(s[0]);
    DigitBack(s[1]);
    DigitBack(s[2]);
    DigitBack(s[3]);
    UnitOf(a, b, c, d, upper);
    assert s[..4] == [s[0], s[1], s[2], s[3]];
  }

  lemma UnitOf(a: nat, b: nat, c: nat, d: nat, upper: seq<bool>)
    requires a < 16 && b < 16 && c < 16 && d < 16 && |upper| == 4
    ensures ((a * 16 + b) * 16 + c) * 16 + d < 0x1_0000
    ensures HexUnit(((a * 16 + b) * 16 + c) * 16 + d, upper) ==
            [Hex.Digit(a, upper[0]), Hex.Digit(b, upper[1]), Hex.Digit(c, upper[2]), Hex.Digit(d, upper[3])]
  {
    hide Hex.Digit;
    Places(a, b, c, d);
  }

  function FourValues(s: seq<byte>): (v: (nat, nat, nat, nat))
    requires ParseHex4(s) != 0
    ensures |s| >= 4 && v.0 < 16 && v.1 < 16 && v.2 < 16 && v.3 < 16
    ensures HexValue(s[0]) == Some(v.0) && HexValue(s[1]) == Some(v.1)
    ensures HexValue(s[2]) == Some(v.2) && HexValue(s[3]) == Some(v.3)
    ensures ParseHex4(s) == ((v.0 * 16 + v.1) * 16 + v.2) * 16 + v.3
  {
    (HexValue(s[0]).value, HexValue(s[1]).value, HexValue(s[2]).value, HexValue(s[3]).value)
  }

  lemma Places(a: nat, b: nat, c: nat, d: nat)
    requires a < 16 && b < 16 && c < 16 && d < 16
    ensures var u := ((a * 16 + b) * 16 + c) * 16 + d;
      u / 4096 == a && u / 256 % 16 == b && u / 16 % 16 == c && u % 16 == d
  {
    var u := ((a * 16 + b) * 16 + c) * 16 + d;
    assert u / 16 == (a * 16 + b) * 16 + c && u / 256 == a * 16 + b;
  }

  lemma DigitBack(c: byte)
    requires HexValue(c).Some?
    ensures Hex.Digit(HexValue(c).value, c < 97) == c
  {
    Hex.DigitForm(HexValue(c).value, c < 97);
  }

  // ----- strings

  /** One character of a string, as it may be spelled. */
  datatype Piece =
    | Byte(c: byte)
    | Letter(c: byte)
    | Unit(u: nat, upper: seq<bool>)
    | Pair(high: nat, highUpper: seq<bool>, low: nat, lowUpper: seq<bool>)

  /** The escapes with a letter that have a meaning; any other letter stands for itself. */
  const LETTERS: map<byte, byte> :=
    map[34 := 34, 92 := 92, 47 := 47, 98 := 8, 102 := 12, 110 := 10, 114 := 13, 116 := 9]

  predicate Spelled(p: Piece) {
    match p
    case Byte(c) => c != 0 && c != QUOTE && c != BACKSLASH
    case Letter(c) => c != 0 && c != 117
    case Unit(u, upper) => 0 < u < 0x1_0000 && Scalar(u) && |upper| == 4
    case Pair(high, highUpper, low, lowUpper) =>
      0xD800 <= high < 0xDC00 && |highUpper| == 4 && 0xDC00 <= low < 0xE000 && |lowUpper| == 4
  }

  function Spelling(p: Piece): seq<byte>
    requires Spelled(p)
  {
    match p
    case Byte(c) => [c]
    case Letter(c) => [BACKSLASH, c]
    case Unit(u, upper) => [BACKSLASH, 117] + HexUnit(u, upper)
    case Pair(high, highUpper, low, lowUpper) =>
      [BACKSLASH, 117] + HexUnit(high, highUpper) + ([BACKSLASH, 117] + HexUnit(low, lowUpper))
  }

  /** UTF-8 (section 3 of RFC 3629). */
  function Utf8(u: nat): seq<byte>
    requires u < 0x11_0000
  {
    if u < 0x80 then [u]
    else if u < 0x800 then [0xC0 + u / 64, 0x80 + u % 64]
    else if u < 0x1_0000 then [0xE0 + u / 64 / 64, 0x80 + u / 64 % 64, 0x80 + u % 64]
    else [0xF0 + u / 64 / 64 / 64, 0x80 + u / 64 / 64 % 64, 0x80 + u / 64 % 64, 0x80 + u % 64]
  }

  function Stands(p: Piece): seq<byte>
    requires Spelled(p)
  {
    match p
    case Byte(c) => [c]
    case Letter(c) => if c in LETTERS then [LETTERS[c]] else [c]
    case Unit(u, _) => Utf8(u)
    case Pair(high, _, low, _) => Utf8((high - 0xD800) * 0x400 + (low - 0xDC00) + 0x1_0000)
  }

  /** The bytes of a unicode escape decode to its code point, by UTF-8 and by UTF-16. */
  lemma StandsForCodePoint(p: Piece)
    requires Spelled(p)
    ensures p.Unit? ==> DecodeUtf8(Stands(p)) == Some(p.u)
    ensures p.Pair? ==>
              DecodeUtf8(Stands(p)).Some? && DecodeUtf8(Stands(p)) == DecodeUtf16([p.high, p.low])
  {
    hide DecodeUtf8, EncodeUtf8;
    if p.Unit? {
      Utf8IsEncoder(p.u);
      EncodeDecode(p.u);
    } else if p.Pair? {
      var u := (p.high - 0xD800) * 0x400 + (p.low - 0xDC00) + 0x1_0000;
      Utf8IsEncoder(u);
      EncodeDecode(u);
    }
  }

  lemma Utf8IsEncoder(u: nat)
    requires u < 0x11_0000
    ensures EncodeUtf8(u) == Utf8(u)
  {
    hide EncodeUtf8;
    if u < 0x80 {
      EncodeOne(u);
    } else if u < 0x800 {
      EncodeTwo(u);
    } else if u < 0x10000 {
      EncodeThree(u);
    } else {
      EncodeFour(u);
    }
  }

  predicate AllSpelled(ps: seq<Piece>) {
    forall i :: 0 <= i < |ps| ==> Spelled(ps[i])
  }

  function SpellingOf(ps: seq<Piece>): seq<byte>
    requires AllSpelled(ps)
  {
    if ps == [] then [] else Spelling(ps[0]) + SpellingOf(ps[1..])
  }

  function StandsOf(ps: seq<Piece>): seq<byte>
    requires AllSpelled(ps)
  {
    if ps == [] then [] else Stands(ps[0]) + StandsOf(ps[1..])
  }

  lemma LetterMeaning(c: byte)
    requires c != 0 && c != 117
    ensures [SimpleEscape(c)] == Stands(Letter(c))
  {
  }

  lemma UnitRead(u: nat, upper: seq<bool>, r: seq<byte>, n: nat)
    requires Spelled(Unit(u, upper)) && InStep(r, n)
    ensures var b := Spelling(Unit(u, upper)) + r;
      InStep(b, n + 6) && Copy(b, n + 6) == Cons(Utf8(u), Copy(r, n))
  {
    hide HexUnit, EncodeUtf8, Utf8;
    var b := Spelling(Unit(u, upper)) + r;
    assert b[2..] == HexUnit(u, upper) + r && b[6..] == r && b[0] == BACKSLASH && b[1] == 117;
    HexUnitRead(u, upper, r);
    hide ParseHex4, Scan;
    OneUnicodeStep(b, 0);
    assert b[0..] == b;
    Utf8IsEncoder(u);
    UnitCopy(b, n + 6);
  }

  lemma UnitCopy(b: seq<byte>, n: nat)
    requires InStep(b, n) && n >= 6 && b[0] == BACKSLASH && b[1] == 117
    requires ParseHex4(b[2..]) != 0 && Scalar(ParseHex4(b[2..])) && InStep(b[6..], n - 6)
    ensures Copy(b, n) == Cons(EncodeUtf8(ParseHex4(b[2..])), Copy(b[6..], n - 6))
  {
    hide ParseHex4, EncodeUtf8, Scan;
  }

  lemma PairRead(p: Piece, r: seq<byte>, n: nat)
    requires p.Pair? && Spelled(p) && InStep(r, n)
    ensures var b := Spelling(p) + r;
      InStep(b, n + 12) && Copy(b, n + 12) == Cons(Stands(p), Copy(r, n))
  {
    hide Spelling, HexUnit, EncodeUtf8, Utf8, Combine, ParseHex4, Scan, Copy;
    var b := Spelling(p) + r;
    PairShape(p, r);
    PairStep(b);
    CombineIsUtf16(p.high, p.low);
    Utf8IsEncoder(Combine(p.high, p.low));
    PairCopy(b, n + 12);
  }

  lemma PairShape(p: Piece, r: seq<byte>)
    requires p.Pair? && Spelled(p)
    ensures var b := Spelling(p) + r;
      && |b| >= 12 && b[12..] == r && b[0] == BACKSLASH && b[1] == 117 && b[6] == BACKSLASH && b[7] == 117
      && ParseHex4(b[2..]) == p.high && ParseHex4(b[8..]) == p.low
  {
    hide HexUnit, ParseHex4;
    var b := Spelling(p) + r;
    var second := [BACKSLASH, 117] + HexUnit(p.low, p.lowUpper) + r;
    assert b[2..] == HexUnit(p.high, p.highUpper) + second;
    assert b[8..] == HexUnit(p.low, p.lowUpper) + r && b[12..] == r;
    HexUnitRead(p.high, p.highUpper, second);
    HexUnitRead(p.low, p.lowUpper, r);
  }

  lemma PairCopy(b: seq<byte>, n: nat)
    requires InStep(b, n) && n >= 12 && b[0] == BACKSLASH && b[1] == 117 && b[6] == BACKSLASH && b[7] == 117
    requires 0xD800 <= ParseHex4(b[2..]) < 0xDC00 && 0xDC00 <= ParseHex4(b[8..]) < 0xE000 && InStep(b[12..], n - 12)
    ensures Copy(b, n) == Cons(EncodeUtf8(Combine(ParseHex4(b[2..]), ParseHex4(b[8..]))), Copy(b[12..], n - 12))
  {
    hide ParseHex4, EncodeUtf8, Scan, Combine;
  }

  lemma PieceRead(p: Piece, r: seq<byte>, n: nat)
    requires Spelled(p) && InStep(r, n)
    ensures var b := Spelling(p) + r;
      InStep(b, n + |Spelling(p)|) && Copy(b, n + |Spelling(p)|) == Cons(Stands(p), Copy(r, n))
  {
    hide Copy, InStep, Utf8;
    var b := Spelling(p) + r;
    assert b[|Spelling(p)|..] == r;
    match p
    case Byte(c) => PlainByte(b, n);
    case Letter(c) =>
      LetterEscape(b, n);
      LetterMeaning(c);
    case Unit(u, upper) => UnitRead(u, upper, r, n);
    case Pair(_, _, _, _) => PairRead(p, r, n);
  }

  lemma {:induction false} PiecesRead(ps: seq<Piece>, tail: seq<byte>)
    requires AllSpelled(ps) && Hd(tail) == QUOTE
    ensures var s := SpellingOf(ps);
      InStep(s + tail, |s|) && Copy(s + tail, |s|) == Copied(StandsOf(ps), tail)
  {
    hide Spelling, Stands;
    var s := SpellingOf(ps);
    if ps == [] {
      assert s + tail == tail;
    } else {
      var rest := SpellingOf(ps[1..]);
      PiecesRead(ps[1..], tail);
      PieceRead(ps[0], rest + tail, |rest|);
      Assoc(Spelling(ps[0]), rest, tail);
    }
  }

  /** A string, however it is spelled, is read as the bytes that its characters stand for. */
  lemma StringRead(ps: seq<Piece>, tail: seq<byte>)
    requires AllSpelled(ps)
    ensures ParseString([QUOTE] + (SpellingOf(ps) + ([QUOTE] + tail))) == Ok(StandsOf(ps), tail)
  {
    hide Copy, Scan, SpellingOf, StandsOf;
    var s := [QUOTE] + (SpellingOf(ps) + ([QUOTE] + tail));
    PiecesRead(ps, [QUOTE] + tail);
    assert s[1..] == SpellingOf(ps) + ([QUOTE] + tail);
    assert ([QUOTE] + tail)[1..] == tail;
  }

  // ----- and nothing else is a string

  /** The bytes of the body in front of n are a spelling of what the second pass copies. */
  lemma {:induction false} PiecesOnly(b: seq<byte>, n: nat) returns (ps: seq<Piece>)
    requires NulFree(b) && InStep(b, n) && n <= |b| && Copy(b, n).Copied?
    ensures AllSpelled(ps) && SpellingOf(ps) == b[..n] && StandsOf(ps) == Copy(b, n).out
    decreases n
  {
    hide Copy, InStep, Spelling, Stands, Spelled;
    if n == 0 {
      CopyNone(b);
      ps := [];
    } else {
      var p, size := FirstPiece(b, n);
      var rest := PiecesOnly(b[size..], n - size);
      ps := [p] + rest;
      OneMorePiece(p, rest);
      assert b[..n] == b[..size] + b[size..][..n - size];
    }
  }

  lemma OneMorePiece(p: Piece, rest: seq<Piece>)
    requires Spelled(p) && AllSpelled(rest)
    ensures AllSpelled([p] + rest) && SpellingOf([p] + rest) == Spelling(p) + SpellingOf(rest)
    ensures StandsOf([p] + rest) == Stands(p) + StandsOf(rest)
  {
    hide Spelling, Stands, Spelled;
    assert ([p] + rest)[1..] == rest;
  }

  /** The first character of a string body. */
  lemma FirstPiece(b: seq<byte>, n: nat) returns (p: Piece, size: nat)
    requires NulFree(b) && InStep(b, n) && 0 < n <= |b| && Copy(b, n).Copied?
    ensures Spelled(p) && 0 < size <= n && Spelling(p) == b[..size] && InStep(b[size..], n - size)
    ensures Copy(b[size..], n - size).Copied? && Copy(b, n).out == Stands(p) + Copy(b[size..], n - size).out
  {
    hide Scan, SimpleEscape, Utf8, ParseUnicode, EncodeUtf8;
    if b[0] != BACKSLASH {
      CopyPlain(b, n);
      NotQuote(b, n);
      p, size := Byte(b[0]), 1;
    } else {
      CopyLetter(b, n);
      if b[1] != 117 {
        LetterMeaning(b[1]);
        p, size := Letter(b[1]), 2;
      } else {
        p, size := FirstEscape(b, n);
      }
    }
  }

  lemma NotQuote(b: seq<byte>, n: nat)
    requires InStep(b, n) && 0 < n <= |b|
    ensures b[0] != QUOTE
  {
  }

  /** A unicode escape that is accepted. */
  lemma FirstEscape(b: seq<byte>, n: nat) returns (p: Piece, size: nat)
    requires NulFree(b) && InStep(b, n) && 2 <= n <= |b| && b[0] == BACKSLASH && b[1] == 117 && Copy(b, n).Copied?
    ensures Spelled(p) && 0 < size <= n && Spelling(p) == b[..size] && InStep(b[size..], n - size)
    ensures Copy(b[size..], n - size).Copied? && Copy(b, n).out == Stands(p) + Copy(b[size..], n - size).out
  {
    hide Copy, InStep, Spelling, Stands, Spelled, ParseUnicode;
    CodePointSeen(b, n);
    if ParseUnicode(b, n).size == 6 {
      size := 6;
      p := FirstUnit(b, n);
    } else {
      size := 12;
      p := FirstPair(b, n);
    }
  }

  lemma FirstUnit(b: seq<byte>, n: nat) returns (p: Piece)
    requires InStep(b, n) && 2 <= n <= |b| && b[0] == BACKSLASH && b[1] == 117
    requires Copy(b, n).Copied? && ParseUnicode(b, n).CodePoint? && ParseUnicode(b, n).size == 6
    ensures Spelled(p) && 6 <= n && Spelling(p) == b[..6] && InStep(b[6..], n - 6)
    ensures Copy(b[6..], n - 6).Copied? && Copy(b, n).out == Stands(p) + Copy(b[6..], n - 6).out
  {
    hide HexUnit, ParseHex4, EncodeUtf8, Utf8, Copy, ParseUnicode, InStep;
    UnicodeCopyStep(b, n);
    CodePointForm(b, n);
    var upper := HexUnitOnly(b[2..]);
    var u := ParseHex4(b[2..]);
    p := Unit(u, upper);
    Utf8IsEncoder(u);
    assert b[..6] == [BACKSLASH, 117] + b[2..][..4];
  }

  lemma FirstPair(b: seq<byte>, n: nat) returns (p: Piece)
    requires InStep(b, n) && 2 <= n <= |b| && b[0] == BACKSLASH && b[1] == 117
    requires Copy(b, n).Copied? && ParseUnicode(b, n).CodePoint? && ParseUnicode(b, n).size != 6
    ensures Spelled(p) && 12 <= n && Spelling(p) == b[..12] && InStep(b[12..], n - 12)
    ensures Copy(b[12..], n - 12).Copied? && Copy(b, n).out == Stands(p) + Copy(b[12..], n - 12).out
  {
    hide HexUnit, ParseHex4, EncodeUtf8, Utf8, Copy, ParseUnicode, InStep, Combine;
    UnicodeCopyStep(b, n);
    CodePointForm(b, n);
    PairForm(b, n);
    var high := HexUnitOnly(b[2..]);
    var low := HexUnitOnly(b[8..]);
    p := Pair(ParseHex4(b[2..]), high, ParseHex4(b[8..]), low);
    CombineIsUtf16(p.high, p.low);
    Utf8IsEncoder(Combine(p.high, p.low));
    assert b[..12] == [BACKSLASH, 117] + b[2..][..4] + ([BACKSLASH, 117] + b[8..][..4]);
  }

  lemma CodePointSeen(b: seq<byte>, n: nat)
    requires InStep(b, n) && n > 0 && b[0] == BACKSLASH && b[1] == 117 && Copy(b, n).Copied?
    ensures ParseUnicode(b, n).CodePoint?
  {
    hide ParseUnicode, Scan;
  }

  lemma PairForm(b: seq<byte>, n: nat)
    requires InStep(b, n) && n > 0 && b[0] == BACKSLASH && b[1] == 117
    requires ParseUnicode(b, n).CodePoint? && ParseUnicode(b, n).size == 12
    ensures |b| >= 12 && b[6] == BACKSLASH && b[7] == 117
  {
    hide ParseHex4, Combine, Scan;
  }

  /**
   * Whatever is read as a string is a spelling of it between quotes, of which
   * the second one may be missing at the end of the text.
   */
  lemma StringOnly(s: seq<byte>) returns (ps: seq<Piece>)
    requires NulFree(s) && ParseString(s).Ok?
    ensures AllSpelled(ps) && ParseString(s).value == StandsOf(ps)
    ensures || s == [QUOTE] + (SpellingOf(ps) + ([QUOTE] + ParseString(s).rest))
            || (ParseString(s).rest == [] && s == [QUOTE] + SpellingOf(ps))
  {
    hide Copy, Scan, SpellingOf, StandsOf, InStep, AllSpelled;
    var b := s[1..];
    BodyOf(s);
    var n := Scan(b).value.1;
    ScanEnd(b);
    ps := PiecesOnly(b, n);
    assert s == [QUOTE] + b && b == b[..n] + b[n..];
    if n < |b| {
      assert b[n..] == [QUOTE] + b[n..][1..];
    } else {
      assert b[..n] == b;
    }
  }

  lemma BodyOf(s: seq<byte>)
    requires ParseString(s).Ok?
    ensures s != [] && s[0] == QUOTE && Scan(s[1..]).Some?
    ensures var b := s[1..];
      var n := Scan(b).value.1;
      && InStep(b, n) && Copy(b, n).Copied? && n <= |b|
      && ParseString(s) == Ok(Copy(b, n).out, if Hd(b[n..]) == QUOTE then b[n..][1..] else b[n..])
  {
    hide Copy, Scan;
    PassesInStep(s[1..], Scan(s[1..]).value.1);
  }

  /** The first pass stops at a quote or at the end. */
  lemma {:induction false} ScanEnd(b: seq<byte>)
    requires NulFree(b) && Scan(b).Some?
    ensures var n := Scan(b).value.1; n == |b| || b[n] == QUOTE
    decreases |b|
  {
    hide Scan;
    if b != [] && b[0] != QUOTE {
      ScanNext(b);
      ScanEnd(b[if b[0] == BACKSLASH then 2 else 1..]);
    } else {
      ScanStop(b);
    }
  }
}
