// The parser as a function of the text that is left: a parse succeeds with a
// value and the rest of the text, or it fails.
module JsonParse {
  import opened CText
  import opened Bits
  import opened JsonValue

  datatype Parsed<+T> = Fail | Ok(value: T, rest: seq<byte>)

  /** Jump over whitespace and control characters. */
  function Skip(s: seq<byte>): (r: seq<byte>)
    ensures |r| <= |s|
  {
    if s != [] && 0 < s[0] <= 32 then Skip(s[1..]) else s
  }

  // ----- numbers

  function Pow10(e: int): real
    decreases if e < 0 then -e else e
  {
    if e == 0 then 1.0 else if e > 0 then 10.0 * Pow10(e - 1) else Pow10(e + 1) / 10.0
  }

  /** Read digits onto n. */
  function Digits(s: seq<byte>, n: real): (r: (real, seq<byte>))
    ensures |r.1| <= |s|
  {
    if s != [] && IsDigit(s[0]) then Digits(s[1..], n * 10.0 + (s[0] - ZERO) as real) else (n, s)
  }

  function DigitsInt(s: seq<byte>, n: int): (r: (int, seq<byte>))
    ensures |r.1| <= |s|
  {
    if s != [] && IsDigit(s[0]) then DigitsInt(s[1..], n * 10 + (s[0] - ZERO)) else (n, s)
  }

  function Fraction(s: seq<byte>, n: real): (r: (real, int, seq<byte>))
    ensures |r.2| <= |s|
  {
    if Hd(s) == DOT && IsDigit(Hd(s[1..])) then
      var (m, rest) := Digits(s[1..], n);
      (m, |rest| - |s[1..]|, rest)
    else (n, 0, s)
  }

  function Exponent(s: seq<byte>): (r: (int, seq<byte>))
    ensures |r.1| <= |s|
  {
    if Hd(s) == 101 || Hd(s) == 69 then
      var t := s[1..];
      if Hd(t) == 43 then DigitsInt(t[1..], 0)
      else if Hd(t) == MINUS then
        var (e, rest) := DigitsInt(t[1..], 0);
        (-e, rest)
      else DigitsInt(t, 0)
    else (0, s)
  }

  /** The digits before the dot; a leading zero is skipped. */
  function IntegerPart(s: seq<byte>): (r: (real, seq<byte>))
    ensures |r.1| <= |s|
    ensures IsDigit(Hd(s)) ==> |r.1| < |s|
  {
    var t := if Hd(s) == ZERO then s[1..] else s;
    if 49 <= Hd(t) <= 57 then Digits(t, 0.0) else (0.0, t)
  }

  function Scaled(sign: real, m: real, e: int): real {
    sign * m * Pow10(e)
  }

  /** Conversion to int: truncation toward zero. */
  function Truncate(d: real): int {
    if d < 0.0 then -((-d).Floor) else d.Floor
  }

  function ParseNumber(s: seq<byte>): (r: (real, seq<byte>))
    ensures |r.1| <= |s|
    ensures Hd(s) == MINUS || IsDigit(Hd(s)) ==> |r.1| < |s|
  {
    var negative := Hd(s) == MINUS;
    var (n, s1) := IntegerPart(if negative then s[1..] else s);
    var (m, scale, s2) := Fraction(s1, n);
    var (e, s3) := Exponent(s2);
    (Scaled(if negative then -1.0 else 1.0, m, scale + e), s3)
  }

  // ----- strings

  function HexValue(c: byte): (v: Option<nat>)
    ensures v.Some? ==> v.value < 16
  {
    if IsDigit(c) then Some(c - 48)
    else if 65 <= c <= 70 then Some(10 + c - 65)
    else if 97 <= c <= 102 then Some(10 + c - 97)
    else None
  }

  /** Four hexadecimal digits; zero if one of them is not a digit. */
  function ParseHex4(s: seq<byte>): (h: nat)
    ensures h < 0x1_0000
    ensures h != 0 ==> |s| >= 4 && forall i :: 0 <= i < 4 ==> HexValue(s[i]).Some?
  {
    if |s| < 4 then 0
    else match (HexValue(s[0]), HexValue(s[1]), HexValue(s[2]), HexValue(s[3]))
      case (Some(a), Some(b), Some(c), Some(d)) =>
        ((a * 16 + b) * 16 + c) * 16 + d
      case _ => 0
  }

  /**
   * The first pass over a string body: the number of bytes counted and the
   * distance to the closing quote (or the end of the text). A backslash as the
   * last byte of the text is an error.
   */
  function Scan(b: seq<byte>): (r: Option<(nat, nat)>)
    ensures r.Some? ==> r.value.1 <= |b| && r.value.0 <= r.value.1
  {
    if Hd(b) == QUOTE || Hd(b) == 0 then Some((0, 0))
    else if Hd(b) == BACKSLASH then
      if Hd(b[1..]) == 0 then None else Bump(Scan(b[2..]), 1, 2)
    else Bump(Scan(b[1..]), 1, 1)
  }

  function Bump(r: Option<(nat, nat)>, len: nat, size: nat): Option<(nat, nat)> {
    match r
    case None => None
    case Some((l, n)) => Some((l + len, n + size))
  }

  /** A continuation byte, 10xxxxxx, from the six low bits of uc. */
  function ContByte(uc: nat): (c: byte)
    ensures c == 0x80 + uc % 64
  {
    ContByteBits(uc);
    And(Or(uc, 0x80), 0xBF)
  }

  lemma ContByteBits(uc: nat)
    ensures And(Or(uc, 0x80), 0xBF) == 0x80 + uc % 64
  {
    var h, l := uc / 64, uc % 64;
    SixBits(h);
    SixBits(2);
    SixBits(0);
    hide Pow2, And, Or, Shl;
    OrSplit(h, l, 2, 0, 6);
    OrZero(l);
    AndSplit(Or(h, 2), l, 2, 63, 6);
    OrTwoAndTwo(h);
    AndMask(0, l, 6);
  }

  lemma SixBits(h: nat)
    ensures Pow2(6) == 64 && Shl(h, 6) == h * 64
  {
    ShlMul(h, 6);
  }

  lemma OrTwoAndTwo(h: nat)
    ensures And(Or(h, 2), 2) == 2
  {
    OrStep(h, 2);
    OrStep(h / 2, 1);
    AndStep(Or(h, 2), 2);
    AndStep(Or(h / 2, 1), 1);
  }

  const SURROGATE_LOW: nat := 0xDC00
  const SURROGATE_HIGH: nat := 0xD800

  /** The code point of a surrogate pair. */
  function Combine(uc: nat, uc2: nat): nat {
    0x10000 + Or(Shl(And(uc, 0x3FF), 10), And(uc2, 0x3FF))
  }

  /** The first byte of a UTF-8 sequence: the mark of its length or-ed in. */
  function FirstByte(uc: nat, mark: nat): byte {
    Or(uc, mark) % 256
  }

  /** The encoder of parse_string, which fills its bytes from the last to the first. */
  function EncodeUtf8(uc: nat): (r: seq<byte>)
    ensures 1 <= |r| <= 4
    ensures uc < 0x80 ==> |r| == 1
    ensures uc < 0x10000 ==> |r| <= 3
  {
    if uc < 0x80 then [FirstByte(uc, 0)]
    else if uc < 0x800 then [FirstByte(Shr(uc, 6), 0xC0), ContByte(uc)]
    else if uc < 0x10000 then
      [FirstByte(Shr(Shr(uc, 6), 6), 0xE0), ContByte(Shr(uc, 6)), ContByte(uc)]
    else
      [FirstByte(Shr(Shr(Shr(uc, 6), 6), 6), 0xF0),
       ContByte(Shr(Shr(uc, 6), 6)), ContByte(Shr(uc, 6)), ContByte(uc)]
  }

  lemma EncodeOne(u: nat)
    requires u < 0x80
    ensures EncodeUtf8(u) == [u]
  {
    OrZero(u);
    hide Or, Shr;
    assert FirstByte(u, 0) == u;
  }

  /** A \u escape at the start of b, with n bytes left before the closing quote. */
  datatype UnicodeEscape = BadEscape | CodePoint(uc: nat, size: nat)

  function ParseUnicode(b: seq<byte>, n: nat): (r: UnicodeEscape)
    requires InStep(b, n) && n > 0 && b[0] == BACKSLASH && b[1] == 117
    ensures r.CodePoint? ==> (r.size == 6 || r.size == 12) && r.size <= n
  {
    var uc := ParseHex4(b[2..]);
    if 5 >= n then BadEscape
    else if SURROGATE_LOW <= uc <= 0xDFFF || uc == 0 then BadEscape
    else if SURROGATE_HIGH <= uc <= 0xDBFF then
      if 11 > n then BadEscape
      else if b[6] != BACKSLASH || At(b, 7) != 117 then BadEscape
      else
        var uc2 := ParseHex4(b[8..]);
        if uc2 < SURROGATE_LOW || uc2 > 0xDFFF then BadEscape
        else
          PairStep(b);
          CodePoint(Combine(uc, uc2), 12)
    else CodePoint(uc, 6)
  }

  /** What a one-letter escape stands for. */
  function SimpleEscape(c: byte): byte {
    if c == 98 then 8
    else if c == 102 then 12
    else if c == 110 then 10
    else if c == 114 then 13
    else if c == 116 then 9
    else c
  }

  datatype Copied = BadCopy | Copied(out: seq<byte>, rest: seq<byte>)

  function Cons(s: seq<byte>, c: Copied): Copied {
    match c
    case BadCopy => BadCopy
    case Copied(out, rest) => Copied(s + out, rest)
  }

  /**
   * The second pass: copy n bytes of the string body, replacing escapes. It is
   * called only where the first pass stands n bytes before its end.
   */
  function Copy(b: seq<byte>, n: nat): (r: Copied)
    requires InStep(b, n)
    decreases n
  {
    if n == 0 then Copied([], b)
    else if b[0] != BACKSLASH then Cons([b[0]], Copy(b[1..], n - 1))
    else if b[1] == 117 then
      match ParseUnicode(b, n)
      case BadEscape => BadCopy
      case CodePoint(uc, size) =>
        UnicodeInStep(b, n);
        Cons(EncodeUtf8(uc), Copy(b[size..], n - size))
    else Cons([SimpleEscape(b[1])], Copy(b[2..], n - 2))
  }

  lemma ScanNext(b: seq<byte>)
    requires b != [] && b[0] != QUOTE && b[0] != 0 && Scan(b).Some?
    ensures var k := if b[0] == BACKSLASH then 2 else 1;
      k <= |b| && Scan(b[k..]).Some? && Scan(b).value.1 == k + Scan(b[k..]).value.1
  {
  }

  lemma ScanStop(b: seq<byte>)
    requires b == [] || b[0] == QUOTE
    ensures Scan(b) == Some((0, 0))
  {
  }

  /** The first pass, started at b, ends after n bytes. */
  predicate InStep(b: seq<byte>, n: nat) {
    Scan(b).Some? && Scan(b).value.1 == n
  }

  predicate Plain(c: byte) {
    c != QUOTE && c != BACKSLASH && c != 0
  }

  lemma PlainStep(b: seq<byte>, i: nat)
    requires i < |b| && Plain(b[i])
    ensures Scan(b[i..]) == Bump(Scan(b[i + 1..]), 1, 1)
  {
    DropDrop(b, i, 1);
  }

  lemma FourPlain(b: seq<byte>, i: nat)
    requires |b| >= i + 4 && Plain(b[i]) && Plain(b[i + 1]) && Plain(b[i + 2]) && Plain(b[i + 3])
    ensures Scan(b[i..]) == Bump(Scan(b[i + 4..]), 4, 4)
  {
    hide Scan, Plain;
    PlainStep(b, i);
    PlainStep(b, i + 1);
    PlainStep(b, i + 2);
    PlainStep(b, i + 3);
    BumpTwice(Scan(b[i + 4..]), 1, 1);
    BumpTwice(Scan(b[i + 4..]), 2, 1);
    BumpTwice(Scan(b[i + 4..]), 3, 1);
  }

  lemma BumpTwice(r: Option<(nat, nat)>, n: nat, k: nat)
    ensures Bump(Bump(r, n, n), k, k) == Bump(r, n + k, n + k)
  {
  }

  lemma HexIsPlain(s: seq<byte>)
    requires ParseHex4(s) != 0
    ensures |s| >= 4 && forall i :: 0 <= i < 4 ==> Plain(s[i])
  {
  }

  lemma BackslashStep(b: seq<byte>, i: nat)
    requires i + 1 < |b| && b[i] == BACKSLASH && b[i + 1] != 0
    ensures Scan(b[i..]) == Bump(Scan(b[i + 2..]), 1, 2)
  {
    DropDrop(b, i, 1);
    DropDrop(b, i, 2);
  }

  /** Skipping one u escape keeps the passes in step; the first pass counts 5 bytes for it. */
  lemma OneUnicodeStep(b: seq<byte>, i: nat)
    requires |b| >= i + 2 && b[i] == BACKSLASH && b[i + 1] == 117
    requires ParseHex4(b[i + 2..]) != 0
    ensures |b| >= i + 6 && Scan(b[i..]) == Bump(Scan(b[i + 6..]), 5, 6)
  {
    HexIsPlain(b[i + 2..]);
    assert |b| >= i + 6;
    assert Plain(b[i + 2]) && Plain(b[i + 3]) && Plain(b[i + 4]) && Plain(b[i + 5]);
    hide ParseHex4, Plain;
    FourPlain(b, i + 2);
    BackslashStep(b, i);
  }

  lemma UnicodeInStep(b: seq<byte>, n: nat)
    requires InStep(b, n) && n > 0 && b[0] == BACKSLASH && b[1] == 117
    requires ParseUnicode(b, n).CodePoint?
    ensures var size := ParseUnicode(b, n).size;
      size <= n && InStep(b[size..], n - size)
      && Scan(b) == Bump(Scan(b[size..]), if size == 6 then 5 else 10, size)
  {
    if ParseUnicode(b, n).size == 12 {
      PairStep(b);
    } else {
      OneUnicodeStep(b, 0);
      assert b[0..] == b;
    }
  }

  lemma PairStep(b: seq<byte>)
    requires |b| >= 8 && b[0] == BACKSLASH && b[1] == 117 && b[6] == BACKSLASH && b[7] == 117
    requires ParseHex4(b[2..]) != 0 && ParseHex4(b[8..]) != 0
    ensures |b| >= 12 && Scan(b) == Bump(Scan(b[12..]), 10, 12)
  {
    hide ParseHex4, Scan;
    OneUnicodeStep(b, 0);
    assert b[0..] == b;
    OneUnicodeStep(b, 6);
  }

  /** What InStep says about a plain byte in the second pass. */
  lemma CopyPlain(b: seq<byte>, n: nat)
    requires InStep(b, n) && n > 0 && b[0] != BACKSLASH
    ensures InStep(b[1..], n - 1) && Scan(b).value.0 == Scan(b[1..]).value.0 + 1
    ensures Copy(b, n) == Cons([b[0]], Copy(b[1..], n - 1))
  {
    hide SimpleEscape, ParseUnicode;
  }

  /** What InStep says about a backslash in the second pass. */
  lemma CopyLetter(b: seq<byte>, n: nat)
    requires InStep(b, n) && n > 0 && b[0] == BACKSLASH
    ensures n >= 2 && Scan(b).value.0 >= 1
    ensures b[1] != 117 ==>
              InStep(b[2..], n - 2) && Scan(b).value.0 == Scan(b[2..]).value.0 + 1
              && Copy(b, n) == Cons([SimpleEscape(b[1])], Copy(b[2..], n - 2))
  {
    hide SimpleEscape, ParseUnicode;
  }

  /**
   * The two passes of parse_string stay in step: the copying pass fails or ends
   * exactly where the counting pass ended, having written no more bytes than
   * were counted.
   */
  lemma {:induction false} PassesInStep(b: seq<byte>, n: nat)
    requires InStep(b, n)
    ensures Copy(b, n).Copied? ==>
              Copy(b, n).rest == b[n..] && |Copy(b, n).out| <= Scan(b).value.0
    decreases n
  {
    hide Scan, SimpleEscape, EncodeUtf8;
    if n == 0 {
      CopyNone(b);
    } else if b[0] != BACKSLASH {
      CopyPlain(b, n);
      PassesInStep(b[1..], n - 1);
      DropDrop(b, 1, n - 1);
    } else {
      CopyLetter(b, n);
      if b[1] != 117 {
        PassesInStep(b[2..], n - 2);
        DropDrop(b, 2, n - 2);
      } else if ParseUnicode(b, n).CodePoint? {
        UnicodeCopyStep(b, n);
        var size := ParseUnicode(b, n).size;
        PassesInStep(b[size..], n - size);
        DropDrop(b, size, n - size);
      }
    }
  }

  lemma CopyNone(b: seq<byte>)
    requires InStep(b, 0)
    ensures Copy(b, 0).Copied? && Copy(b, 0).rest == b && Copy(b, 0).out == []
  {
  }

  /** One escape writes no more bytes than the first pass counted for it. */
  lemma UnicodeCopyStep(b: seq<byte>, n: nat)
    requires InStep(b, n) && n > 0 && b[0] == BACKSLASH && b[1] == 117
    requires ParseUnicode(b, n).CodePoint?
    ensures var r := ParseUnicode(b, n);
      r.size <= n && InStep(b[r.size..], n - r.size)
      && Scan(b).value.0 >= |EncodeUtf8(r.uc)| + Scan(b[r.size..]).value.0
      && Copy(b, n) == Cons(EncodeUtf8(r.uc), Copy(b[r.size..], n - r.size))
  {
    UnicodeInStep(b, n);
  }

  /** A string, from its opening quote; the closing quote may be missing at the end of the text. */
  function ParseString(s: seq<byte>): (r: Parsed<seq<byte>>)
    ensures r.Ok? ==> |r.rest| < |s|
  {
    if Hd(s) != QUOTE then Fail
    else match Scan(s[1..])
      case None => Fail
      case Some((len, n)) =>
        match Copy(s[1..], n)
        case BadCopy => Fail
        case Copied(out, rest) =>
          PassesInStep(s[1..], n);
          Ok(out, if Hd(rest) == QUOTE then rest[1..] else rest)
  }

  // ----- values

  function ParseValue(s: seq<byte>): (r: Parsed<Json>)
    ensures r.Ok? ==> |r.rest| < |s|
    decreases |s|, 1
  {
    if NULL_TEXT <= s then Ok(Null, s[4..])
    else if FALSE_TEXT <= s then Ok(False, s[5..])
    else if TRUE_TEXT <= s then Ok(True, s[4..])
    else if Hd(s) == QUOTE then
      match ParseString(s)
      case Fail => Fail
      case Ok(str, rest) => Ok(String(str), rest)
    else if Hd(s) == MINUS || IsDigit(Hd(s)) then
      var (d, rest) := ParseNumber(s);
      Ok(Number(d, Truncate(d)), rest)
    else if Hd(s) == LBRACKET then
      var t := Skip(s[1..]);
      if Hd(t) == RBRACKET then Ok(Array([]), t[1..])
      else match ParseItems(t)
        case Fail => Fail
        case Ok(items, rest) => Ok(Array(items), rest)
    else if Hd(s) == LBRACE then
      var t := Skip(s[1..]);
      if Hd(t) == RBRACE then Ok(Object([]), t[1..])
      else match ParseMembers(t)
        case Fail => Fail
        case Ok(members, rest) => Ok(Object(members), rest)
    else Fail
  }

  /** The items of a non-empty array, up to and including the closing bracket. */
  function ParseItems(s: seq<byte>): (r: Parsed<seq<Json>>)
    ensures r.Ok? ==> |r.rest| < |s|
    decreases |s|, 2
  {
    match ParseValue(Skip(s))
    case Fail => Fail
    case Ok(v, rest) =>
      var t := Skip(rest);
      if Hd(t) == COMMA then
        match ParseItems(t[1..])
        case Fail => Fail
        case Ok(items, rest') => Ok([v] + items, rest')
      else if Hd(t) == RBRACKET then Ok([v], t[1..])
      else Fail
  }

  /** A key, the colon and a value. */
  function ParseMember(s: seq<byte>): (r: Parsed<Member>)
    ensures r.Ok? ==> |r.rest| < |s|
    decreases |s|, 2
  {
    match ParseString(Skip(s))
    case Fail => Fail
    case Ok(name, rest) =>
      var t := Skip(rest);
      if Hd(t) != COLON then Fail
      else match ParseValue(Skip(t[1..]))
        case Fail => Fail
        case Ok(v, rest') => Ok(Member(name, v), rest')
  }

  function ParseMembers(s: seq<byte>): (r: Parsed<seq<Member>>)
    ensures r.Ok? ==> |r.rest| < |s|
    decreases |s|, 3
  {
    match ParseMember(s)
    case Fail => Fail
    case Ok(m, rest) =>
      var t := Skip(rest);
      if Hd(t) == COMMA then
        match ParseMembers(t[1..])
        case Fail => Fail
        case Ok(members, rest') => Ok([m] + members, rest')
      else if Hd(t) == RBRACE then Ok([m], t[1..])
      else Fail
  }
}
