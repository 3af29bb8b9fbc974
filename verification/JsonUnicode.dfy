// The bytes that a u escape turns into, measured against the definitions of
// UTF-16 (section 2.2 of RFC 2781) and UTF-8 (section 3 of RFC 3629).
module JsonUnicode {
  import opened CText
  import opened Bits
  import opened JsonParse

  /** A code point that UTF-8 may carry. */
  predicate Scalar(u: nat) {
    u < 0xD800 || 0xE000 <= u < 0x11_0000
  }

  predicate Continuation(c: byte) {
    0x80 <= c < 0xC0
  }

  /** The bits of c below its mark. */
  function Low(c: int, mark: int): int {
    c - mark
  }

  /** The code point of one UTF-8 sequence; overlong forms and surrogates are not UTF-8. */
  function DecodeUtf8(s: seq<byte>): Option<nat> {
    if |s| == 1 && s[0] < 0x80 then Some(s[0])
    else if |s| == 2 && 0xC0 <= s[0] < 0xE0 && Continuation(s[1]) then
      var u: nat := Low(s[0], 0xC0) * 0x40 + Low(s[1], 0x80);
      if 0x80 <= u then Some(u) else None
    else if |s| == 3 && 0xE0 <= s[0] < 0xF0 && Continuation(s[1]) && Continuation(s[2]) then
      var u: nat := Low(s[0], 0xE0) * 0x1000 + Low(s[1], 0x80) * 0x40 + Low(s[2], 0x80);
      if 0x800 <= u && Scalar(u) then Some(u) else None
    else if |s| == 4 && 0xF0 <= s[0] < 0xF8
            && Continuation(s[1]) && Continuation(s[2]) && Continuation(s[3]) then
      var u: nat := Low(s[0], 0xF0) * 0x4_0000 + Low(s[1], 0x80) * 0x1000 + Low(s[2], 0x80) * 0x40 + Low(s[3], 0x80);
      if 0x1_0000 <= u && Scalar(u) then Some(u) else None
    else None
  }

  /** The code point of UTF-16 code units: one unit, or a high and a low surrogate. */
  function DecodeUtf16(units: seq<nat>): Option<nat> {
    if |units| == 1 && Scalar(units[0]) then Some(units[0])
    else if |units| == 2 && 0xD800 <= units[0] < 0xDC00 && 0xDC00 <= units[1] < 0xE000 then
      Some((units[0] - 0xD800) * 0x400 + (units[1] - 0xDC00) + 0x1_0000)
    else None
  }

  /** The code units written in an escape of the given size. */
  function CodeUnits(b: seq<byte>, size: nat): seq<nat>
    requires 12 <= |b| || (size == 6 && 6 <= |b|)
  {
    if size == 6 then [ParseHex4(b[2..])] else [ParseHex4(b[2..]), ParseHex4(b[8..])]
  }

  lemma ShrSix(a: nat)
    ensures Shr(a, 6) == a / 64
  {
    assert Shr(a, 6) == Shr(a / 2, 5) == Shr(a / 4, 4) == Shr(a / 8, 3);
    assert Shr(a / 8, 3) == Shr(a / 16, 2) == Shr(a / 32, 1) == a / 64;
  }

  lemma MarkBits(x: nat, k: nat, p: nat, mark: nat, m: nat)
    requires p == Pow2(k) && x < p && m == mark * p
    ensures Or(x, m) == m + x
  {
    OrSplit(0, x, mark, 0, k);
    OrZero(x);
    OrZero(mark);
    ShlMul(0, k);
    ShlMul(mark, k);
  }

  lemma FirstOfTwo(x: nat)
    requires x < 0x20
    ensures FirstByte(x, 0xC0) == 0xC0 + x
  {
    hide Or;
    MarkBits(x, 5, 0x20, 6, 0xC0);
  }

  lemma FirstOfThree(x: nat)
    requires x < 0x10
    ensures FirstByte(x, 0xE0) == 0xE0 + x
  {
    hide Or;
    MarkBits(x, 4, 0x10, 14, 0xE0);
  }

  lemma FirstOfFour(x: nat)
    requires x < 0x08
    ensures FirstByte(x, 0xF0) == 0xF0 + x
  {
    hide Or;
    MarkBits(x, 3, 0x08, 30, 0xF0);
  }

  lemma DecodeTwo(u: nat)
    requires 0x80 <= u < 0x800
    ensures DecodeUtf8([0xC0 + u / 64, 0x80 + u % 64]) == Some(u)
  {
  }

  lemma DecodeThree(u: nat)
    requires 0x800 <= u < 0x1_0000 && Scalar(u)
    ensures DecodeUtf8([0xE0 + u / 64 / 64, 0x80 + u / 64 % 64, 0x80 + u % 64]) == Some(u)
  {
    var v := u / 64;
    assert u == 64 * v + u % 64 && v == 64 * (v / 64) + v % 64;
  }

  lemma DecodeFour(u: nat)
    requires 0x1_0000 <= u < 0x11_0000
    ensures DecodeUtf8([0xF0 + u / 64 / 64 / 64, 0x80 + u / 64 / 64 % 64, 0x80 + u / 64 % 64, 0x80 + u % 64]) == Some(u)
  {
    var v := u / 64;
    var w := v / 64;
    assert u == 64 * v + u % 64 && v == 64 * w + v % 64 && w == 64 * (w / 64) + w % 64;
  }

  lemma EncodeTwo(u: nat)
    requires 0x80 <= u < 0x800
    ensures EncodeUtf8(u) == [0xC0 + u / 64, 0x80 + u % 64]
  {
    ShrSix(u);
    FirstOfTwo(u / 64);
  }

  lemma EncodeThree(u: nat)
    requires 0x800 <= u < 0x1_0000
    ensures EncodeUtf8(u) == [0xE0 + u / 64 / 64, 0x80 + u / 64 % 64, 0x80 + u % 64]
  {
    ShrSix(u);
    ShrSix(u / 64);
    FirstOfThree(u / 64 / 64);
  }

  lemma EncodeFour(u: nat)
    requires 0x1_0000 <= u < 0x11_0000
    ensures EncodeUtf8(u) == [0xF0 + u / 64 / 64 / 64, 0x80 + u / 64 / 64 % 64, 0x80 + u / 64 % 64, 0x80 + u % 64]
  {
    ShrSix(u);
    ShrSix(u / 64);
    ShrSix(u / 64 / 64);
    FirstOfFour(u / 64 / 64 / 64);
  }

  /** The encoder writes the shortest UTF-8 form of every scalar value. */
  lemma EncodeDecode(u: nat)
    requires Scalar(u)
    ensures DecodeUtf8(EncodeUtf8(u)) == Some(u)
  {
    if u < 0x80 {
      EncodeOne(u);
    } else if u < 0x800 {
      EncodeTwo(u);
      DecodeTwo(u);
    } else if u < 0x10000 {
      EncodeThree(u);
      DecodeThree(u);
    } else {
      EncodeFour(u);
      DecodeFour(u);
    }
  }

  /** Or-ing a number into ten empty low bits adds it. */
  lemma ShiftedOr(h: nat, l: nat)
    requires l < 0x400
    ensures Or(Shl(h, 10), l) == h * 0x400 + l
  {
    assert Pow2(10) == 0x400;
    OrSplit(h, 0, 0, l, 10);
    OrZero(h);
    OrZero(l);
    ShlMul(h, 10);
    ShlMul(0, 10);
  }

  lemma LowTen(q: nat, l: nat)
    requires l < 0x400
    ensures And(q * 0x400 + l, 0x3FF) == l
  {
    assert Pow2(10) == 0x400;
    AndMask(q, l, 10);
    ShlMul(q, 10);
  }

  lemma CombineIsUtf16(uc: nat, uc2: nat)
    requires 0xD800 <= uc < 0xDC00 && 0xDC00 <= uc2 < 0xE000
    ensures Combine(uc, uc2) == (uc - 0xD800) * 0x400 + (uc2 - 0xDC00) + 0x1_0000
  {
    hide Or, And, Shl;
    LowTen(54, uc - 0xD800);
    LowTen(55, uc2 - 0xDC00);
    ShiftedOr(uc - 0xD800, uc2 - 0xDC00);
  }

  lemma CodePointForm(b: seq<byte>, n: nat)
    requires InStep(b, n) && n > 0 && b[0] == BACKSLASH && b[1] == 117
    requires ParseUnicode(b, n).CodePoint?
    ensures var r := ParseUnicode(b, n);
      var w1 := ParseHex4(b[2..]);
      && r.size <= n
      && if r.size == 6 then r.uc == w1 && Scalar(w1) && w1 != 0
         else
           && r.size == 12 && 0xD800 <= w1 < 0xDC00 && 0xDC00 <= ParseHex4(b[8..]) < 0xE000
           && r.uc == Combine(w1, ParseHex4(b[8..]))
  {
    hide ParseHex4, Combine, Scan;
  }

  /**
   * An accepted escape is the UTF-16 form of a code point, and the bytes
   * written for it are the UTF-8 form of that code point.
   */
  lemma UnicodeEscapeMeaning(b: seq<byte>, n: nat)
    requires InStep(b, n) && n > 0 && b[0] == BACKSLASH && b[1] == 117
    requires ParseUnicode(b, n).CodePoint?
    ensures var r := ParseUnicode(b, n);
      && DecodeUtf16(CodeUnits(b, r.size)) == Some(r.uc)
      && DecodeUtf8(EncodeUtf8(r.uc)) == Some(r.uc)
      && r.uc != 0
  {
    hide ParseHex4, ParseUnicode, EncodeUtf8, DecodeUtf8, Combine, Scan;
    var r := ParseUnicode(b, n);
    CodePointForm(b, n);
    if r.size == 12 {
      CombineIsUtf16(ParseHex4(b[2..]), ParseHex4(b[8..]));
    }
    EncodeDecode(r.uc);
  }
}
