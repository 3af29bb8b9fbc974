// Numbers in all their spellings (section 6 of RFC 8259), with a value that does
// not mention the parser.
module JsonNumeral {
  import opened CText
  import opened JsonValue
  import opened JsonParse
  import opened JsonRoundTrip

  datatype Power = Power(upper: bool, sign: Option<bool>, digits: seq<nat>)

  /** Sign, digits before and behind the dot, exponent; the sign of an exponent is true for minus. */
  datatype Numeral = Numeral(negative: bool, whole: seq<nat>, fraction: seq<nat>, power: Option<Power>)

  predicate DecimalDigits(ds: seq<nat>) {
    forall i :: 0 <= i < |ds| ==> ds[i] < 10
  }

  predicate Proper(m: Numeral) {
    && m.whole != [] && DecimalDigits(m.whole) && (m.whole[0] == 0 ==> |m.whole| == 1)
    && DecimalDigits(m.fraction)
    && (m.power.Some? ==> m.power.value.digits != [] && DecimalDigits(m.power.value.digits))
  }

  // ----- what is written

  function DigitsText(ds: seq<nat>): (s: seq<byte>)
    requires DecimalDigits(ds)
    ensures |s| == |ds|
  {
    if ds == [] then [] else [ZERO + ds[0]] + DigitsText(ds[1..])
  }

  function FractionText(m: Numeral): seq<byte>
    requires Proper(m)
  {
    if m.fraction == [] then [] else [DOT] + DigitsText(m.fraction)
  }

  function PowerText(p: Option<Power>): seq<byte>
    requires p.Some? ==> DecimalDigits(p.value.digits)
  {
    match p
    case None => []
    case Some(Power(upper, sign, digits)) =>
      [if upper then 69 else 101]
      + ((match sign case None => [] case Some(minus) => [if minus then MINUS else 43]) + DigitsText(digits))
  }

  function NumeralText(m: Numeral): seq<byte>
    requires Proper(m)
  {
    (if m.negative then [MINUS] else []) + (DigitsText(m.whole) + (FractionText(m) + PowerText(m.power)))
  }

  // ----- what it is worth

  /** The number with these decimal digits. */
  function Dec(ds: seq<nat>): nat {
    if ds == [] then 0 else 10 * Dec(ds[..|ds| - 1]) + ds[|ds| - 1]
  }

  function Ten(k: nat): (t: nat)
    ensures t > 0
  {
    if k == 0 then 1 else 10 * Ten(k - 1)
  }

  function PowerValue(p: Option<Power>): int {
    match p
    case None => 0
    case Some(Power(_, sign, digits)) => if sign == Some(true) then 0 - Dec(digits) else Dec(digits)
  }

  /** The number of places the digits are moved to the left. */
  function Places(m: Numeral): int {
    PowerValue(m.power) - |m.fraction|
  }

  function Magnitude(m: Numeral): real {
    var n, k := Dec(m.whole + m.fraction), Places(m);
    if k >= 0 then (n * Ten(k)) as real else n as real / Ten(-k) as real
  }

  function Worth(m: Numeral): real {
    if m.negative then -Magnitude(m) else Magnitude(m)
  }

  /** The integer without the part behind the dot. */
  function Whole(m: Numeral): int {
    var n, k := Dec(m.whole + m.fraction), Places(m);
    var whole := if k >= 0 then n * Ten(k) else n / Ten(-k);
    if m.negative then -whole else whole
  }

  /** The tail cannot be read as a continuation of the number. */
  predicate Ends(m: Numeral, tail: seq<byte>) {
    && !IsDigit(Hd(tail))
    && (m.power == None ==> Hd(tail) != 101 && Hd(tail) != 69)
    && (m.power == None && m.fraction == [] ==> !(Hd(tail) == DOT && IsDigit(Hd(tail[1..]))))
  }

  // ----- reading digits

  function Onto(ds: seq<nat>, n: nat): nat {
    if ds == [] then n else Onto(ds[1..], 10 * n + ds[0])
  }

  lemma {:induction false} OntoLast(ds: seq<nat>, d: nat, n: nat)
    ensures Onto(ds + [d], n) == 10 * Onto(ds, n) + d
    decreases |ds|
  {
    if ds == [] {
      assert [] + [d] == [d] && [d][1..] == [];
    } else {
      OntoLast(ds[1..], d, 10 * n + ds[0]);
      assert (ds + [d])[1..] == ds[1..] + [d];
    }
  }

  lemma {:induction false} OntoIsDec(ds: seq<nat>)
    ensures Onto(ds, 0) == Dec(ds)
    decreases |ds|
  {
    if ds != [] {
      OntoIsDec(ds[..|ds| - 1]);
      OntoLast(ds[..|ds| - 1], ds[|ds| - 1], 0);
      assert ds == ds[..|ds| - 1] + [ds[|ds| - 1]];
    }
  }

  lemma {:induction false} OntoBoth(a: seq<nat>, b: seq<nat>, n: nat)
    ensures Onto(a + b, n) == Onto(b, Onto(a, n))
    decreases |a|
  {
    if a == [] {
      assert a + b == b;
    } else {
      OntoBoth(a[1..], b, 10 * n + a[0]);
      assert (a + b)[1..] == a[1..] + b;
    }
  }

  lemma {:induction false} DigitsRead(ds: seq<nat>, tail: seq<byte>, n: nat)
    requires DecimalDigits(ds) && !IsDigit(Hd(tail))
    ensures Digits(DigitsText(ds) + tail, n as real) == (Onto(ds, n) as real, tail)
    decreases |ds|
  {
    var s := DigitsText(ds) + tail;
    if ds == [] {
      assert s == tail;
    } else {
      assert s[1..] == DigitsText(ds[1..]) + tail && s[0] == ZERO + ds[0];
      DigitsRead(ds[1..], tail, 10 * n + ds[0]);
      assert n as real * 10.0 + ds[0] as real == (10 * n + ds[0]) as real;
    }
  }

  lemma {:induction false} DigitsIntRead(ds: seq<nat>, tail: seq<byte>, n: nat)
    requires DecimalDigits(ds) && !IsDigit(Hd(tail))
    ensures DigitsInt(DigitsText(ds) + tail, n) == (Onto(ds, n), tail)
    decreases |ds|
  {
    var s := DigitsText(ds) + tail;
    if ds == [] {
      assert s == tail;
    } else {
      assert s[1..] == DigitsText(ds[1..]) + tail && s[0] == ZERO + ds[0];
      DigitsIntRead(ds[1..], tail, 10 * n + ds[0]);
    }
  }

  // ----- the parts of a number

  lemma WholeRead(m: Numeral, tail: seq<byte>)
    requires Proper(m) && !IsDigit(Hd(tail))
    ensures IntegerPart(DigitsText(m.whole) + tail) == (Dec(m.whole) as real, tail)
    ensures IsDigit(Hd(DigitsText(m.whole) + tail))
  {
    var s := DigitsText(m.whole) + tail;
    assert s[0] == ZERO + m.whole[0];
    OntoIsDec(m.whole);
    if m.whole[0] == 0 {
      assert m.whole == [0] && s[1..] == tail;
      assert Dec([0]) == 10 * Dec([]) + 0;
    } else {
      DigitsRead(m.whole, tail, 0);
    }
  }

  lemma FractionRead(m: Numeral, tail: seq<byte>)
    requires Proper(m) && !IsDigit(Hd(tail))
    requires m.fraction == [] ==> !(Hd(tail) == DOT && IsDigit(Hd(tail[1..])))
    ensures Fraction(FractionText(m) + tail, Dec(m.whole) as real)
         == (Dec(m.whole + m.fraction) as real, -|m.fraction|, tail)
  {
    if m.fraction == [] {
      assert FractionText(m) + tail == tail && m.whole + [] == m.whole;
    } else {
      var s := FractionText(m) + tail;
      var t := DigitsText(m.fraction) + tail;
      assert s[0] == DOT && s[1..] == t && t[0] == ZERO + m.fraction[0];
      DigitsRead(m.fraction, tail, Dec(m.whole));
      OntoIsDec(m.whole);
      OntoIsDec(m.whole + m.fraction);
      OntoBoth(m.whole, m.fraction, 0);
    }
  }

  lemma PowerRead(p: Option<Power>, tail: seq<byte>)
    requires p.Some? ==> p.value.digits != [] && DecimalDigits(p.value.digits)
    requires !IsDigit(Hd(tail)) && (p == None ==> Hd(tail) != 101 && Hd(tail) != 69)
    ensures Exponent(PowerText(p) + tail) == (PowerValue(p), tail)
  {
    hide DigitsText, DigitsInt, Dec;
    match p
    case None => assert PowerText(p) + tail == tail;
    case Some(power) =>
      var t := DigitsText(power.digits) + tail;
      DigitsIntRead(power.digits, tail, 0);
      OntoIsDec(power.digits);
      DigitsHead(power.digits, tail);
      PowerShape(power, t, tail);
  }

  lemma DigitsHead(ds: seq<nat>, tail: seq<byte>)
    requires ds != [] && DecimalDigits(ds)
    ensures var s := DigitsText(ds) + tail; s != [] && s[0] == ZERO + ds[0] && IsDigit(s[0])
  {
  }

  lemma PowerShape(p: Power, t: seq<byte>, tail: seq<byte>)
    requires DecimalDigits(p.digits) && t == DigitsText(p.digits) + tail
    ensures var mark := [if p.upper then 69 else 101];
      PowerText(Some(p)) + tail ==
      match p.sign
      case None => mark + t
      case Some(minus) => mark + ([if minus then MINUS else 43] + t)
  {
    hide DigitsText;
    var mark := [if p.upper then 69 else 101];
    match p.sign
    case None =>
      assert [] + DigitsText(p.digits) == DigitsText(p.digits);
      Assoc(mark, DigitsText(p.digits), tail);
    case Some(minus) =>
      var sign := [if minus then MINUS else 43];
      Assoc(mark, sign + DigitsText(p.digits), tail);
      Assoc(sign, DigitsText(p.digits), tail);
  }

  // ----- powers of ten

  lemma {:induction false} PowerOfTen(k: nat)
    ensures Pow10(k) == Ten(k) as real
    ensures Pow10(0 - k) * Ten(k) as real == 1.0
  {
    if k > 0 {
      PowerOfTen(k - 1);
      assert Ten(k) as real == 10.0 * Ten(k - 1) as real;
      TimesTen(Pow10(1 - k), Ten(k - 1) as real);
    }
  }

  lemma TimesTen(p: real, t: real)
    requires p * t == 1.0
    ensures p / 10.0 * (10.0 * t) == 1.0
  {
    assert p / 10.0 * 10.0 == p;
  }

  lemma Divided(n: real, p: real, t: real)
    requires t > 0.0 && p * t == 1.0
    ensures n * p == n / t
  {
    assert n * p * t == n * (p * t);
    assert n / t * t == n;
    SameProduct(n * p, n / t, t);
  }

  lemma SameProduct(a: real, b: real, t: real)
    requires t > 0.0 && a * t == b * t
    ensures a == b
  {
    assert (a - b) * t == a * t - b * t;
  }

  lemma MagnitudeIs(m: Numeral)
    ensures Scaled(if m.negative then -1.0 else 1.0, Dec(m.whole + m.fraction) as real, Places(m)) == Worth(m)
  {
    hide Dec, Ten, Pow10, Places;
    var n, k := Dec(m.whole + m.fraction), Places(m);
    if k >= 0 {
      PowerOfTen(k);
      RealProduct(n, Ten(k));
    } else {
      PowerOfTen(-k);
      Divided(n as real, Pow10(k), Ten(-k) as real);
    }
    SignTimes(n as real, Pow10(k));
  }

  lemma RealProduct(a: nat, b: nat)
    ensures (a * b) as real == a as real * b as real
  {
  }

  lemma SignTimes(a: real, b: real)
    ensures 1.0 * a * b == a * b && -1.0 * a * b == -(a * b)
  {
  }

  // ----- the part in front of the dot

  lemma FloorOf(n: nat, t: nat)
    requires t > 0
    ensures n as real / t as real >= 0.0 && (n as real / t as real).Floor == n / t
  {
    var q, r := n / t, n % t;
    assert n == q * t + r;
    RealProduct(q, t);
    var x := n as real / t as real;
    assert x * t as real == n as real;
    assert x * t as real == q as real * t as real + r as real;
    Between(x, q as real, t as real, r as real);
  }

  lemma Between(x: real, q: real, t: real, r: real)
    requires t > 0.0 && 0.0 <= r < t && x * t == q * t + r
    ensures q <= x < q + 1.0
  {
    assert (q + 1.0) * t == q * t + t;
    NotBelow(q, x, t);
    if x >= q + 1.0 {
      NotAbove(q + 1.0, x, t);
    }
  }

  lemma NotBelow(a: real, b: real, t: real)
    requires t > 0.0 && a * t <= b * t
    ensures a <= b
  {
    assert (a - b) * t == a * t - b * t;
  }

  lemma NotAbove(a: real, b: real, t: real)
    requires t > 0.0 && a <= b
    ensures a * t <= b * t
  {
  }

  lemma TruncateIs(m: Numeral)
    ensures Truncate(Worth(m)) == Whole(m)
  {
    hide Dec, Ten, Places;
    var n, k := Dec(m.whole + m.fraction), Places(m);
    if k >= 0 {
      assert Magnitude(m) == (n * Ten(k)) as real;
    } else {
      FloorOf(n, Ten(-k));
    }
  }

  // ----- numbers

  /** A number, however it is spelled, is read as what it is worth, and as the integer in front of the dot. */
  lemma NumeralRead(m: Numeral, tail: seq<byte>)
    requires Proper(m) && Ends(m, tail)
    ensures ParseNumber(NumeralText(m) + tail) == (Worth(m), tail)
    ensures ParseValue(NumeralText(m) + tail) == Ok(Number(Worth(m), Whole(m)), tail)
  {
    hide Scaled, Fraction, Exponent, IntegerPart, Worth, Whole, Truncate, PowerText, FractionText, DigitsText;
    var s := NumeralText(m) + tail;
    var s3 := PowerText(m.power) + tail;
    var s2 := FractionText(m) + s3;
    var s1 := DigitsText(m.whole) + s2;
    NumeralShape(m, tail);
    WholeRead(m, s2);
    FractionRead(m, s3);
    PowerRead(m.power, tail);
    MagnitudeIs(m);
    TruncateIs(m);
    NumberStep(s, Worth(m), tail);
  }

  lemma NumeralShape(m: Numeral, tail: seq<byte>)
    requires Proper(m) && Ends(m, tail)
    ensures var s3 := PowerText(m.power) + tail;
      var s2 := FractionText(m) + s3;
      var s1 := DigitsText(m.whole) + s2;
      && NumeralText(m) + tail == (if m.negative then [MINUS] + s1 else s1)
      && s1 != [] && IsDigit(s1[0])
      && (m.negative ==> (NumeralText(m) + tail)[1..] == s1)
      && !IsDigit(Hd(s2)) && !IsDigit(Hd(s3))
      && (m.fraction == [] ==> !(Hd(s3) == DOT && IsDigit(Hd(s3[1..]))))
  {
    hide DigitsText, FractionText, PowerText;
    var s3 := PowerText(m.power) + tail;
    var s2 := FractionText(m) + s3;
    var s1 := DigitsText(m.whole) + s2;
    PowerHead(m, tail);
    FractionHead(m, s3);
    DigitsHead(m.whole, s2);
    var digits := DigitsText(m.whole) + (FractionText(m) + PowerText(m.power));
    Assoc(FractionText(m), PowerText(m.power), tail);
    Assoc(DigitsText(m.whole), FractionText(m) + PowerText(m.power), tail);
    if m.negative {
      Assoc([MINUS], digits, tail);
    } else {
      assert [] + digits == digits;
    }
  }

  lemma PowerHead(m: Numeral, tail: seq<byte>)
    requires Proper(m) && Ends(m, tail)
    ensures var s := PowerText(m.power) + tail;
      !IsDigit(Hd(s)) && (m.fraction == [] ==> !(Hd(s) == DOT && IsDigit(Hd(s[1..]))))
  {
    hide DigitsText;
    if m.power == None {
      assert PowerText(m.power) + tail == tail;
    }
  }

  lemma FractionHead(m: Numeral, rest: seq<byte>)
    requires Proper(m) && !IsDigit(Hd(rest))
    ensures !IsDigit(Hd(FractionText(m) + rest))
  {
    hide DigitsText;
    if m.fraction == [] {
      assert FractionText(m) + rest == rest;
    }
  }
}
