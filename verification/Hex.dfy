// Hexadecimal digits, as a table, and what they are worth in their places.
module Hex {
  import opened CText

  const LOWER: seq<byte> := [48, 49, 50, 51, 52, 53, 54, 55, 56, 57, 97, 98, 99, 100, 101, 102]
  const UPPER: seq<byte> := [48, 49, 50, 51, 52, 53, 54, 55, 56, 57, 65, 66, 67, 68, 69, 70]

  function Digit(d: nat, upper: bool): byte
    requires d < 16
  {
    if upper then UPPER[d] else LOWER[d]
  }

  predicate IsDigitByte(c: byte) {
    c in LOWER || c in UPPER
  }

  /** The number with these digits, the most significant one first. */
  function Positional(digits: seq<nat>): nat {
    if digits == [] then 0 else 16 * Positional(digits[..|digits| - 1]) + digits[|digits| - 1]
  }

  /** The digits in their places, each in upper or lower case. */
  function Written(digits: seq<nat>, upper: seq<bool>): (s: seq<byte>)
    requires |digits| == |upper| && forall i :: 0 <= i < |digits| ==> digits[i] < 16
    ensures |s| == |digits|
  {
    seq(|digits|, i requires 0 <= i < |digits| => Digit(digits[i], upper[i]))
  }

  /** The digits of a number, without leading zeros. */
  function DigitsOf(n: nat): (digits: seq<nat>)
    ensures digits != [] && forall i :: 0 <= i < |digits| ==> digits[i] < 16
    ensures Positional(digits) == n
  {
    if n < 16 then [n]
    else
      var digits := DigitsOf(n / 16) + [n % 16];
      assert digits[..|digits| - 1] == DigitsOf(n / 16);
      digits
  }

  lemma DigitForm(d: nat, upper: bool)
    requires d < 16
    ensures Digit(d, upper) == if d < 10 then 48 + d else if upper then 65 + (d - 10) else 97 + (d - 10)
  {
    assert forall i :: 0 <= i < 10 ==> LOWER[i] == 48 + i && UPPER[i] == 48 + i;
    assert forall i :: 10 <= i < 16 ==> LOWER[i] == 87 + i && UPPER[i] == 55 + i;
  }

  lemma DigitBytes(c: byte)
    ensures IsDigitByte(c) <==> 48 <= c <= 57 || 65 <= c <= 70 || 97 <= c <= 102
  {
    if 48 <= c <= 57 {
      assert LOWER[c - 48] == c;
    } else if 65 <= c <= 70 {
      assert UPPER[c - 55] == c;
    } else if 97 <= c <= 102 {
      assert LOWER[c - 87] == c;
    }
  }
}
