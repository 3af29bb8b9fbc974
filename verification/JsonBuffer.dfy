// The print buffer, which grows to powers of two, and its size computation.
module JsonBuffer {
  import opened CText
  import opened Memory
  import opened Bits
  import opened JsonWriter

  // ----- the next power of two

  /** The w bits of y from bit m down are set (or all from m down), and none above. */
  ghost predicate TopOnes(y: nat, m: nat, w: nat) {
    y < Pow2(m + 1) && forall i :: 0 <= i <= m && m < i + w ==> Bit(y, i)
  }

  lemma {:induction false} TopBit(x: nat) returns (m: nat)
    requires x > 0
    ensures Pow2(m) <= x < Pow2(m + 1) && Bit(x, m)
  {
    if x == 1 {
      m := 0;
    } else {
      var k := TopBit(x / 2);
      m := k + 1;
    }
  }

  lemma {:induction false} ShrBelow(y: nat, k: nat)
    ensures Shr(y, k) <= y
  {
    if k > 0 {
      ShrBelow(y / 2, k - 1);
    }
  }

  /** One line of pow2gt doubles the run of ones. */
  lemma Smear(y: nat, m: nat, w: nat)
    requires TopOnes(y, m, w)
    ensures TopOnes(Or(y, Shr(y, w)), m, 2 * w)
  {
    ShrBelow(y, w);
    OrBelow(y, Shr(y, w), m + 1);
    forall i | 0 <= i <= m && m < i + 2 * w
      ensures Bit(Or(y, Shr(y, w)), i)
    {
      OrBit(y, Shr(y, w), i);
      ShrBit(y, w, i);
      assert m < i + w ==> Bit(y, i);
      assert i + w <= m ==> Bit(y, i + w);
    }
  }

  lemma {:induction false} Pow2Grows(k: nat, n: nat)
    requires k < n
    ensures 2 * Pow2(k) <= Pow2(n)
  {
    if k + 1 < n {
      Pow2Grows(k, n - 1);
    }
  }

  /** r is the least power of two that is not below x. */
  ghost predicate LeastPow2(r: nat, x: nat) {
    && (exists k: nat :: r == Pow2(k))
    && x <= r
    && forall k: nat :: x <= Pow2(k) ==> r <= Pow2(k)
  }

  lemma LeastAbove(x: nat, m: nat)
    requires Pow2(m) < x <= Pow2(m + 1)
    ensures LeastPow2(Pow2(m + 1), x)
  {
    forall k: nat | x <= Pow2(k)
      ensures Pow2(m + 1) <= Pow2(k)
    {
      if k <= m {
        if k < m {
          Pow2Grows(k, m);
        }
        assert false;
      } else if m + 1 < k {
        Pow2Grows(m + 1, k);
      }
    }
  }

  lemma SmearZero()
    ensures Or(0, Shr(0, 1)) == 0 && Or(0, Shr(0, 2)) == 0 && Or(0, Shr(0, 4)) == 0
    ensures Or(0, Shr(0, 8)) == 0 && Or(0, Shr(0, 16)) == 0
  {
    ShrBelow(0, 1);
    ShrBelow(0, 2);
    ShrBelow(0, 4);
    ShrBelow(0, 8);
    ShrBelow(0, 16);
  }

  lemma {:induction false} LeastOne()
    ensures LeastPow2(1, 1)
  {
    assert Pow2(0) == 1;
  }

  lemma Filled(y: nat, m: nat)
    requires TopOnes(y, m, 32) && m < 32
    ensures y == Pow2(m + 1) - 1
  {
    forall i | 0 <= i < m + 1
      ensures Bit(y, i)
    {
    }
    AllOnes(y, m + 1);
  }

  lemma TopStart(x: nat, m: nat)
    requires Pow2(m) <= x < Pow2(m + 1) && Bit(x, m)
    ensures TopOnes(x, m, 1)
  {
  }

  lemma Pow2Bound(m: nat)
    requires Pow2(m) < 0x4000_0000
    ensures m < 30 && Pow2(m + 1) <= 0x4000_0000
  {
    PowersOfTwo();
    if m >= 30 {
      if m > 30 {
        Pow2Grows(30, m);
      }
    } else if m < 29 {
      Pow2Grows(m + 1, 30);
    }
  }

  lemma PowersOfTwo()
    ensures Pow2(10) == 0x400 && Pow2(20) == 0x10_0000 && Pow2(30) == 0x4000_0000
  {
    ShlMul(1, 10);
    assert Pow2(5) == 32;
    assert Pow2(10) == 0x400;
    assert Pow2(15) == 0x8000;
    assert Pow2(20) == 0x10_0000;
    assert Pow2(25) == 0x200_0000;
    assert Pow2(30) == 0x4000_0000;
  }

  /** pow2gt, on the sizes for which it does not overflow. */
  method Pow2gt(size: nat) returns (r: nat)
    requires 1 <= size <= 0x4000_0000
    ensures LeastPow2(r, size) && r <= 0x4000_0000
  {
    hide Or, Shr, TopOnes, LeastPow2, Pow2, Bit;
    var x: nat := size - 1;
    ghost var m: nat := 0;
    if x > 0 {
      m := TopBit(x);
      TopStart(x, m);
      Pow2Bound(m);
      LeastAbove(size, m);
      Smear(x, m, 1);
    } else {
      SmearZero();
      LeastOne();
    }
    x := Or(x, Shr(x, 1));
    if size > 1 { Smear(x, m, 2); }
    x := Or(x, Shr(x, 2));
    if size > 1 { Smear(x, m, 4); }
    x := Or(x, Shr(x, 4));
    if size > 1 { Smear(x, m, 8); }
    x := Or(x, Shr(x, 8));
    if size > 1 { Smear(x, m, 16); }
    x := Or(x, Shr(x, 16));
    if size > 1 { Filled(x, m); }
    r := x + 1;
  }

  // ----- the buffer

  /** Sizes up to here are computed without overflow. */
  const LIMIT: nat := 0x4000_0000

  class PrintBuffer {
    var buffer: array<byte>
    var length: nat
    var offset: nat

    ghost predicate Valid()
      reads this
    {
      length == buffer.Length && offset <= length
    }

    /** What has been written. */
    ghost function Done(): seq<byte>
      requires Valid()
      reads this, buffer
    {
      buffer[..offset]
    }

    constructor (prebuffer: nat)
      ensures Valid() && fresh(buffer) && offset == 0 && length == prebuffer
    {
      buffer := new byte[prebuffer];
      length := prebuffer;
      offset := 0;
    }

    /** Make room for needed bytes: the old contents move to a bigger block if they must. */
    method Ensure(needed: nat)
      requires Valid() && offset + needed <= LIMIT
      modifies `buffer, `length
      ensures Valid() && offset + needed <= length && Done() == old(Done())
      ensures buffer == old(buffer) || fresh(buffer)
      ensures old(offset + needed <= length) ==> buffer == old(buffer) && length == old(length)
      ensures old(offset + needed > length) ==> LeastPow2(length, offset + needed)
    {
      hide LeastPow2;
      var total := needed + offset;
      if total <= length {
        return;
      }
      var newsize := Pow2gt(total);
      AtLeast(newsize, total);
      var newbuffer := new byte[newsize];
      Copy(newbuffer, 0, buffer, 0, length);
      assert newbuffer[..length][..offset] == newbuffer[..offset];
      assert buffer[..length][..offset] == buffer[..offset];
      length := newsize;
      buffer := newbuffer;
    }

    /** The offset behind the text at the offset. */
    method Update(ghost text: seq<byte>) returns (n: nat)
      requires Valid() && Holds(buffer[..], offset, text) && NulFree(text)
      ensures n == offset + |text|
    {
      var len := StrLen(buffer, offset, text);
      n := offset + len;
    }
  }

  lemma AtLeast(r: nat, x: nat)
    requires LeastPow2(r, x)
    ensures x <= r
  {
  }
}
