// The hash of long data: the first 4096 bytes and then one block of at most 256
// bytes in every stretch of a fixed length.
module SamplingHash {
  import opened CText
  import opened Bits

  const SHORT: nat := 4096
  const MEDIUM: nat := 0x4_0000
  const BLOCK: nat := 256

  function SkipFor(size: nat): (skip: nat)
    ensures BLOCK < skip <= 257 * BLOCK
  {
    if size <= MEDIUM then 17 * BLOCK else 257 * BLOCK
  }

  /** Where the blocks start. */
  function Starts(off: nat, skip: nat, size: nat): (starts: seq<nat>)
    requires skip > 0
    ensures forall i :: 0 <= i < |starts| ==> off <= starts[i] < size
    decreases if off < size then size - off else 0
  {
    if off >= size then [] else [off] + Starts(off + skip, skip, size)
  }

  function BlockLength(start: nat, size: nat): nat
    requires start < size
  {
    if size - start > BLOCK then BLOCK else size - start
  }

  /** Bytes read for blocks that start there. */
  function BytesOf(starts: seq<nat>, size: nat): nat
    requires forall i :: 0 <= i < |starts| ==> starts[i] < size
  {
    if starts == [] then 0 else BlockLength(starts[0], size) + BytesOf(starts[1..], size)
  }

  /** The hashes of the blocks, mixed into the first one. */
  function Mixed(compute: (seq<byte>, nat) -> nat, data: seq<byte>, seed: nat, hash: nat, starts: seq<nat>): nat
    requires forall i :: 0 <= i < |starts| ==> starts[i] < |data|
    decreases |starts|
  {
    if starts == [] then hash
    else
      var s := starts[0];
      Mixed(compute, data, seed, Xor(hash, compute(data[s..s + BlockLength(s, |data|)], seed)), starts[1..])
  }

  /** Block k starts k stretches behind the first one, inside the data. */
  lemma {:induction false} StartAt(off: nat, skip: nat, size: nat, k: nat)
    requires skip > 0 && k < |Starts(off, skip, size)|
    ensures Starts(off, skip, size)[k] == off + k * skip < size
    decreases k
  {
    if k > 0 {
      StartAt(off + skip, skip, size, k - 1);
      assert skip + (k - 1) * skip == k * skip;
    }
  }

  /** No two blocks share a byte. */
  lemma BlocksApart(off: nat, skip: nat, size: nat, i: nat, j: nat)
    requires skip > BLOCK && i < j < |Starts(off, skip, size)|
    ensures var s := Starts(off, skip, size);
      s[i] < size && s[i] + BlockLength(s[i], size) <= s[j]
  {
    hide Starts;
    StartAt(off, skip, size, i);
    StartAt(off, skip, size, j);
    OneStretch(i, j, skip);
  }

  lemma {:induction false} OneStretch(i: nat, j: nat, skip: nat)
    requires i < j
    ensures i * skip + skip <= j * skip
    decreases j
  {
    assert j * skip == (j - 1) * skip + skip;
    if i < j - 1 {
      OneStretch(i, j - 1, skip);
    }
  }

  /** There are as many blocks as stretches begun, and no more. */
  lemma {:induction false} BlockCount(off: nat, skip: nat, size: nat)
    requires skip > 0
    ensures var n := |Starts(off, skip, size)|;
      if off >= size then n == 0 else (n - 1) * skip < size - off <= n * skip
    decreases if off < size then size - off else 0
  {
    if off < size {
      BlockCount(off + skip, skip, size);
      var n := |Starts(off + skip, skip, size)|;
      assert (n + 1) * skip == n * skip + skip;
      assert n >= 1 ==> (n - 1) * skip + skip == n * skip;
    }
  }

  /** Every stretch of skip bytes behind the first block has the start of a block in it. */
  lemma {:induction false} NoLongGap(off: nat, skip: nat, size: nat, x: nat) returns (k: nat)
    requires skip > 0 && off <= x < size
    ensures k < |Starts(off, skip, size)| && Starts(off, skip, size)[k] <= x < Starts(off, skip, size)[k] + skip
    decreases x - off
  {
    if x < off + skip {
      k := 0;
    } else {
      var j := NoLongGap(off + skip, skip, size, x);
      k := j + 1;
    }
  }

  lemma {:induction false} BytesBound(starts: seq<nat>, size: nat)
    requires forall i :: 0 <= i < |starts| ==> starts[i] < size
    ensures BytesOf(starts, size) <= BLOCK * |starts|
  {
    if starts != [] {
      BytesBound(starts[1..], size);
    }
  }

  function CeilDiv(a: nat, b: nat): nat
    requires b > 0
  {
    (a + b - 1) / b
  }

  lemma CeilAtLeast(n: nat, a: nat, b: nat)
    requires b > 0 && (n == 0 || (n - 1) * b < a)
    ensures n <= CeilDiv(a, b)
  {
    if n > 0 {
      assert n * b == (n - 1) * b + b;
      DivAtLeast(n, a + b - 1, b);
    }
  }

  lemma DivAtLeast(n: nat, m: nat, b: nat)
    requires b > 0 && n * b <= m
    ensures n <= m / b
  {
    var q := m / b;
    assert m < q * b + b;
    if n > q {
      OneStretch(q, n, b);
    }
  }

  /** The work is bounded: at most one block for every stretch begun behind the prefix. */
  lemma WorkBound(off: nat, skip: nat, size: nat)
    requires skip > BLOCK && SHORT <= off && SHORT < size
    ensures SHORT + BytesOf(Starts(off, skip, size), size) <= SHORT + BLOCK * CeilDiv(size - SHORT, skip)
  {
    var s := Starts(off, skip, size);
    BytesBound(s, size);
    BlockCount(off, skip, size);
    CeilAtLeast(|s|, size - SHORT, skip);
  }

  /** For no data of up to one megabyte are more than 19456 bytes read; past the medium length, no more than 8192. */
  lemma WorkUpToMegabyte(off: nat, size: nat)
    requires SHORT <= off && SHORT < size <= 0x10_0000
    ensures SHORT + BytesOf(Starts(off, SkipFor(size), size), size) <= if size <= MEDIUM then 19456 else 8192
  {
    WorkBound(off, SkipFor(size), size);
    if size <= MEDIUM {
      assert CeilDiv(size - SHORT, 4352) <= 60;
    } else {
      assert CeilDiv(size - SHORT, 65792) <= 16;
    }
  }

  /** Where sampling begins, depending on the hash of the prefix. */
  function FirstOffset(size: nat, hash: nat): (off: nat)
    ensures SHORT <= off < SHORT + SkipFor(size)
  {
    SHORT + SkipFor(size) * (hash % 256) / 256
  }

  // ----- offsets that wrap around

  /** The offset of round k of the loop, computed modulo width. */
  function OffsetAt(off: nat, skip: nat, width: nat, k: nat): nat
    requires width > 0
    decreases k
  {
    if k == 0 then off else (OffsetAt(off, skip, width, k - 1) + skip) % width
  }

  lemma Wrap(y: nat, n: nat)
    requires y < 2 * n
    ensures y % n == if y < n then y else y - n
  {
  }

  lemma NextProduct(k: nat, n: nat)
    ensures (k + 1) * n == k * n + n
  {
  }

  /** How often the offset has wrapped around. */
  lemma {:induction false} Laps(off: nat, skip: nat, width: nat, k: nat) returns (laps: nat)
    requires off < width && skip < width
    ensures var at := OffsetAt(off, skip, width, k); at < width && at + laps * width == off + k * skip
    decreases k
  {
    if k == 0 {
      laps := 0;
    } else {
      laps := Laps(off, skip, width, k - 1);
      var y := OffsetAt(off, skip, width, k - 1) + skip;
      Wrap(y, width);
      NextProduct(k - 1, skip);
      if y >= width {
        NextProduct(laps, width);
        laps := laps + 1;
      }
    }
  }

  lemma Unique(p: nat, x: nat, q: nat, y: nat, n: nat)
    requires x + p * n == y + q * n && x < n && y < n
    ensures x == y
  {
    if p < q {
      OneStretch(p, q, n);
    } else if q < p {
      OneStretch(q, p, n);
    }
  }

  /** The round in which the offset is in the last place it can reach. */
  lemma LastPlace(off: nat, w: nat, inverse: nat) returns (k: nat)
    requires off < 256 * w && 257 < w && 257 * inverse == w + 1
    ensures OffsetAt(off, 257 * BLOCK, 256 * w, k) == 256 * w - 256 + off % 256
  {
    hide OffsetAt;
    var t := 2 * w - 1 - off / 256;
    k := inverse * t;
    Products(inverse, t, w);
    var laps := Laps(off, 257 * BLOCK, 256 * w, k);
    Unique(laps, OffsetAt(off, 257 * BLOCK, 256 * w, k), t + 1, 256 * w - 256 + off % 256, 256 * w);
  }

  lemma Products(inverse: nat, t: nat, w: nat)
    requires 257 * inverse == w + 1
    ensures 257 * (inverse * t) == w * t + t && (t + 1) * (256 * w) == 256 * (w * t) + 256 * w
  {
    assert 257 * (inverse * t) == (257 * inverse) * t;
    assert (t + 1) * (256 * w) == t * (256 * w) + 256 * w;
    assert t * (256 * w) == 256 * (w * t);
  }

  /** All offsets are alike modulo 256, so none is behind the last place. */
  lemma {:induction false} SamePlace(off: nat, w: nat, k: nat)
    requires off < 256 * w && 257 < w
    ensures var at := OffsetAt(off, 257 * BLOCK, 256 * w, k);
      at < 256 * w && at % 256 == off % 256 && at <= 256 * w - 256 + off % 256
    decreases k
  {
    hide OffsetAt;
    var at := OffsetAt(off, 257 * BLOCK, 256 * w, k);
    if k == 0 {
      NoRound(off, 257 * BLOCK, 256 * w);
    } else {
      SamePlace(off, w, k - 1);
      OneRound(off, 257 * BLOCK, 256 * w, k - 1);
      SameByte(OffsetAt(off, 257 * BLOCK, 256 * w, k - 1), w, at);
    }
    BelowLast(at, w);
  }

  lemma NoRound(off: nat, skip: nat, width: nat)
    requires width > 0
    ensures OffsetAt(off, skip, width, 0) == off
  {
  }

  lemma OneRound(off: nat, skip: nat, width: nat, k: nat)
    requires skip < width && OffsetAt(off, skip, width, k) < width
    ensures var y := OffsetAt(off, skip, width, k) + skip;
      OffsetAt(off, skip, width, k + 1) == if y < width then y else y - width
  {
    Wrap(OffsetAt(off, skip, width, k) + skip, width);
  }

  lemma SameByte(x: nat, w: nat, next: nat)
    requires next == x + 257 * BLOCK || next == x + 257 * BLOCK - 256 * w
    ensures next % 256 == x % 256
  {
  }

  lemma BelowLast(x: nat, w: nat)
    requires x < 256 * w
    ensures x <= 256 * w - 256 + x % 256
  {
  }

  /**
   * With offsets of 32 or 64 bits, the loop over long data ends if and only if
   * the data leaves room for an offset behind it that is like the first one
   * modulo 256, which is what the hash of the prefix is.
   */
  lemma LoopEnds(width: nat, size: nat, hash: nat)
    requires width == 0x1_0000_0000 || width == 0x1_0000_0000_0000_0000
    requires MEDIUM < size < width
    ensures (exists k: nat :: OffsetAt(FirstOffset(size, hash), SkipFor(size), width, k) >= size)
            <==> size <= width - 256 + hash % 256
  {
    hide OffsetAt;
    var off := FirstOffset(size, hash);
    FirstPlace(size, hash);
    forall k: nat | OffsetAt(off, 257 * BLOCK, width, k) >= size
      ensures size <= width - 256 + hash % 256
    {
      SamePlace(off, width / 256, k);
    }
    if size <= width - 256 + hash % 256 {
      var inverse := if width == 0x1_0000_0000 then 65281 else 280379743338241;
      var k := LastPlace(off, width / 256, inverse);
      assert OffsetAt(off, 257 * BLOCK, width, k) >= size;
    }
  }

  /**
   * One byte less than 32 bits can count, and a hash of the prefix that ends in
   * eight zeros: the offsets never leave the data. No object is that large in an
   * address space of 32 bits; this is about the arithmetic alone.
   */
  lemma Endless(k: nat)
    ensures var size := 0xffff_ffff;
      OffsetAt(FirstOffset(size, 0), SkipFor(size), 0x1_0000_0000, k) < size
  {
    hide OffsetAt, FirstOffset, SkipFor;
    LoopEnds(0x1_0000_0000, 0xffff_ffff, 0);
  }

  lemma FirstPlace(size: nat, hash: nat)
    requires size > MEDIUM
    ensures FirstOffset(size, hash) == 4096 + 257 * (hash % 256)
    ensures FirstOffset(size, hash) % 256 == hash % 256
  {
  }

  lemma OffsetIs(size: nat, hash: nat)
    ensures FirstOffset(size, hash) == SHORT + SkipFor(size) * (hash % 256) / 256
  {
  }

  /**
   * How densely the data is sampled: every byte behind the first offset is less
   * than 4352 bytes behind the start of a block, in long data less than 65792.
   */
  lemma Coverage(off: nat, size: nat, x: nat) returns (k: nat)
    requires off <= x < size
    ensures var starts := Starts(off, SkipFor(size), size);
      k < |starts| && starts[k] <= x < starts[k] + if size <= 0x4_0000 then 4352 else 65792
  {
    hide Starts;
    k := NoLongGap(off, SkipFor(size), size, x);
  }

  /** The last byte of the hash spreads the first offset evenly over one stretch. */
  lemma OffsetSpread(size: nat, hash: nat)
    ensures 256 * (FirstOffset(size, hash) - SHORT) == SkipFor(size) * (hash % 256)
    ensures FirstOffset(size, hash) < SHORT + SkipFor(size)
  {
  }

  const SEED: nat := 0x738b3f34

  /** The seed of one call: the size is mixed in. */
  function SeedFor(seed: nat, size: nat): nat {
    Xor(if seed != 0 then seed else SEED, size % 0x1_0000_0000)
  }

  /**
   * duer_hashcode. Offsets are computed modulo width; behind the data there is
   * room for one stretch.
   */
  method HashCode(data: seq<byte>, seed: nat, compute: (seq<byte>, nat) -> nat, width: nat)
    returns (hash: nat)
    requires width >= 0x1_0000_0000 && |data| + SkipFor(|data|) <= width
    ensures var s := SeedFor(seed, |data|);
      if |data| <= SHORT then hash == compute(data, s)
      else
        var first := compute(data[..SHORT], s);
        hash == Mixed(compute, data, s, first, Starts(FirstOffset(|data|, first), SkipFor(|data|), |data|))
  {
    hide Mixed, Starts, Xor, FirstOffset;
    var size := |data|;
    var strSeed := if seed != 0 then seed else SEED;
    strSeed := Xor(strSeed, size % 0x1_0000_0000);
    if size <= SHORT {
      return compute(data, strSeed);
    }
    var skip := if size <= MEDIUM then 16 * BLOCK + BLOCK else 256 * BLOCK + BLOCK;
    assert skip == SkipFor(size);
    hash := compute(data[..SHORT], strSeed);
    var off := SHORT + skip * (hash % 256) / 256;
    OffsetIs(size, hash);
    ghost var first := hash;
    ghost var starts := Starts(off, skip, size);
    ghost var rest := starts;
    while off < size
      invariant off < size + skip && rest == Starts(off, skip, size)
      invariant forall i :: 0 <= i < |rest| ==> rest[i] < size
      invariant Mixed(compute, data, strSeed, hash, rest) == Mixed(compute, data, strSeed, first, starts)
      decreases size + skip - off
    {
      var left := size - off;
      var now := if left > BLOCK then BLOCK else left;
      MixedStep(compute, data, strSeed, hash, off, skip);
      hash := Xor(hash, compute(data[off..off + now], strSeed));
      off := Advance(off, skip, width);
      rest := rest[1..];
    }
    MixedNone(compute, data, strSeed, hash, off, skip);
  }

  lemma MixedNone(compute: (seq<byte>, nat) -> nat, data: seq<byte>, seed: nat, hash: nat, off: nat, skip: nat)
    requires off >= |data| && skip > 0
    ensures Starts(off, skip, |data|) == [] && Mixed(compute, data, seed, hash, []) == hash
  {
  }

  /** off += skip, which does not wrap around here */
  method Advance(off: nat, skip: nat, width: nat) returns (next: nat)
    requires off + skip < width
    ensures next == off + skip
  {
    next := (off + skip) % width;
  }

  lemma MixedStep(compute: (seq<byte>, nat) -> nat, data: seq<byte>, seed: nat, hash: nat, off: nat, skip: nat)
    requires off < |data| && skip > 0
    ensures var rest := Starts(off, skip, |data|);
      && rest != [] && rest[1..] == Starts(off + skip, skip, |data|)
      && Mixed(compute, data, seed, hash, rest)
      == Mixed(compute, data, seed, Xor(hash, compute(data[off..off + BlockLength(off, |data|)], seed)), rest[1..])
  {
  }
}
