// Copying bytes between blocks of memory.
module Memory {
  import opened CText

  /** Store bytes at an offset. */
  method Store(dst: array<byte>, at: nat, bytes: seq<byte>)
    requires at + |bytes| <= dst.Length
    modifies dst
    ensures dst[..at + |bytes|] == old(dst[..at]) + bytes
    ensures dst[at + |bytes|..] == old(dst[at + |bytes|..])
  {
    var i := 0;
    while i < |bytes|
      invariant 0 <= i <= |bytes|
      invariant dst[..at + i] == old(dst[..at]) + bytes[..i]
      invariant dst[at + i..] == old(dst[at + i..])
    {
      dst[at + i] := bytes[i];
      assert bytes[..i + 1] == bytes[..i] + [bytes[i]];
      i := i + 1;
    }
    assert bytes[..i] == bytes;
  }

  /** memcpy from one block to another */
  method Copy(dst: array<byte>, at: nat, src: array<byte>, from: nat, n: nat)
    requires dst != src && at + n <= dst.Length && from + n <= src.Length
    modifies dst
    ensures dst[..at + n] == old(dst[..at]) + src[from..from + n]
    ensures dst[at + n..] == old(dst[at + n..])
  {
    Store(dst, at, src[from..from + n]);
  }
}
