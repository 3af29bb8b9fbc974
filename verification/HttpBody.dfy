// The chunked transfer coding (section 4.1 of RFC 7230) and the socket it
// arrives on.
module HttpBody {
  import opened CText
  import opened Memory
  import Hex

  const CRLF: seq<byte> := [13, 10]

  /** The most bytes read into the buffers at a time; both are one byte longer. */
  const MAX_LEN: nat := 1024

  /** A size line: hexadecimal digits, each in upper or lower case, and extensions. */
  datatype SizeText = SizeText(digits: seq<nat>, upper: seq<bool>, extension: seq<byte>)

  datatype Chunk = Chunk(size: SizeText, data: seq<byte>)

  function HexDigitValue(c: byte): Option<nat> {
    if 48 <= c <= 57 then Some(c - 48)
    else if 65 <= c <= 70 then Some(c - 55)
    else if 97 <= c <= 102 then Some(c - 87)
    else None
  }

  function HexOnto(line: seq<byte>, n: nat): nat {
    if line != [] && HexDigitValue(line[0]).Some? then HexOnto(line[1..], n * 16 + HexDigitValue(line[0]).value) else n
  }

  /** The number at the start of a size line. */
  function ScanHex(line: seq<byte>): Option<nat> {
    if line == [] || HexDigitValue(line[0]).None? then None else Some(HexOnto(line, 0))
  }

  /** The first CR LF of s is at i. */
  predicate EndsAt(s: seq<byte>, i: nat) {
    && i + 2 <= |s| && s[i] == CR && s[i + 1] == LF
    && forall k :: 0 <= k < i ==> !(s[k] == CR && s[k + 1] == LF)
  }

  function FirstCrlf(s: seq<byte>): (r: Option<nat>)
    ensures r.Some? ==> EndsAt(s, r.value)
    ensures r.None? ==> forall k :: 0 <= k < |s| - 1 ==> !(s[k] == CR && s[k + 1] == LF)
  {
    if |s| < 2 then None
    else if s[0] == CR && s[1] == LF then Some(0)
    else match FirstCrlf(s[1..])
      case None =>
        assert forall k :: 1 <= k < |s| - 1 ==> s[1..][k - 1] == s[k] && s[1..][k] == s[k + 1];
        None
      case Some(i) =>
        assert forall k :: 1 <= k < i + 2 ==> s[1..][k - 1] == s[k];
        Some(i + 1)
  }

  /** Where the size line ends: at the first CR LF, if that and a byte after it fit the buffer. */
  function LineEnd(inp: seq<byte>): (r: Option<nat>)
    ensures r.Some? ==> r.value + 2 < |inp| && r.value + 3 <= MAX_LEN && EndsAt(inp, r.value)
  {
    match FirstCrlf(inp)
    case Some(i) => if i + 2 < |inp| && i + 3 <= MAX_LEN then Some(i) else None
    case None => None
  }

  /** The digits are digits, and the extensions do not look like more of them. */
  predicate Proper(t: SizeText) {
    && t.digits != [] && |t.digits| == |t.upper| && (forall i :: 0 <= i < |t.digits| ==> t.digits[i] < 16)
    && (t.extension != [] ==>
          !Hex.IsDigitByte(t.extension[0]) && t.extension[0] != 88 && t.extension[0] != 120)
  }

  function Line(t: SizeText): seq<byte>
    requires Proper(t)
  {
    Hex.Written(t.digits, t.upper) + t.extension
  }

  /** A size line of the given size that fits the buffer with the byte after it. */
  predicate SizeLine(t: SizeText, size: nat) {
    && Proper(t) && Hex.Positional(t.digits) == size
    && |Line(t)| + 3 <= MAX_LEN && EndsAt(Line(t) + CRLF, |Line(t)|)
  }

  /** The body: chunks, the line of the last chunk, and what comes after it. */
  function Encode(chunks: seq<Chunk>, last: SizeText, trailer: seq<byte>): seq<byte>
    requires WellFormed(chunks, last, trailer)
  {
    if chunks == [] then Line(last) + (CRLF + trailer)
    else Line(chunks[0].size) + (CRLF + (chunks[0].data + (CRLF + Encode(chunks[1..], last, trailer))))
  }

  predicate WellFormed(chunks: seq<Chunk>, last: SizeText, trailer: seq<byte>) {
    && (forall i :: 0 <= i < |chunks| ==> chunks[i].data != [] && SizeLine(chunks[i].size, |chunks[i].data|))
    && SizeLine(last, 0) && trailer != []
  }

  /** What the chunks carry. */
  function Payload(chunks: seq<Chunk>): seq<byte> {
    if chunks == [] then [] else chunks[0].data + Payload(chunks[1..])
  }

  /**
   * What the receiver makes of a body that is all there: its data, or the data
   * up to a fault. A body that stops short where the receiver waits for more is
   * endless.
   */
  datatype Decoding = Done(data: seq<byte>) | Bad(data: seq<byte>) | Endless(data: seq<byte>)

  function Prepend(data: seq<byte>, d: Decoding): Decoding {
    match d
    case Done(more) => Done(data + more)
    case Bad(more) => Bad(data + more)
    case Endless(more) => Endless(data + more)
  }

  function Decode(inp: seq<byte>): Decoding
    decreases |inp|, 1
  {
    match LineEnd(inp)
    case None => if |inp| >= MAX_LEN then Bad([]) else Endless([])
    case Some(i) =>
      match ScanHex(inp[..i])
      case None => Bad([])
      case Some(size) => DecodeData(size, inp[i + 2..])
  }

  /** Decoding from behind a size line. */
  function DecodeData(size: nat, rest: seq<byte>): Decoding
    decreases |rest|, 2
  {
    if size == 0 then Done([])
    else if size + 2 <= MAX_LEN then
      if |rest| < size + 2 then Bad([])
      else if rest[size..size + 2] != CRLF then Bad(rest[..size])
      else Prepend(rest[..size], Decode(rest[size + 2..]))
    else if |rest| < size then Endless([])
    else if |rest| < size + 2 || rest[size..size + 2] != CRLF then Bad(rest[..size])
    else Prepend(rest[..size], Decode(rest[size + 2..]))
  }

  // ----- every well-formed body is decoded

  lemma {:induction false} FirstIsAt(s: seq<byte>, i: nat)
    requires EndsAt(s, i)
    ensures FirstCrlf(s) == Some(i)
  {
    var r := FirstCrlf(s);
    assert s[i] == CR;
    if r.Some? {
      assert s[r.value] == CR;
    }
  }

  lemma DigitScanned(d: nat, upper: bool)
    requires d < 16
    ensures HexDigitValue(Hex.Digit(d, upper)) == Some(d)
  {
    Hex.DigitForm(d, upper);
  }

  /** The digits of s, of which k have been read. */
  lemma {:induction false} DigitsScanned(t: SizeText, k: nat)
    requires Proper(t) && k <= |t.digits|
    ensures HexOnto(Line(t)[k..], Hex.Positional(t.digits[..k])) == Hex.Positional(t.digits)
    decreases |t.digits| - k
  {
    var s := Line(t)[k..];
    if k == |t.digits| {
      assert s == t.extension && t.digits[..k] == t.digits;
      if s != [] {
        Hex.DigitBytes(s[0]);
      }
    } else {
      DigitScanned(t.digits[k], t.upper[k]);
      assert s[0] == Hex.Digit(t.digits[k], t.upper[k]) && s[1..] == Line(t)[k + 1..];
      assert t.digits[..k + 1][..k] == t.digits[..k];
      DigitsScanned(t, k + 1);
    }
  }

  /** A size line is scanned as the number that its digits are worth in their places. */
  lemma LineScanned(t: SizeText)
    requires Proper(t)
    ensures ScanHex(Line(t)) == Some(Hex.Positional(t.digits))
  {
    DigitsScanned(t, 0);
    DigitScanned(t.digits[0], t.upper[0]);
    assert Line(t)[0..] == Line(t) && t.digits[..0] == [];
    assert Line(t)[0] == Hex.Digit(t.digits[0], t.upper[0]);
  }

  /** Every size can be written, and is scanned as it was written. */
  lemma AnySize(n: nat) returns (t: SizeText)
    ensures Proper(t) && t.extension == [] && Hex.Positional(t.digits) == n && ScanHex(Line(t)) == Some(n)
  {
    var digits := Hex.DigitsOf(n);
    t := SizeText(digits, seq(|digits|, _ => false), []);
    LineScanned(t);
  }

  lemma LineDecoded(t: SizeText, size: nat, rest: seq<byte>)
    requires SizeLine(t, size) && rest != []
    ensures Decode(Line(t) + (CRLF + rest)) == DecodeData(size, rest)
  {
    var line := Line(t);
    LineScanned(t);
    var inp := line + (CRLF + rest);
    var head := line + CRLF;
    assert inp == head + rest;
    assert forall k :: 0 <= k < |head| ==> inp[k] == head[k];
    assert EndsAt(inp, |line|);
    FirstIsAt(inp, |line|);
    assert inp[..|line|] == line && inp[|line| + 2..] == rest;
    hide DecodeData, ScanHex;
  }

  lemma DataDecoded(data: seq<byte>, rest: seq<byte>)
    requires data != []
    ensures DecodeData(|data|, data + (CRLF + rest)) == Prepend(data, Decode(rest))
  {
    hide Decode;
    var r := data + (CRLF + rest);
    assert r[..|data|] == data && r[|data|..|data| + 2] == CRLF && r[|data| + 2..] == rest;
  }

  /** The receiver recovers the payload of every well-formed body. */
  lemma {:induction false} DecodeEncode(chunks: seq<Chunk>, last: SizeText, trailer: seq<byte>)
    requires WellFormed(chunks, last, trailer)
    ensures Decode(Encode(chunks, last, trailer)) == Done(Payload(chunks))
  {
    hide SizeLine, Decode;
    if chunks == [] {
      LineDecoded(last, 0, trailer);
    } else {
      var c, rest := chunks[0], Encode(chunks[1..], last, trailer);
      var tail := c.data + (CRLF + rest);
      LineDecoded(c.size, |c.data|, tail);
      DataDecoded(c.data, rest);
      DecodeEncode(chunks[1..], last, trailer);
    }
  }

  /**
   * A body that ends inside its first chunk: a fault, with the data that is
   * whole. Only the data of a chunk above the buffer size is waited for.
   */
  lemma CutInside(t: SizeText, size: nat, rest: seq<byte>)
    requires SizeLine(t, size) && size > 0 && 0 < |rest| < size + 2
    ensures Decode(Line(t) + (CRLF + rest)) ==
            if size + 2 > MAX_LEN && |rest| < size then Endless([])
            else if size + 2 > MAX_LEN then Bad(rest[..size])
            else Bad([])
  {
    LineDecoded(t, size, rest);
  }

  /** A chunk without its CR LF: a fault behind its data. */
  lemma NoCrlf(t: SizeText, data: seq<byte>, rest: seq<byte>)
    requires SizeLine(t, |data|) && data != [] && |rest| >= 2 && rest[..2] != CRLF
    ensures Decode(Line(t) + (CRLF + (data + rest))) == Bad(data)
  {
    var all := data + rest;
    LineDecoded(t, |data|, all);
    assert all[..|data|] == data && all[|data|..|data| + 2] == rest[..2];
    hide Decode;
  }

  datatype Result = HttpOk | HttpConn | HttpTimeout | HttpPrtcl | HttpFailed

  /**
   * A connection: the bytes still to come, and how the next calls of recv end.
   * A negative entry is an error; any other is the most bytes that call gives.
   */
  class Socket {
    var stream: seq<byte>
    var plan: seq<int>

    constructor (bytes: seq<byte>, calls: seq<int>)
      ensures stream == bytes && plan == calls
    {
      stream := bytes;
      plan := calls;
    }

    /** ops.recv: some bytes, zero at the end of the stream, or a negative number. */
    method Recv(dst: array<byte>, at: nat, max: nat) returns (ret: int)
      requires max > 0 && at + max <= dst.Length
      modifies this, dst
      ensures ret <= max && ret <= |old(stream)|
      ensures ret == 0 ==> old(stream) == []
      ensures ret < 0 ==> old(plan) != [] && old(plan)[0] < 0
      ensures stream == if ret > 0 then old(stream)[ret..] else old(stream)
      ensures ret > 0 ==> dst[..at + ret] == old(dst[..at]) + old(stream)[..ret]
      ensures ret <= 0 ==> dst[..at] == old(dst[..at])
      ensures plan == if old(plan) == [] then [] else old(plan)[1..]
    {
      var next := if plan == [] then max else plan[0];
      plan := if plan == [] then [] else plan[1..];
      if next < 0 {
        ret := -1;
      } else {
        var give := if next == 0 then 1 else next;
        ret := if give > max then max else give;
        ret := if ret > |stream| then |stream| else ret;
        Store(dst, at, stream[..ret]);
        stream := stream[ret..];
      }
    }
  }
}
