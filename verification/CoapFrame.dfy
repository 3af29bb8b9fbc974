// CoAP messages over TCP: a message gets a header, is padded and encrypted, and
// goes out in an outer frame with a clear prefix.
module CoapFrame {
  import opened CText
  import opened Memory

  const TCP_HDR: nat := 0xbeefdead
  const AES_MAGIC: nat := 0xBDCAEC01
  const HEADER_SIZE: nat := 8
  const MIN_BODY: nat := 17
  const MAX_BODY: nat := 2048

  /** A number in network byte order. */
  function Be32(n: nat): (b: seq<byte>)
    ensures |b| == 4
  {
    [n / 0x1_00_0000 % 256, n / 0x1_0000 % 256, n / 0x100 % 256, n % 256]
  }

  function FromBe32(b: seq<byte>): nat
    requires |b| == 4
  {
    var h: int := b[0];
    ((h * 256 + b[1]) * 256 + b[2]) * 256 + b[3]
  }

  lemma Be32RoundTrip(n: nat)
    requires n < 0x1_0000_0000
    ensures FromBe32(Be32(n)) == n
  {
    var a, b, c := n / 0x100, n / 0x1_0000, n / 0x1_00_0000;
    assert b == a / 256 && c == b / 256 && c < 256;
    assert n == a * 256 + n % 256 && a == b * 256 + a % 256 && b == c * 256 + b % 256;
  }

  /**
   * Encryption and decryption in CBC mode (section 6.2 of NIST SP 800-38A) with
   * the key and the vector of a connection.
   */
  datatype Cipher = Cipher(enc: seq<byte> -> seq<byte>, dec: seq<byte> -> seq<byte>)

  ghost predicate Sound(c: Cipher) {
    && (forall x :: |x| % 16 == 0 ==> |c.enc(x)| == |x|)
    && (forall x :: |x| % 16 == 0 ==> c.dec(c.enc(x)) == x)
  }

  lemma EncryptedLength(c: Cipher, x: seq<byte>)
    requires Sound(c) && |x| % 16 == 0
    ensures |c.enc(x)| == |x| && c.dec(c.enc(x)) == x
  {
  }

  function Padding(size: nat): nat {
    if size % 16 != 0 then 16 - size % 16 else 0
  }

  function Zeros(n: nat): (z: seq<byte>)
    ensures |z| == n
  {
    seq(n, _ => 0)
  }

  /** A CoAP message with the header for TCP. */
  function Inner(msg: seq<byte>): seq<byte> {
    Be32(TCP_HDR) + (Be32(|msg|) + msg)
  }

  /** What is encrypted. */
  function Plain(msg: seq<byte>): seq<byte> {
    Inner(msg) + Zeros(Padding(|Inner(msg)|))
  }

  function Body(c: Cipher, prefix: seq<byte>, msg: seq<byte>): seq<byte> {
    [|prefix| % 256] + (prefix + c.enc(Plain(msg)))
  }

  function Frame(c: Cipher, prefix: seq<byte>, msg: seq<byte>): seq<byte> {
    var body := Body(c, prefix, msg);
    Be32(AES_MAGIC) + (Be32(|body|) + body)
  }

  function Frames(c: Cipher, prefix: seq<byte>, msgs: seq<seq<byte>>): seq<byte> {
    if msgs == [] then [] else Frame(c, prefix, msgs[0]) + Frames(c, prefix, msgs[1..])
  }

  lemma PlainLength(msg: seq<byte>)
    ensures |Plain(msg)| % 16 == 0 && |Plain(msg)| == |msg| + 8 + Padding(|msg| + 8)
  {
    PaddedSize(|msg| + 8);
    hide Padding;
  }

  lemma PaddedSize(n: nat)
    ensures (n + Padding(n)) % 16 == 0 && Padding(n) < 16
  {
    var q, r := n / 16, n % 16;
    if r != 0 {
      assert n + Padding(n) == 16 * (q + 1);
    }
  }

  lemma {:induction false} FramesConcat(c: Cipher, prefix: seq<byte>, a: seq<seq<byte>>, msg: seq<byte>)
    ensures Frames(c, prefix, a + [msg]) == Frames(c, prefix, a) + Frame(c, prefix, msg)
  {
    hide Frame;
    if a == [] {
      assert a + [msg] == [msg] && [msg][1..] == [];
      assert Frames(c, prefix, [msg]) == Frame(c, prefix, msg) + Frames(c, prefix, []);
      assert Frame(c, prefix, msg) + [] == Frame(c, prefix, msg) && [] + Frame(c, prefix, msg) == Frame(c, prefix, msg);
    } else {
      FramesConcat(c, prefix, a[1..], msg);
      assert (a + [msg])[1..] == a[1..] + [msg];
      Assoc(Frame(c, prefix, a[0]), Frames(c, prefix, a[1..]), Frame(c, prefix, msg));
    }
  }

  /** The bytes of the frame around the message 1, 2 with the key info 7, for a cipher that changes nothing. */
  lemma FrameBytes()
    ensures Frame(Cipher(x => x, x => x), [7], [1, 2]) ==
            [0xBD, 0xCA, 0xEC, 0x01, 0, 0, 0, 18, 1, 7]
            + ([0xBE, 0xEF, 0xDE, 0xAD, 0, 0, 0, 2, 1, 2] + [0, 0, 0, 0, 0, 0])
  {
    var c := Cipher(x => x, x => x);
    assert Be32(TCP_HDR) == [0xBE, 0xEF, 0xDE, 0xAD] && Be32(AES_MAGIC) == [0xBD, 0xCA, 0xEC, 0x01];
    assert Be32(2) == [0, 0, 0, 2] && Be32(18) == [0, 0, 0, 18];
    hide Be32;
    assert Inner([1, 2]) == [0xBE, 0xEF, 0xDE, 0xAD, 0, 0, 0, 2, 1, 2];
    assert Zeros(6) == [0, 0, 0, 0, 0, 0];
    assert |Plain([1, 2])| == 16;
    assert Body(c, [7], [1, 2]) == [1, 7] + Plain([1, 2]);
  }

  // ----- the sender

  class Sender {
    const cipher: Cipher
    const prefix: seq<byte>
    /** Everything written to the socket. */
    var wire: seq<byte>

    constructor (c: Cipher, keyInfo: seq<byte>)
      ensures cipher == c && prefix == keyInfo && wire == []
    {
      cipher := c;
      prefix := keyInfo;
      wire := [];
    }

    /** duer_trans_aes_cbc_encrypted_send */
    method Send(data: array<byte>)
      requires Sound(cipher) && |prefix| < 256
      modifies `wire
      ensures var plain := data[..] + Zeros(Padding(data.Length));
        var body := [|prefix| % 256] + (prefix + cipher.enc(plain));
        wire == old(wire) + (Be32(AES_MAGIC) + (Be32(|body|) + body))
    {
      hide Sound, Be32;
      PaddedSize(data.Length);
      var padding := data.Length % 16;
      var plain := data[..];
      if padding != 0 {
        padding := 16 - padding;
        var input := new byte[data.Length + padding](_ => 0);
        Copy(input, 0, data, 0, data.Length);
        plain := input[..];
        assert plain == data[..] + Zeros(padding);
      } else {
        assert plain == data[..] + Zeros(0);
      }
      var output := Compose(plain);
      wire := wire + output[..];
    }

    /** The frame around an encrypted text. */
    method Compose(plain: seq<byte>) returns (output: array<byte>)
      requires Sound(cipher) && |prefix| < 256 && |plain| % 16 == 0
      ensures fresh(output)
      ensures var body := [|prefix| % 256] + (prefix + cipher.enc(plain));
        output[..] == Be32(AES_MAGIC) + (Be32(|body|) + body)
    {
      hide Be32, Sound;
      EncryptedLength(cipher, plain);
      var encrypted := cipher.enc(plain);
      var headerLen := 9 + |prefix|;
      var outputLen := headerLen + |plain|;
      output := new byte[outputLen];
      ghost var magic, size := Be32(AES_MAGIC), Be32(outputLen - 8);
      Append(output, 0, Be32(AES_MAGIC), []);
      Append(output, 4, Be32(outputLen - 8), magic);
      Append(output, 8, [|prefix|], magic + size);
      Append(output, 9, prefix, magic + size + [|prefix|]);
      Append(output, headerLen, encrypted, magic + size + [|prefix|] + prefix);
      Pieces(magic, size, [|prefix|], prefix, encrypted);
      assert output[..] == output[..outputLen];
    }

    /** duer_coap_nsdl_tx: a message goes out as one frame. */
    method Transmit(msg: array<byte>)
      requires Sound(cipher) && |prefix| < 256 && msg.Length + HEADER_SIZE < 0x1_0000
      modifies `wire
      ensures wire == old(wire) + Frame(cipher, prefix, msg[..])
    {
      hide Be32;
      var temp := new byte[HEADER_SIZE + msg.Length];
      ghost var mask, size := Be32(TCP_HDR), Be32(msg.Length);
      Append(temp, 0, Be32(TCP_HDR), []);
      Append(temp, 4, Be32(msg.Length), mask);
      Append(temp, 8, msg[..], mask + size);
      Assoc(mask, size, msg[..]);
      assert temp[..] == temp[..8 + msg.Length];
      Send(temp);
    }
  }

  /** Store bytes behind what has been stored. */
  method Append(dst: array<byte>, at: nat, bytes: seq<byte>, ghost done: seq<byte>)
    requires at + |bytes| <= dst.Length && dst[..at] == done
    modifies dst
    ensures dst[..at + |bytes|] == done + bytes
  {
    Store(dst, at, bytes);
  }

  lemma Pieces(a: seq<byte>, b: seq<byte>, c: seq<byte>, d: seq<byte>, e: seq<byte>)
    ensures (((a + b) + c) + d) + e == a + (b + (c + (d + e)))
  {
  }
}
