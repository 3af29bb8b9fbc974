// The receiver of the encrypted CoAP frames. What arrives in pieces is kept in
// the transport until a header or a body is complete.
module CoapTransport {
  import opened CText
  import opened Memory
  import opened CoapFrame

  /** How one call of the socket's recv ends. */
  datatype Event = Block | Fail | Give(most: nat)

  datatype Status = WouldBlock | Error | Got(n: nat)

  /** The socket never fails. */
  ghost predicate NoFail(plan: seq<Event>) {
    forall i :: 0 <= i < |plan| ==> plan[i] != Fail
  }

  class Wire {
    var stream: seq<byte>
    var plan: seq<Event>

    constructor (bytes: seq<byte>, events: seq<Event>)
      ensures stream == bytes && plan == events
    {
      stream := bytes;
      plan := events;
    }

    /** duer_trans_wrapper_recv: one to max bytes, or nothing. */
    method Recv(dst: array<byte>, max: nat) returns (st: Status)
      requires 0 < max <= dst.Length
      modifies this, dst
      ensures st.Got? ==>
        && 0 < st.n <= max && st.n <= |old(stream)|
        && stream == old(stream)[st.n..] && dst[..st.n] == old(stream)[..st.n]
      ensures !st.Got? ==> stream == old(stream)
      ensures st == WouldBlock ==> old(stream) == [] || (old(plan) != [] && old(plan)[0] == Block)
      ensures st == Error ==> old(plan) != [] && old(plan)[0] == Fail
      ensures plan == if old(plan) == [] then [] else old(plan)[1..]
      ensures NoFail(old(plan)) ==> NoFail(plan) && st != Error
      ensures old(plan) == [] && old(stream) != [] ==>
                st == Got(if max <= |old(stream)| then max else |old(stream)|)
    {
      var next := if plan == [] then Give(max) else plan[0];
      plan := if plan == [] then [] else plan[1..];
      if next == Fail {
        return Error;
      }
      if next == Block || stream == [] {
        return WouldBlock;
      }
      var n := if next.most == 0 then 1 else next.most;
      n := if n > max then max else n;
      n := if n > |stream| then |stream| else n;
      Store(dst, 0, stream[..n]);
      assert dst[..0] + stream[..n] == stream[..n];
      stream := stream[n..];
      st := Got(n);
    }
  }

  /** The sizes of the frames fit their fields. */
  ghost predicate Sendable(c: Cipher, prefix: seq<byte>, msgs: seq<seq<byte>>) {
    && |prefix| < 256
    && forall i :: 0 <= i < |msgs| ==> |Body(c, prefix, msgs[i])| < 0x1_0000_0000
  }

  /** The receiver has room for the body of the message. */
  predicate Fits(c: Cipher, prefix: seq<byte>, msg: seq<byte>) {
    |Body(c, prefix, msg)| <= MAX_BODY
  }

  /** How many messages there are in front of the first one that does not fit. */
  function Fitting(c: Cipher, prefix: seq<byte>, msgs: seq<seq<byte>>): (n: nat)
    ensures n <= |msgs| && (n < |msgs| ==> !Fits(c, prefix, msgs[n]))
    ensures forall i :: 0 <= i < n ==> Fits(c, prefix, msgs[i])
  {
    if msgs == [] || !Fits(c, prefix, msgs[0]) then 0 else 1 + Fitting(c, prefix, msgs[1..])
  }

  /** The messages that the CoAP library gets: those that are not empty. */
  function NonEmpty(msgs: seq<seq<byte>>): (r: seq<seq<byte>>)
    ensures |r| <= |msgs|
    ensures r == msgs <==> forall i :: 0 <= i < |msgs| ==> msgs[i] != []
  {
    if msgs == [] then []
    else
      var rest := NonEmpty(msgs[1..]);
      assert msgs == [msgs[0]] + msgs[1..];
      if msgs[0] == [] then rest else [msgs[0]] + rest
  }

  lemma {:induction false} NonEmptyMore(msgs: seq<seq<byte>>, msg: seq<byte>)
    ensures NonEmpty(msgs + [msg]) == NonEmpty(msgs) + (if msg == [] then [] else [msg])
  {
    if msgs != [] {
      NonEmptyMore(msgs[1..], msg);
      assert (msgs + [msg])[1..] == msgs[1..] + [msg];
    }
  }

  /** The header as the receiver passes it on. */
  function TcpHeader(size: nat): seq<byte> {
    Be32(TCP_HDR) + Be32(size)
  }

  /** Of a header, h has been read and s is still to come; msgs are on the way. */
  ghost predicate InHeader(c: Cipher, prefix: seq<byte>, msgs: seq<seq<byte>>, h: seq<byte>, s: seq<byte>) {
    |h| < HEADER_SIZE && h + s == Frames(c, prefix, msgs)
  }

  /** The header of the first message has been read, and b of its body. */
  ghost predicate InBody(c: Cipher, prefix: seq<byte>, msgs: seq<seq<byte>>, h: seq<byte>, b: seq<byte>, s: seq<byte>) {
    && msgs != []
    && var body := Body(c, prefix, msgs[0]);
      h == TcpHeader(|body|) && |b| < |body| && b + s == body + Frames(c, prefix, msgs[1..])
  }

  lemma HeaderComplete(c: Cipher, prefix: seq<byte>, msgs: seq<seq<byte>>, h: seq<byte>, s: seq<byte>)
    requires |h| == HEADER_SIZE && h + s == Frames(c, prefix, msgs) && Sendable(c, prefix, msgs)
    ensures msgs != []
    ensures var body := Body(c, prefix, msgs[0]);
      h == Be32(AES_MAGIC) + Be32(|body|) && s == body + Frames(c, prefix, msgs[1..]) && |body| > 0
    ensures FromBe32(h[..4]) == AES_MAGIC
  {
    hide Be32, Body;
    Be32RoundTrip(AES_MAGIC);
    assert |h + s| >= HEADER_SIZE;
    if msgs != [] {
      var body, rest := Body(c, prefix, msgs[0]), Frames(c, prefix, msgs[1..]);
      BodyNonEmpty(c, prefix, msgs[0]);
      var top := Be32(AES_MAGIC) + Be32(|body|);
      Assoc(Be32(AES_MAGIC), Be32(|body|), body);
      Assoc(top, body, rest);
      SamePrefix(h, s, top, body + rest);
    }
  }

  lemma BodyNonEmpty(c: Cipher, prefix: seq<byte>, msg: seq<byte>)
    ensures |Body(c, prefix, msg)| > 0
  {
  }

  lemma SamePrefix(a: seq<byte>, b: seq<byte>, x: seq<byte>, y: seq<byte>)
    requires a + b == x + y && |a| == |x|
    ensures a == x && b == y
  {
    assert a == (a + b)[..|a|] && b == (a + b)[|a|..];
  }

  class Trans {
    const wire: Wire
    const cipher: Cipher
    const header: array<byte>
    const body: array<byte>
    var headerBytes: nat
    var bodyBytes: nat

    constructor (w: Wire, c: Cipher)
      ensures wire == w && cipher == c && headerBytes == 0 && bodyBytes == 0
      ensures header.Length == HEADER_SIZE && body.Length == MAX_BODY && fresh(header) && fresh(body) && header != body
    {
      wire := w;
      cipher := c;
      header := new byte[HEADER_SIZE];
      body := new byte[MAX_BODY];
      headerBytes := 0;
      bodyBytes := 0;
    }

    /** These messages have not been delivered yet. */
    ghost predicate Ready(prefix: seq<byte>, msgs: seq<seq<byte>>)
      reads this, header, body, wire
    {
      && header.Length == HEADER_SIZE && body.Length == MAX_BODY && header != body
      && headerBytes <= HEADER_SIZE && bodyBytes <= MAX_BODY && Sendable(cipher, prefix, msgs)
      && if headerBytes < HEADER_SIZE
         then bodyBytes == 0 && InHeader(cipher, prefix, msgs, header[..headerBytes], wire.stream)
         else InBody(cipher, prefix, msgs, header[..], body[..bodyBytes], wire.stream)
    }

    /** The receiver, asked for a header. */
    method RecvHeader(data: array<byte>, ghost prefix: seq<byte>, ghost msgs: seq<seq<byte>>) returns (st: Status)
      requires Ready(prefix, msgs) && data.Length >= HEADER_SIZE && data != header && data != body
      modifies `headerBytes, header, data, wire
      ensures Ready(prefix, msgs) && data != header
      ensures st.Got? ==> st.n == HEADER_SIZE && headerBytes == HEADER_SIZE && data[..HEADER_SIZE] == header[..]
      ensures |wire.plan| <= |old(wire.plan)|
      ensures st.Got? || msgs == [] || |wire.plan| < |old(wire.plan)|
      ensures NoFail(old(wire.plan)) ==> NoFail(wire.plan) && st != Error
      ensures old(headerBytes) == HEADER_SIZE ==>
                st.Got? && wire.stream == old(wire.stream) && wire.plan == old(wire.plan)
    {
      hide InHeader, InBody, Sendable, NoFail, Be32, FromBe32;
      if headerBytes == HEADER_SIZE {
        Copy(data, 0, header, 0, HEADER_SIZE);
        return Got(HEADER_SIZE);
      }
      ghost var h, s := header[..headerBytes], wire.stream;
      var need := HEADER_SIZE - headerBytes;
      if msgs != [] {
        MoreToCome(cipher, prefix, msgs, h, s);
      }
      st := wire.Recv(data, need);
      if !st.Got? {
        return;
      }
      HeaderGrows(cipher, prefix, msgs, h, s, st.n);
      Copy(header, headerBytes, data, 0, st.n);
      assert header[..headerBytes + st.n] == h + s[..st.n];
      if st.n == need {
        assert header[..] == h + s[..st.n];
        TakeHeader(data);
        headerBytes := HEADER_SIZE;
        st := Got(HEADER_SIZE);
        assert body[..bodyBytes] == [];
      } else {
        headerBytes := headerBytes + st.n;
        st := WouldBlock;
      }
    }

    /** A complete header: it goes to the caller, and the cache keeps it with the magic number of plain CoAP. */
    method TakeHeader(data: array<byte>)
      requires header.Length == HEADER_SIZE && data.Length >= HEADER_SIZE && data != header
      modifies header, data
      ensures data[..HEADER_SIZE] == header[..]
      ensures var h := old(header[..]);
        header[..] == if FromBe32(h[..4]) == AES_MAGIC then Be32(TCP_HDR) + h[4..] else h
    {
      hide Be32, FromBe32;
      ghost var h := header[..];
      Copy(data, 0, header, 0, HEADER_SIZE);
      assert data[..HEADER_SIZE] == h && data[..4] == h[..4];
      var magic := FromBe32(data[..4]);
      if magic == AES_MAGIC {
        Store(data, 0, Be32(TCP_HDR));
        assert data[..HEADER_SIZE] == data[..4] + data[4..][..4];
        Copy(header, 0, data, 0, HEADER_SIZE);
      }
      assert header[..] == header[..HEADER_SIZE];
    }

    /** The receiver, asked for the body announced by the header. */
    method RecvBody(data: array<byte>, size: nat, ghost prefix: seq<byte>, ghost msgs: seq<seq<byte>>)
      returns (st: Status)
      requires Ready(prefix, msgs) && headerBytes == HEADER_SIZE && size == |Body(cipher, prefix, msgs[0])|
      requires Sound(cipher) && data.Length >= size && data != header && data != body && size <= MAX_BODY
      modifies `headerBytes, `bodyBytes, body, data, wire
      ensures !st.Got? ==> Ready(prefix, msgs)
      ensures st.Got? ==> Ready(prefix, msgs[1..]) && st.n == |msgs[0]| <= data.Length && data[..st.n] == msgs[0]
      ensures |wire.plan| <= |old(wire.plan)| && (st.Got? || |wire.plan| < |old(wire.plan)|)
      ensures NoFail(old(wire.plan)) ==> NoFail(wire.plan) && st != Error
    {
      hide InHeader, InBody, Sendable, Body, Sound, NoFail;
      ghost var b, s := body[..bodyBytes], wire.stream;
      BodyBounds(cipher, prefix, msgs, header[..], b, s);
      var need := size - bodyBytes;
      st := wire.Recv(data, need);
      if !st.Got? {
        return;
      }
      BodyGrows(cipher, prefix, msgs, header[..], b, s, st.n);
      if st.n != need {
        Copy(body, bodyBytes, data, 0, st.n);
        bodyBytes := bodyBytes + st.n;
        st := WouldBlock;
      } else {
        TakeBody(data, size, need);
        headerBytes := 0;
        bodyBytes := 0;
        assert header[..0] == [];
        st := Decrypt(data, size, prefix, msgs[0]);
      }
    }

    /** The last part of a body has come: put it behind the parts that were kept. */
    method TakeBody(data: array<byte>, size: nat, need: nat)
      requires need + bodyBytes == size <= body.Length && size <= data.Length && data != body
      modifies body, data
      ensures data[..size] == old(body[..bodyBytes]) + old(data[..need])
    {
      if need != size {
        Copy(body, bodyBytes, data, 0, need);
        Copy(data, 0, body, 0, size);
        assert data[..0] + body[0..size] == body[..size];
      } else {
        assert body[..0] + data[..need] == data[..size];
      }
    }

    /** Take the message out of a complete body. */
    method Decrypt(data: array<byte>, size: nat, ghost prefix: seq<byte>, ghost msg: seq<byte>) returns (st: Status)
      requires size <= data.Length && data[..size] == Body(cipher, prefix, msg) && size <= MAX_BODY == body.Length
      requires Sound(cipher) && |prefix| < 256 && data != body
      modifies data, body
      ensures st == Got(|msg|) && |msg| <= data.Length && data[..|msg|] == msg
    {
      hide Body, Sound, Plain, FromBe32;
      BodyParts(cipher, prefix, msg, data[..size]);
      var rawLen := data[0];
      var encryptedLen := size - 1 - rawLen;
      ghost var plain := Plain(msg);
      assert data[1 + rawLen..1 + rawLen + encryptedLen] == data[..size][1 + rawLen..];
      var output := cipher.dec(data[1 + rawLen..1 + rawLen + encryptedLen]);
      Store(body, 0, output);
      assert body[..|plain|] == plain;
      assert body[4..8] == plain[4..8] && body[8..8 + |msg|] == plain[8..8 + |msg|];
      var length := FromBe32(body[4..8]);
      Store(data, 0, Zeros(size));
      Copy(data, 0, body, 8, length);
      st := Got(length);
    }

    /** duer_trans_aes_cbc_encrypted_recv: size tells whether a header or a body is wanted. */
    method Recv(data: array<byte>, size: nat, ghost prefix: seq<byte>, ghost msgs: seq<seq<byte>>) returns (st: Status)
      requires Ready(prefix, msgs) && Sound(cipher) && data.Length >= size && data != header && data != body
      requires size != HEADER_SIZE && MIN_BODY <= size <= MAX_BODY ==>
                 headerBytes == HEADER_SIZE && size == |Body(cipher, prefix, msgs[0])|
      modifies `headerBytes, `bodyBytes, header, body, data, wire
      ensures size == HEADER_SIZE || !st.Got? ==> Ready(prefix, msgs)
      ensures size == HEADER_SIZE && st.Got? ==>
                st.n == HEADER_SIZE && headerBytes == HEADER_SIZE && data[..HEADER_SIZE] == header[..]
      ensures size != HEADER_SIZE && st.Got? ==>
                msgs != [] && Ready(prefix, msgs[1..]) && st.n == |msgs[0]| <= data.Length && data[..st.n] == msgs[0]
      ensures size != HEADER_SIZE && !(MIN_BODY <= size <= MAX_BODY) ==> st == Error
      ensures |wire.plan| <= |old(wire.plan)|
      ensures size == HEADER_SIZE || MIN_BODY <= size <= MAX_BODY ==>
                st.Got? || msgs == [] || |wire.plan| < |old(wire.plan)|
      ensures size == HEADER_SIZE && old(headerBytes) == HEADER_SIZE ==>
                st.Got? && wire.stream == old(wire.stream) && wire.plan == old(wire.plan)
      ensures NoFail(old(wire.plan)) ==> NoFail(wire.plan)
      ensures NoFail(old(wire.plan)) && (size == HEADER_SIZE || MIN_BODY <= size <= MAX_BODY) ==> st != Error
    {
      hide Ready, Sound, Body;
      if size == HEADER_SIZE {
        ReadyBlocks(this, prefix, msgs);
        st := RecvHeader(data, prefix, msgs);
      } else if MIN_BODY <= size <= MAX_BODY {
        ReadyBlocks(this, prefix, msgs);
        st := RecvBody(data, size, prefix, msgs);
      } else {
        st := Error;
      }
    }
  }

  lemma ReadyBlocks(t: Trans, prefix: seq<byte>, msgs: seq<seq<byte>>)
    requires t.Ready(prefix, msgs)
    ensures t.header != t.body && t.header.Length == HEADER_SIZE
    ensures t.headerBytes == HEADER_SIZE ==> msgs != []
  {
  }

  /** A header that has come announces the body of the next message. */
  lemma ReadyHeader(t: Trans, prefix: seq<byte>, msgs: seq<seq<byte>>)
    requires t.Ready(prefix, msgs) && t.headerBytes == HEADER_SIZE && Sound(t.cipher)
    ensures msgs != [] && MIN_BODY <= |Body(t.cipher, prefix, msgs[0])|
    ensures FromBe32(t.header[..4]) == TCP_HDR && FromBe32(t.header[4..]) == |Body(t.cipher, prefix, msgs[0])|
  {
    hide Be32, FromBe32, Sound, Body;
    var n := |Body(t.cipher, prefix, msgs[0])|;
    assert t.header[..4] == Be32(TCP_HDR) && t.header[4..] == Be32(n);
    Be32RoundTrip(TCP_HDR);
    Be32RoundTrip(n);
    BodySize(t.cipher, prefix, msgs[0]);
  }

  lemma BodySize(c: Cipher, prefix: seq<byte>, msg: seq<byte>)
    requires Sound(c)
    ensures MIN_BODY <= |Body(c, prefix, msg)| <= 1 + |prefix| + |msg| + HEADER_SIZE + 15
  {
    hide Sound, Plain, Padding;
    PlainLength(msg);
    PaddedSize(|msg| + 8);
    EncryptedLength(c, Plain(msg));
  }

  class Coap {
    const trans: Trans
    /** The messages handed to the CoAP library. */
    var delivered: seq<seq<byte>>

    constructor (t: Trans)
      ensures trans == t && delivered == []
    {
      trans := t;
      delivered := [];
    }

    /**
     * duer_coap_recv: one message, if all of it is there. The header of a body
     * for which there is no room stays where it is, and nothing more is read.
     */
    method Recv(size: nat, ghost prefix: seq<byte>, ghost msgs: seq<seq<byte>>) returns (st: Status)
      requires trans.Ready(prefix, msgs) && Sound(trans.cipher) && size == MAX_BODY
      modifies this, trans`headerBytes, trans`bodyBytes, trans.header, trans.body, trans.wire
      ensures st.Got? ==> msgs != []
      ensures st.Got? && Fits(trans.cipher, prefix, msgs[0]) ==>
        && st == Got(|msgs[0]|) && trans.Ready(prefix, msgs[1..])
        && delivered == old(delivered) + (if msgs[0] == [] then [] else [msgs[0]])
      ensures st.Got? && !Fits(trans.cipher, prefix, msgs[0]) ==>
        && st == Got(HEADER_SIZE) && trans.Ready(prefix, msgs) && trans.headerBytes == HEADER_SIZE
        && delivered == old(delivered)
      ensures !st.Got? ==> delivered == old(delivered) && trans.Ready(prefix, msgs)
      ensures old(trans.headerBytes) == HEADER_SIZE && msgs != [] && !Fits(trans.cipher, prefix, msgs[0]) ==>
        st.Got? && trans.wire.stream == old(trans.wire.stream) && trans.wire.plan == old(trans.wire.plan)
      ensures |trans.wire.plan| <= |old(trans.wire.plan)|
      ensures st.Got? || msgs == [] || |trans.wire.plan| < |old(trans.wire.plan)|
      ensures NoFail(old(trans.wire.plan)) ==> NoFail(trans.wire.plan) && (st.Got? || st == WouldBlock)
    {
      hide Trans.Ready, Sound, Body, FromBe32, NoFail;
      var value := new byte[HEADER_SIZE];
      var data := new byte[size];
      st := trans.Recv(value, HEADER_SIZE, prefix, msgs);
      if st != Got(HEADER_SIZE) {
        return;
      }
      ReadyHeader(trans, prefix, msgs);
      ghost var header := value[..HEADER_SIZE];
      assert value[..4] == header[..4] == trans.header[..4];
      assert value[4..] == header[4..] == trans.header[4..];
      var mask := FromBe32(value[..4]);
      var length := FromBe32(value[4..]);
      if mask != TCP_HDR || length > size {
        return;
      }
      st := trans.Recv(data, length, prefix, msgs);
      if st.Got? && st.n > 0 {
        delivered := delivered + [data[..st.n]];
      }
    }
  }

  /** What the calls that brought a message returned. */
  function Lengths(results: seq<Status>): (r: seq<nat>) {
    if results == [] then []
    else Lengths(results[..|results| - 1]) +
         (if results[|results| - 1].Got? then [results[|results| - 1].n] else [])
  }

  lemma LengthsMore(results: seq<Status>, st: Status)
    ensures Lengths(results + [st]) == Lengths(results) + (if st.Got? then [st.n] else [])
  {
    assert (results + [st])[..|results|] == results;
  }

  function Sizes(msgs: seq<seq<byte>>): (r: seq<nat>)
    ensures |r| == |msgs|
  {
    seq(|msgs|, i requires 0 <= i < |msgs| => |msgs[i]|)
  }

  /**
   * Calling duer_coap_recv again and again: whatever the socket gives each
   * time, the messages come out whole, once and in order, all but the empty
   * ones, up to the first one that does not fit. That far they are out when all
   * bytes have been read, or after enough calls. As long as the socket does not
   * fail, a call that completes no message returns WOULD_BLOCK.
   */
  method ReceiveAll(coap: Coap, calls: nat, ghost prefix: seq<byte>, ghost msgs: seq<seq<byte>>)
    returns (results: seq<Status>, ghost k: nat)
    requires coap.trans.Ready(prefix, msgs) && Sound(coap.trans.cipher) && coap.delivered == []
    modifies coap, coap.trans`headerBytes, coap.trans`bodyBytes, coap.trans.header, coap.trans.body, coap.trans.wire
    ensures k <= Fitting(coap.trans.cipher, prefix, msgs)
    ensures coap.delivered == NonEmpty(msgs[..k]) && coap.trans.Ready(prefix, msgs[k..])
    ensures coap.trans.wire.stream == [] ==> k == |msgs|
    ensures calls >= |old(coap.trans.wire.plan)| + |msgs| ==> k == Fitting(coap.trans.cipher, prefix, msgs)
    ensures |results| == calls && Sizes(msgs[..k]) <= Lengths(results)
    ensures forall i :: k <= i < |Lengths(results)| ==> Lengths(results)[i] == HEADER_SIZE
    ensures |Lengths(results)| > k ==> k == Fitting(coap.trans.cipher, prefix, msgs) < |msgs|
    ensures NoFail(old(coap.trans.wire.plan)) ==> Error !in results
  {
    hide Sound, Lengths, NonEmpty, NoFail, Sizes, Trans.Ready, Fits, Fitting;
    ghost var n := Fitting(coap.trans.cipher, prefix, msgs);
    k := 0;
    results := [];
    assert msgs[0..] == msgs && msgs[..0] == [];
    LengthsNone();
    while |results| < calls
      invariant |results| <= calls && k <= n
      invariant coap.delivered == NonEmpty(msgs[..k]) && coap.trans.Ready(prefix, msgs[k..])
      invariant k == n || |results| <= |old(coap.trans.wire.plan)| - |coap.trans.wire.plan| + k
      invariant Answered(msgs, k, n, Lengths(results))
      invariant NoFail(old(coap.trans.wire.plan)) ==> NoFail(coap.trans.wire.plan) && Error !in results
    {
      var st := coap.Recv(MAX_BODY, prefix, msgs[k..]);
      LengthsMore(results, st);
      AnsweredMore(msgs, k, n, Lengths(results));
      if st.Got? {
        OneMore(msgs, k);
        if Fits(coap.trans.cipher, prefix, msgs[k]) {
          k := k + 1;
        }
      }
      results := results + [st];
    }
    AnsweredMore(msgs, k, n, Lengths(results));
    if coap.trans.wire.stream == [] {
      NothingLeft(coap.trans, prefix, msgs[k..]);
    }
  }

  /** The calls that returned a length: k messages, and then the header of the one that does not fit. */
  ghost predicate Answered(msgs: seq<seq<byte>>, k: nat, n: nat, lengths: seq<nat>) {
    && k <= n <= |msgs| && Sizes(msgs[..k]) <= lengths
    && (forall i :: k <= i < |lengths| ==> lengths[i] == HEADER_SIZE)
    && (|lengths| > k ==> k == n < |msgs|)
  }

  lemma AnsweredMore(msgs: seq<seq<byte>>, k: nat, n: nat, lengths: seq<nat>)
    requires Answered(msgs, k, n, lengths)
    ensures k < n ==> Answered(msgs, k + 1, n, lengths + [|msgs[k]|])
    ensures k == n < |msgs| ==> Answered(msgs, k, n, lengths + [HEADER_SIZE])
    ensures lengths + [] == lengths
  {
    if k < n {
      assert Sizes(msgs[..k]) == lengths;
      assert Sizes(msgs[..k + 1]) == lengths + [|msgs[k]|];
    }
  }

  /**
   * The sender and the receiver together: what is transmitted and read again, in
   * whatever parts the socket gives it, is delivered.
   */
  method SendAndReceive(c: Cipher, prefix: seq<byte>, msgs: seq<seq<byte>>, plan: seq<Event>, calls: nat)
    returns (delivered: seq<seq<byte>>, results: seq<Status>)
    requires Sound(c) && |prefix| < 256
    requires forall i :: 0 <= i < |msgs| ==> |msgs[i]| + HEADER_SIZE < 0x1_0000
    ensures calls >= |plan| + |msgs| ==> delivered == NonEmpty(msgs[..Fitting(c, prefix, msgs)])
    ensures calls >= |plan| + |msgs| ==>
              (delivered == msgs <==> forall i :: 0 <= i < |msgs| ==> Fits(c, prefix, msgs[i]) && msgs[i] != [])
    ensures exists k :: 0 <= k <= Fitting(c, prefix, msgs) && delivered == NonEmpty(msgs[..k])
    ensures |results| == calls && (NoFail(plan) ==> Error !in results)
  {
    hide Sound, NonEmpty, NoFail, Frame, Frames, Fitting, Trans.Ready, Body;
    var sender := new Sender(c, prefix);
    var i := 0;
    FramesNone(c, prefix);
    assert msgs[..0] == [];
    while i < |msgs|
      invariant 0 <= i <= |msgs| && sender.wire == Frames(c, prefix, msgs[..i])
      invariant sender.cipher == c && sender.prefix == prefix
    {
      var msg := new byte[|msgs[i]|];
      Store(msg, 0, msgs[i]);
      assert msg[..] == msgs[i] && msgs[..i + 1] == msgs[..i] + [msgs[i]];
      FramesConcat(c, prefix, msgs[..i], msgs[i]);
      sender.Transmit(msg);
      i := i + 1;
    }
    assert msgs[..i] == msgs;
    SmallMessages(c, prefix, msgs);
    var wire := new Wire(sender.wire, plan);
    var trans := new Trans(wire, c);
    var coap := new Coap(trans);
    ReadyAtStart(coap.trans, prefix, msgs);
    ghost var k;
    results, k := ReceiveAll(coap, calls, prefix, msgs);
    delivered := coap.delivered;
    AllOfThem(c, prefix, msgs);
  }

  /** Everything is delivered as it was sent if and only if every message fits and none is empty. */
  lemma AllOfThem(c: Cipher, prefix: seq<byte>, msgs: seq<seq<byte>>)
    ensures NonEmpty(msgs[..Fitting(c, prefix, msgs)]) == msgs
            <==> forall i :: 0 <= i < |msgs| ==> Fits(c, prefix, msgs[i]) && msgs[i] != []
  {
    hide NonEmpty, Fitting, Fits;
    var n := Fitting(c, prefix, msgs);
    if n == |msgs| {
      assert msgs[..n] == msgs;
    }
  }

  lemma FramesNone(c: Cipher, prefix: seq<byte>)
    ensures Frames(c, prefix, []) == []
  {
  }

  lemma SmallMessages(c: Cipher, prefix: seq<byte>, msgs: seq<seq<byte>>)
    requires Sound(c) && |prefix| < 256 && forall i :: 0 <= i < |msgs| ==> |msgs[i]| + HEADER_SIZE < 0x1_0000
    ensures Sendable(c, prefix, msgs)
  {
    hide Sound, Body;
    forall i | 0 <= i < |msgs|
      ensures |Body(c, prefix, msgs[i])| < 0x1_0000_0000
    {
      BodySize(c, prefix, msgs[i]);
    }
  }

  lemma OneMore(msgs: seq<seq<byte>>, k: nat)
    requires k < |msgs|
    ensures msgs[k..][0] == msgs[k] && msgs[k..][1..] == msgs[k + 1..]
    ensures NonEmpty(msgs[..k + 1]) == NonEmpty(msgs[..k]) + (if msgs[k] == [] then [] else [msgs[k]])
    ensures Sizes(msgs[..k + 1]) == Sizes(msgs[..k]) + [|msgs[k]|]
  {
    hide NonEmpty;
    assert msgs[..k + 1] == msgs[..k] + [msgs[k]];
    NonEmptyMore(msgs[..k], msgs[k]);
  }

  lemma LengthsNone()
    ensures Lengths([]) == [] && Sizes([]) == [] && NonEmpty([]) == []
  {
  }

  lemma NothingLeft(t: Trans, prefix: seq<byte>, msgs: seq<seq<byte>>)
    requires t.Ready(prefix, msgs) && t.wire.stream == []
    ensures msgs == []
  {
    hide Be32, Body, Sendable, Frames;
    if msgs != [] {
      if t.headerBytes < HEADER_SIZE {
        MoreToCome(t.cipher, prefix, msgs, t.header[..t.headerBytes], []);
      }
    }
  }

  /** A fresh transport with everything that a sender has put on the wire is ready for it. */
  lemma ReadyAtStart(t: Trans, prefix: seq<byte>, msgs: seq<seq<byte>>)
    requires t.header.Length == HEADER_SIZE && t.body.Length == MAX_BODY && t.header != t.body
    requires t.headerBytes == 0 && t.bodyBytes == 0 && Sendable(t.cipher, prefix, msgs)
    requires t.wire.stream == Frames(t.cipher, prefix, msgs)
    ensures t.Ready(prefix, msgs)
  {
    assert t.header[..0] + t.wire.stream == t.wire.stream;
  }

  lemma BodyBounds(c: Cipher, prefix: seq<byte>, msgs: seq<seq<byte>>, h: seq<byte>, b: seq<byte>, s: seq<byte>)
    requires InBody(c, prefix, msgs, h, b, s) && Sendable(c, prefix, msgs)
    ensures msgs != [] && |b| < |Body(c, prefix, msgs[0])| <= |b| + |s|
    ensures |prefix| < 256
    ensures Sendable(c, prefix, msgs[1..])
  {
    hide Body, Frames;
    assert |b + s| >= |Body(c, prefix, msgs[0])|;
  }

  lemma BodyGrows(c: Cipher, prefix: seq<byte>, msgs: seq<seq<byte>>, h: seq<byte>, b: seq<byte>, s: seq<byte>, n: nat)
    requires InBody(c, prefix, msgs, h, b, s) && n <= |s| && |b| + n <= |Body(c, prefix, msgs[0])|
    ensures var b' := b + s[..n];
      if |b'| < |Body(c, prefix, msgs[0])| then InBody(c, prefix, msgs, h, b', s[n..])
      else b' == Body(c, prefix, msgs[0]) && InHeader(c, prefix, msgs[1..], [], s[n..])
  {
    hide Body, Frames;
    var b' := b + s[..n];
    assert s == s[..n] + s[n..];
    Assoc(b, s[..n], s[n..]);
    if |b'| == |Body(c, prefix, msgs[0])| {
      SamePrefix(b', s[n..], Body(c, prefix, msgs[0]), Frames(c, prefix, msgs[1..]));
      assert [] + s[n..] == s[n..];
    }
  }

  /** What a body is made of. */
  lemma BodyParts(c: Cipher, prefix: seq<byte>, msg: seq<byte>, b: seq<byte>)
    requires b == Body(c, prefix, msg) && Sound(c) && |prefix| < 256 && |b| <= MAX_BODY
    ensures b[0] == |prefix| && 1 + |prefix| <= |b| && c.dec(b[1 + |prefix|..]) == Plain(msg)
    ensures |Plain(msg)| == |b| - 1 - |prefix| && 8 + |msg| <= |Plain(msg)|
    ensures FromBe32(Plain(msg)[4..8]) == |msg| && Plain(msg)[8..8 + |msg|] == msg
  {
    hide Padding, Be32, FromBe32, Sound;
    PlainLength(msg);
    EncryptedLength(c, Plain(msg));
    var p := Plain(msg);
    assert b[1..] == prefix + c.enc(p);
    assert b[1 + |prefix|..] == c.enc(p);
    assert p[4..8] == Be32(|msg|) && p[8..8 + |msg|] == msg;
    Be32RoundTrip(|msg|);
  }

  /** If a message is on the way, so is the rest of a header that has been started. */
  lemma MoreToCome(c: Cipher, prefix: seq<byte>, msgs: seq<seq<byte>>, h: seq<byte>, s: seq<byte>)
    requires InHeader(c, prefix, msgs, h, s) && msgs != []
    ensures |h| + |s| >= HEADER_SIZE
  {
    assert |h + s| >= |Frame(c, prefix, msgs[0])|;
  }

  lemma HeaderGrows(c: Cipher, prefix: seq<byte>, msgs: seq<seq<byte>>, h: seq<byte>, s: seq<byte>, n: nat)
    requires InHeader(c, prefix, msgs, h, s) && Sendable(c, prefix, msgs) && n <= |s| && |h| + n <= HEADER_SIZE
    ensures var h' := h + s[..n];
      if |h'| < HEADER_SIZE then InHeader(c, prefix, msgs, h', s[n..])
      else FromBe32(h'[..4]) == AES_MAGIC
           && InBody(c, prefix, msgs, Be32(TCP_HDR) + h'[4..], [], s[n..])
  {
    hide Sendable, Be32, FromBe32, Frames, Body;
    var h' := h + s[..n];
    assert s == s[..n] + s[n..];
    Assoc(h, s[..n], s[n..]);
    if |h'| == HEADER_SIZE {
      HeaderComplete(c, prefix, msgs, h', s[n..]);
      assert [] + s[n..] == s[n..];
    }
  }
}
