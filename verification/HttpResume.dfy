// duer_http_client_get: a download that is taken up again where it broke off
// (byte ranges, section 2.1 of RFC 7233).
module HttpResume {
  import opened CText
  import opened Memory
  import opened HttpBody
  import opened HttpClient

  const MAX_RETRY: nat := 10

  /** What comes back for one request: an error, or a body, part of which is already in the buffer. */
  datatype Answer =
    | NoAnswer(res: Result)
    | Answer(chunked: bool, length: nat, head: seq<byte>, stream: seq<byte>, plan: seq<int>)

  /**
   * The server honours the range: it sends the wanted part of the resource. A
   * chunked body may break the coding at some point, a body of known length may
   * end early.
   */
  ghost predicate Honest(a: Answer, wanted: seq<byte>) {
    && (a.NoAnswer? ==> a.res != HttpOk)
    && (a.Answer? ==>
      && |a.head| <= MAX_LEN
      && if a.chunked then
           var d := Decode(a.head + a.stream);
           !d.Endless? && d.data <= wanted && (d.Done? ==> d.data == wanted)
         else a.length == |wanted| && a.head + a.stream <= wanted)
  }

  /** The whole of what was wanted; the socket may still fail before all of it is read. */
  ghost predicate Complete(a: Answer, wanted: seq<byte>) {
    a.Answer? && if a.chunked then Decode(a.head + a.stream).Done? else a.head + a.stream == wanted
  }

  ghost predicate Clean(a: Answer, wanted: seq<byte>) {
    Complete(a, wanted) && NoErrors(a.plan)
  }

  /** A request that fails at most because of the connection. */
  ghost predicate AtMostBroken(a: Answer, wanted: seq<byte>) {
    if a.NoAnswer? then a.res in {HttpConn, HttpTimeout} else Complete(a, wanted)
  }

  /** The first k requests may break off, wherever they do; the next one goes well. */
  ghost predicate WorksAt(serve: (nat, nat) -> Answer, resource: seq<byte>, k: nat) {
    && (forall j: nat, p: nat :: j < k && p <= |resource| ==> AtMostBroken(serve(j, p), resource[p..]))
    && (forall p: nat :: p <= |resource| ==> Clean(serve(k, p), resource[p..]))
  }

  /** Data calls, and a last call after them if there were any. */
  ghost predicate Finished(calls: seq<Call>) {
    calls == [] ||
    (calls[|calls| - 1] == Call(DataLast, []) && |calls| >= 2 && InOrder(calls[..|calls| - 1], DataMid))
  }

  /** What the callback has got so far is the part of the resource between two positions. */
  ghost predicate Contiguous(c: Client, resource: seq<byte>, pos: nat)
    reads c`calls, c`recvSize, c`dataPos
  {
    c.Valid() && pos <= c.recvSize <= |resource| && Delivered(c.calls) == resource[pos..c.recvSize]
  }

  lemma OneRun(resource: seq<byte>, pos: nat, at: nat, got: seq<byte>)
    requires pos <= at <= |resource| && got <= resource[at..]
    ensures at + |got| <= |resource| && resource[pos..at] + got == resource[pos..at + |got|]
    ensures got == resource[at..] ==> at + |got| == |resource|
  {
    assert got == resource[at..][..|got|];
  }

  /** duer_http_client_get_data */
  method GetData(c: Client, a: Answer, ghost resource: seq<byte>, ghost pos: nat) returns (res: Result, stopped: bool)
    requires a.Answer? && Contiguous(c, resource, pos) && Honest(a, resource[c.recvSize..])
    modifies c`calls, c`recvSize, c`dataPos, c`stops, c.buf, c.chunkBuf
    ensures Contiguous(c, resource, pos)
    ensures res == HttpOk && !stopped ==> c.recvSize == |resource|
    ensures stopped ==> res == HttpOk
    ensures Never(old(c.stops)) ==> !stopped && Never(c.stops)
    ensures Complete(a, resource[old(c.recvSize)..]) ==> res == HttpOk || (res == HttpConn && !NoErrors(a.plan))
    ensures FirstMarked(old(c.calls)) ==>
              FirstMarked(c.calls) ||
              (a.chunked && res == HttpOk && |c.calls| == 1 && |Delivered(c.calls)| < MAX_LEN)
  {
    hide Holding, Delivered, InOrder, Decode, Honest;
    HonestBody(a, resource[c.recvSize..]);
    ghost var inp, at := a.head + a.stream, c.recvSize;
    var sock := new Socket(a.stream, a.plan);
    Store(c.buf, 0, a.head);
    HoldingHead(c.buf[..], a.head, a.stream);
    ghost var got;
    if a.chunked {
      res, got, stopped := c.RecvChunk(sock, |a.head|, inp);
    } else {
      res, got, stopped := c.RecvContent(sock, a.length + c.recvSize, |a.head|, inp);
    }
    OneRun(resource, pos, at, got);
    if a.chunked && FirstMarked(old(c.calls)) {
      MarkAfter(res, old(c.calls), c.calls);
    }
  }

  /** What a chunked body does to the mark of the first call. */
  lemma MarkAfter(res: Result, was: seq<Call>, calls: seq<Call>)
    requires FirstMarked(was) && if res == HttpOk then PiecesAndRest(was, calls) else FullPieces(was, calls)
    ensures FirstMarked(calls) || (res == HttpOk && |calls| == 1 && |Delivered(calls)| < MAX_LEN)
  {
    hide Delivered;
    if was == [] {
      if res == HttpOk {
        FirstOfPieces(calls);
      }
    } else {
      assert calls[0] == was[0];
    }
  }

  /** One request and, if it is answered, the body. */
  method Attempt(c: Client, a: Answer, ghost resource: seq<byte>, ghost pos: nat) returns (ret: Result, stopped: bool)
    requires Contiguous(c, resource, pos) && Honest(a, resource[c.recvSize..]) && FirstMarked(c.calls)
    modifies c`calls, c`recvSize, c`dataPos, c`stops, c.buf, c.chunkBuf
    ensures Contiguous(c, resource, pos)
    ensures ret == HttpOk && !stopped ==> c.recvSize == |resource|
    ensures stopped ==> ret == HttpOk
    ensures Never(old(c.stops)) ==> !stopped && Never(c.stops)
    ensures AtMostBroken(a, resource[old(c.recvSize)..]) ==> ret in {HttpOk, HttpConn, HttpTimeout}
    ensures Clean(a, resource[old(c.recvSize)..]) ==> ret == HttpOk
    ensures FirstMarked(c.calls) ||
            (a.Answer? && a.chunked && ret == HttpOk && |c.calls| == 1 && |Delivered(c.calls)| < MAX_LEN)
  {
    hide Delivered, InOrder, Honest, Decode, FirstMarked;
    HonestBody(a, resource[c.recvSize..]);
    stopped := false;
    if a.NoAnswer? {
      ret := a.res;
    } else {
      ret, stopped := GetData(c, a, resource, pos);
    }
  }

  lemma WorksSoon(serve: (nat, nat) -> Answer, resource: seq<byte>, k: nat, retry: nat, at: nat)
    requires WorksAt(serve, resource, k) && retry <= k && at <= |resource|
    ensures AtMostBroken(serve(retry, at), resource[at..])
    ensures retry == k ==> Clean(serve(retry, at), resource[at..])
  {
  }

  lemma HoldingHead(buf: seq<byte>, head: seq<byte>, stream: seq<byte>)
    requires |buf| == MAX_LEN + 1 && |head| <= MAX_LEN && buf[..|head|] == head
    ensures Holding(buf, |head|, stream, head + stream)
  {
  }

  lemma StartOfGet(c: Client, resource: seq<byte>, pos: nat)
    requires c.Valid() && c.calls == [] && c.recvSize == pos <= |resource|
    ensures Contiguous(c, resource, pos)
  {
  }

  lemma LastCall(calls: seq<Call>, dataPos: DataPos)
    requires InOrder(calls, dataPos)
    ensures dataPos == DataFirst ==> Finished(calls)
    ensures dataPos != DataFirst ==> Finished(calls + [Call(DataLast, [])])
  {
    var all := calls + [Call(DataLast, [])];
    assert all[..|all| - 1] == calls;
  }

  /** What Honest means for the two ways of receiving. */
  lemma HonestBody(a: Answer, wanted: seq<byte>)
    requires Honest(a, wanted)
    ensures a.NoAnswer? ==> a.res != HttpOk
    ensures a.Answer? ==> |a.head| <= MAX_LEN
    ensures a.Answer? && a.chunked ==>
              var d := Decode(a.head + a.stream);
              !d.Endless? && d.data <= wanted && (d.Done? ==> d.data == wanted)
    ensures a.Answer? && !a.chunked ==> a.length == |wanted| && a.head + a.stream <= wanted
  {
  }

  /**
   * Whatever connections fail or break, the callback gets one run of the
   * resource from pos, without gap or repeat, and recvSize says how far it goes.
   */
  method Get(c: Client, serve: (nat, nat) -> Answer, pos: nat, ghost resource: seq<byte>)
    returns (ret: Result, stopped: bool)
    requires c.Valid() && c.calls == [] && pos <= |resource|
    requires forall k: nat, p: nat :: p <= |resource| ==> Honest(serve(k, p), resource[p..])
    modifies c, c.buf, c.chunkBuf
    ensures pos <= c.recvSize <= |resource|
    ensures Delivered(c.calls) == resource[pos..c.recvSize]
    ensures Finished(c.calls)
    ensures ret == HttpOk && !stopped ==> c.recvSize == |resource|
    ensures Never(old(c.stops)) ==> !stopped
    ensures Never(old(c.stops)) && (exists k: nat :: k <= MAX_RETRY && WorksAt(serve, resource, k)) ==>
              ret == HttpOk && c.recvSize == |resource|
    ensures FirstMarked(c.calls) || (|c.calls| == 2 && |Delivered(c.calls)| < MAX_LEN)
    ensures (forall k: nat, p: nat :: serve(k, p).Answer? ==> !serve(k, p).chunked) ==> FirstMarked(c.calls)
  {
    hide Delivered, InOrder, Finished, Decode, Honest, WorksAt, AtMostBroken, Clean, Never;
    c.dataPos := DataFirst;
    c.recvSize := pos;
    ret, stopped := HttpOk, false;
    StartOfGet(c, resource, pos);
    var retry := 0;
    while retry <= MAX_RETRY
      invariant Contiguous(c, resource, pos) && !stopped
      invariant ret in {HttpConn, HttpTimeout} || retry == 0
      invariant Never(old(c.stops)) ==> Never(c.stops)
      invariant forall k: nat :: k <= MAX_RETRY && WorksAt(serve, resource, k) && Never(old(c.stops)) ==> retry <= k
      invariant FirstMarked(c.calls)
      decreases MAX_RETRY + 1 - retry
    {
      stopped := c.CheckStop();
      if stopped {
        break;
      }
      var a := serve(retry, c.recvSize);
      forall k: nat | WorksAt(serve, resource, k) && retry <= k
        ensures AtMostBroken(a, resource[c.recvSize..])
        ensures retry == k ==> Clean(a, resource[c.recvSize..])
      {
        WorksSoon(serve, resource, k, retry, c.recvSize);
      }
      ret, stopped := Attempt(c, a, resource, pos);
      if ret != HttpConn && ret != HttpTimeout {
        break;
      }
      retry := retry + 1;
    }
    LastCall(c.calls, c.dataPos);
    if c.dataPos != DataFirst {
      DeliveredMore(c.calls, Call(DataLast, []));
      c.calls := c.calls + [Call(DataLast, [])];
    }
  }
}
