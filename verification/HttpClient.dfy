// The receiving half of the HTTP client: chunks are collected in one buffer
// and handed to the callback in pieces of a fixed size.
module HttpClient {
  import opened CText
  import opened Memory
  import opened HttpBody
  import Hex

  datatype DataPos = DataFirst | DataMid | DataLast

  /** One call of the data callback. */
  datatype Call = Call(pos: DataPos, data: seq<byte>)

  /** Everything handed to the callback. */
  function Delivered(calls: seq<Call>): seq<byte> {
    if calls == [] then [] else Delivered(calls[..|calls| - 1]) + calls[|calls| - 1].data
  }

  lemma DeliveredMore(calls: seq<Call>, c: Call)
    ensures Delivered(calls + [c]) == Delivered(calls) + c.data
  {
    assert (calls + [c])[..|calls|] == calls;
  }

  /** The calls so far, and what the next one will be told. */
  predicate InOrder(calls: seq<Call>, dataPos: DataPos) {
    && dataPos != DataLast && (dataPos == DataFirst <==> calls == [])
    && (forall i :: 0 <= i < |calls| ==> calls[i].pos == DataMid || (i == 0 && calls[i].pos == DataFirst))
  }

  /** The calls after those in was hand over MAX_LEN bytes each; the first of all is marked. */
  predicate FullPieces(was: seq<Call>, calls: seq<Call>) {
    && was <= calls
    && forall i :: |was| <= i < |calls| ==> |calls[i].data| == MAX_LEN && (calls[i].pos == DataFirst <==> i == 0)
  }

  lemma OneMorePiece(was: seq<Call>, calls: seq<Call>, c: Call)
    requires FullPieces(was, calls) && |c.data| == MAX_LEN && (c.pos == DataFirst <==> calls == [])
    ensures FullPieces(was, calls + [c])
  {
  }

  /** Full pieces, and behind them one call with what was left. */
  predicate PiecesAndRest(was: seq<Call>, calls: seq<Call>) {
    && |was| < |calls| && FullPieces(was, calls[..|calls| - 1])
    && calls[|calls| - 1].pos == DataMid && |calls[|calls| - 1].data| < MAX_LEN
  }

  /** The first call, if there is one, is marked as the first. */
  predicate FirstMarked(calls: seq<Call>) {
    calls == [] || calls[0].pos == DataFirst
  }

  /** The first call for a chunked body is marked as the first if and only if it hands over a full piece. */
  lemma FirstOfPieces(calls: seq<Call>)
    requires PiecesAndRest([], calls)
    ensures calls[0].pos == DataFirst <==> |Delivered(calls)| >= MAX_LEN
    ensures |Delivered(calls)| < MAX_LEN ==> calls == [Call(DataMid, Delivered(calls))]
  {
    var n := |calls| - 1;
    assert calls[..n] + [calls[n]] == calls;
    DeliveredMore(calls[..n], calls[n]);
    if n > 0 {
      assert calls[..n][0].pos == DataFirst;
      DeliveredAtLeast(calls[..n]);
    } else {
      assert [] + calls[0].data == calls[0].data;
    }
  }

  /** The mark after a chunked body of which got was delivered. */
  lemma MarkOfBody(res: Result, calls: seq<Call>, got: seq<byte>)
    requires if res == HttpOk then PiecesAndRest([], calls) else FullPieces([], calls)
    requires Delivered(calls) == Delivered([]) + got
    ensures if res == HttpOk then calls != [] && (calls[0].pos == DataFirst <==> |got| >= MAX_LEN)
            else FirstMarked(calls)
  {
    if res == HttpOk {
      FirstOfPieces(calls);
    }
  }

  lemma {:induction false} DeliveredAtLeast(calls: seq<Call>)
    requires calls != []
    ensures |Delivered(calls)| >= |calls[0].data|
  {
    if |calls| > 1 {
      DeliveredAtLeast(calls[..|calls| - 1]);
    }
  }

  class Client {
    const buf: array<byte>
    const chunkBuf: array<byte>
    var chunkSize: nat
    var recvSize: nat
    var dataPos: DataPos
    var calls: seq<Call>
    var stops: seq<bool>

    /** stopAnswers are what check_stop_notify_cb will say. */
    constructor (start: nat, stopAnswers: seq<bool>)
      ensures Valid() && fresh(buf) && fresh(chunkBuf) && stops == stopAnswers
      ensures calls == [] && recvSize == start && dataPos == DataFirst
    {
      buf := new byte[MAX_LEN + 1];
      chunkBuf := new byte[MAX_LEN + 1];
      chunkSize := 0;
      recvSize := start;
      dataPos := DataFirst;
      calls := [];
      stops := stopAnswers;
    }

    ghost predicate Valid()
      reads `calls, `dataPos
    {
      buf != chunkBuf && buf.Length == MAX_LEN + 1 && chunkBuf.Length == MAX_LEN + 1 && InOrder(calls, dataPos)
    }

    /** data_hdlr_cb, and the count of what it was given */
    method HandOver(pos: DataPos, src: array<byte>, n: nat)
      requires Valid() && n <= src.Length && (pos == dataPos || pos == DataMid)
      modifies `calls, `recvSize, `dataPos
      ensures Valid() && dataPos == DataMid
      ensures Delivered(calls) == old(Delivered(calls)) + src[..n]
      ensures calls == old(calls) + [Call(pos, src[..n])]
      ensures recvSize == old(recvSize) + n
    {
      DeliveredMore(calls, Call(pos, src[..n]));
      calls := calls + [Call(pos, src[..n])];
      recvSize := recvSize + n;
      dataPos := DataMid;
    }

    /** The bytes of this body seen so far: handed over since the calls in was, or waiting in chunkBuf. */
    ghost predicate Collected(was: seq<Call>, start: nat, pending: nat, data: seq<byte>)
      reads `calls, `recvSize, `dataPos, chunkBuf
    {
      && Valid() && pending < MAX_LEN && |Delivered(was)| <= |Delivered(calls)|
      && Delivered(calls) + chunkBuf[..pending] == Delivered(was) + data
      && recvSize + |Delivered(was)| == start + |Delivered(calls)|
      && FullPieces(was, calls)
    }

    /** Fill up chunkBuf, hand it over and keep what did not fit. */
    method Flush(n: nat, pending: nat) returns (left: nat)
      requires Valid() && pending < MAX_LEN <= pending + n && n <= MAX_LEN
      modifies `calls, `recvSize, `dataPos, chunkBuf
      ensures Valid() && left < MAX_LEN
      ensures var temp := MAX_LEN - pending;
        && left == n - temp && chunkBuf[..left] == buf[temp..n]
        && Delivered(calls) == old(Delivered(calls)) + (old(chunkBuf[..pending]) + buf[..temp])
      ensures recvSize == old(recvSize) + MAX_LEN
      ensures calls == old(calls) + [Call(old(dataPos), old(chunkBuf[..pending]) + buf[..MAX_LEN - pending])]
    {
      hide Delivered, InOrder;
      var temp := MAX_LEN - pending;
      Copy(chunkBuf, pending, buf, 0, temp);
      ghost var full := chunkBuf[..MAX_LEN];
      chunkBuf[MAX_LEN] := 0;
      assert chunkBuf[..MAX_LEN] == full;
      HandOver(dataPos, chunkBuf, pending + temp);
      Copy(chunkBuf, 0, buf, temp, n - temp);
      left := n - temp;
    }

    /** Move the first n bytes of buf behind the pending ones; hand over a full buffer. */
    method Collect(n: nat, pending: nat, ghost was: seq<Call>, ghost start: nat, ghost data: seq<byte>)
      returns (left: nat)
      requires Collected(was, start, pending, data) && n <= MAX_LEN
      modifies `calls, `recvSize, `dataPos, chunkBuf
      ensures Collected(was, start, left, data + buf[..n])
    {
      hide Delivered, InOrder, FullPieces;
      MarkIsFirst(calls, dataPos);
      ghost var pieces, pos := calls, dataPos;
      ghost var before := Delivered(was);
      ghost var done, waiting := Delivered(calls), chunkBuf[..pending];
      if pending + n >= MAX_LEN {
        left := Flush(n, pending);
        ghost var temp := MAX_LEN - pending;
        OneMorePiece(was, pieces, Call(pos, waiting + buf[..temp]));
        assert buf[..n] == buf[..temp] + buf[temp..n];
        Regroup(done, waiting, buf[..temp], buf[temp..n], before, data);
      } else {
        Copy(chunkBuf, pending, buf, 0, n);
        left := pending + n;
        Regroup(done, waiting, [], buf[..n], before, data);
        assert chunkBuf[..left] == waiting + buf[..n] && waiting + [] == waiting && [] + buf[..n] == buf[..n];
        Assoc(done, waiting, buf[..n]);
      }
    }

    /** check_stop_notify_cb */
    method CheckStop() returns (stop: bool)
      modifies `stops
      ensures Never(old(stops)) ==> !stop && Never(stops)
    {
      stop := stops != [] && stops[0];
      stops := if stops == [] then [] else stops[1..];
    }

    /** A chunk that fits the buffer together with its CR LF. */
    method RecvSmall(sock: Socket, size: nat, len: nat, pending: nat, ghost rest: seq<byte>,
                     ghost was: seq<Call>, ghost start: nat, ghost data: seq<byte>)
      returns (res: Result, n: nat, left: nat, ghost got: seq<byte>)
      requires Collected(was, start, pending, data) && Holding(buf[..], len, sock.stream, rest)
      requires size + 2 <= MAX_LEN
      modifies `calls, `recvSize, `dataPos, chunkBuf, buf, sock
      ensures Collected(was, start, left, got)
      ensures res == HttpOk ==>
        && |rest| >= size + 2 && rest[size..size + 2] == CRLF && got == data + rest[..size]
        && Holding(buf[..], n, sock.stream, rest[size + 2..])
      ensures res == HttpPrtcl ==>
        if |rest| < size + 2 then got == data else rest[size..size + 2] != CRLF && got == data + rest[..size]
      ensures res == HttpConn ==> got == data
      ensures res == HttpPrtcl || Outcome(res, old(sock.plan), sock.plan)
      ensures NoErrors(old(sock.plan)) ==> NoErrors(sock.plan)
    {
      hide Collected, Holding;
      CollectedValid(this, was, start, pending, data);
      HoldingBound(buf[..], len, sock.stream, rest);
      n, left, got, res := len, pending, data, HttpOk;
      if n < size + 2 {
        var more;
        res, more := HttpRecv(sock, buf, n, MAX_LEN - n, rest);
        n := n + more;
        if res != HttpOk {
          return;
        }
      }
      HoldingBound(buf[..], n, sock.stream, rest);
      if n < size + 2 {
        res := HttpPrtcl;
        return;
      }
      HoldingData(buf[..], n, sock.stream, rest, size);
      assert buf[..][..size] == buf[..size];
      left := Collect(size, pending, was, start, data);
      got := data + buf[..size];
      if buf[size] != CR || buf[size + 1] != LF {
        res := HttpPrtcl;
        return;
      }
      Drop(buf, size + 2, n, sock.stream, rest);
      n := n - (size + 2);
      res := HttpOk;
    }

    /** One round of the loop that reads a large chunk. */
    method RecvPiece(sock: Socket, len: nat, need: nat, pending: nat, ghost rest: seq<byte>,
                     ghost was: seq<Call>, ghost start: nat, ghost data: seq<byte>)
      returns (res: Result, more: nat, left: nat)
      requires Collected(was, start, pending, data) && Holding(buf[..], len, sock.stream, rest)
      requires len < MAX_LEN && 0 < need && len + need <= |rest|
      modifies `calls, `recvSize, `dataPos, chunkBuf, buf, sock
      ensures Outcome(res, old(sock.plan), sock.plan)
      ensures res == HttpOk ==>
        && 0 < more <= need && len + more <= |rest|
        && Collected(was, start, left, data + rest[..len + more])
        && Holding(buf[..], 0, sock.stream, rest[len + more..])
      ensures res != HttpOk ==> Collected(was, start, left, data)
    {
      hide Collected, Holding;
      CollectedValid(this, was, start, pending, data);
      var max := if MAX_LEN - len > need then need else MAX_LEN - len;
      res, more := HttpRecv(sock, buf, len, max, rest);
      left := pending;
      if res != HttpOk {
        return;
      }
      HoldingAll(buf[..], len + more, sock.stream, rest);
      assert buf[..][..len + more] == buf[..len + more];
      left := Collect(len + more, pending, was, start, data);
    }

    /** A chunk that does not fit the buffer, read and handed on piece by piece. */
    method RecvLarge(sock: Socket, size: nat, len: nat, pending: nat, ghost rest: seq<byte>,
                     ghost was: seq<Call>, ghost start: nat, ghost data: seq<byte>)
      returns (res: Result, left: nat, ghost got: seq<byte>, stopped: bool)
      requires Collected(was, start, pending, data) && Holding(buf[..], len, sock.stream, rest)
      requires size + 2 > MAX_LEN && |rest| >= size && len < MAX_LEN
      modifies `calls, `recvSize, `dataPos, `stops, chunkBuf, buf, sock
      ensures Collected(was, start, left, got) && data <= got <= data + rest[..size]
      ensures res == HttpOk && !stopped ==>
        && |rest| >= size + 2 && rest[size..size + 2] == CRLF && got == data + rest[..size]
        && Holding(buf[..], 0, sock.stream, rest[size + 2..])
      ensures res == HttpPrtcl ==> |rest| < size + 2 || rest[size..size + 2] != CRLF
      ensures res in {HttpPrtcl, HttpFailed} || Outcome(res, old(sock.plan), sock.plan)
      ensures res == HttpFailed ==> size <= len
      ensures NoErrors(old(sock.plan)) ==> NoErrors(sock.plan)
      ensures stopped ==> res == HttpOk
      ensures Never(old(stops)) ==> !stopped && Never(stops)
    {
      hide Collected, Holding, Outcome;
      CollectedValid(this, was, start, pending, data);
      HoldingBound(buf[..], len, sock.stream, rest);
      left, got, stopped, res := pending, data, false, HttpOk;
      assert data + rest[..0] == data;
      PrefixOf(data, rest, 0, size);
      OutcomeNone(sock.plan);
      if size <= len {
        res := HttpFailed;
        return;
      }
      var n: nat := len;
      var need: nat := size - len;
      ghost var k: nat := 0;
      assert rest[0..] == rest;
      while need > 0
        invariant res == HttpOk && !stopped && k + n + need == size && n < MAX_LEN && (need == 0 ==> n == 0)
        invariant Collected(was, start, left, got) && got == data + rest[..k]
        invariant Holding(buf[..], n, sock.stream, rest[k..])
        invariant Outcome(HttpOk, old(sock.plan), sock.plan)
        invariant Never(old(stops)) ==> Never(stops)
        decreases need
      {
        stopped := CheckStop();
        if stopped {
          PrefixOf(data, rest, k, size);
          OutcomeErrors(res, old(sock.plan), sock.plan);
          return;
        }
        ghost var plan := sock.plan;
        var more;
        res, more, left := RecvPiece(sock, n, need, left, rest[k..], was, start, got);
        OutcomeTwice(HttpOk, old(sock.plan), plan, res, sock.plan);
        if res != HttpOk {
          PrefixOf(data, rest, k, size);
          OutcomeErrors(res, old(sock.plan), sock.plan);
          return;
        }
        PieceDone(data, rest, k, n + more);
        got := data + rest[..k + n + more];
        k := k + n + more;
        need := need - more;
        n := 0;
      }
      PrefixOf(data, rest, size, size);
      ghost var plan := sock.plan;
      res := RecvCrlf(sock, buf, rest[size..]);
      PieceDone([], rest, size, 0);
      OutcomeErrors(HttpOk, old(sock.plan), plan);
      if res != HttpPrtcl {
        OutcomeTwice(HttpOk, old(sock.plan), plan, res, sock.plan);
      }
    }

    /** One chunk behind its size line. */
    method RecvData(sock: Socket, size: nat, len: nat, pending: nat, ghost rest: seq<byte>,
                    ghost was: seq<Call>, ghost start: nat, ghost data: seq<byte>, ghost goal: Decoding)
      returns (res: Result, n: nat, left: nat, ghost got: seq<byte>, stopped: bool)
      requires Collected(was, start, pending, data) && Holding(buf[..], len, sock.stream, rest) && size > 0
      requires len + 2 <= MAX_LEN && goal == Prepend(data, DecodeData(size, rest)) && !goal.Endless?
      modifies `calls, `recvSize, `dataPos, `stops, chunkBuf, buf, sock
      ensures Collected(was, start, left, got) && got <= goal.data
      ensures res == HttpOk && !stopped ==>
        && size + 2 <= |rest| && Holding(buf[..], n, sock.stream, rest[size + 2..])
        && goal == Prepend(got, Decode(rest[size + 2..]))
      ensures res in {HttpOk, HttpConn, HttpPrtcl}
      ensures res == HttpPrtcl ==> goal.Bad?
      ensures NoErrors(old(sock.plan)) ==> res != HttpConn && NoErrors(sock.plan)
      ensures stopped ==> res == HttpOk
      ensures Never(old(stops)) ==> !stopped && Never(stops)
    {
      hide Collected, Holding, DecodeData, Decode, Prepend, CRLF;
      DataCases(size, rest, data, goal);
      stopped, n := false, 0;
      if size + 2 <= MAX_LEN {
        if len < size + 2 {
          stopped := CheckStop();
          left, got, res := pending, data, HttpOk;
          if stopped {
            return;
          }
        }
        res, n, left, got := RecvSmall(sock, size, len, pending, rest, was, start, data);
      } else {
        res, left, got, stopped := RecvLarge(sock, size, len, pending, rest, was, start, data);
      }
    }

    /**
     * http_client_recv_chunk: decode the body whose first len bytes are in the
     * buffer. What goes to the callback is a part of the decoded data, and all
     * of it if nobody stops the transfer and the result is good.
     */
    method RecvChunk(sock: Socket, len: nat, ghost inp: seq<byte>)
      returns (res: Result, ghost got: seq<byte>, stopped: bool)
      requires Valid() && Holding(buf[..], len, sock.stream, inp) && !Decode(inp).Endless?
      modifies `calls, `recvSize, `dataPos, `stops, chunkBuf, buf, sock
      ensures Valid() && recvSize == old(recvSize) + |got|
      ensures Delivered(calls) == old(Delivered(calls)) + got && got <= Decode(inp).data
      ensures res == HttpOk && !stopped ==> Decode(inp) == Done(got)
      ensures res in {HttpOk, HttpConn, HttpPrtcl} && (res == HttpPrtcl ==> Decode(inp).Bad?)
      ensures NoErrors(old(sock.plan)) ==> res != HttpConn
      ensures stopped ==> res == HttpOk
      ensures Never(old(stops)) ==> !stopped && Never(stops)
      ensures if res == HttpOk then PiecesAndRest(old(calls), calls) else FullPieces(old(calls), calls)
      ensures old(calls) == [] && res == HttpOk ==>
                calls != [] && (calls[0].pos == DataFirst <==> |got| >= MAX_LEN)
      ensures old(calls) == [] && res != HttpOk ==> FirstMarked(calls)
    {
      hide Collected, Holding, Decode, Delivered, InOrder, FullPieces, PiecesAndRest;
      ghost var was, start := calls, recvSize;
      ghost var goal, data, cur := Decode(inp), [], inp;
      var n: nat := len;
      var pending: nat := 0;
      CollectedStart(this);
      PrependNone(goal);
      res, stopped := HttpOk, false;
      var more := true;
      while more
        invariant Collected(was, start, pending, data) && data <= goal.data
        invariant more ==> res == HttpOk && !stopped && goal == Prepend(data, Decode(cur)) && !goal.Endless?
        invariant more ==> Holding(buf[..], n, sock.stream, cur)
        invariant !more && res == HttpOk && !stopped ==> goal == Done(data)
        invariant res in {HttpOk, HttpConn, HttpPrtcl} && (res == HttpPrtcl ==> goal.Bad?)
        invariant NoErrors(old(sock.plan)) ==> NoErrors(sock.plan) && res != HttpConn
        invariant stopped ==> res == HttpOk
        invariant Never(old(stops)) ==> Never(stops) && !stopped
        decreases more, |cur|
      {
        res, n, pending, data, cur, more, stopped := Round(sock, n, pending, cur, was, start, data, goal);
      }
      got := HandOverRest(res, pending, was, start, data);
      if was == [] {
        MarkOfBody(res, calls, got);
      }
    }

    /** The end of http_client_recv_chunk: what is still waiting goes to the callback if all went well. */
    method HandOverRest(res: Result, pending: nat, ghost was: seq<Call>, ghost start: nat, ghost data: seq<byte>)
      returns (ghost got: seq<byte>)
      requires Collected(was, start, pending, data)
      modifies `calls, `recvSize, `dataPos
      ensures Valid() && Delivered(calls) == Delivered(was) + got && recvSize == start + |got|
      ensures got <= data && (res == HttpOk ==> got == data)
      ensures if res == HttpOk then PiecesAndRest(was, calls) else FullPieces(was, calls)
    {
      hide Delivered, InOrder;
      got := data;
      if res == HttpOk {
        ghost var pieces := calls;
        HandOver(DataMid, chunkBuf, pending);
        assert calls[..|pieces|] == pieces;
      } else {
        got := Delivered(calls)[|Delivered(was)|..];
        DeliveredPart(Delivered(calls), chunkBuf[..pending], Delivered(was), data);
      }
    }

    /** One round of the loop: a size line and the chunk behind it. */
    method Round(sock: Socket, len: nat, pending: nat, ghost cur: seq<byte>,
                 ghost was: seq<Call>, ghost start: nat, ghost data: seq<byte>, ghost goal: Decoding)
      returns (res: Result, n: nat, left: nat, ghost got: seq<byte>, ghost rest: seq<byte>, more: bool, stopped: bool)
      requires Collected(was, start, pending, data) && Holding(buf[..], len, sock.stream, cur)
      requires goal == Prepend(data, Decode(cur)) && !goal.Endless?
      modifies `calls, `recvSize, `dataPos, `stops, chunkBuf, buf, sock
      ensures Collected(was, start, left, got) && got <= goal.data
      ensures more ==> res == HttpOk && !stopped && goal == Prepend(got, Decode(rest))
      ensures more ==> Holding(buf[..], n, sock.stream, rest) && |rest| < |cur|
      ensures !more && res == HttpOk && !stopped ==> goal == Done(got)
      ensures res in {HttpOk, HttpConn, HttpPrtcl} && (res == HttpPrtcl ==> goal.Bad?)
      ensures NoErrors(old(sock.plan)) ==> NoErrors(sock.plan) && res != HttpConn
      ensures stopped ==> res == HttpOk
      ensures Never(old(stops)) ==> Never(stops) && !stopped
    {
      hide Collected, Holding, Decode, DecodeData, Prepend, Outcome, ScanHex, LineEnd;
      LineCases(cur, data, goal);
      CollectedValid(this, was, start, pending, data);
      res, n, left, got, rest, more := HttpOk, len, pending, data, cur, false;
      stopped := CheckStop();
      if stopped {
        return;
      }
      var size;
      res, size, n := RecvChunkedSize(sock, buf, len, cur);
      if res != HttpOk {
        if res != HttpPrtcl {
          OutcomeErrors(res, old(sock.plan), sock.plan);
          if NoErrors(old(sock.plan)) {
            OutcomeGood(res, old(sock.plan), sock.plan);
          }
        }
        return;
      }
      if size == 0 {
        return;
      }
      rest := cur[LineEnd(cur).value + 2..];
      res, n, left, got, stopped := RecvData(sock, size, n, pending, rest, was, start, data, goal);
      more := res == HttpOk && !stopped;
      if more {
        rest := rest[size + 2..];
      }
    }

    /** The first k bytes of inp have been handed over. */
    ghost predicate Passed(before: seq<byte>, start: nat, k: nat, inp: seq<byte>)
      reads `calls, `recvSize, `dataPos
    {
      Valid() && k <= |inp| && Delivered(calls) == before + inp[..k] && recvSize == start + k
    }

    /** One round of the loop over a body of known length. */
    method ContentRound(sock: Socket, len: nat, need: nat, ghost k: nat, ghost inp: seq<byte>,
                        ghost before: seq<byte>, ghost start: nat)
      returns (res: Result, n: nat, more: nat)
      requires Passed(before, start, k, inp) && Holding(buf[..], len, sock.stream, inp[k..])
      modifies `calls, `recvSize, `dataPos, buf, sock
      ensures more <= need && n == len + more && k + n <= |inp|
      ensures Passed(before, start, k + n, inp)
      ensures Holding(buf[..], 0, sock.stream, inp[k + n..])
      ensures Outcome(res, old(sock.plan), sock.plan)
      ensures res == HttpOk && n == 0 && need > 0 ==> |inp| == k
      ensures FirstMarked(old(calls)) ==> FirstMarked(calls)
    {
      hide Delivered, InOrder, Holding;
      HoldingBound(buf[..], len, sock.stream, inp[k..]);
      res, more := HttpRecv(sock, buf, len, if MAX_LEN - len > need then need else MAX_LEN - len, inp[k..]);
      n := len + more;
      HoldingBound(buf[..], n, sock.stream, inp[k..]);
      HoldingAll(buf[..], n, sock.stream, inp[k..]);
      PieceDone(before, inp, k, n);
      if n > 0 {
        assert buf[..][..n] == buf[..n];
        MarkIsFirst(calls, dataPos);
        HandOver(dataPos, buf, n);
      }
    }

    /** http_client_recv_content_data: a body of known length. */
    method RecvContent(sock: Socket, contentLen: nat, len: nat, ghost inp: seq<byte>)
      returns (res: Result, ghost got: seq<byte>, stopped: bool)
      requires Valid() && Holding(buf[..], len, sock.stream, inp) && recvSize <= contentLen
      modifies `calls, `recvSize, `dataPos, `stops, buf, sock
      ensures Valid() && recvSize == old(recvSize) + |got| <= contentLen
      ensures Delivered(calls) == old(Delivered(calls)) + got && got <= inp
      ensures res == HttpOk && !stopped ==> recvSize == contentLen
      ensures res in {HttpOk, HttpConn, HttpFailed}
      ensures res == HttpFailed ==> len + old(recvSize) > contentLen || (got == inp && recvSize < contentLen)
      ensures FirstMarked(old(calls)) ==> FirstMarked(calls)
      ensures NoErrors(old(sock.plan)) ==> res != HttpConn
      ensures stopped ==> res == HttpOk
      ensures Never(old(stops)) ==> !stopped && Never(stops)
    {
      hide Holding, Passed, Outcome, Delivered;
      ghost var before, start := Delivered(calls), recvSize;
      ghost var k: nat := 0;
      var need: nat, n: nat := contentLen - recvSize, len;
      res, stopped, got := HttpOk, false, [];
      PassedNone(this, inp);
      OutcomeNone(sock.plan);
      HoldingBound(buf[..], len, sock.stream, inp);
      assert before + [] == before && inp[0..] == inp;
      if len > MAX_LEN || len > need {
        res := HttpFailed;
        PassedAll(this, before, start, k, inp);
        return;
      }
      need := need - n;
      while need > 0 || n > 0
        invariant k <= |inp| && Passed(before, start, k, inp) && Holding(buf[..], n, sock.stream, inp[k..])
        invariant start + k + n + need == contentLen
        invariant res == HttpOk && !stopped && Outcome(res, old(sock.plan), sock.plan)
        invariant Never(old(stops)) ==> Never(stops)
        invariant FirstMarked(old(calls)) ==> FirstMarked(calls)
        decreases need + n
      {
        stopped := CheckStop();
        if stopped {
          break;
        }
        ghost var was := sock.plan;
        var more;
        res, n, more := ContentRound(sock, n, need, k, inp, before, start);
        OutcomeTwice(HttpOk, old(sock.plan), was, res, sock.plan);
        k := k + n;
        need := need - more;
        if res != HttpOk {
          break;
        }
        if need > 0 && n == 0 {
          res := HttpFailed;
          break;
        }
        n := 0;
      }
      PassedAll(this, before, start, k, inp);
      got := inp[..k];
    }
  }

  /** Every well-formed chunked body reaches the callback as the payload of its chunks. */
  method RecvEncoded(c: Client, sock: Socket, len: nat, ghost chunks: seq<Chunk>, ghost last: SizeText,
                     ghost trailer: seq<byte>) returns (res: Result, stopped: bool)
    requires c.Valid() && WellFormed(chunks, last, trailer)
    requires Holding(c.buf[..], len, sock.stream, Encode(chunks, last, trailer))
    requires NoErrors(sock.plan) && Never(c.stops)
    modifies c`calls, c`recvSize, c`dataPos, c`stops, c.chunkBuf, c.buf, sock
    ensures c.Valid() && res == HttpOk && !stopped
    ensures Delivered(c.calls) == old(Delivered(c.calls)) + Payload(chunks)
    ensures c.recvSize == old(c.recvSize) + |Payload(chunks)|
    ensures PiecesAndRest(old(c.calls), c.calls)
    ensures old(c.calls) == [] ==> c.calls != [] && (c.calls[0].pos == DataFirst <==> |Payload(chunks)| >= MAX_LEN)
  {
    hide Holding, Delivered, InOrder, Decode, Encode, WellFormed, PiecesAndRest, FullPieces;
    DecodeEncode(chunks, last, trailer);
    ghost var got;
    res, got, stopped := c.RecvChunk(sock, len, Encode(chunks, last, trailer));
  }

  const TWO := SizeText([2], [false], [])
  const NONE := SizeText([0], [false], [])

  /** One chunk of two bytes, as it is sent. */
  lemma ShortEncoding()
    ensures var chunks := [Chunk(TWO, [104, 105])];
      && WellFormed(chunks, NONE, [CR, LF]) && Payload(chunks) == [104, 105]
      && Encode(chunks, NONE, [CR, LF]) == [50, CR, LF, 104, 105, CR, LF, 48, CR, LF, CR, LF]
  {
    hide Proper, Line, Encode;
    var c := Chunk(TWO, [104, 105]);
    OneDigit(2);
    OneDigit(0);
    assert [c][1..] == [];
    assert Payload([c]) == c.data + [];
    assert CRLF == [CR, LF];
    EncodeOne(c, NONE, [CR, LF]);
    assert Line(NONE) + (CRLF + [CR, LF]) == [48, CR, LF, CR, LF];
  }

  lemma EncodeOne(c: Chunk, last: SizeText, trailer: seq<byte>)
    requires WellFormed([c], last, trailer) && Proper(c.size)
    ensures Encode([c], last, trailer) == Line(c.size) + (CRLF + (c.data + (CRLF + (Line(last) + (CRLF + trailer)))))
  {
    assert [c][1..] == [];
  }

  lemma OneDigit(d: nat)
    requires d < 10
    ensures var t := SizeText([d], [false], []); Proper(t) && Line(t) == [48 + d] && Hex.Positional(t.digits) == d
  {
    Hex.DigitForm(d, false);
    assert [d][..0] == [] && Hex.Positional([]) == 0;
  }

  /** A body of two bytes in one chunk: the only call for it is marked as a middle one. */
  method ShortBody(c: Client)
    requires c.Valid() && c.calls == [] && c.stops == []
    modifies c`calls, c`recvSize, c`dataPos, c`stops, c.chunkBuf, c.buf
    ensures c.calls == [Call(DataMid, [104, 105])]
  {
    hide InOrder, Decode;
    ghost var chunks := [Chunk(TWO, [104, 105])];
    var body := [50, CR, LF, 104, 105, CR, LF, 48, CR, LF, CR, LF];
    ShortEncoding();
    var sock := new Socket(body, []);
    assert c.buf[..][..0] + body == body;
    var res, stopped := RecvEncoded(c, sock, 0, chunks, NONE, [CR, LF]);
    FirstOfPieces(c.calls);
    assert [] + Payload(chunks) == Payload(chunks);
  }

  lemma MarkIsFirst(calls: seq<Call>, dataPos: DataPos)
    requires InOrder(calls, dataPos)
    ensures dataPos == DataFirst <==> calls == []
  {
  }

  lemma Regroup(done: seq<byte>, waiting: seq<byte>, x: seq<byte>, y: seq<byte>, before: seq<byte>, data: seq<byte>)
    requires done + waiting == before + data
    ensures (done + (waiting + x)) + y == before + (data + (x + y))
  {
    Assoc(done, waiting, x);
    Assoc(done + waiting, x, y);
    Assoc(before, data, x + y);
  }

  // ----- reading into the buffer

  /** The first n bytes of the buffer and the bytes still to come are inp. */
  ghost predicate Holding(buf: seq<byte>, n: nat, stream: seq<byte>, inp: seq<byte>) {
    n <= MAX_LEN && n < |buf| && buf[..n] + stream == inp
  }

  /** Nobody wants to stop. */
  predicate Never(stops: seq<bool>) {
    forall i :: 0 <= i < |stops| ==> !stops[i]
  }

  predicate NoErrors(plan: seq<int>) {
    forall i :: 0 <= i < |plan| ==> plan[i] >= 0
  }

  /** A connection that fails only when the socket reports an error. */
  ghost predicate Outcome(res: Result, plan: seq<int>, plan': seq<int>) {
    && (NoErrors(plan) ==> NoErrors(plan'))
    && (res == HttpOk || (res == HttpConn && !NoErrors(plan)))
  }

  lemma OutcomeTwice(r1: Result, p1: seq<int>, p2: seq<int>, r2: Result, p3: seq<int>)
    requires Outcome(r1, p1, p2) && Outcome(r2, p2, p3)
    ensures Outcome(r2, p1, p3)
  {
  }

  /** http_client_recv at offset n: read until max bytes are there, the stream ends or there is an error. */
  method HttpRecv(sock: Socket, buf: array<byte>, n: nat, max: nat, ghost inp: seq<byte>)
    returns (res: Result, len: nat)
    requires Holding(buf[..], n, sock.stream, inp) && n + max <= MAX_LEN && buf.Length == MAX_LEN + 1
    modifies sock, buf
    ensures len <= max && Holding(buf[..], n + len, sock.stream, inp)
    ensures Outcome(res, old(sock.plan), sock.plan)
    ensures res == HttpOk ==> n + len == if n + max <= |inp| then n + max else |inp|
  {
    len := 0;
    res := HttpOk;
    while len < max
      invariant len <= max && Holding(buf[..], n + len, sock.stream, inp)
      invariant Outcome(HttpOk, old(sock.plan), sock.plan)
      decreases max - len
    {
      ghost var was := sock.plan;
      var ret := sock.Recv(buf, n + len, max - len);
      assert buf[..][..n + len] == buf[..n + len];
      if ret > 0 {
        assert buf[..][..n + len + ret] == buf[..n + len + ret];
        len := len + ret;
      } else if ret == 0 {
        break;
      } else {
        assert was[0] < 0;
        return HttpConn, len;
      }
    }
  }

  // ----- the size line

  /** Look for a CR LF with a byte after it. */
  method FindCrlf(buf: array<byte>, n: nat) returns (found: bool, pos: nat)
    requires n <= buf.Length
    ensures found ==> pos + 2 < n && EndsAt(buf[..n], pos)
    ensures !found ==> forall k :: 0 <= k && k + 2 < n ==> !(buf[k] == CR && buf[k + 1] == LF)
  {
    found, pos := false, 0;
    if n >= 2 {
      while pos < n - 2
        invariant pos <= n - 2
        invariant forall k :: 0 <= k < pos ==> !(buf[k] == CR && buf[k + 1] == LF)
      {
        if buf[pos] == CR && buf[pos + 1] == LF {
          return true, pos;
        }
        pos := pos + 1;
      }
    }
  }

  lemma FoundLine(buf: seq<byte>, n: nat, stream: seq<byte>, inp: seq<byte>, pos: nat)
    requires Holding(buf, n, stream, inp) && pos + 2 < n && EndsAt(buf[..n], pos)
    ensures LineEnd(inp) == Some(pos) && inp[..pos] == buf[..pos] && |inp| >= n
  {
    assert forall k :: 0 <= k < n ==> inp[k] == buf[..n][k];
    FirstIsAt(inp, pos);
  }

  lemma NoLine(buf: seq<byte>, n: nat, stream: seq<byte>, inp: seq<byte>)
    requires Holding(buf, n, stream, inp) && (n == MAX_LEN || n == |inp|)
    requires forall k :: 0 <= k && k + 2 < n ==> !(buf[k] == CR && buf[k + 1] == LF)
    ensures LineEnd(inp) == None && |inp| >= n
  {
    assert |inp| == n + |stream|;
    assert forall k :: 0 <= k < n ==> inp[k] == buf[..n][k] == buf[k];
  }

  /** memmove of the rest of the buffer to its start, with the terminator */
  method Shift(buf: array<byte>, from: nat, n: nat)
    requires from + n < buf.Length
    modifies buf
    ensures buf[..n] == old(buf[from..from + n])
  {
    var i := 0;
    while i < n + 1
      invariant 0 <= i <= n + 1
      invariant forall k :: 0 <= k < i ==> buf[k] == old(buf[from + k])
      invariant forall k :: i <= k < buf.Length ==> buf[k] == old(buf[k])
    {
      buf[i] := buf[from + i];
      i := i + 1;
    }
  }

  /** Drop the first k bytes of the buffer. */
  method Drop(buf: array<byte>, k: nat, n: nat, ghost stream: seq<byte>, ghost inp: seq<byte>)
    requires Holding(buf[..], n, stream, inp) && k <= n
    modifies buf
    ensures k <= |inp| && Holding(buf[..], n - k, stream, inp[k..])
  {
    assert buf[..][..n] == buf[..k] + buf[k..n];
    ghost var tail := buf[k..n];
    Assoc(buf[..k], tail, stream);
    Shift(buf, k, n - k);
    assert buf[..][..n - k] == tail;
  }

  lemma HoldingBound(buf: seq<byte>, n: nat, stream: seq<byte>, inp: seq<byte>)
    requires Holding(buf, n, stream, inp)
    ensures n <= MAX_LEN && n + |stream| == |inp|
  {
  }

  lemma HoldingData(buf: seq<byte>, n: nat, stream: seq<byte>, inp: seq<byte>, size: nat)
    requires Holding(buf, n, stream, inp) && size + 2 <= n
    ensures size + 2 <= |inp| && inp[..size] == buf[..size]
    ensures inp[size..size + 2] == CRLF <==> buf[size] == CR && buf[size + 1] == LF
  {
    assert forall k :: 0 <= k < n ==> inp[k] == buf[..n][k] == buf[k];
    assert inp[size..size + 2] == [buf[size], buf[size + 1]];
    assert CRLF == [CR, LF];
  }

  /** How the decoding goes on after one chunk. */
  lemma DataCases(size: nat, rest: seq<byte>, data: seq<byte>, goal: Decoding)
    requires size > 0 && goal == Prepend(data, DecodeData(size, rest)) && !goal.Endless?
    ensures data <= goal.data
    ensures |rest| < size + 2 && size + 2 <= MAX_LEN ==> goal == Bad(data)
    ensures size + 2 > MAX_LEN ==> |rest| >= size
    ensures |rest| >= size && !(|rest| < size + 2 && size + 2 <= MAX_LEN) ==> data + rest[..size] <= goal.data
    ensures |rest| < size + 2 || rest[size..size + 2] != CRLF ==> goal.Bad?
    ensures |rest| >= size + 2 && rest[size..size + 2] == CRLF ==>
              goal == Prepend(data + rest[..size], Decode(rest[size + 2..]))
  {
    hide Decode, CRLF;
    var d := DecodeData(size, rest);
    if |rest| >= size + 2 && rest[size..size + 2] == CRLF {
      Assoc(data, rest[..size], Decode(rest[size + 2..]).data);
    }
  }

  lemma CollectedStart(c: Client)
    requires c.Valid()
    ensures c.Collected(c.calls, c.recvSize, 0, [])
  {
  }

  lemma PrependNone(d: Decoding)
    ensures Prepend([], d) == d && [] <= d.data
  {
    assert [] + d.data == d.data;
  }

  lemma DeliveredPart(delivered: seq<byte>, waiting: seq<byte>, before: seq<byte>, data: seq<byte>)
    requires delivered + waiting == before + data && |before| <= |delivered|
    ensures delivered == before + delivered[|before|..] && delivered[|before|..] <= data
  {
    var all := before + data;
    assert delivered == all[..|delivered|];
    assert data == all[|before|..];
  }

  lemma OutcomeGood(res: Result, plan: seq<int>, plan': seq<int>)
    requires Outcome(res, plan, plan') && NoErrors(plan)
    ensures res == HttpOk
  {
  }

  /** What the size line says about the decoding. */
  lemma LineCases(cur: seq<byte>, data: seq<byte>, goal: Decoding)
    requires goal == Prepend(data, Decode(cur)) && !goal.Endless?
    ensures data <= goal.data
    ensures LineEnd(cur).Some? || |cur| >= MAX_LEN
    ensures LineEnd(cur).None? || ScanHex(cur[..LineEnd(cur).value]).None? ==> goal.Bad?
    ensures LineEnd(cur).Some? && ScanHex(cur[..LineEnd(cur).value]).Some? ==>
              var size, rest := ScanHex(cur[..LineEnd(cur).value]).value, cur[LineEnd(cur).value + 2..];
              goal == Prepend(data, DecodeData(size, rest)) && (size == 0 ==> goal == Done(data))
  {
    hide ScanHex, LineEnd;
    assert data + [] == data;
  }

  lemma PassedNone(c: Client, inp: seq<byte>)
    requires c.Valid()
    ensures c.Passed(Delivered(c.calls), c.recvSize, 0, inp)
  {
    assert Delivered(c.calls) + inp[..0] == Delivered(c.calls);
  }

  lemma PassedAll(c: Client, before: seq<byte>, start: nat, k: nat, inp: seq<byte>)
    requires c.Passed(before, start, k, inp)
    ensures c.Valid() && k <= |inp| && Delivered(c.calls) == before + inp[..k] && c.recvSize == start + k
    ensures inp[..k] <= inp && |inp[..k]| == k && (k == |inp| ==> inp[..k] == inp)
  {
  }

  lemma OutcomeNone(plan: seq<int>)
    ensures Outcome(HttpOk, plan, plan)
  {
  }

  lemma OutcomeErrors(res: Result, plan: seq<int>, plan': seq<int>)
    requires Outcome(res, plan, plan')
    ensures NoErrors(plan) ==> NoErrors(plan')
    ensures res == HttpOk || res == HttpConn
  {
  }

  /** All of the buffer is data. */
  lemma HoldingAll(buf: seq<byte>, n: nat, stream: seq<byte>, inp: seq<byte>)
    requires Holding(buf, n, stream, inp)
    ensures n <= |inp| && inp[..n] == buf[..n] && Holding(buf, 0, stream, inp[n..])
  {
    assert inp[n..] == stream;
  }

  lemma PrefixOf(data: seq<byte>, rest: seq<byte>, k: nat, size: nat)
    requires k <= size <= |rest|
    ensures data <= data + rest[..k] <= data + rest[..size]
  {
  }

  lemma PieceDone(data: seq<byte>, rest: seq<byte>, k: nat, n: nat)
    requires k + n <= |rest|
    ensures (data + rest[..k]) + rest[k..][..n] == data + rest[..k + n]
    ensures rest[k..][n..] == rest[k + n..]
  {
    assert rest[..k + n] == rest[..k] + rest[k..][..n];
  }

  lemma CollectedValid(c: Client, was: seq<Call>, start: nat, pending: nat, data: seq<byte>)
    requires c.Collected(was, start, pending, data)
    ensures c.Valid() && pending < MAX_LEN
  {
  }

  /** The CR LF behind a large chunk. */
  method RecvCrlf(sock: Socket, buf: array<byte>, ghost rest: seq<byte>) returns (res: Result)
    requires Holding(buf[..], 0, sock.stream, rest) && buf.Length == MAX_LEN + 1
    modifies sock, buf
    ensures res == HttpPrtcl || Outcome(res, old(sock.plan), sock.plan)
    ensures NoErrors(old(sock.plan)) ==> NoErrors(sock.plan)
    ensures res == HttpOk ==>
      |rest| >= 2 && rest[..2] == CRLF && Holding(buf[..], 0, sock.stream, rest[2..])
    ensures res == HttpPrtcl ==> |rest| < 2 || rest[..2] != CRLF
  {
    hide Holding;
    var n;
    res, n := HttpRecv(sock, buf, 0, 2, rest);
    HoldingBound(buf[..], n, sock.stream, rest);
    if res != HttpOk {
      return;
    }
    if n == 2 {
      HoldingData(buf[..], n, sock.stream, rest, 0);
      HoldingAll(buf[..], n, sock.stream, rest);
    }
    if n != 2 || buf[0] != CR || buf[1] != LF {
      res := HttpPrtcl;
    }
  }

  /** http_client_recv_chunked_size: the size of the next chunk; the buffer starts behind its line. */
  method RecvChunkedSize(sock: Socket, buf: array<byte>, len: nat, ghost inp: seq<byte>)
    returns (res: Result, size: nat, n: nat)
    requires Holding(buf[..], len, sock.stream, inp) && buf.Length == MAX_LEN + 1
    requires LineEnd(inp).Some? || |inp| >= MAX_LEN
    modifies sock, buf
    ensures res == HttpPrtcl || Outcome(res, old(sock.plan), sock.plan)
    ensures NoErrors(old(sock.plan)) ==> NoErrors(sock.plan)
    ensures res == HttpOk ==>
      && LineEnd(inp).Some? && ScanHex(inp[..LineEnd(inp).value]) == Some(size)
      && n + 3 <= MAX_LEN + 1 && Holding(buf[..], n, sock.stream, inp[LineEnd(inp).value + 2..])
    ensures res == HttpPrtcl ==> LineEnd(inp).None? || ScanHex(inp[..LineEnd(inp).value]).None?
  {
    hide Holding, EndsAt, LineEnd, ScanHex;
    n := len;
    size := 0;
    var pos: nat := 0;
    var found := false;
    HoldingBound(buf[..], n, sock.stream, inp);
    while !found
      invariant n <= MAX_LEN && Holding(buf[..], n, sock.stream, inp)
      invariant Outcome(HttpOk, old(sock.plan), sock.plan)
      invariant found ==> pos + 2 < n && EndsAt(buf[..n], pos)
      decreases !found, MAX_LEN - n
    {
      found, pos := FindCrlf(buf, n);
      if !found {
        if n < MAX_LEN {
          ghost var was := sock.plan;
          var more;
          if n == |inp| {
            NoLine(buf[..], n, sock.stream, inp);
          }
          res, more := HttpRecv(sock, buf, n, MAX_LEN - n, inp);
          OutcomeTwice(HttpOk, old(sock.plan), was, res, sock.plan);
          n := n + more;
          if res != HttpOk {
            return res, size, n;
          }
        } else {
          NoLine(buf[..], n, sock.stream, inp);
          return HttpPrtcl, size, n;
        }
      }
    }
    assert buf[..][..n] == buf[..n] && buf[..][..pos] == buf[..pos];
    FoundLine(buf[..], n, sock.stream, inp, pos);
    var value := ScanHex(buf[..pos]);
    if value == None {
      return HttpPrtcl, size, n;
    }
    size := value.value;
    Drop(buf, pos + 2, n, sock.stream, inp);
    n := n - (pos + 2);
    res := HttpOk;
  }
}
