// The two stages of the voice engine, as they change their buffers.
module VoiceSession {
  import opened CText
  import opened Memory
  import opened VoiceStream

  /** The collecting stage. */
  class Voice {
    const data: array<byte>
    var size: nat
    var sid: nat
    /** The segments sent so far. */
    var sent: seq<Segment>
    /** The packets of this session, and what had been sent before it. */
    ghost var packets: seq<seq<byte>>
    ghost var before: seq<Segment>

    constructor ()
      ensures Valid() && packets == [] && before == [] && sent == [] && fresh(data)
    {
      data := new byte[I_BUFFER_LEN];
      size, sid, sent := 0, 0, [];
      packets, before := [], [];
    }

    ghost predicate Valid()
      reads this, data
    {
      && data.Length == I_BUFFER_LEN && size <= I_BUFFER_LEN && PacketsFit(packets)
      && var c := Collect(packets);
        data[..size] == c.rest && sid == |c.full| && sent == before + Numbered(c.full)
    }

    /** duer_send_content: no data means the end; data that is too long to be encoded is not sent. */
    method SendContent(n: nat, eof: bool)
      requires n <= data.Length
      modifies `sid, `sent
      ensures var last := eof || n == 0;
        if n <= I_BUFFER_LEN then
          && sent == old(sent) + [Segment(old(sid), last, data[..n])]
          && sid == if last then 0 else old(sid) + 1
        else
          && sent == old(sent)
          && sid == if last then 0 else old(sid)
    {
      var last := eof || n == 0;
      BufferSizes(n);
      if n == 0 || Base64Size(n) + 1 <= O_BUFFER_LEN {
        sent := sent + [Segment(sid, last, data[..n])];
        sid := sid + 1;
      }
      if last {
        sid := 0;
      }
    }

    /** duer_speex_encoded_callback */
    method Encoded(packet: seq<byte>)
      requires Valid() && 0 < |packet| <= I_BUFFER_LEN
      modifies this, data
      ensures Valid() && packets == old(packets) + [packet] && before == old(before)
    {
      ghost var c := Collect(packets);
      CollectMore(packets, packet);
      CollectBounds(packets);
      if size + |packet| > I_BUFFER_LEN {
        SendContent(size, false);
        NumberedMore(c.full, c.rest);
        size := 0;
      }
      Store(data, size, packet);
      size := size + |packet|;
      packets := packets + [packet];
    }

    /** The second half of duer_voice_stop_internal. */
    method Flush()
      requires Valid()
      modifies this
      ensures sent == old(before) + Session(old(packets))
      ensures Valid() && packets == [] && before == sent
    {
      ghost var c := Collect(packets);
      ghost var was, first := packets, before;
      CollectBounds(packets);
      if size > 0 {
        SendContent(size, false);
        NumberedMore(c.full, c.rest);
      }
      SendContent(0, true);
      size := 0;
      assert data[..0] == [];
      packets, before := [], sent;
    }
  }

  /** The coder gives at most a frame's count of bytes for a frame. */
  ghost predicate CoderFits(coder: seq<seq<byte>> -> seq<byte>) {
    forall frames :: |coder(frames)| + 4 <= I_BUFFER_LEN
  }

  /** The framing stage. */
  class Speex {
    const bufferIn: array<byte>
    const frameSize: nat
    const mark: byte
    const coder: seq<seq<byte>> -> seq<byte>
    var frameCur: nat
    /** The frames given to the coder. */
    var frames: seq<seq<byte>>

    /** A coder for frames of size bytes. */
    constructor (size: nat, rateMark: byte, c: seq<seq<byte>> -> seq<byte>)
      requires size > 0
      ensures Valid() && fresh(bufferIn) && frameSize == size && coder == c && mark == rateMark
      ensures State() == Framing([], [])
    {
      bufferIn := new byte[size];
      frameSize, mark, coder := size, rateMark, c;
      frameCur, frames := 0, [];
    }

    ghost predicate Valid()
      reads this
    {
      frameSize > 0 && bufferIn.Length == frameSize && frameCur < frameSize
    }

    ghost function State(): (f: Framing)
      requires Valid()
      reads this, bufferIn
      ensures |f.rest| < frameSize
    {
      Framing(frames, bufferIn[..frameCur])
    }

    /** The packets of all frames have gone to the voice. */
    ghost predicate Passed(voice: Voice)
      reads this, voice, voice.data
    {
      voice.Valid() && voice.packets == Packets(coder, mark, frames)
    }

    /** duer_speex_encode_frame */
    method EncodeFrame(voice: Voice)
      requires Valid() && Passed(voice) && CoderFits(coder) && voice.data != bufferIn
      modifies `frames, voice, voice.data
      ensures frames == old(frames) + [bufferIn[..]] && Passed(voice) && voice.before == old(voice.before)
    {
      hide CoderFits, Packets;
      PacketsMore(coder, mark, frames, bufferIn[..]);
      frames := frames + [bufferIn[..]];
      BitsFit(coder, frames);
      voice.Encoded(Packet(coder(frames), mark));
    }

    /** Complete the frame that has been started, and code it. */
    method CompleteFrame(data: array<byte>, cur: nat, voice: Voice)
      requires Valid() && Passed(voice) && CoderFits(coder) && voice.data != bufferIn
      requires data != bufferIn && data != voice.data && cur + frameSize - frameCur <= data.Length
      modifies this, bufferIn, voice, voice.data
      ensures Valid() && Passed(voice) && frameCur == 0 && voice.before == old(voice.before)
      ensures frames == old(frames) + [old(bufferIn[..frameCur]) + data[cur..cur + frameSize - old(frameCur)]]
    {
      hide CoderFits, Packets;
      Copy(bufferIn, frameCur, data, cur, frameSize - frameCur);
      assert bufferIn[..] == bufferIn[..frameSize];
      frameCur := 0;
      EncodeFrame(voice);
    }

    /** The frame that has been started is filled up and coded; it stays where it is. */
    method CodeRest(voice: Voice)
      requires Valid() && Passed(voice) && CoderFits(coder) && voice.data != bufferIn
      modifies this, bufferIn, voice, voice.data
      ensures Valid() && Passed(voice) && frameCur == old(frameCur) && voice.before == old(voice.before)
      ensures bufferIn[..frameCur] == old(bufferIn[..frameCur])
      ensures frames == old(frames) + [Padded(old(bufferIn[..frameCur]), frameSize)]
    {
      hide CoderFits, Packets;
      ghost var rest := bufferIn[..frameCur];
      Store(bufferIn, frameCur, seq(frameSize - frameCur, _ => 0));
      assert bufferIn[..] == bufferIn[..frameSize] == Padded(rest, frameSize);
      assert bufferIn[..frameCur] == Padded(rest, frameSize)[..frameCur] == rest;
      EncodeFrame(voice);
    }

    /** duer_speex_encode */
    method Encode(data: array?<byte>, size: nat, voice: Voice)
      requires if data == null then size == 0 else size <= data.Length && data != bufferIn && data != voice.data
      requires Valid() && Passed(voice) && CoderFits(coder) && voice.data != bufferIn
      modifies this, bufferIn, voice, voice.data
      ensures Valid() && Passed(voice) && voice.before == old(voice.before)
      ensures State() == Feed(old(State()), if data == null then [] else old(data[..size]), frameSize)
    {
      hide CoderFits, Packets, FullFrames, Remainder;
      ghost var start := State();
      ghost var bytes: seq<byte> := if data == null then [] else data[..size];
      var cur: nat := 0;
      EncodeStart(start.rest, bytes, frameSize);
      assert start.frames + [] == start.frames;
      while cur + frameSize - frameCur <= size
        invariant cur <= size && Valid() && Passed(voice) && voice.before == old(voice.before)
        invariant data != null ==> data[..size] == bytes
        invariant State() == Framing(start.frames + FullFrames(start.rest + bytes[..cur], frameSize),
                                     Remainder(start.rest + bytes[..cur], frameSize))
        decreases size - cur
      {
        var k := frameSize - frameCur;
        Slice(data, size, cur, cur + k);
        EncodeStep(start.frames, start.rest, bytes, cur, k, frameSize);
        CompleteFrame(data, cur, voice);
        cur := cur + k;
      }
      if frameCur > 0 && (data == null || size == 0) {
        CodeRest(voice);
      } else if cur < size {
        EncodeEnd(start.rest, bytes, cur, frameSize);
        Slice(data, size, cur, size);
        Copy(bufferIn, frameCur, data, cur, size - cur);
        frameCur := frameCur + (size - cur);
      } else {
        assert bytes[..cur] == bytes;
      }
    }
  }

  lemma Slice(data: array<byte>, size: nat, from: nat, to: nat)
    requires from <= to <= size <= data.Length
    ensures data[from..to] == data[..size][from..to]
  {
  }

  lemma EncodeStart(rest: seq<byte>, bytes: seq<byte>, n: nat)
    requires n > 0 && |rest| < n
    ensures FullFrames(rest + bytes[..0], n) == [] && Remainder(rest + bytes[..0], n) == rest
  {
    assert rest + bytes[..0] == rest;
  }

  lemma EncodeStep(frames: seq<seq<byte>>, rest: seq<byte>, bytes: seq<byte>, cur: nat, k: nat, n: nat)
    requires n > 0 && cur + k <= |bytes| && |Remainder(rest + bytes[..cur], n)| + k == n
    ensures frames + FullFrames(rest + bytes[..cur + k], n)
         == (frames + FullFrames(rest + bytes[..cur], n)) + [Remainder(rest + bytes[..cur], n) + bytes[cur..cur + k]]
    ensures Remainder(rest + bytes[..cur + k], n) == []
  {
    OneFrame(rest + bytes[..cur], bytes[cur..cur + k], n);
    assert (rest + bytes[..cur]) + bytes[cur..cur + k] == rest + bytes[..cur + k];
  }

  lemma EncodeEnd(rest: seq<byte>, bytes: seq<byte>, cur: nat, n: nat)
    requires n > 0 && cur <= |bytes| && |Remainder(rest + bytes[..cur], n)| + |bytes| - cur < n
    ensures FullFrames(rest + bytes, n) == FullFrames(rest + bytes[..cur], n)
    ensures Remainder(rest + bytes, n) == Remainder(rest + bytes[..cur], n) + bytes[cur..]
  {
    NoFrame(rest + bytes[..cur], bytes[cur..], n);
    assert (rest + bytes[..cur]) + bytes[cur..] == rest + bytes;
  }

  lemma BitsFit(coder: seq<seq<byte>> -> seq<byte>, frames: seq<seq<byte>>)
    requires CoderFits(coder)
    ensures |coder(frames)| + 4 <= I_BUFFER_LEN
  {
  }

  /**
   * A session from start to stop: what is sent depends on the audio alone, as
   * long as no send is empty.
   */
  method Talk(voice: Voice, frameSize: nat, mark: byte, coder: seq<seq<byte>> -> seq<byte>, sends: seq<array<byte>>,
              ghost audio: seq<seq<byte>>)
    requires voice.Valid() && voice.packets == [] && frameSize > 0 && CoderFits(coder)
    requires |audio| == |sends| && forall i :: 0 <= i < |sends| ==> sends[i][..] == audio[i]
    requires forall i :: 0 <= i < |sends| ==> sends[i] != voice.data && sends[i].Length > 0
    modifies voice, voice.data
    ensures voice.Valid() && voice.packets == []
    ensures voice.sent == old(voice.before) + Session(Packets(coder, mark, AllFrames(Concat(audio), frameSize)))
    ensures (forall frames :: |coder(frames)| < 256) ==>
              Unpack(DataOf(voice.sent[|old(voice.before)|..]), mark)
              == Some(Outputs(coder, AllFrames(Concat(audio), frameSize)))
  {
    hide CoderFits, Packets, FeedAll, Feed, AllFrames, Session, Collect, Unpack, Outputs, DataOf;
    var speex := new Speex(frameSize, mark, coder);
    var i := 0;
    FeedNone(coder, mark, frameSize);
    assert audio[..0] == [];
    while i < |sends|
      invariant 0 <= i <= |sends| && speex.Valid() && speex.Passed(voice) && voice.before == old(voice.before)
      invariant speex.State() == FeedAll(audio[..i], frameSize)
      invariant forall k :: 0 <= k < |sends| ==> sends[k][..] == audio[k]
    {
      assert sends[i][..sends[i].Length] == audio[i];
      speex.Encode(sends[i], sends[i].Length, voice);
      FeedMore(audio[..i], audio[i], frameSize);
      assert audio[..i + 1] == audio[..i] + [audio[i]];
      i := i + 1;
    }
    assert audio[..i] == audio;
    speex.Encode(null, 0, voice);
    NoEmptySends(audio, frameSize);
    SplitDoesNotMatter(audio, frameSize);
    voice.Flush();
    SentData(coder, mark, AllFrames(Concat(audio), frameSize), old(voice.before));
  }

  /** The segments behind what was sent before carry what the coder gave. */
  lemma SentData(coder: seq<seq<byte>> -> seq<byte>, mark: byte, frames: seq<seq<byte>>, before: seq<Segment>)
    requires CoderFits(coder)
    ensures var sent := before + Session(Packets(coder, mark, frames));
      (forall f :: |coder(f)| < 256) ==> Unpack(DataOf(sent[|before|..]), mark) == Some(Outputs(coder, frames))
  {
    hide Session, Unpack, Outputs, DataOf, Concat;
    var packets := Packets(coder, mark, frames);
    assert (before + Session(packets))[|before|..] == Session(packets);
    AllPacketsFit(coder, mark, frames);
    SessionData(packets);
    if forall f :: |coder(f)| < 256 {
      UnpackPackets(coder, mark, frames);
    }
  }

  lemma {:induction false} AllPacketsFit(coder: seq<seq<byte>> -> seq<byte>, mark: byte, frames: seq<seq<byte>>)
    requires CoderFits(coder)
    ensures PacketsFit(Packets(coder, mark, frames))
    decreases |frames|
  {
    if frames != [] {
      AllPacketsFit(coder, mark, frames[..|frames| - 1]);
      BitsFit(coder, frames);
    }
  }

  lemma FeedNone(coder: seq<seq<byte>> -> seq<byte>, mark: byte, n: nat)
    requires n > 0
    ensures FeedAll([], n) == Framing([], []) && Packets(coder, mark, []) == []
  {
  }
}
