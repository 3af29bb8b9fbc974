// From audio bytes to numbered segments: what one voice session must send,
// as a function of all its bytes together.
module VoiceStream {
  import opened CText

  // ----- frames

  /** The whole frames of n bytes at the start of s. */
  function FullFrames(s: seq<byte>, n: nat): seq<seq<byte>>
    requires n > 0
  {
    if |s| < n then [] else [s[..n]] + FullFrames(s[n..], n)
  }

  /** What is left behind the whole frames. */
  function Remainder(s: seq<byte>, n: nat): (r: seq<byte>)
    requires n > 0
    ensures |r| < n
  {
    if |s| < n then s else Remainder(s[n..], n)
  }

  /** The frames of a whole stream: the last one is filled up with zeros. */
  function AllFrames(s: seq<byte>, n: nat): seq<seq<byte>>
    requires n > 0
  {
    var r := Remainder(s, n);
    FullFrames(s, n) + (if r == [] then [] else [Padded(r, n)])
  }

  function Padded(r: seq<byte>, n: nat): (p: seq<byte>)
    requires |r| <= n
    ensures |p| == n
  {
    r + seq(n - |r|, _ => 0)
  }

  /** Bytes behind a stream go to the remainder first. */
  lemma {:induction false} FramesConcat(s: seq<byte>, t: seq<byte>, n: nat)
    requires n > 0
    ensures FullFrames(s + t, n) == FullFrames(s, n) + FullFrames(Remainder(s, n) + t, n)
    ensures Remainder(s + t, n) == Remainder(Remainder(s, n) + t, n)
    decreases |s|
  {
    if |s| < n {
      assert [] + FullFrames(s + t, n) == FullFrames(s + t, n);
    } else {
      FramesConcat(s[n..], t, n);
      assert (s + t)[n..] == s[n..] + t && (s + t)[..n] == s[..n];
    }
  }

  /** A stream that completes a frame. */
  lemma OneFrame(s: seq<byte>, t: seq<byte>, n: nat)
    requires n > 0 && |Remainder(s, n)| + |t| == n
    ensures FullFrames(s + t, n) == FullFrames(s, n) + [Remainder(s, n) + t]
    ensures Remainder(s + t, n) == []
  {
    FramesConcat(s, t, n);
    var f := Remainder(s, n) + t;
    assert f[..n] == f && f[n..] == [];
    assert FullFrames(f, n) == [f] + FullFrames([], n);
  }

  /** A stream that does not. */
  lemma NoFrame(s: seq<byte>, t: seq<byte>, n: nat)
    requires n > 0 && |Remainder(s, n)| + |t| < n
    ensures FullFrames(s + t, n) == FullFrames(s, n)
    ensures Remainder(s + t, n) == Remainder(s, n) + t
  {
    FramesConcat(s, t, n);
    assert FullFrames(s, n) + [] == FullFrames(s, n);
  }

  /** The cuts are fixed: frame k is the stretch of n bytes at k * n. */
  lemma {:induction false} FrameAt(s: seq<byte>, n: nat, k: nat)
    requires n > 0 && k < |FullFrames(s, n)|
    ensures 0 <= k * n && k * n + n <= |s| && FullFrames(s, n)[k] == s[k * n..k * n + n]
    decreases k
  {
    if k > 0 {
      FrameAt(s[n..], n, k - 1);
      OneStretchMore(k - 1, n);
      SliceBehind(s, n, (k - 1) * n);
    }
  }

  /** The frames are the stream, cut, with fewer zeros behind it than a frame has bytes. */
  lemma FramesCover(s: seq<byte>, n: nat)
    requires n > 0
    ensures |s| <= |Concat(AllFrames(s, n))| < |s| + n
    ensures Concat(AllFrames(s, n)) == s + seq(|Concat(AllFrames(s, n))| - |s|, _ => 0)
    ensures forall i :: 0 <= i < |AllFrames(s, n)| ==> |AllFrames(s, n)[i]| == n
  {
    hide Concat, Remainder, FullFrames;
    FullCover(s, n);
    var full, rest := FullFrames(s, n), Remainder(s, n);
    if rest == [] {
      assert full + [] == full && Concat(full) + [] == Concat(full);
      assert s + seq(0, _ => 0) == s;
    } else {
      ConcatMore(full, Padded(rest, n));
      Assoc(Concat(full), rest, seq(n - |rest|, _ => 0));
    }
  }

  lemma {:induction false} FullCover(s: seq<byte>, n: nat)
    requires n > 0
    ensures Concat(FullFrames(s, n)) + Remainder(s, n) == s
    ensures forall i :: 0 <= i < |FullFrames(s, n)| ==> |FullFrames(s, n)[i]| == n
    decreases |s|
  {
    hide Concat;
    ConcatNone();
    if |s| < n {
      assert [] + s == s;
    } else {
      FullCover(s[n..], n);
      FirstThen(s[..n], FullFrames(s[n..], n), Remainder(s[n..], n));
      assert s == s[..n] + s[n..];
    }
  }

  lemma FirstThen(f: seq<byte>, frames: seq<seq<byte>>, rest: seq<byte>)
    ensures Concat([f] + frames) + rest == f + (Concat(frames) + rest)
  {
    hide Concat;
    ConcatNone();
    ConcatSplit([f], frames);
    ConcatMore([], f);
    assert [] + [f] == [f] && [] + f == f;
    Assoc(f, Concat(frames), rest);
  }

  lemma ConcatNone()
    ensures Concat([]) == []
  {
  }

  // ----- sends

  /** The frames given to the coder so far, and the start of the next one. */
  datatype Framing = Framing(frames: seq<seq<byte>>, rest: seq<byte>)

  /** What one call with these bytes does. A call without bytes gives the frame that has been started, filled up. */
  function Feed(f: Framing, bytes: seq<byte>, n: nat): Framing
    requires n > 0 && |f.rest| < n
  {
    if bytes != [] then
      var s := f.rest + bytes;
      Framing(f.frames + FullFrames(s, n), Remainder(s, n))
    else if f.rest != [] then Framing(f.frames + [Padded(f.rest, n)], f.rest)
    else f
  }

  function FeedAll(sends: seq<seq<byte>>, n: nat): (f: Framing)
    requires n > 0
    ensures |f.rest| < n
  {
    if sends == [] then Framing([], [])
    else Feed(FeedAll(sends[..|sends| - 1], n), sends[|sends| - 1], n)
  }

  lemma FeedMore(sends: seq<seq<byte>>, s: seq<byte>, n: nat)
    requires n > 0
    ensures FeedAll(sends + [s], n) == Feed(FeedAll(sends, n), s, n)
  {
    assert (sends + [s])[..|sends|] == sends;
  }

  /** The number of sends without bytes that fall inside a frame. */
  function EmptyInside(sends: seq<seq<byte>>, n: nat): nat
    requires n > 0
  {
    if sends == [] then 0
    else
      var before := sends[..|sends| - 1];
      EmptyInside(before, n)
      + if sends[|sends| - 1] == [] && Remainder(Concat(before), n) != [] then 1 else 0
  }

  /** Every send without bytes inside a frame costs one frame too many; the cuts do not move. */
  lemma {:induction false} FeedCount(sends: seq<seq<byte>>, n: nat)
    requires n > 0
    ensures var f := FeedAll(sends, n);
      && f.rest == Remainder(Concat(sends), n)
      && |f.frames| == |FullFrames(Concat(sends), n)| + EmptyInside(sends, n)
      && (EmptyInside(sends, n) == 0 ==> f.frames == FullFrames(Concat(sends), n))
    decreases |sends|
  {
    hide Remainder, FullFrames;
    if sends == [] {
      NothingFed(n);
    } else {
      var before, last := sends[..|sends| - 1], sends[|sends| - 1];
      FeedCount(before, n);
      FramesConcat(Concat(before), last, n);
      assert sends == before + [last];
      ConcatMore(before, last);
      if last == [] {
        assert Concat(before) + last == Concat(before);
      }
    }
  }

  lemma NothingFed(n: nat)
    requires n > 0
    ensures FullFrames([], n) == [] && Remainder([], n) == [] && Concat([]) == []
  {
  }

  /**
   * How the audio is divided makes no difference, if and only if no send
   * without bytes falls inside a frame.
   */
  lemma SplitDoesNotMatter(sends: seq<seq<byte>>, n: nat)
    requires n > 0
    ensures Feed(FeedAll(sends, n), [], n).frames == AllFrames(Concat(sends), n) <==> EmptyInside(sends, n) == 0
  {
    hide FullFrames, Remainder, FeedAll;
    FeedCount(sends, n);
    var f := FeedAll(sends, n);
    var r := Remainder(Concat(sends), n);
    assert FullFrames(Concat(sends), n) + [] == FullFrames(Concat(sends), n);
    assert |AllFrames(Concat(sends), n)| == |FullFrames(Concat(sends), n)| + if r == [] then 0 else 1;
  }

  /** Sends with bytes never do harm. */
  lemma {:induction false} NoEmptySends(sends: seq<seq<byte>>, n: nat)
    requires n > 0 && forall i :: 0 <= i < |sends| ==> sends[i] != []
    ensures EmptyInside(sends, n) == 0
    decreases |sends|
  {
    if sends != [] {
      NoEmptySends(sends[..|sends| - 1], n);
    }
  }

  /** One send without bytes between two halves of a frame: the frame is coded twice. */
  lemma EmptySendCounts()
    ensures Feed(FeedAll([[7], [], [8]], 2), [], 2).frames == [[7, 0], [7, 8]]
    ensures AllFrames(Concat([[7], [], [8]]), 2) == [[7, 8]]
  {
    hide FullFrames, Remainder, FeedAll, Concat;
    SmallFrames();
    FeedNothing();
    FeedMore([], [7], 2);
    FeedMore([[7]], [], 2);
    FeedMore([[7], []], [8], 2);
    assert [] + [[7]] == [[7]] && [[7]] + [[]] == [[7], []] && [[7], []] + [[8]] == [[7], [], [8]];
    ConcatMore([], [7]);
    ConcatMore([[7]], []);
    ConcatMore([[7], []], [8]);
    assert [] + [7] == [7] && [7] + [8] == [7, 8] && [7] + [] == [7];
    assert Padded([7], 2) == [7, 0];
  }

  lemma SmallFrames()
    ensures FullFrames([7], 2) == [] && Remainder([7], 2) == [7]
    ensures FullFrames([7, 8], 2) == [[7, 8]] && Remainder([7, 8], 2) == []
  {
    assert [7, 8][..2] == [7, 8] && [7, 8][2..] == [];
    assert FullFrames([7, 8], 2) == [[7, 8]] + FullFrames([], 2);
  }

  lemma FeedNothing()
    ensures FeedAll([], 2) == Framing([], []) && Concat([]) == []
  {
  }

  // ----- packets

  /** A packet: how many bytes there are, three marks (the first for the rate), the bytes. */
  function Packet(bits: seq<byte>, mark: byte): seq<byte> {
    [|bits| % 256, mark, 80, 88] + bits
  }

  /** The coder has a memory: its output depends on all frames so far. */
  function Packets(coder: seq<seq<byte>> -> seq<byte>, mark: byte, frames: seq<seq<byte>>): (ps: seq<seq<byte>>)
    ensures |ps| == |frames|
  {
    if frames == [] then []
    else Packets(coder, mark, frames[..|frames| - 1]) + [Packet(coder(frames), mark)]
  }

  lemma PacketsMore(coder: seq<seq<byte>> -> seq<byte>, mark: byte, frames: seq<seq<byte>>, f: seq<byte>)
    ensures Packets(coder, mark, frames + [f])
         == Packets(coder, mark, frames) + [Packet(coder(frames + [f]), mark)]
  {
    assert (frames + [f])[..|frames|] == frames;
  }

  lemma OneStretchMore(k: nat, n: nat)
    ensures (k + 1) * n == k * n + n
  {
  }

  lemma SliceBehind(s: seq<byte>, n: nat, at: nat)
    requires at + n + n <= |s|
    ensures s[n..][at..at + n] == s[at + n..at + n + n]
  {
  }

  // ----- reading the packets again

  /** The size of the packet at the start, as its first byte says. */
  function PacketSize(stream: seq<byte>): nat
    requires stream != []
  {
    var n: int := stream[0];
    n + 4
  }

  predicate StartsPacket(stream: seq<byte>, mark: byte) {
    && |stream| >= 4 && stream[1] == mark && stream[2] == 80 && stream[3] == 88
    && PacketSize(stream) <= |stream|
  }

  /**
   * A reader of the stream of packets: a byte that says how many bytes there
   * are, the three marks, the bytes.
   */
  function Unpack(stream: seq<byte>, mark: byte): Option<seq<seq<byte>>> {
    if stream == [] then Some([])
    else if !StartsPacket(stream, mark) then None
    else match Unpack(stream[PacketSize(stream)..], mark)
      case None => None
      case Some(rest) => Some([stream[4..PacketSize(stream)]] + rest)
  }

  /** What the coder gives for the first frame, the first two, and so on. */
  function Outputs(coder: seq<seq<byte>> -> seq<byte>, frames: seq<seq<byte>>): (o: seq<seq<byte>>)
    ensures |o| == |frames|
  {
    seq(|frames|, i requires 0 <= i < |frames| => coder(frames[..i + 1]))
  }

  lemma PacketStarts(bits: seq<byte>, mark: byte, rest: seq<byte>)
    requires |bits| < 256
    ensures var s := Packet(bits, mark) + rest;
      && s != [] && StartsPacket(s, mark) && PacketSize(s) == 4 + |bits|
      && s[4..4 + |bits|] == bits && s[4 + |bits|..] == rest
  {
  }

  lemma {:induction false} UnpackMore(stream: seq<byte>, mark: byte, bits: seq<byte>)
    requires Unpack(stream, mark).Some? && |bits| < 256
    ensures Unpack(stream + Packet(bits, mark), mark) == Some(Unpack(stream, mark).value + [bits])
    decreases |stream|
  {
    hide Packet, Unpack, StartsPacket;
    var all := stream + Packet(bits, mark);
    UnpackNone(mark);
    if stream == [] {
      PacketStarts(bits, mark, []);
      assert all == Packet(bits, mark) + [];
      UnpackStep(all, mark, [bits], []);
      assert [bits] + [] == [] + [bits];
    } else {
      UnpackParts(stream, mark);
      var k := PacketSize(stream);
      UnpackMore(stream[k..], mark, bits);
      StillStarts(stream, mark, Packet(bits, mark));
      assert all[k..] == stream[k..] + Packet(bits, mark) && all[4..k] == stream[4..k];
      var rest := Unpack(stream[k..], mark).value;
      UnpackStep(all, mark, [all[4..k]], rest + [bits]);
      assert [stream[4..k]] + (rest + [bits]) == ([stream[4..k]] + rest) + [bits];
    }
  }

  lemma StillStarts(s: seq<byte>, mark: byte, t: seq<byte>)
    requires StartsPacket(s, mark)
    ensures StartsPacket(s + t, mark) && PacketSize(s + t) == PacketSize(s)
  {
  }

  lemma UnpackNone(mark: byte)
    ensures Unpack([], mark) == Some([])
  {
  }

  lemma UnpackParts(s: seq<byte>, mark: byte)
    requires s != [] && Unpack(s, mark).Some?
    ensures StartsPacket(s, mark) && 4 <= PacketSize(s) <= |s| && Unpack(s[PacketSize(s)..], mark).Some?
    ensures Unpack(s, mark).value == [s[4..PacketSize(s)]] + Unpack(s[PacketSize(s)..], mark).value
  {
  }

  lemma UnpackStep(s: seq<byte>, mark: byte, first: seq<seq<byte>>, rest: seq<seq<byte>>)
    requires s != [] && StartsPacket(s, mark) && first == [s[4..PacketSize(s)]]
    requires Unpack(s[PacketSize(s)..], mark) == Some(rest)
    ensures Unpack(s, mark) == Some(first + rest)
  {
  }

  /** From the packets the reader gets what the coder gave. */
  lemma {:induction false} UnpackPackets(coder: seq<seq<byte>> -> seq<byte>, mark: byte, frames: seq<seq<byte>>)
    requires forall f :: |coder(f)| < 256
    ensures Unpack(Concat(Packets(coder, mark, frames)), mark) == Some(Outputs(coder, frames))
    decreases |frames|
  {
    hide Packet;
    if frames == [] {
      assert Outputs(coder, frames) == [];
    } else {
      var before := frames[..|frames| - 1];
      UnpackPackets(coder, mark, before);
      hide Unpack, Concat;
      ConcatMore(Packets(coder, mark, before), Packet(coder(frames), mark));
      UnpackMore(Concat(Packets(coder, mark, before)), mark, coder(frames));
      OutputsMore(coder, before, frames);
    }
  }

  lemma OutputsMore(coder: seq<seq<byte>> -> seq<byte>, before: seq<seq<byte>>, frames: seq<seq<byte>>)
    requires frames != [] && before == frames[..|frames| - 1]
    ensures Outputs(coder, frames) == Outputs(coder, before) + [coder(frames)]
  {
    assert frames[..|frames|] == frames;
    forall i | 0 <= i < |before|
      ensures Outputs(coder, frames)[i] == Outputs(coder, before)[i]
    {
      assert before[..i + 1] == frames[..i + 1];
    }
  }

  // ----- segments

  const O_BUFFER_LEN: nat := 800
  const I_BUFFER_LEN: nat := 597

  /** The text of n bytes in base64 (section 4 of RFC 4648): four characters for every three bytes begun. */
  function Base64Size(n: nat): nat {
    (n + 2) / 3 * 4
  }

  /** The fewest groups of four characters that hold n bytes at three bytes a group. */
  lemma Base64Groups(n: nat) returns (g: nat)
    ensures Base64Size(n) == 4 * g && 3 * g >= n && 3 * (g - 1) < n
  {
    g := (n + 2) / 3;
  }

  /** The input buffer is as big as the output buffer allows, with its terminator. */
  lemma BufferSizes(n: nat)
    ensures Base64Size(n) + 1 <= O_BUFFER_LEN <==> n <= I_BUFFER_LEN
    ensures I_BUFFER_LEN == (O_BUFFER_LEN - 1) / 4 * 3
  {
  }

  datatype Segment = Segment(number: nat, eof: bool, data: seq<byte>)

  /** The contents that are complete, and what has been collected since. */
  datatype Collected = Collected(full: seq<seq<byte>>, rest: seq<byte>)

  function Add(c: Collected, packet: seq<byte>): Collected {
    if |c.rest| + |packet| > I_BUFFER_LEN then Collected(c.full + [c.rest], packet)
    else Collected(c.full, c.rest + packet)
  }

  function Collect(packets: seq<seq<byte>>): Collected {
    if packets == [] then Collected([], []) else Add(Collect(packets[..|packets| - 1]), packets[|packets| - 1])
  }

  /** All contents, the last one included. */
  function Contents(packets: seq<seq<byte>>): seq<seq<byte>> {
    var c := Collect(packets);
    if c.rest == [] then c.full else c.full + [c.rest]
  }

  function Numbered(contents: seq<seq<byte>>): (s: seq<Segment>)
    ensures |s| == |contents|
  {
    seq(|contents|, i requires 0 <= i < |contents| => Segment(i, false, contents[i]))
  }

  /** What a session sends. */
  function Session(packets: seq<seq<byte>>): seq<Segment> {
    var contents := Contents(packets);
    Numbered(contents) + [Segment(|contents|, true, [])]
  }

  function Concat(parts: seq<seq<byte>>): seq<byte> {
    if parts == [] then [] else Concat(parts[..|parts| - 1]) + parts[|parts| - 1]
  }

  lemma ConcatMore(parts: seq<seq<byte>>, p: seq<byte>)
    ensures Concat(parts + [p]) == Concat(parts) + p
  {
    assert (parts + [p])[..|parts|] == parts;
  }

  /** Packets the coder can give. */
  predicate PacketsFit(packets: seq<seq<byte>>) {
    forall i :: 0 <= i < |packets| ==> 0 < |packets[i]| <= I_BUFFER_LEN
  }

  /** Every content is made of consecutive whole packets. */
  ghost predicate Cut(packets: seq<seq<byte>>, contents: seq<seq<byte>>)
    decreases |contents|
  {
    if contents == [] then packets == []
    else exists k :: 0 <= k < |packets| && contents[|contents| - 1] == Concat(packets[k..])
                     && Cut(packets[..k], contents[..|contents| - 1])
  }

  lemma CutMore(packets: seq<seq<byte>>, contents: seq<seq<byte>>, k: nat)
    requires k < |packets| && Cut(packets[..k], contents)
    ensures Cut(packets, contents + [Concat(packets[k..])])
  {
    var all := contents + [Concat(packets[k..])];
    assert all[..|all| - 1] == contents && all[|all| - 1] == Concat(packets[k..]);
  }

  lemma NothingCut()
    ensures Cut([], []) && Concat([]) == []
  {
  }

  /** The rest is made of the last packets, from number k on; the contents before are whole packets. */
  lemma {:induction false} CollectCuts(packets: seq<seq<byte>>) returns (k: nat)
    requires PacketsFit(packets)
    ensures k <= |packets| && Collect(packets).rest == Concat(packets[k..])
    ensures Cut(packets[..k], Collect(packets).full)
    ensures |Collect(packets).rest| <= I_BUFFER_LEN
    ensures packets != [] ==> Collect(packets).rest != [] && k < |packets|
    ensures forall i :: 0 <= i < |Collect(packets).full| ==> 0 < |Collect(packets).full[i]| <= I_BUFFER_LEN
  {
    hide Cut, Concat;
    NothingCut();
    if packets == [] {
      k := 0;
      assert packets[..k] == [] && packets[k..] == [];
    } else {
      var before, last := packets[..|packets| - 1], packets[|packets| - 1];
      var c := Collect(before);
      var j := CollectCuts(before);
      assert last == packets[|packets| - 1] && 0 < |last| <= I_BUFFER_LEN;
      if |c.rest| + |last| > I_BUFFER_LEN {
        k := |packets| - 1;
        assert before[..j] == packets[..k][..j];
        CutMore(before, c.full, j);
        assert packets[..k] == before && packets[k..] == [last];
        ConcatMore([], last);
        assert [] + [last] == [last];
      } else {
        k := j;
        assert packets[..k] == before[..k] && packets[k..] == before[k..] + [last];
        ConcatMore(before[k..], last);
      }
    }
  }

  /** The segments of a session split no packet, lose nothing, and each is small enough to be encoded. */
  lemma SessionContents(packets: seq<seq<byte>>)
    requires PacketsFit(packets)
    ensures Cut(packets, Contents(packets))
    ensures Concat(Contents(packets)) == Concat(packets)
    ensures forall i :: 0 <= i < |Contents(packets)| ==> 0 < |Contents(packets)[i]| <= I_BUFFER_LEN
  {
    var k := CollectCuts(packets);
    var c := Collect(packets);
    if packets == [] {
      assert packets[..k] == [];
    } else {
      CutMore(packets, c.full, k);
    }
    CutConcat(packets, Contents(packets));
  }

  lemma {:induction false} CutConcat(packets: seq<seq<byte>>, contents: seq<seq<byte>>)
    requires Cut(packets, contents)
    ensures Concat(contents) == Concat(packets)
    decreases |contents|
  {
    if contents != [] {
      var k :| 0 <= k < |packets| && contents[|contents| - 1] == Concat(packets[k..])
               && Cut(packets[..k], contents[..|contents| - 1]);
      CutConcat(packets[..k], contents[..|contents| - 1]);
      ConcatSplit(packets[..k], packets[k..]);
      assert packets[..k] + packets[k..] == packets;
    }
  }

  lemma {:induction false} ConcatSplit(a: seq<seq<byte>>, b: seq<seq<byte>>)
    ensures Concat(a + b) == Concat(a) + Concat(b)
    decreases |b|
  {
    if b == [] {
      assert a + b == a;
    } else {
      ConcatSplit(a, b[..|b| - 1]);
      assert (a + b)[..|a + b| - 1] == a + b[..|b| - 1];
      Assoc(Concat(a), Concat(b[..|b| - 1]), b[|b| - 1]);
    }
  }

  /** Numbers run from 0 without a gap, and only the last segment says eof. */
  lemma SessionNumbers(packets: seq<seq<byte>>)
    ensures var s := Session(packets);
      && s != []
      && (forall i :: 0 <= i < |s| ==> s[i].number == i && (s[i].eof <==> i == |s| - 1))
      && s[|s| - 1].data == []
  {
  }

  /** The data of segments, one after the other. */
  function DataOf(segments: seq<Segment>): seq<byte> {
    if segments == [] then [] else DataOf(segments[..|segments| - 1]) + segments[|segments| - 1].data
  }

  lemma {:induction false} NumberedData(contents: seq<seq<byte>>)
    ensures DataOf(Numbered(contents)) == Concat(contents)
    decreases |contents|
  {
    if contents != [] {
      var before := contents[..|contents| - 1];
      NumberedData(before);
      assert Numbered(contents)[..|before|] == Numbered(before);
    }
  }

  /** What a session carries are its packets. */
  lemma SessionData(packets: seq<seq<byte>>)
    requires PacketsFit(packets)
    ensures DataOf(Session(packets)) == Concat(packets)
  {
    hide Concat, Numbered;
    SessionContents(packets);
    NumberedData(Contents(packets));
    var all := Session(packets);
    assert all[..|all| - 1] == Numbered(Contents(packets));
  }

  // ----- steps of the collecting stage

  lemma CollectMore(packets: seq<seq<byte>>, p: seq<byte>)
    ensures Collect(packets + [p]) == Add(Collect(packets), p)
  {
    assert (packets + [p])[..|packets|] == packets;
  }

  lemma CollectBounds(packets: seq<seq<byte>>)
    requires PacketsFit(packets)
    ensures var c := Collect(packets);
      && |c.rest| <= I_BUFFER_LEN && (c.rest == [] <==> packets == [])
      && (packets == [] ==> c.full == [])
      && forall i :: 0 <= i < |c.full| ==> 0 < |c.full[i]| <= I_BUFFER_LEN
  {
    var k := CollectCuts(packets);
  }

  lemma NumberedMore(contents: seq<seq<byte>>, c: seq<byte>)
    ensures Numbered(contents + [c]) == Numbered(contents) + [Segment(|contents|, false, c)]
  {
  }
}
