/** Framing of the serial byte stream into MAVLink packets. */
module MavlinkFramer {
  import opened ByteBuffer
  import opened Bytes
  import opened Wrappers

  const START: Octet := 0xFD
  const HEAD_LEN := 10
  const END_LEN := 2
  const LIMIT := 1024

  // --------------------------------------------------------------- one scan of a stream

  /** The position of the first start byte, or the length without one. */
  function FindStart(s: seq<Octet>): (at: nat)
    ensures at <= |s| && (at < |s| ==> s[at] == START) && forall k | 0 <= k < at :: s[k] != START
  {
    if s == [] || s[0] == START then 0 else 1 + FindStart(s[1..])
  }

  /** The length of the packet at the front of s, whose second byte counts the payload. */
  function PacketLength(s: seq<Octet>): (n: nat)
    requires |s| >= 2
    ensures HEAD_LEN + END_LEN <= n
  {
    HEAD_LEN + s[1] as int + END_LEN
  }

  /** A whole packet stands at the front of s. */
  predicate Complete(s: seq<Octet>) {
    |s| >= HEAD_LEN + END_LEN && |s| >= PacketLength(s)
  }

  /** One greedy scan: skip to a start byte, take the packet, repeat while packets are whole. */
  function Scan(s: seq<Octet>): (packets: seq<seq<Octet>>)
    decreases |s|
  {
    var rest := s[FindStart(s)..];
    if Complete(rest) then [rest[..PacketLength(rest)]] + Scan(rest[PacketLength(rest)..]) else []
  }

  lemma {:induction false} FindStartPastJunk(junk: seq<Octet>, s: seq<Octet>)
    requires START !in junk
    ensures FindStart(junk + s) == |junk| + FindStart(s)
  {
    if junk == [] {
      assert junk + s == s;
    } else {
      assert (junk + s)[1..] == junk[1..] + s;
      FindStartPastJunk(junk[1..], s);
    }
  }

  /** Bytes before a start byte never change the framing of what follows. */
  lemma ScanSkipsJunk(junk: seq<Octet>, s: seq<Octet>)
    requires START !in junk
    ensures Scan(junk + s) == Scan(s)
  {
    hide Scan, Complete;
    FindStartPastJunk(junk, s);
    assert (junk + s)[FindStart(junk + s)..] == s[FindStart(s)..];
    ScanFromStart(junk + s);
    ScanFromStart(s);
  }

  lemma ScanFromStart(s: seq<Octet>)
    ensures var rest := s[FindStart(s)..];
            Scan(s) == if Complete(rest) then [rest[..PacketLength(rest)]] + Scan(rest[PacketLength(rest)..]) else []
  {
  }

  /** A whole packet at the front is the first one found, whatever follows it. */
  lemma ScanTakesPacket(packet: seq<Octet>, s: seq<Octet>)
    requires Complete(packet) && packet[0] == START && |packet| == PacketLength(packet)
    ensures Scan(packet + s) == [packet] + Scan(s)
  {
    hide Scan;
    ScanFromStart(packet + s);
    assert FindStart(packet + s) == 0;
    assert (packet + s)[..|packet|] == packet && (packet + s)[|packet|..] == s;
  }

  /** A MAVLink 2 packet on the wire, after bytes that are no start byte. */
  datatype Frame = Frame(junk: seq<Octet>, length: Octet, header: seq<Octet>, payload: seq<Octet>, checksum: seq<Octet>)

  /** Start byte, payload length, the other eight header bytes, payload, checksum. */
  function WireBytes(f: Frame): seq<Octet> {
    [0xFD, f.length] + f.header + f.payload + f.checksum
  }

  predicate FrameFits(f: Frame) {
    0xFD !in f.junk && |f.payload| == f.length as int && |f.header| == 8 && |f.checksum| == 2
  }

  function Sent(frames: seq<Frame>): seq<Octet>
    requires forall f | f in frames :: FrameFits(f)
  {
    if frames == [] then [] else frames[0].junk + WireBytes(frames[0]) + Sent(frames[1..])
  }

  function SentPackets(frames: seq<Frame>): seq<seq<Octet>>
    requires forall f | f in frames :: FrameFits(f)
  {
    if frames == [] then [] else [WireBytes(frames[0])] + SentPackets(frames[1..])
  }

  lemma FrameIsPacket(f: Frame)
    requires FrameFits(f)
    ensures var b := WireBytes(f);
            Complete(b) && b[0] == START && |b| == PacketLength(b) == 12 + |f.payload|
  {
  }

  /** The packets sent, with other bytes before each and the beginning of one more, are what a scan finds. */
  lemma {:induction false} ScanFindsSent(frames: seq<Frame>, last: Frame, part: nat)
    requires (forall f | f in frames :: FrameFits(f)) && FrameFits(last) && part < |WireBytes(last)|
    ensures Scan(Sent(frames) + last.junk + WireBytes(last)[..part]) == SentPackets(frames)
    decreases |frames|
  {
    hide Scan, WireBytes, Complete;
    var begun := last.junk + WireBytes(last)[..part];
    if frames == [] {
      assert Sent(frames) + last.junk + WireBytes(last)[..part] == begun;
      ScanSkipsJunk(last.junk, WireBytes(last)[..part]);
      NoPacketYet(last, part);
    } else {
      var f, rest := frames[0], Sent(frames[1..]) + last.junk + WireBytes(last)[..part];
      FrameIsPacket(f);
      ScanFindsSent(frames[1..], last, part);
      assert Sent(frames) + last.junk + WireBytes(last)[..part] == f.junk + (WireBytes(f) + rest);
      ScanSkipsJunk(f.junk, WireBytes(f) + rest);
      ScanTakesPacket(WireBytes(f), rest);
    }
  }

  lemma NoPacketYet(f: Frame, part: nat)
    requires FrameFits(f) && part < |WireBytes(f)|
    ensures Scan(WireBytes(f)[..part]) == []
  {
    hide Scan;
    ScanFromStart(WireBytes(f)[..part]);
    if part > 0 {
      assert FindStart(WireBytes(f)[..part]) == 0;
    }
  }

  // ------------------------------------------------------------------------- one call

  /**
   What parser() does to its buffer. Overrun: the appended bytes leave the grown block.
   Aborted: the assertion on the size fails.
   */
  datatype Outcome = Overrun | Aborted | Parsed(view: View, packet: Option<seq<Octet>>)

  function Step(v: View, chunk: seq<Octet>): Outcome {
    var grown := Apply(v, Append(chunk));
    var b := grown.contents;
    var at := FindStart(b);
    var rest := b[at..];
    if |b| >= grown.capacity then Overrun
    else if |b| >= LIMIT then Aborted
    else if |b| < HEAD_LEN then Parsed(grown, None)
    else if at == |b| then Parsed(Apply(grown, Clear), None)
    else if !Complete(rest) then Parsed(grown, None)
    else Parsed(Apply(grown, Remove(at, PacketLength(rest))), Some(rest[..PacketLength(rest)]))
  }

  datatype Status = Fine | AssertionFails | LeavesBlock

  /** The parser with its byte buffer. */
  class AircraftDataParser {
    const fullPacket: ByteArray

    ghost predicate Valid()
      reads this, fullPacket, fullPacket.pData
    {
      fullPacket.Valid()
    }

    constructor ()
      ensures Valid() && fresh(fullPacket) && fresh(fullPacket.pData)
      ensures fullPacket.State() == View([], INITIAL_CAPACITY)
    {
      fullPacket := new ByteArray();
    }

    /** The index of the first start byte in the buffer, or -1. */
    method FindStartPosition() returns (startPos: int)
      requires Valid()
      ensures var s := fullPacket.Contents(); startPos == if FindStart(s) == |s| then -1 else FindStart(s)
    {
      ghost var s := fullPacket.Contents();
      for i := 0 to fullPacket.dataSize
        invariant START !in s[..i]
      {
        if fullPacket.pData[i] == START {
          FindStartPastJunk(s[..i], s[i..]);
          assert s[..i] + s[i..] == s;
          return i;
        }
      }
      assert s[..|s|] == s;
      return -1;
    }

    /** The packet at startPos, removed from the buffer, if all of it has arrived. */
    method TakePacket(startPos: nat) returns (packet: Option<seq<Octet>>)
      requires Valid() && startPos < fullPacket.dataSize
      modifies fullPacket, fullPacket.pData
      ensures Valid() && (fullPacket.pData == old(fullPacket.pData) || fresh(fullPacket.pData))
      ensures var v := old(fullPacket.State()); var rest := v.contents[startPos..];
              if Complete(rest)
              then packet == Some(rest[..PacketLength(rest)])
                   && fullPacket.State() == Apply(v, Remove(startPos, PacketLength(rest)))
              else packet == None && fullPacket.State() == v
    {
      hide PacketLength, Apply;
      ghost var rest := fullPacket.Contents()[startPos..];
      var n := PacketBytes(startPos);
      if fullPacket.dataSize - startPos < n {
        return None;
      }
      PrefixOfSuffix(fullPacket.pData[..], fullPacket.dataSize, startPos, n);
      packet := Some(fullPacket.pData[startPos..startPos + n]);
      fullPacket.Remove(startPos, n);
    }

    /** The length announced at startPos; a length byte not yet received reads as whatever follows. */
    method PacketBytes(startPos: nat) returns (n: nat)
      requires Valid() && startPos < fullPacket.dataSize
      ensures var rest := fullPacket.Contents()[startPos..];
              HEAD_LEN + END_LEN <= n && (|rest| >= 2 ==> n == PacketLength(rest)) && (|rest| >= n <==> Complete(rest))
    {
      n := HEAD_LEN + fullPacket.pData[startPos + 1] as int + END_LEN;
      SecondOfSuffix(fullPacket.pData[..], fullPacket.dataSize, startPos);
    }

    method Parser(data: seq<Octet>) returns (status: Status, packet: Option<seq<Octet>>)
      requires Valid()
      modifies fullPacket, fullPacket.pData
      ensures Valid() && (fullPacket.pData == old(fullPacket.pData) || fresh(fullPacket.pData))
      ensures match Step(old(fullPacket.State()), data)
              case Overrun => status == LeavesBlock
              case Aborted => status == AssertionFails
              case Parsed(view, found) => status == Fine && fullPacket.State() == view && packet == found
    {
      hide FindStart, Complete, PacketLength, Apply, Fits, HasRoom;
      packet := None;
      ghost var before := fullPacket.State();
      AppendOverrunsIff(before, data);
      var ok := fullPacket.Append(data);
      if !ok {
        return LeavesBlock, None;
      }
      if fullPacket.dataSize >= LIMIT {
        return AssertionFails, None;
      }
      status := Fine;
      if fullPacket.dataSize < HEAD_LEN {
        return;
      }
      var startPos := FindStartPosition();
      if startPos == -1 {
        fullPacket.Clear();
        return;
      }
      packet := TakePacket(startPos);
    }
  }

  lemma PrefixOfSuffix(block: seq<Octet>, size: nat, at: nat, n: nat)
    requires at + n <= size <= |block|
    ensures block[..size][at..][..n] == block[at..at + n]
  {
  }

  lemma SecondOfSuffix(block: seq<Octet>, size: nat, at: nat)
    requires at < size <= |block|
    ensures at + 1 < size ==> block[..size][at..][1] == block[at + 1]
  {
  }

  lemma AppendOverrunsIff(v: View, chunk: seq<Octet>)
    requires HasRoom(v)
    ensures var grown := Apply(v, Append(chunk));
            && |grown.contents| == |v.contents| + |chunk|
            && (|grown.contents| >= grown.capacity <==> !Fits(v, Append(chunk)))
  {
    OpKeepsRoomIff(v, Append(chunk));
  }

  lemma RoomOf(v: View)
    ensures HasRoom(v) <==> |v.contents| < v.capacity
  {
  }

  // -------------------------------------------------------------------------- every run

  /** How far a run got: past a block, into the assertion, or to here. */
  datatype History = Overran | Stopped | History(view: View, packets: seq<seq<Octet>>)

  const FRESH := View([], INITIAL_CAPACITY)

  /** The packets extracted from a stream that arrives in the given chunks. */
  function Run(chunks: seq<seq<Octet>>): History {
    if chunks == [] then History(FRESH, []) else Next(Run(chunks[..|chunks| - 1]), chunks[|chunks| - 1])
  }

  function Next(h: History, chunk: seq<Octet>): History {
    match h
    case Overran => Overran
    case Stopped => Stopped
    case History(view, packets) =>
      match Step(view, chunk)
      case Overrun => Overran
      case Aborted => Stopped
      case Parsed(next, packet) => History(next, packets + Found(packet))
  }

  function Found(packet: Option<seq<Octet>>): seq<seq<Octet>> {
    match packet case None => [] case Some(p) => [p]
  }

  /** Every append of the run meets the growth condition at the capacity its history left. */
  predicate AppendsFit(chunks: seq<seq<Octet>>) {
    chunks == [] ||
    var prior := chunks[..|chunks| - 1];
    && AppendsFit(prior)
    && (Run(prior).History? ==>
          GrowthFits(Run(prior).view.capacity, |Run(prior).view.contents|, |chunks[|chunks| - 1]|))
  }

  /** No call of the run is left with 1024 bytes, which the size assertion forbids. */
  predicate StaysBelowLimit(chunks: seq<seq<Octet>>) {
    chunks == [] ||
    var prior := chunks[..|chunks| - 1];
    && StaysBelowLimit(prior)
    && (Run(prior).History? ==> |Run(prior).view.contents| + |chunks[|chunks| - 1]| < 1024)
  }

  lemma StepRoom(v: View, chunk: seq<Octet>)
    requires HasRoom(v)
    ensures Step(v, chunk).Overrun? <==> !GrowthFits(v.capacity, |v.contents|, |chunk|)
    ensures Step(v, chunk).Parsed? ==> HasRoom(Step(v, chunk).view)
    ensures !Step(v, chunk).Overrun? ==> (Step(v, chunk).Aborted? <==> |v.contents| + |chunk| >= LIMIT)
  {
    hide FindStart, Complete, PacketLength, Apply;
    AppendOverrunsIff(v, chunk);
    var grown := Apply(v, Append(chunk));
    if Fits(v, Append(chunk)) {
      var at := FindStart(grown.contents);
      OpKeepsRoomIff(v, Append(chunk));
      OpKeepsRoomIff(grown, Clear);
      if Complete(grown.contents[at..]) {
        WholePacket(grown.contents[at..]);
        OpKeepsRoomIff(grown, Remove(at, PacketLength(grown.contents[at..])));
      }
    }
  }

  /**
   A run writes past a block if and only if some append misses the growth condition, and ends in
   the assertion if and only if none does and 1024 bytes pile up; otherwise the stored bytes and
   their zero are within the block after every call.
   */
  lemma {:induction false} RunEndsIff(chunks: seq<seq<Octet>>)
    ensures Run(chunks).Overran? <==> !AppendsFit(chunks)
    ensures Run(chunks).Stopped? <==> AppendsFit(chunks) && !StaysBelowLimit(chunks)
    ensures Run(chunks).History? ==> HasRoom(Run(chunks).view)
  {
    hide HasRoom, GrowthFits, Step;
    if chunks == [] {
      RoomOf(FRESH);
    } else {
      var prior := chunks[..|chunks| - 1];
      RunEndsIff(prior);
      if Run(prior).History? {
        StepRoom(Run(prior).view, chunks[|chunks| - 1]);
      }
    }
  }

  lemma RunOneMore(chunks: seq<seq<Octet>>, i: nat)
    requires i < |chunks|
    ensures Run(chunks[..i + 1]) == Next(Run(chunks[..i]), chunks[i])
  {
    assert chunks[..i + 1][..i] == chunks[..i];
  }

  lemma {:induction false} RunStaysStopped(chunks: seq<seq<Octet>>, i: nat)
    requires i <= |chunks| && !Run(chunks[..i]).History?
    ensures Run(chunks) == Run(chunks[..i])
    decreases |chunks| - i
  {
    hide Step;
    if i == |chunks| {
      assert chunks[..i] == chunks;
    } else {
      RunOneMore(chunks, i);
      RunStaysStopped(chunks, i + 1);
    }
  }

  function Stream(chunks: seq<seq<Octet>>): seq<Octet> {
    if chunks == [] then [] else Stream(chunks[..|chunks| - 1]) + chunks[|chunks| - 1]
  }

  /** One call keeps the scan of buffer and future input: what it extracts is what the scan finds next. */
  lemma StepKeepsScan(v: View, chunk: seq<Octet>, future: seq<Octet>)
    requires Step(v, chunk).Parsed?
    ensures var r := Step(v, chunk);
            Scan(v.contents + chunk + future) == Found(r.packet) + Scan(r.view.contents + future)
  {
    hide Scan, FindStart, Complete, PacketLength;
    var b := v.contents + chunk;
    var at := FindStart(b);
    if |b| >= HEAD_LEN && at == |b| {
      ScanSkipsJunk(b, future);
      assert [] + future == future;
    } else if |b| >= HEAD_LEN && Complete(b[at..]) {
      RemovalKeepsScan(b, future);
    }
  }

  /** Ten or more bytes without a start byte are dropped, and fewer are kept; the packet taken is cut out. */
  lemma WhatStepLeaves(v: View, chunk: seq<Octet>)
    requires Step(v, chunk).Parsed?
    ensures var b, r := v.contents + chunk, Step(v, chunk);
            && (|b| < 10 ==> r.view.contents == b)
            && (|b| >= 10 && 0xFD !in b ==> r.view.contents == [] && r.packet.None?)
            && (r.packet.Some? ==>
                  var at := |b| - |b[FindStart(b)..]|;
                  && 0xFD !in b[..at] && r.packet.value <= b[at..]
                  && r.view.contents == b[..at] + b[at + |r.packet.value|..])
  {
    var b := v.contents + chunk;
    if 0xFD !in b {
      assert FindStart(b) == |b| by {
        FindStartPastJunk(b, []);
        assert b + [] == b;
      }
    }
  }

  lemma RemovalKeepsScan(b: seq<Octet>, future: seq<Octet>)
    requires FindStart(b) < |b| && Complete(b[FindStart(b)..])
    ensures var at := FindStart(b);
            var n := PacketLength(b[at..]);
            && at + n <= |b|
            && Scan(b + future) == [b[at..][..n]] + Scan(b[..at] + b[at + n..] + future)
  {
    hide Scan, Complete, PacketLength, FindStart;
    var at := FindStart(b);
    var junk, rest := b[..at], b[at..];
    WholePacket(rest);
    var packet, tail := rest[..PacketLength(rest)], rest[PacketLength(rest)..];
    ScanPastPacket(junk, packet, tail + future);
    assert b + future == junk + (packet + (tail + future));
    assert b[at + PacketLength(rest)..] == tail;
    assert junk + tail + future == junk + (tail + future);
  }

  lemma WholePacket(rest: seq<Octet>)
    requires Complete(rest)
    ensures 2 <= |rest| && PacketLength(rest) <= |rest|
    ensures var packet := rest[..PacketLength(rest)]; Complete(packet) && |packet| == PacketLength(packet)
  {
  }

  lemma ScanPastPacket(junk: seq<Octet>, packet: seq<Octet>, tail: seq<Octet>)
    requires START !in junk && Complete(packet) && packet[0] == START && |packet| == PacketLength(packet)
    ensures Scan(junk + (packet + tail)) == [packet] + Scan(junk + tail)
  {
    hide Scan, Complete, PacketLength;
    ScanSkipsJunk(junk, packet + tail);
    ScanTakesPacket(packet, tail);
    ScanSkipsJunk(junk, tail);
  }

  lemma {:induction false} RunKeepsScan(chunks: seq<seq<Octet>>, future: seq<Octet>)
    requires Run(chunks).History?
    ensures Scan(Stream(chunks) + future) == Run(chunks).packets + Scan(Run(chunks).view.contents + future)
  {
    hide Scan, Step;
    if chunks == [] {
      assert Stream(chunks) == [] == Run(chunks).view.contents;
    } else {
      var prior, chunk := chunks[..|chunks| - 1], chunks[|chunks| - 1];
      var before := Run(prior);
      RunKeepsScan(prior, chunk + future);
      ScanOneMore(Stream(prior), before.view, before.packets, chunk, future);
    }
  }

  lemma ScanOneMore(stream: seq<Octet>, v: View, packets: seq<seq<Octet>>, chunk: seq<Octet>, future: seq<Octet>)
    requires Step(v, chunk).Parsed?
    requires Scan(stream + (chunk + future)) == packets + Scan(v.contents + (chunk + future))
    ensures var r := Step(v, chunk);
            Scan(stream + chunk + future) == packets + Found(r.packet) + Scan(r.view.contents + future)
  {
    hide Scan, Step;
    StepKeepsScan(v, chunk, future);
    var r := Step(v, chunk);
    assert stream + chunk + future == stream + (chunk + future);
    assert v.contents + chunk + future == v.contents + (chunk + future);
    assert packets + Found(r.packet) + Scan(r.view.contents + future)
        == packets + (Found(r.packet) + Scan(r.view.contents + future));
  }

  /**
   For every cutting into chunks all of whose appends fit their blocks and stay below the
   limit, the packets extracted so far, followed by a scan of what is still
   buffered, are one greedy scan of the stream.
   */
  lemma ExtractedPacketsAreScanned(chunks: seq<seq<Octet>>)
    requires AppendsFit(chunks) && StaysBelowLimit(chunks)
    ensures Run(chunks).History?
    ensures Scan(Stream(chunks)) == Run(chunks).packets + Scan(Run(chunks).view.contents)
    ensures Run(chunks).packets <= Scan(Stream(chunks))
  {
    hide Scan, Run, Stream, AppendsFit, StaysBelowLimit;
    RunEndsIff(chunks);
    RunKeepsScan(chunks, []);
    assert Stream(chunks) + [] == Stream(chunks);
    assert Run(chunks).view.contents + [] == Run(chunks).view.contents;
  }

  /** Cut into chunks anyhow, a stream of packets and other bytes gives those packets, in order. */
  lemma ExtractedAreSent(chunks: seq<seq<Octet>>, frames: seq<Frame>, last: Frame, part: nat)
    requires AppendsFit(chunks) && StaysBelowLimit(chunks)
    requires (forall f | f in frames :: FrameFits(f)) && FrameFits(last) && part < |WireBytes(last)|
    requires Stream(chunks) == Sent(frames) + last.junk + WireBytes(last)[..part]
    ensures Run(chunks).History?
    ensures Run(chunks).packets + Scan(Run(chunks).view.contents) == SentPackets(frames)
  {
    hide Scan, Run, Stream, AppendsFit, StaysBelowLimit, WireBytes, FrameFits;
    ExtractedPacketsAreScanned(chunks);
    ScanFindsSent(frames, last, part);
  }

  /**
   The calls a serial port makes, one per chunk read, on one parser: a block is left exactly if an
   append misses the growth condition, and what is extracted starts the scan of the stream.
   */
  method ParseChunks(chunks: seq<seq<Octet>>) returns (status: Status, packets: seq<seq<Octet>>)
    ensures match Run(chunks)
            case Overran => status == LeavesBlock
            case Stopped => status == AssertionFails
            case History(_, extracted) => status == Fine && packets == extracted
    ensures status == LeavesBlock <==> !AppendsFit(chunks)
    ensures status == Fine <==> AppendsFit(chunks) && StaysBelowLimit(chunks)
    ensures status == Fine ==> packets <= Scan(Stream(chunks))
  {
    hide Step, AppendsFit, StaysBelowLimit, Scan, Stream;
    RunEndsIff(chunks);
    if AppendsFit(chunks) && StaysBelowLimit(chunks) {
      ExtractedPacketsAreScanned(chunks);
    }
    var parser := new AircraftDataParser();
    packets := [];
    assert chunks[..0] == [];
    for i := 0 to |chunks|
      invariant parser.Valid() && fresh(parser.fullPacket) && fresh(parser.fullPacket.pData)
      invariant Run(chunks[..i]) == History(parser.fullPacket.State(), packets)
    {
      var packet;
      RunOneMore(chunks, i);
      status, packet := parser.Parser(chunks[i]);
      if status != Fine {
        RunStaysStopped(chunks, i + 1);
        return;
      }
      packets := packets + Found(packet);
    }
    status := Fine;
    assert chunks[..|chunks|] == chunks;
  }

  /** Nothing is lost: a call without new bytes extracts the next scanned packet. */
  lemma NextPacketIsExtracted(v: View)
    requires HasRoom(v) && |v.contents| < LIMIT && Scan(v.contents) != []
    ensures Step(v, []).Parsed? && Step(v, []).packet == Some(Scan(v.contents)[0])
  {
    assert v.contents + [] == v.contents;
  }

  // ------------------------------------------------------------- a run that leaves its block

  /** A packet without payload, and one of 22 payload bytes. */
  const SMALL: seq<Octet> := [0xFD, 0, 0, 0, 0, 0, 0, 0, 0, 0, 0, 0]
  const LARGE_HEAD: seq<Octet> := [0xFD, 22, 0, 0, 0, 0, 0, 0, 0]
  const LARGE_TAIL: seq<Octet> := seq(25, _ => 0)

  function Halved(k: nat): nat {
    if k == 0 then INITIAL_CAPACITY else Halved(k - 1) / 2
  }

  function Smalls(k: nat): (chunks: seq<seq<Octet>>)
    ensures |chunks| == k
  {
    if k == 0 then [] else Smalls(k - 1) + [SMALL]
  }

  lemma SmallStep(capacity: nat)
    requires capacity >= 16
    ensures Step(View([], capacity), SMALL) == Parsed(View([], capacity / 2), Some(SMALL))
  {
    assert [] + SMALL == SMALL && FindStart(SMALL) == 0 && SMALL[0..] == SMALL;
    assert Complete(SMALL) && PacketLength(SMALL) == 12 && SMALL[..12] == SMALL;
  }

  lemma SevenHalvings()
    ensures Halved(7) == 8 && forall k: nat | k < 7 :: Halved(k) >= 16
  {
    assert Halved(1) == 512 && Halved(2) == 256 && Halved(3) == 128;
    assert Halved(4) == 64 && Halved(5) == 32 && Halved(6) == 16;
    forall k: nat | k < 7
      ensures Halved(k) >= 16
    {
      assert k == 0 || k == 1 || k == 2 || k == 3 || k == 4 || k == 5 || k == 6;
    }
  }

  lemma {:induction false} SmallsRun(k: nat)
    requires k <= 7
    ensures Run(Smalls(k)) == History(View([], Halved(k)), Smalls(k))
  {
    hide Step, Halved;
    if k == 0 {
      HalvedOnce(0);
    } else {
      SmallsRun(k - 1);
      SevenHalvings();
      SmallStep(Halved(k - 1));
      HalvedOnce(k);
      assert Smalls(k)[..k - 1] == Smalls(k - 1);
    }
  }

  lemma HalvedOnce(k: nat)
    ensures Halved(0) == INITIAL_CAPACITY && (k > 0 ==> Halved(k) == Halved(k - 1) / 2)
  {
  }

  const GAP: seq<seq<Octet>> := Smalls(7) + [LARGE_HEAD, LARGE_TAIL]

  lemma LargeSteps()
    ensures Step(View([], 8), LARGE_HEAD) == Parsed(View(LARGE_HEAD, 16), None)
    ensures Step(View(LARGE_HEAD, 16), LARGE_TAIL) == Overrun
  {
    assert [] + LARGE_HEAD == LARGE_HEAD;
  }

  /**
   Seven small packets, each taken at once, halve the block to 8 bytes; a packet of 34 bytes
   cut 9 + 25 then leaves the block of 32 it is given, with 118 bytes received in all.
   */
  lemma ShortStreamOverruns()
    ensures Run(GAP) == Overran && !AppendsFit(GAP) && |Stream(GAP)| == 118
  {
    hide Step, Halved, Smalls;
    SmallsRun(7);
    SevenHalvings();
    LargeSteps();
    assert GAP[..7] == Smalls(7) && GAP[..9] == GAP;
    RunOneMore(GAP, 7);
    RunOneMore(GAP, 8);
    RunEndsIff(GAP);
    SmallsLength(7);
    StreamOneMore(GAP, 7);
    StreamOneMore(GAP, 8);
  }

  lemma StreamOneMore(chunks: seq<seq<Octet>>, i: nat)
    requires i < |chunks|
    ensures Stream(chunks[..i + 1]) == Stream(chunks[..i]) + chunks[i]
  {
    assert chunks[..i + 1][..i] == chunks[..i];
  }

  lemma {:induction false} SmallsLength(k: nat)
    ensures |Stream(Smalls(k))| == 12 * k
  {
    if k > 0 {
      SmallsLength(k - 1);
      assert Smalls(k)[..k - 1] == Smalls(k - 1);
    }
  }

  // ------------------------------------------------------------------------- message id

  /** getMsgid: ((((0 | m2) << 16) | m1) << 8) | m0 */
  function GetMsgid(m0: bv32, m1: bv32, m2: bv32): bv32 {
    ((((0 | m2) << 16) | m1) << 8) | m0
  }

  /** The 24-bit little-endian id the header carries. */
  function MessageId(m0: bv32, m1: bv32, m2: bv32): bv32 {
    m0 | (m1 << 8) | (m2 << 16)
  }

  /** The bytes of the id the header carries. */
  lemma BytesOfId(m0: bv32, m1: bv32, m2: bv32)
    requires m0 < 256 && m1 < 256 && m2 < 256
    ensures MessageId(m0, m1, m2) & 0xFF == m0
    ensures MessageId(m0, m1, m2) & 0xFF00 == m1 << 8
    ensures MessageId(m0, m1, m2) & 0xFFFF_0000 == m2 << 16
  {
  }

  /** The bytes of the decoded id: the high one lands a byte too high. */
  lemma BytesOfDecodedId(m0: bv32, m1: bv32, m2: bv32)
    requires m0 < 256 && m1 < 256 && m2 < 256
    ensures GetMsgid(m0, m1, m2) & 0xFF == m0
    ensures GetMsgid(m0, m1, m2) & 0xFFFF00 == m1 << 8
    ensures GetMsgid(m0, m1, m2) & 0xFF00_0000 == m2 << 24
  {
  }

  /** The id is decoded right exactly below 65536; telling the two known messages apart still works. */
  lemma MsgidIsRightIff(m0: bv32, m1: bv32, m2: bv32)
    requires m0 < 256 && m1 < 256 && m2 < 256
    ensures GetMsgid(m0, m1, m2) == MessageId(m0, m1, m2) <==> m2 == 0
    ensures GetMsgid(m0, m1, m2) == 0x21 <==> MessageId(m0, m1, m2) == 0x21
    ensures GetMsgid(m0, m1, m2) == 0x1E <==> MessageId(m0, m1, m2) == 0x1E
  {
  }
}
