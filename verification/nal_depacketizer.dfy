/**
 Reassembly of NAL units from RTP payloads: single packets and fragmentation units of
 H.264 (sections 5.6 and 5.8 of RFC 6184) and H.265 (sections 4.4.1 and 4.4.3 of RFC 7798).
 */
module NalDepacketizer {
  import ByteBuffer
  import opened Bytes

  datatype Codec = H264 | H265

  const START_CODE: seq<Octet> := [0, 0, 0, 1]

  /** One RTP packet: a 12-byte header and a payload. */
  type RtpPacket = seq<Octet>

  datatype Kind = Single | First | Last | Middle | Unsupported

  /** Where the payload of a fragmentation unit starts. */
  function FuOffset(codec: Codec): nat {
    match codec case H264 => 14 case H265 => 15
  }

  function UnitType(codec: Codec, key: Octet): Octet {
    match codec case H264 => key & 0x1F case H265 => (key >> 1) & 0x3F
  }

  predicate IsFragment(codec: Codec, key: Octet) {
    UnitType(codec, key) == match codec case H264 => 28 case H265 => 49
  }

  /** The bytes the parser reads exist. */
  predicate LongEnough(codec: Codec, p: RtpPacket) {
    |p| >= 13 && (IsFragment(codec, p[12]) ==> |p| >= FuOffset(codec))
  }

  function KindOf(codec: Codec, p: RtpPacket): Kind
    requires LongEnough(codec, p)
  {
    if IsFragment(codec, p[12]) then
      var fu := p[FuOffset(codec) - 1];
      if fu & 0x80 != 0 then First else if fu & 0x40 != 0 then Last else Middle
    else match codec
      case H264 => if UnitType(codec, p[12]) < 24 then Single else Unsupported
      case H265 => if UnitType(codec, p[12]) == 48 then Unsupported else Single
  }

  /** The NAL unit header rebuilt from a fragmentation unit. */
  function RebuiltHeader(codec: Codec, p: RtpPacket): seq<Octet>
    requires LongEnough(codec, p) && IsFragment(codec, p[12])
  {
    match codec
    case H264 => [(p[12] & 0xE0) | (p[13] & 0x1F)]
    case H265 => [((p[14] & 0x3F) << 1) | (p[12] & 0x80), p[13]]
  }

  predicate Mark(p: RtpPacket)
    requires |p| >= 2
  {
    p[1] & 0x80 != 0
  }

  /** The payload byte that switches the parser on: an SPS, or a VPS. */
  function StartKey(codec: Codec): Octet {
    match codec case H264 => 0x67 case H265 => 0x40
  }

  /** What one packet does: a failed check ends the process; data goes to the callback. */
  datatype Parsed = CheckFailed | Ignored(isStart: bool) | Delivered(data: seq<Octet>)

  function ParseOne(codec: Codec, isStart: bool, needBox: bool, p: RtpPacket): Parsed
    requires LongEnough(codec, p)
  {
    if !needBox then Ignored(false)
    else if !isStart && p[12] != StartKey(codec) then Ignored(false)
    else match KindOf(codec, p)
      case Single => Delivered(START_CODE + p[12..])
      case First =>
        if Mark(p) then CheckFailed else Delivered(START_CODE + RebuiltHeader(codec, p) + p[FuOffset(codec)..])
      case Last => if Mark(p) then Delivered(p[FuOffset(codec)..]) else CheckFailed
      case Middle => Delivered(p[FuOffset(codec)..])
      case Unsupported => CheckFailed
  }

  /** What a failing packet has appended when its check ends the process: H.264 checks first, H.265 last. */
  function AppendedBeforeCheck(codec: Codec, p: RtpPacket): seq<Octet>
    requires LongEnough(codec, p)
  {
    match codec
    case H264 => []
    case H265 =>
      match KindOf(codec, p)
      case First => START_CODE + RebuiltHeader(codec, p) + p[FuOffset(codec)..]
      case Last => p[FuOffset(codec)..]
      case _ => []
  }

  /** The parser's static is_start and the packet data it appends to. */
  class RtpParser {
    var isStart: bool
    var packetData: seq<Octet>

    constructor ()
      ensures !isStart && packetData == []
    {
      isStart, packetData := false, [];
    }

    /** The parser's state and result after a packet with the given meaning. */
    predicate Agrees(codec: Codec, p: RtpPacket, before: seq<Octet>, result: Parsed, checked: bool, full: bool)
      requires LongEnough(codec, p)
      reads this
    {
      match result
      case CheckFailed => !checked && isStart && packetData == before + AppendedBeforeCheck(codec, p)
      case Ignored(started) => checked && !full && isStart == started && packetData == before
      case Delivered(data) => checked && full && isStart && packetData == before + data
    }

    /** checked is false when an FSERVO_CHECK fails; full is the returned flag. */
    method ParserRtpH264(p: RtpPacket, needBox: bool) returns (checked: bool, full: bool)
      requires LongEnough(H264, p)
      modifies this
      ensures Agrees(H264, p, old(packetData), ParseOne(H264, old(isStart), needBox, p), checked, full)
    {
      if !needBox {
        isStart := false;
        return true, false;
      }
      var key := p[12];
      if key == 0x67 && !isStart {
        isStart := true;
      }
      if isStart {
        var packetType := key & 0x1F;
        if packetType < 24 {
          packetData := packetData + START_CODE;
          packetData := packetData + p[12..];
          assert packetData == old(packetData) + (START_CODE + p[12..]);
          return true, true;
        } else if packetType == 28 {
          var fuHeader := p[13];
          var s := (fuHeader & 0x80) >> 7;
          var e := (fuHeader & 0x40) >> 6;
          var naluHeader: Octet := 0;
          naluHeader := naluHeader | (key & 0xE0);
          naluHeader := naluHeader | (fuHeader & 0x1F);
          if s == 1 {
            if Mark(p) { return false, false; }
            packetData := packetData + START_CODE;
            packetData := packetData + [naluHeader];
            packetData := packetData + p[14..];
            assert packetData == old(packetData) + (START_CODE + [naluHeader] + p[14..]);
          } else if e == 1 {
            if !Mark(p) { return false, false; }
            packetData := packetData + p[14..];
          } else {
            packetData := packetData + p[14..];
          }
          return true, true;
        } else {
          return false, false;
        }
      }
      return true, false;
    }

    method ParserRtpH265(p: RtpPacket, needBox: bool) returns (checked: bool, full: bool)
      requires LongEnough(H265, p)
      modifies this
      ensures Agrees(H265, p, old(packetData), ParseOne(H265, old(isStart), needBox, p), checked, full)
    {
      if !needBox {
        isStart := false;
        return true, false;
      }
      var key := p[12];
      var unitType := (key >> 1) & 0x3F;
      if key == 0x40 && !isStart {
        isStart := true;
      }
      if isStart {
        if 49 == unitType {
          var fuHeader := p[14];
          var s := (fuHeader >> 7) & 0x01;
          var e := (fuHeader >> 6) & 0x01;
          var naluHeader1: Octet := 0;
          var naluHeader2 := p[13];
          naluHeader1 := (naluHeader1 | (fuHeader & 0x3F)) << 1;
          naluHeader1 := naluHeader1 | (key & 0x80);
          if 1 == s {
            packetData := packetData + START_CODE;
            packetData := packetData + [naluHeader1];
            packetData := packetData + [naluHeader2];
            packetData := packetData + p[15..];
            assert packetData == old(packetData) + (START_CODE + [naluHeader1, naluHeader2] + p[15..]);
            if Mark(p) { return false, false; }
          } else if 1 == e {
            packetData := packetData + p[15..];
            if !Mark(p) { return false, false; }
          } else {
            packetData := packetData + p[15..];
          }
          return true, true;
        } else if 48 == unitType {
          return false, false;
        } else {
          packetData := packetData + START_CODE;
          packetData := packetData + p[12..];
          assert packetData == old(packetData) + (START_CODE + p[12..]);
          return true, true;
        }
      }
      return true, false;
    }

    /** One turn of parser_thread: what is parsed goes to the callback and is cleared. */
    method HandlePacket(codec: Codec, p: RtpPacket, needBox: bool) returns (checked: bool, callback: seq<Octet>)
      requires LongEnough(codec, p) && packetData == []
      modifies this
      ensures match ParseOne(codec, old(isStart), needBox, p)
              case CheckFailed => !checked
              case Ignored(started) => checked && callback == [] && isStart == started && packetData == []
              case Delivered(data) => checked && callback == data && isStart && packetData == []
    {
      var full: bool;
      match codec {
        case H264 => checked, full := ParserRtpH264(p, needBox);
        case H265 => checked, full := ParserRtpH265(p, needBox);
      }
      callback := [];
      if checked && full {
        callback := packetData;
        packetData := [];
      }
    }
  }

  // ------------------------------------------------------------------ the packet data's block

  /** The size of the buffer packets are received in. */
  const RECEIVE_SIZE := 1500

  /** What the append calls of a delivering packet add, in order. */
  function Pieces(codec: Codec, p: RtpPacket): seq<seq<Octet>>
    requires LongEnough(codec, p) && !KindOf(codec, p).Unsupported?
  {
    FirstIsFragment(codec, p);
    if KindOf(codec, p).Single? then [START_CODE, p[12..]]
    else
      var payload := p[FuOffset(codec)..];
      if !KindOf(codec, p).First? then [payload]
      else
        var header := RebuiltHeader(codec, p);
        match codec
        case H264 => [START_CODE, header, payload]
        case H265 => [START_CODE, header[..1], header[1..], payload]
  }

  function AppendAll(pieces: seq<seq<Octet>>): seq<ByteBuffer.Op> {
    seq(|pieces|, i requires 0 <= i < |pieces| => ByteBuffer.Append(pieces[i]))
  }

  function Join(pieces: seq<seq<Octet>>): seq<Octet> {
    if pieces == [] then [] else Join(pieces[..|pieces| - 1]) + pieces[|pieces| - 1]
  }

  lemma {:induction false} AppendsJoin(pieces: seq<seq<Octet>>)
    ensures ByteBuffer.AllAppends(AppendAll(pieces)) && ByteBuffer.Appended(AppendAll(pieces)) == Join(pieces)
  {
    if pieces != [] {
      var prior := pieces[..|pieces| - 1];
      AppendsJoin(prior);
      assert AppendAll(pieces)[..|prior|] == AppendAll(prior);
    }
  }

  lemma JoinFew(a: seq<Octet>, b: seq<Octet>, c: seq<Octet>, d: seq<Octet>)
    ensures Join([a]) == a && Join([a, b]) == a + b
    ensures Join([a, b, c]) == a + b + c && Join([a, b, c, d]) == a + (b + c) + d
  {
    assert Join([]) == [] && [a][..0] == [] && [a, b][..1] == [a];
    assert [a, b, c][..2] == [a, b] && [a, b, c, d][..3] == [a, b, c];
    assert a + b + c == a + (b + c);
  }

  lemma PiecesDeliver(codec: Codec, p: RtpPacket)
    requires LongEnough(codec, p) && !KindOf(codec, p).Unsupported? && ParseOne(codec, true, true, p).Delivered?
    ensures Join(Pieces(codec, p)) == ParseOne(codec, true, true, p).data
  {
    hide Mark, Join, LongEnough, KindOf, START_CODE, RebuiltHeader;
    FirstIsFragment(codec, p);
    if KindOf(codec, p).Single? {
      JoinFew(START_CODE, p[12..], [], []);
    } else if KindOf(codec, p).First? {
      var header := RebuiltHeader(codec, p);
      var payload := p[FuOffset(codec)..];
      if codec.H264? {
        JoinFew(START_CODE, header, payload, []);
      } else {
        assert header == header[..1] + header[1..];
        JoinFew(START_CODE, header[..1], header[1..], payload);
      }
    } else {
      JoinFew(p[FuOffset(codec)..], [], [], []);
    }
  }

  lemma FirstIsFragment(codec: Codec, p: RtpPacket)
    requires LongEnough(codec, p)
    ensures |p| >= 13
    ensures !KindOf(codec, p).Single? && !KindOf(codec, p).Unsupported? ==>
              IsFragment(codec, p[12]) && |p| >= FuOffset(codec) && |RebuiltHeader(codec, p)| == HeaderLength(codec)
  {
  }

  lemma DeliversLess(codec: Codec, p: RtpPacket)
    requires LongEnough(codec, p) && ParseOne(codec, true, true, p).Delivered?
    ensures |ParseOne(codec, true, true, p).data| < |p|
  {
    hide Mark;
  }

  /**
   Within the size received, no packet makes the packet data leave its block: emptied before
   each packet, it takes every append, and its capacity never falls below the initial one.
   */
  lemma PacketDataFits(codec: Codec, p: RtpPacket, capacity: nat)
    requires LongEnough(codec, p) && |p| <= RECEIVE_SIZE && capacity >= ByteBuffer.INITIAL_CAPACITY
    requires ParseOne(codec, true, true, p).Delivered?
    ensures var empty := ByteBuffer.View([], capacity);
            var ops := AppendAll(Pieces(codec, p));
            && ByteBuffer.RunFits(empty, ops)
            && ByteBuffer.Run(empty, ops).contents == ParseOne(codec, true, true, p).data
            && ByteBuffer.Run(empty, ops).capacity >= ByteBuffer.INITIAL_CAPACITY
  {
    hide LongEnough, KindOf, Mark, Pieces, AppendAll;
    PiecesDeliver(codec, p);
    AppendsJoin(Pieces(codec, p));
    DeliversLess(codec, p);
    ByteBuffer.ShortAppendsFit(ByteBuffer.View([], capacity), AppendAll(Pieces(codec, p)));
  }

  // -------------------------------------------------------------------- packetisation

  /** A NAL unit and the packets it is sent in. */
  datatype Unit = Unit(nal: seq<Octet>, packets: seq<RtpPacket>)

  function HeaderLength(codec: Codec): nat {
    match codec case H264 => 1 case H265 => 2
  }

  /** A single NAL unit packet: its type is none that aggregates or fragments. */
  predicate SingleOf(codec: Codec, nal: seq<Octet>, p: RtpPacket)
    requires |nal| >= HeaderLength(codec)
  {
    && |p| >= 13 && p[12..] == nal
    && match codec
       case H264 => nal[0] & 0x1F < 24
       case H265 => (nal[0] >> 1) & 0x3F != 48 && (nal[0] >> 1) & 0x3F != 49
  }

  /**
   A fragmentation unit of nal (FU-A, type 28, of RFC 6184; type 49 of RFC 7798) with its S and
   E bits and the header fields of nal.
   */
  predicate FragmentOf(codec: Codec, nal: seq<Octet>, p: RtpPacket, first: bool, last: bool)
    requires |nal| >= HeaderLength(codec)
  {
    var bits: Octet := if first then 0x80 else if last then 0x40 else 0;
    match codec
    case H264 =>
      && |p| >= 14 && p[12] & 0x1F == 28 && p[13] & 0xC0 == bits
      && p[12] & 0xE0 == nal[0] & 0xE0 && p[13] & 0x1F == nal[0] & 0x1F
    case H265 =>
      && |p| >= 15 && (p[12] >> 1) & 0x3F == 49 && p[14] & 0xC0 == bits
      && p[12] & 0x81 == nal[0] & 0x81 && p[13] == nal[1] && p[14] & 0x3F == (nal[0] >> 1) & 0x3F
  }

  /** What follows the 12 bytes of RTP and the two or three of the fragmentation unit. */
  function Payload(codec: Codec, p: RtpPacket): seq<Octet>
    requires |p| >= FuOffset(codec)
  {
    match codec case H264 => p[14..] case H265 => p[15..]
  }

  function Payloads(codec: Codec, packets: seq<RtpPacket>): seq<Octet>
    requires forall p | p in packets :: |p| >= FuOffset(codec)
  {
    if packets == [] then [] else Payload(codec, packets[0]) + Payloads(codec, packets[1..])
  }

  /** A single NAL unit packet, or any cutting of the unit into two or more fragments. */
  predicate Carries(codec: Codec, u: Unit) {
    && |u.nal| >= HeaderLength(codec)
    && (|| (|u.packets| == 1 && SingleOf(codec, u.nal, u.packets[0]))
        || (|u.packets| >= 2
            && (forall i | 0 <= i < |u.packets| ::
                  FragmentOf(codec, u.nal, u.packets[i], i == 0, i == |u.packets| - 1))
            && Payloads(codec, u.packets) == u.nal[HeaderLength(codec)..]))
  }

  /** The marker bits the parser insists on for fragments. */
  predicate MarksConform(u: Unit)
    requires forall p | p in u.packets :: |p| >= 2
  {
    |u.packets| >= 2 ==> u.packets[0][1] < 0x80 && u.packets[|u.packets| - 1][1] >= 0x80
  }

  /** The unit as reassembled: H.265 fragments lose the top bit of the layer id. */
  function Reassembled(codec: Codec, u: Unit): seq<Octet>
    requires Carries(codec, u)
  {
    if codec.H265? && |u.packets| >= 2 then [u.nal[0] & 0xFE] + u.nal[1..] else u.nal
  }

  /** Every callback payload of a run, concatenated. */
  datatype Output = Failed | Output(isStart: bool, data: seq<Octet>)

  function Run(codec: Codec, isStart: bool, packets: seq<RtpPacket>): Output
    requires forall p | p in packets :: LongEnough(codec, p)
    decreases |packets|
  {
    if packets == [] then Output(isStart, [])
    else
      match ParseOne(codec, isStart, true, packets[0])
      case CheckFailed => Failed
      case Ignored(started) => Run(codec, started, packets[1..])
      case Delivered(data) => Prepend(data, Run(codec, true, packets[1..]))
  }

  function Prepend(data: seq<Octet>, rest: Output): Output {
    match rest
    case Failed => Failed
    case Output(isStart, tail) => Output(isStart, data + tail)
  }

  /** First packets, then the rest from where they left the parser. */
  function Continue(codec: Codec, before: Output, packets: seq<RtpPacket>): Output
    requires forall p | p in packets :: LongEnough(codec, p)
  {
    match before
    case Failed => Failed
    case Output(isStart, data) => Prepend(data, Run(codec, isStart, packets))
  }

  lemma {:induction false} RunAppends(codec: Codec, isStart: bool, ps: seq<RtpPacket>, qs: seq<RtpPacket>)
    requires forall p | p in ps + qs :: LongEnough(codec, p)
    ensures forall p | p in ps :: p in ps + qs
    ensures forall p | p in qs :: p in ps + qs
    ensures Run(codec, isStart, ps + qs) == Continue(codec, Run(codec, isStart, ps), qs)
    decreases |ps|
  {
    hide ParseOne, LongEnough;
    if ps == [] {
      assert ps + qs == qs;
    } else {
      assert (ps + qs)[1..] == ps[1..] + qs;
      assert ps[0] in ps + qs;
      match ParseOne(codec, isStart, true, ps[0])
      case CheckFailed =>
      case Ignored(started) => RunAppends(codec, started, ps[1..], qs);
      case Delivered(data) =>
        RunAppends(codec, true, ps[1..], qs);
        PrependTwice(data, Run(codec, true, ps[1..]), codec, qs);
    }
  }

  lemma PrependTwice(data: seq<Octet>, rest: Output, codec: Codec, qs: seq<RtpPacket>)
    requires forall p | p in qs :: LongEnough(codec, p)
    ensures Prepend(data, Continue(codec, rest, qs)) == Continue(codec, Prepend(data, rest), qs)
  {
    hide Run, LongEnough;
    match rest
    case Failed =>
    case Output(isStart, tail) =>
      match Run(codec, isStart, qs)
      case Failed =>
      case Output(_, last) => assert data + (tail + last) == (data + tail) + last;
  }

  // ------------------------------------------------------------------------ round trip

  lemma CarriedPacketsAreLong(codec: Codec, u: Unit)
    requires Carries(codec, u)
    ensures forall p | p in u.packets :: LongEnough(codec, p) && |p| >= 2
  {
    forall p | p in u.packets
      ensures LongEnough(codec, p) && |p| >= 2
    {
      var i :| 0 <= i < |u.packets| && u.packets[i] == p;
    }
  }

  lemma FragmentKind(codec: Codec, nal: seq<Octet>, p: RtpPacket, first: bool, last: bool)
    requires |nal| >= HeaderLength(codec) && FragmentOf(codec, nal, p, first, last)
    ensures LongEnough(codec, p) && IsFragment(codec, p[12])
    ensures KindOf(codec, p) == if first then First else if last then Last else Middle
    ensures p[12] != StartKey(codec)
    ensures RebuiltHeader(codec, p) == match codec case H264 => [nal[0]] case H265 => [nal[0] & 0xFE, nal[1]]
  {
    if codec.H265? {
      HeaderBits265(nal[0], p[12], p[14]);
    } else {
      HeaderBits264(nal[0], p[12], p[13]);
    }
  }

  lemma HeaderBits264(n: Octet, indicator: Octet, fu: Octet)
    requires indicator & 0xE0 == n & 0xE0 && fu & 0x1F == n & 0x1F
    ensures (indicator & 0xE0) | (fu & 0x1F) == n
  {
  }

  lemma HeaderBits265(n: Octet, indicator: Octet, fu: Octet)
    requires indicator & 0x81 == n & 0x81 && fu & 0x3F == (n >> 1) & 0x3F
    ensures ((fu & 0x3F) << 1) | (indicator & 0x80) == n & 0xFE
  {
  }

  /** The fragments after the first, from any point on. */
  lemma {:induction false} RunLaterFragments(codec: Codec, nal: seq<Octet>, ps: seq<RtpPacket>)
    requires |nal| >= HeaderLength(codec) && ps != []
    requires forall i | 0 <= i < |ps| :: FragmentOf(codec, nal, ps[i], false, i == |ps| - 1)
    ensures forall p | p in ps :: LongEnough(codec, p) && |p| >= FuOffset(codec)
    ensures Run(codec, true, ps) == if Mark(ps[|ps| - 1]) then Output(true, Payloads(codec, ps)) else Failed
    decreases |ps|
  {
    hide FragmentOf, LongEnough, KindOf, RebuiltHeader, Mark;
    FragmentKind(codec, nal, ps[0], false, |ps| == 1);
    FragmentIsLong(codec, nal, ps[0], false, |ps| == 1);
    if |ps| == 1 {
      assert ps[1..] == [];
    } else {
      RunLaterFragments(codec, nal, ps[1..]);
    }
  }

  lemma FragmentIsLong(codec: Codec, nal: seq<Octet>, p: RtpPacket, first: bool, last: bool)
    requires |nal| >= HeaderLength(codec) && FragmentOf(codec, nal, p, first, last)
    ensures |p| >= FuOffset(codec)
  {
  }

  /**
   For every way of packing a unit the callbacks concatenate to start code and unit; the
   process survives exactly if the marker bits are as it checks.
   */
  lemma UnitRoundTrip(codec: Codec, u: Unit)
    requires Carries(codec, u)
    ensures forall p | p in u.packets :: LongEnough(codec, p) && |p| >= 2
    ensures Run(codec, true, u.packets)
         == if MarksConform(u) then Output(true, [0, 0, 0, 1] + Reassembled(codec, u)) else Failed
  {
    CarriedPacketsAreLong(codec, u);
    if |u.packets| == 1 {
      assert u.packets == [u.packets[0]];
      assert u.packets[0] in u.packets;
      SingleRoundTrip(codec, u.packets[0]);
    } else {
      FragmentsRoundTrip(codec, u);
    }
  }

  lemma SingleRoundTrip(codec: Codec, p: RtpPacket)
    requires LongEnough(codec, p) && KindOf(codec, p) == Single
    ensures Run(codec, true, [p]) == Output(true, START_CODE + p[12..])
  {
    hide KindOf, LongEnough;
    assert [p][1..] == [];
    assert Run(codec, true, []) == Output(true, []);
  }

  /** The marker is the top bit of the second byte. */
  lemma MarkIsTopBit(p: RtpPacket)
    requires |p| >= 2
    ensures Mark(p) <==> p[1] >= 0x80
  {
  }

  lemma FragmentsAreLong(codec: Codec, u: Unit)
    requires Carries(codec, u) && |u.packets| >= 2
    ensures forall p | p in u.packets :: |p| >= FuOffset(codec)
  {
    forall p | p in u.packets
      ensures |p| >= FuOffset(codec)
    {
      var i :| 0 <= i < |u.packets| && u.packets[i] == p;
      FragmentIsLong(codec, u.nal, p, i == 0, i == |u.packets| - 1);
    }
  }

  lemma BodyOfFragments(codec: Codec, u: Unit)
    requires Carries(codec, u) && |u.packets| >= 2 && forall p | p in u.packets :: |p| >= FuOffset(codec)
    ensures u.packets[0][FuOffset(codec)..] + Payloads(codec, u.packets[1..]) == u.nal[HeaderLength(codec)..]
  {
    hide FragmentOf;
  }

  lemma JoinWhole(start: seq<Octet>, header: seq<Octet>, payload: seq<Octet>, later: seq<Octet>,
                  body: seq<Octet>, whole: seq<Octet>)
    requires payload + later == body && header + body == whole
    ensures start + header + payload + later == start + whole
  {
    assert start + header + payload + later == start + (header + (payload + later));
  }

  lemma FragmentsRoundTrip(codec: Codec, u: Unit)
    requires Carries(codec, u) && |u.packets| >= 2
    requires forall p | p in u.packets :: LongEnough(codec, p) && |p| >= 2
    ensures Run(codec, true, u.packets)
         == if MarksConform(u) then Output(true, START_CODE + Reassembled(codec, u)) else Failed
  {
    hide FragmentOf, LongEnough, KindOf, RebuiltHeader, Mark, Reassembled, Payloads, START_CODE;
    var p, rest := u.packets[0], u.packets[1..];
    FragmentKind(codec, u.nal, p, true, false);
    FragmentIsLong(codec, u.nal, p, true, false);
    FragmentsAreLong(codec, u);
    RunLaterFragments(codec, u.nal, rest);
    var header, first, last := RebuiltHeader(codec, p), p[FuOffset(codec)..], Payloads(codec, rest);
    HeaderCompletesUnit(codec, u, header);
    BodyOfFragments(codec, u);
    MarkIsTopBit(p);
    MarkIsTopBit(rest[|rest| - 1]);
    hide Carries;
    JoinWhole(START_CODE, header, first, last, u.nal[HeaderLength(codec)..], Reassembled(codec, u));
    assert ParseOne(codec, true, true, p) == if Mark(p) then CheckFailed else Delivered(START_CODE + header + first);
  }

  lemma HeaderCompletesUnit(codec: Codec, u: Unit, header: seq<Octet>)
    requires Carries(codec, u) && |u.packets| >= 2
    requires header == match codec case H264 => [u.nal[0]] case H265 => [u.nal[0] & 0xFE, u.nal[1]]
    ensures header + u.nal[HeaderLength(codec)..] == Reassembled(codec, u)
  {
  }

  /** The unit comes back unchanged exactly if it is H.264, unfragmented, or of layer id below 32. */
  lemma ReassembledUnchangedIff(codec: Codec, u: Unit)
    requires Carries(codec, u)
    ensures Reassembled(codec, u) == u.nal <==> codec.H264? || |u.packets| == 1 || u.nal[0] & 1 == 0
  {
    if codec.H265? && |u.packets| >= 2 {
      TopLayerBit(u.nal[0]);
      assert Reassembled(codec, u)[0] == u.nal[0] & 0xFE;
      if u.nal[0] & 1 == 0 {
        assert Reassembled(codec, u) == u.nal;
      }
    }
  }

  lemma TopLayerBit(n: Octet)
    ensures n & 0xFE == n <==> n & 1 == 0
  {
  }

  /** A unit of layer 32 in two fragments. */
  const LAYERED_NAL: seq<Octet> := [0x03, 0x01, 0xAA, 0xBB]
  const LAYERED_FIRST: RtpPacket := [0x80, 0x60, 0, 1, 0, 0, 0, 0, 0, 0, 0, 0, 0x63, 0x01, 0x81, 0xAA]
  const LAYERED_LAST: RtpPacket := [0x80, 0xE0, 0, 2, 0, 0, 0, 0, 0, 0, 0, 0, 0x63, 0x01, 0x41, 0xBB]
  const LAYERED := Unit(LAYERED_NAL, [LAYERED_FIRST, LAYERED_LAST])

  lemma FragmentsOfLayered()
    ensures FragmentOf(H265, LAYERED_NAL, LAYERED_FIRST, true, false)
    ensures FragmentOf(H265, LAYERED_NAL, LAYERED_LAST, false, true)
    ensures !Mark(LAYERED_FIRST) && Mark(LAYERED_LAST)
    ensures LAYERED_FIRST[15..] == [0xAA] && LAYERED_LAST[15..] == [0xBB]
  {
  }

  lemma PayloadsOfTwo(codec: Codec, p: RtpPacket, q: RtpPacket)
    requires |p| >= FuOffset(codec) && |q| >= FuOffset(codec)
    ensures Payloads(codec, [p, q]) == p[FuOffset(codec)..] + q[FuOffset(codec)..]
  {
    assert [p, q][1..] == [q] && [q][1..] == [];
    assert Payloads(codec, [q]) == q[FuOffset(codec)..] + Payloads(codec, []);
  }

  /** Its first byte comes back as 0x02, which is layer 0. */
  lemma LayerBitIsLost()
    ensures Carries(H265, LAYERED) && MarksConform(LAYERED)
    ensures Reassembled(H265, LAYERED) == [0x02, 0x01, 0xAA, 0xBB] != LAYERED.nal
  {
    hide FragmentOf, Mark, Payloads, LAYERED_FIRST, LAYERED_LAST;
    FragmentsOfLayered();
    LongFragments();
    MarkIsTopBit(LAYERED_FIRST);
    MarkIsTopBit(LAYERED_LAST);
    PayloadsOfTwo(H265, LAYERED_FIRST, LAYERED_LAST);
    assert [0xAA] + [0xBB] == LAYERED_NAL[2..];
    assert [0x02] + LAYERED_NAL[1..] == [0x02, 0x01, 0xAA, 0xBB];
  }

  lemma LongFragments()
    ensures |LAYERED_FIRST| == |LAYERED_LAST| == 16
  {
  }

  // ---------------------------------------------------------------------------- streams

  /** Units that switch the parser on: an SPS (H.264) or a VPS (H.265) of the usual header, in a single packet. */
  predicate Starts(codec: Codec, u: Unit)
    requires Carries(codec, u)
  {
    |u.packets| == 1 && u.nal[0] == match codec case H264 => 0x67 case H265 => 0x40
  }

  function AllPackets(units: seq<Unit>): seq<RtpPacket> {
    if units == [] then [] else units[0].packets + AllPackets(units[1..])
  }

  /** Start code and unit for every unit from the first starting one on. */
  function ByteStream(codec: Codec, started: bool, units: seq<Unit>): seq<Octet>
    requires forall u | u in units :: Carries(codec, u)
    decreases |units|
  {
    if units == [] then []
    else if started || Starts(codec, units[0])
    then START_CODE + Reassembled(codec, units[0]) + ByteStream(codec, true, units[1..])
    else ByteStream(codec, false, units[1..])
  }

  lemma {:induction false} AllPacketsAreLong(codec: Codec, units: seq<Unit>)
    requires forall u | u in units :: Carries(codec, u)
    ensures forall p | p in AllPackets(units) :: LongEnough(codec, p)
  {
    if units != [] {
      CarriedPacketsAreLong(codec, units[0]);
      AllPacketsAreLong(codec, units[1..]);
    }
  }

  /** A unit that does not start the parser leaves it off and produces nothing. */
  lemma {:induction false} IgnoredBeforeStart(codec: Codec, packets: seq<RtpPacket>)
    requires forall p | p in packets :: LongEnough(codec, p) && p[12] != StartKey(codec)
    ensures Run(codec, false, packets) == Output(false, [])
    decreases |packets|
  {
    hide LongEnough, KindOf;
    if packets != [] {
      IgnoredBeforeStart(codec, packets[1..]);
    }
  }

  lemma UnitBeforeStart(codec: Codec, u: Unit)
    requires Carries(codec, u)
    ensures forall p | p in u.packets :: LongEnough(codec, p)
    ensures Starts(codec, u) ==> Run(codec, false, u.packets) == Run(codec, true, u.packets)
    ensures !Starts(codec, u) ==> Run(codec, false, u.packets) == Output(false, [])
  {
    CarriedPacketsAreLong(codec, u);
    if !Starts(codec, u) {
      forall p | p in u.packets
        ensures p[12] != StartKey(codec)
      {
        var i :| 0 <= i < |u.packets| && u.packets[i] == p;
        if |u.packets| >= 2 {
          FragmentKind(codec, u.nal, p, i == 0, i == |u.packets| - 1);
        }
      }
      IgnoredBeforeStart(codec, u.packets);
    }
  }

  /**
   A whole stream, in any packing with conforming marker bits: the callbacks concatenate
   to the byte stream of the units from the first single-packet parameter set on.
   */
  lemma {:induction false} StreamRoundTrip(codec: Codec, started: bool, units: seq<Unit>)
    requires forall u | u in units :: Carries(codec, u)
    requires forall u, p | u in units && p in u.packets :: |p| >= 2
    requires forall u | u in units :: MarksConform(u)
    ensures forall p | p in AllPackets(units) :: LongEnough(codec, p)
    ensures Run(codec, started, AllPackets(units)).Output?
    ensures Run(codec, started, AllPackets(units)).data == ByteStream(codec, started, units)
    decreases |units|
  {
    AllPacketsAreLong(codec, units);
    if units != [] {
      var u := units[0];
      var now := started || Starts(codec, u);
      UnitBeforeStart(codec, u);
      UnitRoundTrip(codec, u);
      hide Run, Carries, Reassembled, MarksConform, Starts, LongEnough;
      StreamRoundTrip(codec, now, units[1..]);
      RunAppends(codec, started, u.packets, AllPackets(units[1..]));
    }
  }

  /** Whether a payload begins with this key, the usual header byte of a parameter set. */
  predicate KeyOf(p: RtpPacket, key: Octet) {
    |p| >= 14 && p[12] == key
  }

  lemma SingleStream(codec: Codec, p: RtpPacket, q: RtpPacket)
    requires |p| >= 14 && |q| >= 14 && SingleOf(codec, p[12..], p) && SingleOf(codec, q[12..], q)
    requires Starts(codec, Unit(p[12..], [p]))
    ensures LongEnough(codec, p) && LongEnough(codec, q)
    ensures var output := Run(codec, false, [p, q]);
            output.Output? && output.data == [0, 0, 0, 1] + p[12..] + ([0, 0, 0, 1] + q[12..])
  {
    hide LongEnough, SingleOf, Starts, Run, AllPackets, ByteStream;
    var u, v := Unit(p[12..], [p]), Unit(q[12..], [q]);
    CarriedPacketsAreLong(codec, u);
    CarriedPacketsAreLong(codec, v);
    assert p in u.packets && q in v.packets;
    StreamRoundTrip(codec, false, [u, v]);
    PacketsOfTwo(u, v);
    assert [p] + [q] == [p, q];
    StreamOfTwo(codec, u, v);
    assert Reassembled(codec, u) == p[12..] && Reassembled(codec, v) == q[12..];
  }

  lemma PacketsOfTwo(u: Unit, v: Unit)
    ensures AllPackets([u, v]) == u.packets + v.packets
  {
    assert [u, v][1..] == [v] && [v][1..] == [];
    assert AllPackets([v]) == v.packets + [];
  }

  lemma StreamOfTwo(codec: Codec, u: Unit, v: Unit)
    requires Carries(codec, u) && Carries(codec, v) && Starts(codec, u)
    ensures ByteStream(codec, false, [u, v])
         == START_CODE + Reassembled(codec, u) + (START_CODE + Reassembled(codec, v))
  {
    hide Carries, Reassembled, Starts, START_CODE;
    assert [u, v][1..] == [v] && [v][1..] == [];
    assert ByteStream(codec, true, []) == [];
    var last := START_CODE + Reassembled(codec, v);
    assert ByteStream(codec, true, [v]) == last + [];
    assert last + [] == last;
  }

  /** The parameter sets a camera sends first, an SPS and a PPS or a VPS and an SPS, come out one after the other. */
  lemma ParameterSetsPass(codec: Codec, p: RtpPacket, q: RtpPacket)
    requires match codec
             case H264 => KeyOf(p, 0x67) && KeyOf(q, 0x68)
             case H265 => KeyOf(p, 0x40) && KeyOf(q, 0x42)
    ensures LongEnough(codec, p) && LongEnough(codec, q)
    ensures var output := Run(codec, false, [p, q]);
            output.Output? && output.data == [0, 0, 0, 1] + p[12..] + ([0, 0, 0, 1] + q[12..])
  {
    hide Run;
    SingleStream(codec, p, q);
  }
}
