/** Detection boxes cut into packets, and their reassembly. */
module BoxPackets {
  import opened Bytes

  const HEAD_LEN := 18
  const END_LEN := 9
  /** 42 boxes of 24 bytes. */
  const PACKET_BOX_LEN := 1008
  const BOX: Byte := 4
  const HEAD_FLAG: Byte := 0x55

  // ------------------------------------------------------------------------------ header

  datatype Head = Head(headIden: Byte, frameType: Byte, curFrame: uint32, totFrame: uint32, frameSize: uint32, picID: uint32)

  /** The packed struct as it lies in memory. */
  function EncodeHead(h: Head): (bytes: seq<Byte>)
    ensures |bytes| == HEAD_LEN
  {
    [h.headIden, h.frameType] + EncodeWord(h.curFrame) + EncodeWord(h.totFrame)
    + EncodeWord(h.frameSize) + EncodeWord(h.picID)
  }

  function DecodeHead(b: seq<Byte>): Head
    requires |b| >= HEAD_LEN
  {
    Head(b[0], b[1], DecodeWord(b[2..6]), DecodeWord(b[6..10]), DecodeWord(b[10..14]), DecodeWord(b[14..18]))
  }

  lemma HeadRoundTrip(h: Head, rest: seq<Byte>)
    ensures DecodeHead(EncodeHead(h) + rest) == h
  {
    hide EncodeWord, DecodeWord;
    var b := EncodeHead(h) + rest;
    assert b[2..6] == EncodeWord(h.curFrame) && b[6..10] == EncodeWord(h.totFrame);
    assert b[10..14] == EncodeWord(h.frameSize) && b[14..18] == EncodeWord(h.picID);
    WordRoundTrip(h.curFrame);
    WordRoundTrip(h.totFrame);
    WordRoundTrip(h.frameSize);
    WordRoundTrip(h.picID);
  }

  // ----------------------------------------------------------------------------- sending

  /** The box bytes of one picture. */
  datatype Message = Message(bytes: seq<Byte>, picID: uint32)

  /** The length of the box array fits an int. */
  predicate LengthFits(m: Message) {
    |m.bytes| < 0x8000_0000
  }

  /** A box array of which something goes on the wire. */
  predicate Sendable(m: Message) {
    LengthFits(m) && m.bytes != []
  }

  function PacketCount(len: nat): nat {
    if len % PACKET_BOX_LEN == 0 then len / PACKET_BOX_LEN else len / PACKET_BOX_LEN + 1
  }

  /** The i-th piece: 1008 bytes, or what is left for the last packet. */
  function Piece(bytes: seq<Byte>, i: nat): seq<Byte>
    requires i < PacketCount(|bytes|)
  {
    bytes[i * PACKET_BOX_LEN..if i == PacketCount(|bytes|) - 1 then |bytes| else (i + 1) * PACKET_BOX_LEN]
  }

  function PacketAt(m: Message, end: seq<Byte>, i: nat): seq<Byte>
    requires LengthFits(m) && i < PacketCount(|m.bytes|)
  {
    var piece := Piece(m.bytes, i);
    EncodeHead(Head(HEAD_FLAG, BOX, i + 1, PacketCount(|m.bytes|), |piece|, m.picID)) + piece + end
  }

  function PacketsUpTo(m: Message, end: seq<Byte>, n: nat): (packets: seq<seq<Byte>>)
    requires LengthFits(m) && n <= PacketCount(|m.bytes|)
    ensures |packets| == n
  {
    if n == 0 then [] else PacketsUpTo(m, end, n - 1) + [PacketAt(m, end, n - 1)]
  }

  /** Every packet of a message. */
  function Packets(m: Message, end: seq<Byte>): seq<seq<Byte>>
    requires LengthFits(m)
  {
    PacketsUpTo(m, end, PacketCount(|m.bytes|))
  }

  /** send_res2, with the packets in the order they are sent; none for an empty array. */
  method SendRes2(m: Message, end: seq<Byte>) returns (packets: seq<seq<Byte>>)
    requires LengthFits(m) && |end| == 9
    ensures packets == Packets(m, end)
  {
    var len := |m.bytes|;
    var packetNum := if len % PACKET_BOX_LEN == 0 then len / PACKET_BOX_LEN else len / PACKET_BOX_LEN + 1;
    var lastPacketLen := len - (packetNum - 1) * PACKET_BOX_LEN;
    packets := [];
    hide EncodeHead;
    for i := 0 to packetNum
      invariant packets == PacketsUpTo(m, end, i)
    {
      PieceFits(m.bytes, i);
      var head := Head(HEAD_FLAG, BOX, i + 1, packetNum, 0, m.picID);
      if i == packetNum - 1 {
        head := head.(frameSize := lastPacketLen);
        assert m.bytes[len - lastPacketLen..] == Piece(m.bytes, i);
        packets := packets + [EncodeHead(head) + m.bytes[len - lastPacketLen..] + end];
      } else {
        head := head.(frameSize := PACKET_BOX_LEN);
        packets := packets + [EncodeHead(head) + m.bytes[i * PACKET_BOX_LEN..(i + 1) * PACKET_BOX_LEN] + end];
      }
      assert packets[i] == PacketAt(m, end, i);
    }
  }

  // ------------------------------------------------------------------------------ parsing

  /** pic and what was handed on so far. */
  datatype Parser = Parser(pic: seq<Byte>, delivered: seq<Message>)

  /** A packet the parser may read: a header and the content it announces. */
  predicate WellFormed(p: seq<Byte>) {
    |p| >= HEAD_LEN && HEAD_LEN + DecodeHead(p).frameSize <= |p|
  }

  function Parse(s: Parser, p: seq<Byte>): Parser
    requires WellFormed(p)
  {
    var head := DecodeHead(p);
    var pic := (if head.curFrame == 1 then [] else s.pic) + p[HEAD_LEN..HEAD_LEN + head.frameSize];
    if head.curFrame == head.totFrame then Parser([], s.delivered + [Message(pic, head.picID)])
    else Parser(pic, s.delivered)
  }

  function ParseAll(s: Parser, packets: seq<seq<Byte>>): Parser
    requires forall p | p in packets :: WellFormed(p)
  {
    if packets == [] then s else Parse(ParseAll(s, packets[..|packets| - 1]), packets[|packets| - 1])
  }

  lemma PieceFits(bytes: seq<Byte>, i: nat)
    requires |bytes| < 0x8000_0000 && i < PacketCount(|bytes|)
    ensures |Piece(bytes, i)| <= PACKET_BOX_LEN && bytes[..i * PACKET_BOX_LEN] + Piece(bytes, i)
              == if i == PacketCount(|bytes|) - 1 then bytes else bytes[..(i + 1) * PACKET_BOX_LEN]
  {
  }

  lemma PacketParses(m: Message, end: seq<Byte>, i: nat)
    requires Sendable(m) && i < PacketCount(|m.bytes|)
    ensures var p := PacketAt(m, end, i);
            && WellFormed(p)
            && DecodeHead(p) == Head(HEAD_FLAG, BOX, i + 1, PacketCount(|m.bytes|), |Piece(m.bytes, i)|, m.picID)
            && p[HEAD_LEN..HEAD_LEN + |Piece(m.bytes, i)|] == Piece(m.bytes, i)
  {
    hide Piece, EncodeHead, DecodeHead;
    PieceFits(m.bytes, i);
    var piece := Piece(m.bytes, i);
    var head := Head(HEAD_FLAG, BOX, i + 1, PacketCount(|m.bytes|), |piece|, m.picID);
    HeadRoundTrip(head, piece + end);
    assert EncodeHead(head) + piece + end == EncodeHead(head) + (piece + end);
  }

  /** Reassembly inverts the splitting, whatever was left in pic before. */
  lemma {:induction false} ReassemblyInvertsSplitting(s: Parser, m: Message, end: seq<Byte>, n: nat)
    requires Sendable(m) && 0 < n <= PacketCount(|m.bytes|)
    ensures forall p | p in PacketsUpTo(m, end, n) :: WellFormed(p)
    ensures ParseAll(s, PacketsUpTo(m, end, n))
         == if n == PacketCount(|m.bytes|) then Parser([], s.delivered + [m])
            else Parser(m.bytes[..n * PACKET_BOX_LEN], s.delivered)
  {
    hide WellFormed, DecodeHead, PacketAt, Piece;
    var packets := PacketsUpTo(m, end, n);
    PacketParses(m, end, n - 1);
    PieceFits(m.bytes, n - 1);
    assert packets[..n - 1] == PacketsUpTo(m, end, n - 1) && packets[n - 1] == PacketAt(m, end, n - 1);
    if n == 1 {
      assert ParseAll(s, packets[..0]) == s;
      assert m.bytes[..0] == [];
    } else {
      ReassemblyInvertsSplitting(s, m, end, n - 1);
    }
  }

  /**
   Packet i on the wire, byte by byte: flag and type, then little-endian numbers (the packet from 1 on, the
   packets in all, the content's length, the picture), then 1008 bytes of the array or what is left, then the end.
   */
  lemma PacketLayout(m: Message, end: seq<Byte>, i: nat)
    requires LengthFits(m) && |end| == 9 && i < |Packets(m, end)|
    ensures |Packets(m, end)| == (|m.bytes| + 1007) / 1008
    ensures var p, len := Packets(m, end)[i], |m.bytes|;
            var from, to := 1008 * i, if 1008 * i + 1008 < len then 1008 * i + 1008 else len;
            && from < to && |p| == 27 + (to - from)
            && p[0] == 0x55 && p[1] == 4
            && DecodeWord(p[2..6]) == i + 1 && DecodeWord(p[6..10]) == |Packets(m, end)|
            && DecodeWord(p[10..14]) == to - from && DecodeWord(p[14..18]) == m.picID
            && p[18..] == m.bytes[from..to] + end
  {
    hide EncodeHead, DecodeWord, EncodeWord;
    PacketsAt(m, end, PacketCount(|m.bytes|), i);
    PieceFits(m.bytes, i);
    var piece := Piece(m.bytes, i);
    var head := Head(HEAD_FLAG, BOX, i + 1, PacketCount(|m.bytes|), |piece|, m.picID);
    HeadRoundTrip(head, piece + end);
    assert PacketAt(m, end, i) == EncodeHead(head) + (piece + end);
  }

  lemma {:induction false} PacketsAt(m: Message, end: seq<Byte>, n: nat, i: nat)
    requires LengthFits(m) && i < n <= PacketCount(|m.bytes|)
    ensures PacketsUpTo(m, end, n)[i] == PacketAt(m, end, i)
    decreases n
  {
    hide PacketAt;
    if i < n - 1 {
      PacketsAt(m, end, n - 1, i);
    }
  }
}
