/**
 The stop-and-wait handshake between a sender, the peer's receive thread and its parser
 thread. Every statement on shared state is one step; the channel is reliable.
 */
module BoxHandshake {
  import opened BoxPackets
  import opened Bytes
  import ByteBuffer
  import opened Wrappers

  datatype SenderPc = Ready | Sent

  datatype ReceiverPc = Reading | Stored | Posted | Answering

  /** packet is the copy of the last packet the parser works on. */
  datatype ParserPc =
    | Resting | Woken
    | Holding(packet: seq<Byte>) | Cleared(packet: seq<Byte>) | Appended(packet: seq<Byte>)
    | Finished

  /**
   sent counts the packets sent, acks the answers under way, sendSem, recvSem and status
   are the semaphores and the flag of the condition variable, arr and last the receive
   buffer and lastPacketSize; arrCap and picCap are the capacities of arr and pic, each of
   which grows as a byte buffer does and only ever is cleared.
   */
  datatype State = State(
    sender: SenderPc, sent: nat, sendSem: nat, wire: seq<seq<Byte>>, acks: nat,
    receiver: ReceiverPc, arr: seq<Byte>, arrCap: nat, last: nat, recvSem: nat, status: bool,
    parser: ParserPc, pic: seq<Byte>, picCap: nat, delivered: seq<Message>)

  const START := State(Ready, 0, 0, [], 0, Reading, [], ByteBuffer.INITIAL_CAPACITY, 0, 0, false,
                       Resting, [], ByteBuffer.INITIAL_CAPACITY, [])

  datatype Step =
    // sender and its own receive thread
    | Send | Proceed | TakeAck
    // the peer's receive thread
    | Read | Post | Wake | Answer
    // the peer's parser thread
    | Acquire | Copy | Clear | Append | Finish | Signal

  predicate Enabled(s: State, packets: seq<seq<Byte>>, step: Step) {
    match step
    case Send => s.sender == Ready && s.sent < |packets|
    case Proceed => s.sender == Sent && s.sendSem > 0
    case TakeAck => s.acks > 0
    case Read => s.receiver == Reading && s.wire != []
    case Post => s.receiver == Stored
    case Wake => s.receiver == Posted && s.status
    case Answer => s.receiver == Answering
    case Acquire => s.parser == Resting && s.recvSem > 0
    case Copy => s.parser == Woken
    case Clear => s.parser.Holding?
    case Append => s.parser.Cleared?
    case Finish => s.parser.Appended?
    case Signal => s.parser == Finished
  }

  /** arr.mid(arr.size() - lastPacketSize, lastPacketSize), which is all of arr for a bad size. */
  function LastPacket(arr: seq<Byte>, last: nat): seq<Byte> {
    if last <= |arr| then arr[|arr| - last..] else arr
  }

  /** The content bytes of a packet; a short packet has none. */
  function Content(p: seq<Byte>): seq<Byte> {
    if WellFormed(p) then p[HEAD_LEN..HEAD_LEN + DecodeHead(p).frameSize] else []
  }

  predicate IsFirst(p: seq<Byte>) { |p| >= HEAD_LEN && DecodeHead(p).curFrame == 1 }

  predicate IsFinal(p: seq<Byte>) { |p| >= HEAD_LEN && DecodeHead(p).curFrame == DecodeHead(p).totFrame }

  function PicId(p: seq<Byte>): uint32 { if |p| >= HEAD_LEN then DecodeHead(p).picID else 0 }

  function Apply(s: State, packets: seq<seq<Byte>>, step: Step): State
    requires Enabled(s, packets, step)
  {
    match step
    case Send => s.(wire := s.wire + [packets[s.sent]], sent := s.sent + 1, sender := Sent)
    case Proceed => s.(sendSem := s.sendSem - 1, sender := Ready)
    case TakeAck => s.(acks := s.acks - 1, sendSem := s.sendSem + 1)
    case Read =>
      s.(arr := s.arr + s.wire[0], arrCap := ByteBuffer.CapacityAfter(s.arrCap, |s.arr|, |s.wire[0]|),
         last := |s.wire[0]|, wire := s.wire[1..], receiver := Stored)
    case Post => s.(recvSem := s.recvSem + 1, receiver := Posted)
    case Wake => s.(status := false, receiver := Answering)
    case Answer => s.(acks := s.acks + 1, receiver := Reading)
    case Acquire => s.(recvSem := s.recvSem - 1, parser := Woken)
    case Copy => s.(parser := Holding(LastPacket(s.arr, s.last)))
    case Clear =>
      var p := s.parser.packet;
      s.(pic := if IsFirst(p) then [] else s.pic, arr := if IsFirst(p) then [] else s.arr, parser := Cleared(p))
    case Append =>
      var content := Content(s.parser.packet);
      s.(pic := s.pic + content, picCap := ByteBuffer.CapacityAfter(s.picCap, |s.pic|, |content|),
         parser := Appended(s.parser.packet))
    case Finish =>
      var p := s.parser.packet;
      if IsFinal(p) then
        s.(delivered := s.delivered + [Message(s.pic, PicId(p))], arr := [], pic := [], parser := Finished)
      else s.(parser := Finished)
    case Signal => s.(status := true, parser := Resting)
  }

  // --------------------------------------------------------------------------- invariant

  /** Packets sent and not yet parsed. */
  function Unparsed(s: State): nat {
    |s.wire| + One(s.receiver == Stored) + s.recvSem + One(s.parser != Resting && s.parser != Finished)
  }

  /** Packets parsed and not yet answered all the way back to the sender. */
  function Answers(s: State): nat {
    One(s.parser == Finished) + One(s.status) + One(s.receiver == Answering) + s.acks + s.sendSem
  }

  /** Exactly one packet or answer is under way while the sender waits, and none otherwise. */
  predicate Handshake(s: State) {
    && Unparsed(s) + Answers(s) == One(s.sender == Sent)
    && (s.receiver == Posted <==> s.recvSem > 0 || s.parser != Resting || s.status)
    && (s.sender == Sent ==> s.sent > 0)
  }

  /** The parser after the first k packets. */
  function Parsed(packets: seq<seq<Byte>>, k: nat): Parser
    requires (forall p | p in packets :: WellFormed(p)) && k <= |packets|
  {
    ParseAll(Parser([], []), packets[..k])
  }

  /** What has been parsed, and the packet that has not. */
  predicate Data(s: State, packets: seq<seq<Byte>>)
    requires forall p | p in packets :: WellFormed(p)
  {
    && s.sent <= |packets|
    && Unparsed(s) <= One(s.sent > 0)
    && var before := Parsed(packets, s.sent - Unparsed(s));
       if s.parser.Cleared? then
         s.delivered == before.delivered && s.pic == if IsFirst(s.parser.packet) then [] else before.pic
       else if s.parser.Appended? then
         s.delivered == before.delivered
         && s.pic == (if IsFirst(s.parser.packet) then [] else before.pic) + Content(s.parser.packet)
       else Parser(s.pic, s.delivered) == before
  }

  /** The unparsed packet is on the wire, or the last bytes of arr, or the parser's copy. */
  predicate OnePacket(s: State, packets: seq<seq<Byte>>) {
    && s.sent <= |packets|
    && (Unparsed(s) == 1 && s.sent > 0 ==>
          var p := packets[s.sent - 1];
          && (s.wire != [] ==> s.wire == [p])
          && (s.receiver == Stored || s.recvSem > 0 || s.parser == Woken ==>
                s.last == |p| <= |s.arr| && LastPacket(s.arr, s.last) == p)
          && (s.parser.Holding? || s.parser.Cleared? || s.parser.Appended? ==> s.parser.packet == p))
  }

  ghost predicate Inv(s: State, packets: seq<seq<Byte>>)
    requires forall p | p in packets :: WellFormed(p)
  {
    Handshake(s) && OnePacket(s, packets) && Data(s, packets)
  }

  lemma StepHandshake(s: State, packets: seq<seq<Byte>>, step: Step)
    requires (forall p | p in packets :: WellFormed(p)) && Inv(s, packets) && Enabled(s, packets, step)
    ensures Handshake(Apply(s, packets, step))
  {
    hide Data, OnePacket, LastPacket, Content, IsFirst, IsFinal;
  }

  lemma StepOnePacket(s: State, packets: seq<seq<Byte>>, step: Step)
    requires (forall p | p in packets :: WellFormed(p)) && Inv(s, packets) && Enabled(s, packets, step)
    ensures OnePacket(Apply(s, packets, step), packets)
  {
    hide Data, Content, IsFirst, IsFinal, WellFormed;
  }

  lemma OneMoreParsed(packets: seq<seq<Byte>>, n: nat)
    requires (forall p | p in packets :: WellFormed(p)) && 0 < n <= |packets|
    ensures var before := Parsed(packets, n - 1);
            var p := packets[n - 1];
            var pic := (if IsFirst(p) then [] else before.pic) + Content(p);
            Parsed(packets, n)
            == if IsFinal(p) then Parser([], before.delivered + [Message(pic, PicId(p))]) else Parser(pic, before.delivered)
  {
    hide DecodeHead;
    var now := packets[..n];
    assert now[..|now| - 1] == packets[..n - 1] && now[|now| - 1] == packets[n - 1];
    assert WellFormed(packets[n - 1]);
  }

  lemma FinishParses(s: State, packets: seq<seq<Byte>>)
    requires Handshake(s) && OnePacket(s, packets) && Enabled(s, packets, Finish)
    ensures 0 < s.sent <= |packets| && Unparsed(s) == 1 && s.parser.packet == packets[s.sent - 1]
    ensures var s' := Apply(s, packets, Finish);
            && s'.sent == s.sent && Unparsed(s') == 0 && !MidPacket(s')
            && Parser(s'.pic, s'.delivered)
               == if IsFinal(s.parser.packet) then Parser([], s.delivered + [Message(s.pic, PicId(s.parser.packet))])
                  else Parser(s.pic, s.delivered)
  {
    hide LastPacket, IsFinal, PicId;
  }

  lemma FinishData(s: State, packets: seq<seq<Byte>>)
    requires (forall p | p in packets :: WellFormed(p)) && Inv(s, packets) && Enabled(s, packets, Finish)
    ensures Data(Apply(s, packets, Finish), packets)
  {
    hide Apply, LastPacket, WellFormed, DecodeHead, Parsed, Content, IsFirst, IsFinal, PicId, Handshake, OnePacket, Unparsed;
    FinishParses(s, packets);
    OneMoreParsed(packets, s.sent);
  }

  lemma StepData(s: State, packets: seq<seq<Byte>>, step: Step)
    requires (forall p | p in packets :: WellFormed(p)) && Inv(s, packets) && Enabled(s, packets, step)
    ensures Data(Apply(s, packets, step), packets)
  {
    hide LastPacket, WellFormed, DecodeHead, Parsed, Content, IsFirst, IsFinal, PicId, Handshake, OnePacket;
    if step.Finish? {
      FinishData(s, packets);
    } else {
      StepKeepsParsed(s, packets, step);
    }
  }

  /** pic is between two packets' contents. */
  predicate MidPacket(s: State) {
    s.parser.Cleared? || s.parser.Appended?
  }

  /** No other step moves the boundary between parsed and unparsed packets. */
  lemma StepKeepsParsed(s: State, packets: seq<seq<Byte>>, step: Step)
    requires Handshake(s) && Enabled(s, packets, step) && !step.Finish?
    ensures Unparsed(s) <= s.sent
    ensures var s' := Apply(s, packets, step);
            && s'.sent - Unparsed(s') == s.sent - Unparsed(s) && s'.sent <= s.sent + One(step.Send?)
            && Unparsed(s') <= One(s'.sent > 0)
            && (!step.Clear? && !step.Append? ==>
                  s'.pic == s.pic && (s'.parser == s.parser || (!MidPacket(s) && !MidPacket(s'))))
            && s'.delivered == s.delivered
  {
    hide LastPacket, Content, IsFirst;
  }

  // --------------------------------------------------------------------------- every run

  /** Any interleaving: each listed step is taken if its thread can take it. */
  function Run(s: State, packets: seq<seq<Byte>>, steps: seq<Step>): State
    decreases |steps|
  {
    if steps == [] then s
    else Run(if Enabled(s, packets, steps[0]) then Apply(s, packets, steps[0]) else s, packets, steps[1..])
  }

  lemma {:induction false} RunInv(s: State, packets: seq<seq<Byte>>, steps: seq<Step>)
    requires (forall p | p in packets :: WellFormed(p)) && Inv(s, packets)
    ensures Inv(Run(s, packets, steps), packets)
    decreases |steps|
  {
    hide Data, OnePacket, Handshake, Apply, Enabled;
    if steps != [] {
      if Enabled(s, packets, steps[0]) {
        StepHandshake(s, packets, steps[0]);
        StepOnePacket(s, packets, steps[0]);
        StepData(s, packets, steps[0]);
        RunInv(Apply(s, packets, steps[0]), packets, steps[1..]);
      } else {
        RunInv(s, packets, steps[1..]);
      }
    }
  }

  /** A box array to send, with the end bytes stamped on its packets. */
  datatype Sending = Sending(message: Message, end: seq<Byte>)

  predicate AllSendable(sendings: seq<Sending>) {
    forall x | x in sendings :: Sendable(x.message) && |x.end| == 9
  }

  function MessagesOf(sendings: seq<Sending>): (messages: seq<Message>)
    ensures |messages| == |sendings|
  {
    seq(|sendings|, i requires 0 <= i < |sendings| => sendings[i].message)
  }

  /** The packets of a list of box arrays, one after the other. */
  function AllPackets(sendings: seq<Sending>): seq<seq<Byte>>
    requires AllSendable(sendings)
  {
    if sendings == [] then []
    else
      var x := sendings[|sendings| - 1];
      AllPackets(sendings[..|sendings| - 1]) + Packets(x.message, x.end)
  }

  lemma {:induction false} ParseAppends(s: Parser, ps: seq<seq<Byte>>, qs: seq<seq<Byte>>)
    requires forall p | p in ps + qs :: WellFormed(p)
    ensures (forall p | p in ps :: p in ps + qs) && (forall p | p in qs :: p in ps + qs)
    ensures ParseAll(s, ps + qs) == ParseAll(ParseAll(s, ps), qs)
    decreases |qs|
  {
    hide WellFormed, Parse;
    if qs == [] {
      assert ps + qs == ps;
    } else {
      var n := |ps + qs| - 1;
      assert (ps + qs)[..n] == ps + qs[..|qs| - 1] && (ps + qs)[n] == qs[|qs| - 1];
      ParseAppends(s, ps, qs[..|qs| - 1]);
    }
  }

  lemma {:induction false} MessagesParse(sendings: seq<Sending>)
    requires AllSendable(sendings)
    ensures forall p | p in AllPackets(sendings) :: WellFormed(p)
    ensures ParseAll(Parser([], []), AllPackets(sendings)) == Parser([], MessagesOf(sendings))
  {
    hide WellFormed, Packets, Sendable;
    if sendings != [] {
      var prior, x := sendings[..|sendings| - 1], sendings[|sendings| - 1];
      MessagesParse(prior);
      SendableFits(x.message);
      PacketsParse(Parser([], MessagesOf(prior)), x.message, x.end);
      ParseAppends(Parser([], []), AllPackets(prior), Packets(x.message, x.end));
      assert MessagesOf(prior) + [x.message] == MessagesOf(sendings);
    }
  }

  lemma SendableFits(m: Message)
    requires Sendable(m)
    ensures LengthFits(m)
  {
  }

  lemma PacketsParse(s: Parser, m: Message, end: seq<Byte>)
    requires Sendable(m)
    ensures forall p | p in Packets(m, end) :: WellFormed(p)
    ensures ParseAll(s, Packets(m, end)) == Parser([], s.delivered + [m])
  {
    hide WellFormed;
    ReassemblyInvertsSplitting(s, m, end, PacketCount(|m.bytes|));
  }

  /** Messages once delivered stay delivered. */
  lemma {:induction false} DeliveredGrows(packets: seq<seq<Byte>>, k: nat, n: nat)
    requires (forall p | p in packets :: WellFormed(p)) && k <= n <= |packets|
    ensures Parsed(packets, k).delivered <= Parsed(packets, n).delivered
    decreases n
  {
    if k < n {
      DeliveredGrows(packets, k, n - 1);
      OneMoreParsed(packets, n);
    }
  }

  lemma StartInv(packets: seq<seq<Byte>>)
    requires forall p | p in packets :: WellFormed(p)
    ensures Inv(START, packets)
  {
    assert packets[..0] == [];
  }

  lemma ReachedInv(packets: seq<seq<Byte>>, steps: seq<Step>)
    requires forall p | p in packets :: WellFormed(p)
    ensures Inv(Run(START, packets, steps), packets)
  {
    hide Run, Inv, WellFormed;
    StartInv(packets);
    RunInv(START, packets, steps);
  }

  lemma InvDelivers(s: State, packets: seq<seq<Byte>>)
    requires (forall p | p in packets :: WellFormed(p)) && Inv(s, packets)
    ensures s.delivered <= Parsed(packets, |packets|).delivered
    ensures s.sent == |packets| && s.sender == Ready ==> s.delivered == Parsed(packets, |packets|).delivered
  {
    DataDelivered(s, packets);
    ReadyHasNoneUnparsed(s);
    hide WellFormed, OnePacket, Handshake, Data, Unparsed, Parsed;
    DeliveredGrows(packets, s.sent - Unparsed(s), |packets|);
  }

  lemma DataDelivered(s: State, packets: seq<seq<Byte>>)
    requires (forall p | p in packets :: WellFormed(p)) && Data(s, packets)
    ensures Unparsed(s) <= s.sent <= |packets|
    ensures s.delivered == Parsed(packets, s.sent - Unparsed(s)).delivered
  {
    hide WellFormed, Content, IsFirst, Unparsed, Parsed;
  }

  lemma ReadyHasNoneUnparsed(s: State)
    requires Handshake(s)
    ensures s.sender == Ready ==> Unparsed(s) == 0
  {
  }

  /**
   In every interleaving the delivered pictures are the sent ones in order, byte for byte
   and with their ids; all of them once the sender has its last answer.
   */
  lemma EveryMessageArrives(sendings: seq<Sending>, steps: seq<Step>)
    requires AllSendable(sendings)
    ensures var packets := AllPackets(sendings); var s := Run(START, packets, steps);
            && s.delivered <= MessagesOf(sendings)
            && (s.sent == |packets| && s.sender == Ready ==> s.delivered == MessagesOf(sendings))
  {
    hide Run, AllPackets, AllSendable, WellFormed, Inv;
    var packets := AllPackets(sendings);
    MessagesParse(sendings);
    ReachedInv(packets, steps);
    InvDelivers(Run(START, packets, steps), packets);
    assert packets[..|packets|] == packets;
  }

  /**
   In every interleaving at most one packet is unparsed; while the receive thread holds it,
   it is exactly the last lastPacketSize bytes of arr.
   */
  lemma AtMostOneUnparsed(packets: seq<seq<Byte>>, steps: seq<Step>)
    requires forall p | p in packets :: WellFormed(p)
    ensures var s := Run(START, packets, steps);
            Unparsed(s) <= 1 && (InBuffer(s) ==> LastBytesAre(s, packets))
  {
    hide Run, WellFormed, Inv, Unparsed, InBuffer, LastBytesAre;
    ReachedInv(packets, steps);
    InvOneUnparsed(Run(START, packets, steps), packets);
  }

  /** The unparsed packet is stored and not yet copied by the parser. */
  predicate InBuffer(s: State) {
    s.receiver == Stored || s.recvSem > 0 || s.parser == Woken
  }

  predicate LastBytesAre(s: State, packets: seq<seq<Byte>>) {
    0 < s.sent <= |packets| && s.last <= |s.arr| && s.arr[|s.arr| - s.last..] == packets[s.sent - 1]
  }

  lemma InvOneUnparsed(s: State, packets: seq<seq<Byte>>)
    requires (forall p | p in packets :: WellFormed(p)) && Inv(s, packets)
    ensures Unparsed(s) <= 1 && (InBuffer(s) ==> LastBytesAre(s, packets))
  {
    hide WellFormed, Data;
  }

  /** The handshake never deadlocks: until every packet is answered some thread can step. */
  lemma SomeThreadCanStep(packets: seq<seq<Byte>>, steps: seq<Step>)
    requires forall p | p in packets :: WellFormed(p)
    ensures var s := Run(START, packets, steps);
            s.sender == Sent || s.sent < |packets| ==> exists step :: Enabled(s, packets, step)
  {
    hide Run, WellFormed, Inv, Enabled;
    ReachedInv(packets, steps);
    InvCanStep(Run(START, packets, steps), packets);
  }

  lemma InvCanStep(s: State, packets: seq<seq<Byte>>)
    requires (forall p | p in packets :: WellFormed(p)) && Inv(s, packets)
    ensures s.sender == Sent || s.sent < |packets| ==> exists step :: Enabled(s, packets, step)
  {
    hide Data, OnePacket, WellFormed;
    var step := if s.sender == Ready then Send else if s.sendSem > 0 then Proceed else if s.acks > 0 then TakeAck
                else if s.receiver == Answering then Answer else if s.status then Wake
                else if s.receiver == Stored then Post
                else match s.parser
                     case Resting => if s.recvSem > 0 then Acquire else Read
                     case Woken => Copy
                     case Holding(_) => Clear
                     case Cleared(_) => Append
                     case Appended(_) => Finish
                     case Finished => Signal;
    if s.sender == Sent || s.sent < |packets| {
      assert Enabled(s, packets, step);
    }
  }

  // --------------------------------------------------------------------------- progress

  /** One packet goes through so many steps. */
  const PACKET_STEPS := 13

  function ParserWork(pc: ParserPc): nat {
    match pc
    case Resting => 0
    case Woken => 9
    case Holding(_) => 8
    case Cleared(_) => 7
    case Appended(_) => 6
    case Finished => 5
  }

  function ReceiverWork(pc: ReceiverPc): nat {
    match pc case Stored => 11 case Answering => 3 case _ => 0
  }

  /** The steps left: all of every packet not sent, and what is left of the one under way. */
  function Work(s: State, packets: seq<seq<Byte>>): int {
    PACKET_STEPS * (|packets| - s.sent)
    + 12 * |s.wire| + ReceiverWork(s.receiver) + 10 * s.recvSem + ParserWork(s.parser) + 4 * One(s.status)
    + 2 * s.acks + s.sendSem
  }

  lemma StepSpendsOne(s: State, packets: seq<seq<Byte>>, step: Step)
    requires Handshake(s) && Enabled(s, packets, step)
    ensures Work(Apply(s, packets, step), packets) == Work(s, packets) - 1
  {
    hide LastPacket, Content, IsFirst, IsFinal, PicId;
  }

  function Taken(s: State, packets: seq<seq<Byte>>, steps: seq<Step>): nat
    decreases |steps|
  {
    if steps == [] then 0
    else if Enabled(s, packets, steps[0]) then 1 + Taken(Apply(s, packets, steps[0]), packets, steps[1..])
    else Taken(s, packets, steps[1..])
  }

  lemma {:induction false} RunSpends(s: State, packets: seq<seq<Byte>>, steps: seq<Step>)
    requires (forall p | p in packets :: WellFormed(p)) && Inv(s, packets)
    ensures Taken(s, packets, steps) + Work(Run(s, packets, steps), packets) == Work(s, packets)
    decreases |steps|
  {
    hide Data, OnePacket, Handshake, Apply, Enabled, Work, WellFormed;
    if steps != [] {
      if Enabled(s, packets, steps[0]) {
        StepSpendsOne(s, packets, steps[0]);
        StepHandshake(s, packets, steps[0]);
        StepOnePacket(s, packets, steps[0]);
        StepData(s, packets, steps[0]);
        RunSpends(Apply(s, packets, steps[0]), packets, steps[1..]);
      } else {
        RunSpends(s, packets, steps[1..]);
      }
    }
  }

  lemma WorkDone(s: State, packets: seq<seq<Byte>>)
    requires Handshake(s) && OnePacket(s, packets)
    ensures Work(s, packets) >= 0
    ensures Work(s, packets) == 0 ==> s.sent == |packets| && s.sender == Ready
  {
    hide LastPacket;
  }

  /**
   Every schedule takes at most thirteen steps per packet, and one that has taken them all has
   delivered every box array; until then SomeThreadCanStep finds a step.
   */
  lemma TransferFinishes(sendings: seq<Sending>, steps: seq<Step>)
    requires AllSendable(sendings)
    ensures var packets := AllPackets(sendings);
            && Taken(START, packets, steps) <= PACKET_STEPS * |packets|
            && (Taken(START, packets, steps) == PACKET_STEPS * |packets| ==>
                  Run(START, packets, steps).delivered == MessagesOf(sendings))
  {
    hide Run, Taken, AllPackets, AllSendable, WellFormed, Inv, Work, MessagesOf;
    var packets := AllPackets(sendings);
    MessagesParse(sendings);
    StartInv(packets);
    StartWork(packets);
    RunSpends(START, packets, steps);
    ReachedInv(packets, steps);
    InvParts(Run(START, packets, steps), packets);
    WorkDone(Run(START, packets, steps), packets);
    EveryMessageArrives(sendings, steps);
  }

  lemma StartWork(packets: seq<seq<Byte>>)
    ensures Work(START, packets) == PACKET_STEPS * |packets|
  {
  }

  // -------------------------------------------------------------------- room in the buffers

  const MAX_PACKET := HEAD_LEN + PACKET_BOX_LEN + END_LEN

  /** Every packet but the last of its message is full. */
  predicate FullButFinal(p: seq<Byte>) {
    && |p| <= MAX_PACKET && |Content(p)| <= PACKET_BOX_LEN
    && (!IsFinal(p) ==> |p| == MAX_PACKET && |Content(p)| == PACKET_BOX_LEN)
  }

  predicate Clearing(s: State) {
    s.parser.Cleared? || s.parser.Appended?
  }

  /** arr is empty or holds a full packet, unless the packet being parsed will clear it. */
  predicate ArrRoom(s: State, packets: seq<seq<Byte>>) {
    && |s.arr| < s.arrCap
    && (|| s.arr == [] || |s.arr| >= MAX_PACKET
        || (InBuffer(s) && 0 < s.sent <= |packets| && var p := packets[s.sent - 1]; IsFinal(p) || IsFirst(p))
        || (s.parser.Holding? && (IsFinal(s.parser.packet) || IsFirst(s.parser.packet)))
        || (Clearing(s) && IsFinal(s.parser.packet)))
  }

  /** pic is empty or holds a full content, unless the packet being parsed will clear it. */
  predicate PicRoom(s: State) {
    && |s.pic| < s.picCap
    && (s.pic == [] || |s.pic| >= PACKET_BOX_LEN || (s.parser.Appended? && IsFinal(s.parser.packet)))
  }

  /** What the next append asks of its buffer. */
  predicate StepFits(s: State, packets: seq<seq<Byte>>, step: Step)
    requires Enabled(s, packets, step)
  {
    && (step.Read? ==> ByteBuffer.GrowthFits(s.arrCap, |s.arr|, |s.wire[0]|))
    && (step.Append? ==> ByteBuffer.GrowthFits(s.picCap, |s.pic|, |Content(s.parser.packet)|))
  }

  lemma ReadRoom(s: State, packets: seq<seq<Byte>>)
    requires Handshake(s) && OnePacket(s, packets) && Enabled(s, packets, Read) && ArrRoom(s, packets)
    requires forall p | p in packets :: FullButFinal(p)
    ensures StepFits(s, packets, Read) && ArrRoom(Apply(s, packets, Read), packets)
  {
    hide LastPacket, IsFinal, IsFirst, Content, FullButFinal;
    var p := s.wire[0];
    assert p == packets[s.sent - 1] && p in packets;
    FullPacket(p);
    ByteBuffer.ModestGrowthFits(s.arrCap, |s.arr|, |p|);
    ByteBuffer.GrowthFitsIff(s.arrCap, |s.arr|, |p|);
  }

  lemma FullPacket(p: seq<Byte>)
    requires FullButFinal(p)
    ensures |p| <= MAX_PACKET && |Content(p)| <= PACKET_BOX_LEN
    ensures !IsFinal(p) ==> |p| == MAX_PACKET && |Content(p)| == PACKET_BOX_LEN
  {
  }

  lemma AppendRoom(s: State, packets: seq<seq<Byte>>)
    requires Handshake(s) && OnePacket(s, packets) && Enabled(s, packets, Append) && PicRoom(s)
    requires forall p | p in packets :: FullButFinal(p)
    ensures StepFits(s, packets, Append) && PicRoom(Apply(s, packets, Append))
  {
    hide LastPacket, IsFinal, IsFirst, Content, FullButFinal;
    var p := s.parser.packet;
    assert p == packets[s.sent - 1] && p in packets;
    FullPacket(p);
    ByteBuffer.ModestGrowthFits(s.picCap, |s.pic|, |Content(p)|);
    ByteBuffer.GrowthFitsIff(s.picCap, |s.pic|, |Content(p)|);
  }

  /** Every other step leaves the buffers alone or clears them. */
  lemma OtherRoom(s: State, packets: seq<seq<Byte>>, step: Step)
    requires Handshake(s) && OnePacket(s, packets) && Enabled(s, packets, step)
    requires ArrRoom(s, packets) && PicRoom(s)
    ensures !step.Read? ==> ArrRoom(Apply(s, packets, step), packets)
    ensures !step.Append? ==> PicRoom(Apply(s, packets, step))
  {
    hide LastPacket, IsFinal, IsFirst, Content;
  }

  lemma StepRoom(s: State, packets: seq<seq<Byte>>, step: Step)
    requires Handshake(s) && OnePacket(s, packets) && Enabled(s, packets, step)
    requires ArrRoom(s, packets) && PicRoom(s) && forall p | p in packets :: FullButFinal(p)
    ensures StepFits(s, packets, step)
    ensures ArrRoom(Apply(s, packets, step), packets) && PicRoom(Apply(s, packets, step))
  {
    hide Apply, ArrRoom, PicRoom, Handshake, OnePacket, FullButFinal;
    OtherRoom(s, packets, step);
    if step.Read? {
      ReadRoom(s, packets);
    } else if step.Append? {
      AppendRoom(s, packets);
    }
  }

  lemma {:induction false} RunRoom(s: State, packets: seq<seq<Byte>>, steps: seq<Step>)
    requires (forall p | p in packets :: WellFormed(p)) && Inv(s, packets)
    requires ArrRoom(s, packets) && PicRoom(s) && forall p | p in packets :: FullButFinal(p)
    ensures Inv(Run(s, packets, steps), packets)
    ensures ArrRoom(Run(s, packets, steps), packets) && PicRoom(Run(s, packets, steps))
    decreases |steps|
  {
    hide Data, OnePacket, Handshake, Apply, Enabled, ArrRoom, PicRoom, WellFormed, FullButFinal;
    if steps != [] {
      if Enabled(s, packets, steps[0]) {
        StepHandshake(s, packets, steps[0]);
        StepOnePacket(s, packets, steps[0]);
        StepData(s, packets, steps[0]);
        StepRoom(s, packets, steps[0]);
        RunRoom(Apply(s, packets, steps[0]), packets, steps[1..]);
      } else {
        RunRoom(s, packets, steps[1..]);
      }
    }
  }

  lemma PacketIsFull(m: Message, end: seq<Byte>, i: nat)
    requires Sendable(m) && |end| == END_LEN && i < PacketCount(|m.bytes|)
    ensures FullButFinal(PacketAt(m, end, i))
  {
    hide DecodeHead, EncodeHead, Piece;
    PacketParses(m, end, i);
    PieceFits(m.bytes, i);
    PieceLength(m.bytes, i);
  }

  lemma PieceLength(bytes: seq<Byte>, i: nat)
    requires i < PacketCount(|bytes|)
    ensures i < PacketCount(|bytes|) - 1 ==> |Piece(bytes, i)| == PACKET_BOX_LEN
  {
  }

  lemma {:induction false} PacketsAreFull(m: Message, end: seq<Byte>, n: nat)
    requires Sendable(m) && |end| == END_LEN && n <= PacketCount(|m.bytes|)
    ensures forall p | p in PacketsUpTo(m, end, n) :: FullButFinal(p)
  {
    hide FullButFinal, PacketAt, Sendable, PacketCount;
    if n > 0 {
      SendableFits(m);
      PacketsAreFull(m, end, n - 1);
      PacketIsFull(m, end, n - 1);
    }
  }

  lemma {:induction false} AllPacketsAreFull(sendings: seq<Sending>)
    requires AllSendable(sendings)
    ensures forall p | p in AllPackets(sendings) :: FullButFinal(p)
  {
    hide FullButFinal;
    if sendings != [] {
      var x := sendings[|sendings| - 1];
      AllPacketsAreFull(sendings[..|sendings| - 1]);
      PacketsAreFull(x.message, x.end, PacketCount(|x.message.bytes|));
    }
  }

  /** In every interleaving every append to arr and to pic fits its block: the transfer never overruns them. */
  lemma BuffersNeverOverrun(sendings: seq<Sending>, steps: seq<Step>, step: Step)
    requires AllSendable(sendings)
    ensures var packets := AllPackets(sendings); var s := Run(START, packets, steps);
            Enabled(s, packets, step) ==> StepFits(s, packets, step)
  {
    hide Run, AllPackets, AllSendable, WellFormed, Inv, FullButFinal, StepFits, Enabled;
    var packets := AllPackets(sendings);
    MessagesParse(sendings);
    AllPacketsAreFull(sendings);
    StartInv(packets);
    RunRoom(START, packets, steps);
    InvParts(Run(START, packets, steps), packets);
    if Enabled(Run(START, packets, steps), packets, step) {
      StepRoom(Run(START, packets, steps), packets, step);
    }
  }

  lemma InvParts(s: State, packets: seq<seq<Byte>>)
    requires (forall p | p in packets :: WellFormed(p)) && Inv(s, packets)
    ensures Handshake(s) && OnePacket(s, packets)
  {
    hide WellFormed;
  }
}
