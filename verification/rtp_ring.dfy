/**
 The RTP reorder ring: the receive thread stores each packet in the slot its sequence
 number names, the parser thread visits the slots in order, 30 packets behind.
 */
module RtpRing {
  import opened Wrappers

  const BUFFER_SIZE := 4096
  const HEAD_START := 30
  const SEQ_LIMIT := 65536

  type uint16 = n: int | 0 <= n < SEQ_LIMIT
  type int32 = n: int | -0x8000_0000 <= n < 0x8000_0000

  datatype Packet<P> = Packet(seqNo: uint16, payload: P)

  /** A slot whose packet is valid, or one that is free. */
  datatype Slot<P> = Free | Valid(packet: Packet<P>)

  /** Two's complement wrap-around of a 32-bit int. */
  function Wrap32(n: int): int32 {
    (n + 0x8000_0000) % 0x1_0000_0000 - 0x8000_0000
  }

  /** ((uint64_t)(seq + 65536 * times) - first_seq) % BUFFER_SIZE */
  function Position(seqNo: uint16, times: int32, firstSeq: uint16): (pos: nat)
    ensures pos < BUFFER_SIZE
  {
    var sum := Wrap32(seqNo + Wrap32(SEQ_LIMIT * times));
    (sum % 0x1_0000_0000_0000_0000 - firstSeq) % 0x1_0000_0000_0000_0000 % BUFFER_SIZE
  }

  /**
   The slot is the extended index modulo 4096, whatever the wrap counter holds: 4096
   divides 65536, 2^32 and 2^64.
   */
  lemma PositionIgnoresTimes(firstSeq: uint16, k: nat, times: int32)
    ensures Position((firstSeq + k) % 65536, times, firstSeq) == k % 4096
  {
    var seqNo := (firstSeq + k) % SEQ_LIMIT;
    var product := Wrap32(SEQ_LIMIT * times);
    var sum := Wrap32(seqNo + product);
    var a := (firstSeq + k) / SEQ_LIMIT;
    var b := (SEQ_LIMIT * times + 0x8000_0000) / 0x1_0000_0000;
    var c := (seqNo + product + 0x8000_0000) / 0x1_0000_0000;
    var wide := sum % 0x1_0000_0000_0000_0000 - firstSeq;
    var d := sum / 0x1_0000_0000_0000_0000;
    var e := wide / 0x1_0000_0000_0000_0000;
    var m := -16 * a + 16 * times - 0x10_0000 * b - 0x10_0000 * c - 0x10_0000_0000_0000 * d - 0x10_0000_0000_0000 * e;
    assert wide % 0x1_0000_0000_0000_0000 == k + BUFFER_SIZE * m;
    SameResidue(k, m);
  }

  lemma SameResidue(k: int, m: int)
    ensures (k + BUFFER_SIZE * m) % BUFFER_SIZE == k % BUFFER_SIZE
  {
  }

  /** What the two threads share, with the packets handed to the depacketiser so far. */
  datatype Ring<P> = Ring(slots: seq<Slot<P>>, sem: nat, received: nat, times: int32, firstSeq: Option<uint16>,
                          index: nat, handed: seq<Packet<P>>)

  ghost predicate RingFits<P>(r: Ring<P>) {
    |r.slots| == BUFFER_SIZE
  }

  function Started<P>(): Ring<P> {
    Ring(seq(BUFFER_SIZE, _ => Free), 0, 0, 0, None, 0, [])
  }

  /** The slot a packet is stored in; the first packet ever fixes first_seq. */
  function TargetSlot<P>(r: Ring<P>, packet: Packet<P>): (pos: nat)
    ensures pos < BUFFER_SIZE
  {
    Position(packet.seqNo, r.times, match r.firstSeq case None => packet.seqNo case Some(first) => first)
  }

  function Receive<P>(r: Ring<P>, packet: Packet<P>): (r': Ring<P>)
    requires RingFits(r)
    ensures RingFits(r')
  {
    Ring(r.slots[TargetSlot(r, packet) := Valid(packet)],
         if r.received + 1 > HEAD_START then r.sem + 1 else r.sem,
         r.received + 1,
         if packet.seqNo == SEQ_LIMIT - 1 then Wrap32(r.times + 1) else r.times,
         if r.firstSeq.None? then Some(packet.seqNo) else r.firstSeq,
         r.index, r.handed)
  }

  function Parse<P>(r: Ring<P>): (r': Ring<P>)
    requires RingFits(r) && r.sem > 0
    ensures RingFits(r')
  {
    var pos := r.index % BUFFER_SIZE;
    match r.slots[pos]
    case Free => r.(sem := r.sem - 1, index := r.index + 1)
    case Valid(packet) =>
      r.(sem := r.sem - 1, index := r.index + 1, slots := r.slots[pos := Free], handed := r.handed + [packet])
  }

  /** The shared state of receive_thread and parser_thread, updated in place. */
  class RtpBuffer<P> {
    var vecRtp: array<Slot<P>>
    var sem: nat
    var received: nat
    var times: int32
    var firstSeq: Option<uint16>
    var index: nat
    ghost var handed: seq<Packet<P>>

    ghost predicate Valid()
      reads this
    {
      vecRtp.Length == BUFFER_SIZE
    }

    ghost function View(): (r: Ring<P>)
      requires Valid()
      reads this, vecRtp
      ensures RingFits(r)
    {
      Ring(vecRtp[..], sem, received, times, firstSeq, index, handed)
    }

    constructor ()
      ensures Valid() && fresh(vecRtp) && View() == Started()
    {
      vecRtp := new Slot<P>[BUFFER_SIZE](_ => Free);
      sem, received, times, firstSeq, index, handed := 0, 0, 0, None, 0, [];
    }

    /** One packet read from the socket. */
    method ReceivePacket(packet: Packet<P>)
      requires Valid()
      modifies this, vecRtp
      ensures Valid() && vecRtp == old(vecRtp)
      ensures View() == Receive(old(View()), packet)
    {
      if firstSeq.None? {
        firstSeq := Some(packet.seqNo);
      }
      var pos := Position(packet.seqNo, times, firstSeq.value);
      if packet.seqNo == SEQ_LIMIT - 1 {
        times := Wrap32(times + 1);
      }
      vecRtp[pos] := Slot.Valid(packet);
      received := received + 1;
      if received > HEAD_START {
        sem := sem + 1;
      }
    }

    /** One turn of the parser loop after sem_wait; out is what it hands on. */
    method ParseSlot() returns (out: Option<Packet<P>>)
      requires Valid() && sem > 0
      modifies this, vecRtp
      ensures Valid() && vecRtp == old(vecRtp)
      ensures View() == Parse(old(View()))
      ensures handed == old(handed) + match out case None => [] case Some(packet) => [packet]
    {
      sem := sem - 1;
      var pos := index % BUFFER_SIZE;
      match vecRtp[pos] {
        case Free =>
          out := None;
        case Valid(packet) =>
          vecRtp[pos] := Free;
          out := Some(packet);
          handed := handed + [packet];
      }
      index := index + 1;
    }
  }

  // ----------------------------------------------------------------------- every run

  /** The stream sent: packet k carries sequence number firstSeq + k modulo 65536. */
  datatype Stream<!P> = Stream(firstSeq: uint16, payload: nat -> P) {
    function At(k: nat): Packet<P> {
      Packet((firstSeq + k) % 65536, payload(k))
    }
  }

  /** Packet k arrives, or the parser is scheduled (and blocks without a permit). */
  datatype Event = Arrive(k: nat) | ParserTurn

  function Step<P>(stream: Stream<P>, r: Ring<P>, event: Event): (r': Ring<P>)
    requires RingFits(r)
    ensures RingFits(r')
  {
    match event
    case Arrive(k) => Receive(r, stream.At(k))
    case ParserTurn => if r.sem > 0 then Parse(r) else r
  }

  function After<P>(stream: Stream<P>, events: seq<Event>): (r: Ring<P>)
    ensures RingFits(r)
  {
    if events == [] then Started()
    else Step(stream, After(stream, events[..|events| - 1]), events[|events| - 1])
  }

  /** The extended indices of the arrivals, in order of arrival. */
  function Arrivals(events: seq<Event>): (ks: seq<nat>)
  {
    if events == [] then []
    else
      var ks := Arrivals(events[..|events| - 1]);
      match events[|events| - 1] case Arrive(k) => ks + [k] case ParserTurn => ks
  }

  /**
   What the network and the scheduler are asked for: the first arrival is packet 0, no
   packet arrives twice, packet k is among the first k + 31 arrivals, and it arrives
   while the parser is less than 4096 slots behind it.
   */
  ghost predicate Admissible<P>(stream: Stream<P>, events: seq<Event>) {
    events == [] ||
    var prior := events[..|events| - 1];
    var ks := Arrivals(prior);
    && Admissible(stream, prior)
    && match events[|events| - 1]
       case ParserTurn => true
       case Arrive(k) =>
         && (ks == [] ==> k == 0)
         && k !in ks
         && |ks| <= k + 30
         && k < After(stream, prior).index + 4096
  }

  /** The received packets with index below p, in sequence order, each once. */
  function InOrder<P>(stream: Stream<P>, ks: seq<nat>, p: nat): (packets: seq<Packet<P>>) {
    if p == 0 then []
    else InOrder(stream, ks, p - 1) + if p - 1 in ks then [stream.At(p - 1)] else []
  }

  lemma {:induction false} InOrderIgnoresLater<P>(stream: Stream<P>, ks: seq<nat>, k: nat, p: nat)
    requires p <= k
    ensures InOrder(stream, ks + [k], p) == InOrder(stream, ks, p)
  {
    if p > 0 {
      InOrderIgnoresLater(stream, ks, k, p - 1);
    }
  }

  /** Permits are the arrivals beyond the head start that the parser has not used. */
  ghost predicate Permits<P>(r: Ring<P>, ks: seq<nat>) {
    && r.received == |ks|
    && r.sem + r.index == if |ks| > HEAD_START then |ks| - HEAD_START else 0
  }

  /** The ring holds exactly the arrivals the parser has not reached. */
  ghost predicate HoldsPending<P>(stream: Stream<P>, r: Ring<P>, ks: seq<nat>)
    requires RingFits(r)
  {
    && (forall k | k in ks :: k < r.index + BUFFER_SIZE)
    && (forall k | k in ks && r.index <= k :: r.slots[k % BUFFER_SIZE] == Valid(stream.At(k)))
    && (forall j | 0 <= j < BUFFER_SIZE && r.slots[j].Valid? :: exists k :: k in ks && r.index <= k && k % BUFFER_SIZE == j)
  }

  ghost predicate Inv<P>(stream: Stream<P>, r: Ring<P>, ks: seq<nat>)
    requires RingFits(r)
  {
    && Permits(r, ks)
    && HoldsPending(stream, r, ks)
    && r.firstSeq == (if ks == [] then None else Some(stream.firstSeq))
    && r.handed == InOrder(stream, ks, r.index)
  }

  lemma ReceiveKeepsInv<P>(stream: Stream<P>, r: Ring<P>, ks: seq<nat>, k: nat)
    requires RingFits(r) && Inv(stream, r, ks)
    requires (ks == [] ==> k == 0) && k !in ks && |ks| <= k + HEAD_START && k < r.index + BUFFER_SIZE
    ensures Inv(stream, Receive(r, stream.At(k)), ks + [k])
    ensures r.slots[TargetSlot(r, stream.At(k))].Free?
  {
    hide Position;
    assert r.index <= k;
    PositionIgnoresTimes(stream.firstSeq, k, r.times);
    InOrderIgnoresLater(stream, ks, k, r.index);
    assert TargetSlot(r, stream.At(k)) == k % BUFFER_SIZE;
    var r' := Receive(r, stream.At(k));
    if r.slots[k % BUFFER_SIZE].Valid? {
      var k' :| k' in ks && r.index <= k' && k' % BUFFER_SIZE == k % BUFFER_SIZE;
      WindowIsInjective(r.index, k, k');
    }
    forall k' | k' in ks + [k] && r'.index <= k'
      ensures r'.slots[k' % BUFFER_SIZE] == Valid(stream.At(k'))
    {
      if k' != k { WindowIsInjective(r.index, k, k'); }
    }
    forall j | 0 <= j < BUFFER_SIZE && r'.slots[j].Valid?
      ensures exists k' :: k' in ks + [k] && r'.index <= k' && k' % BUFFER_SIZE == j
    {
      if j == k % BUFFER_SIZE {
        assert k in ks + [k];
      } else {
        var k' :| k' in ks && r.index <= k' && k' % BUFFER_SIZE == j;
        assert k' in ks + [k];
      }
    }
  }

  /** Two indices of one window of 4096 share a slot only if they are equal. */
  lemma WindowIsInjective(p: nat, k: nat, k': nat)
    requires p <= k < p + BUFFER_SIZE && p <= k' < p + BUFFER_SIZE
    ensures k % BUFFER_SIZE == k' % BUFFER_SIZE ==> k == k'
  {
  }

  lemma ParseKeepsInv<P>(stream: Stream<P>, r: Ring<P>, ks: seq<nat>)
    requires RingFits(r) && Inv(stream, r, ks) && r.sem > 0
    ensures Inv(stream, Parse(r), ks)
  {
    var pos := r.index % BUFFER_SIZE;
    var r' := Parse(r);
    if r.slots[pos].Valid? {
      var k :| k in ks && r.index <= k && k % BUFFER_SIZE == pos;
      WindowIsInjective(r.index, k, r.index);
    }
    assert r.slots[pos].Valid? <==> r.index in ks;
    forall k | k in ks && r'.index <= k
      ensures r'.slots[k % BUFFER_SIZE] == Valid(stream.At(k))
    {
      WindowIsInjective(r.index, k, r.index);
    }
  }

  lemma {:induction false} RunKeepsInv<P>(stream: Stream<P>, events: seq<Event>)
    requires Admissible(stream, events)
    ensures Inv(stream, After(stream, events), Arrivals(events))
  {
    if events != [] {
      var prior := events[..|events| - 1];
      RunKeepsInv(stream, prior);
      match events[|events| - 1]
      case Arrive(k) => ReceiveKeepsInv(stream, After(stream, prior), Arrivals(prior), k);
      case ParserTurn =>
        if After(stream, prior).sem > 0 {
          ParseKeepsInv(stream, After(stream, prior), Arrivals(prior));
        }
    }
  }

  /**
   In every admissible run the parser has handed out exactly the received packets below
   its index, in sequence order, once each; the others wait in their slots.
   */
  lemma HandedInSequenceOrder<P>(stream: Stream<P>, events: seq<Event>)
    requires Admissible(stream, events)
    ensures var r, ks := After(stream, events), Arrivals(events);
            && r.handed == InOrder(stream, ks, r.index)
            && (forall k | k in ks && r.index <= k :: r.slots[k % BUFFER_SIZE] == Valid(stream.At(k)))
            && r.index <= |ks|
  {
    RunKeepsInv(stream, events);
  }

  /** No arrival of an admissible run finds its slot still occupied. */
  lemma NoSlotIsOverwritten<P>(stream: Stream<P>, events: seq<Event>, k: nat)
    requires Admissible(stream, events + [Arrive(k)])
    ensures var r := After(stream, events); r.slots[TargetSlot(r, stream.At(k))].Free?
  {
    assert (events + [Arrive(k)])[..|events|] == events;
    RunKeepsInv(stream, events);
    ReceiveKeepsInv(stream, After(stream, events), Arrivals(events), k);
  }

  /**
   Lateness is what breaks the order: after one more arrival the packets handed out are
   still the received ones below the parser's index exactly if the parser had not passed it.
   */
  lemma LatePacketIsSkippedIff<P>(stream: Stream<P>, events: seq<Event>, k: nat)
    requires Admissible(stream, events) && k !in Arrivals(events)
    ensures var r := Receive(After(stream, events), stream.At(k));
            r.handed == InOrder(stream, Arrivals(events) + [k], r.index) <==> r.index <= k
  {
    hide Position;
    RunKeepsInv(stream, events);
    var r, ks := After(stream, events), Arrivals(events);
    if r.index <= k {
      InOrderIgnoresLater(stream, ks, k, r.index);
    } else {
      InOrderGrows(stream, ks, k, r.index);
    }
  }

  lemma {:induction false} InOrderGrows<P>(stream: Stream<P>, ks: seq<nat>, k: nat, p: nat)
    requires k < p && k !in ks
    ensures |InOrder(stream, ks + [k], p)| == |InOrder(stream, ks, p)| + 1
  {
    if p - 1 == k {
      InOrderIgnoresLater(stream, ks, k, p - 1);
    } else {
      InOrderGrows(stream, ks, k, p - 1);
    }
  }

  // ----------------------------------------------------------------- every schedule of an order

  /** Every packet arrives while the parser is less than 4096 slots behind it. */
  ghost predicate LagFits<P>(stream: Stream<P>, events: seq<Event>) {
    events == [] ||
    var prior := events[..|events| - 1];
    && LagFits(stream, prior)
    && match events[|events| - 1]
       case ParserTurn => true
       case Arrive(k) => k < After(stream, prior).index + 4096
  }

  /** An order of arrivals without repetitions that begins with packet 0. */
  predicate Plausible(ks: seq<nat>) {
    && (ks != [] ==> ks[0] == 0)
    && forall i, j | 0 <= i < j < |ks| :: ks[i] != ks[j]
  }

  /** Packet k is among the first k + 31 arrivals. */
  predicate InTime(ks: seq<nat>) {
    forall i | 0 <= i < |ks| :: i <= ks[i] + 30
  }

  /** The index of a parser that never waits, after n arrivals. */
  function EagerIndex(n: nat): nat {
    if n > HEAD_START then n - HEAD_START else 0
  }

  /** No packet is 4096 slots ahead of a parser that never waits. */
  predicate NotAhead(ks: seq<nat>) {
    forall i | 0 <= i < |ks| :: ks[i] < EagerIndex(i) + 4096
  }

  /** At every moment of every schedule of the two threads the packets handed out are in sequence order. */
  ghost predicate KeepsOrder<P>(stream: Stream<P>, ks: seq<nat>) {
    forall events | LagFits(stream, events) && Arrivals(events) <= ks ::
      After(stream, events).handed == InOrder(stream, Arrivals(events), After(stream, events).index)
  }

  lemma {:induction false} InTimeIsAdmissible<P>(stream: Stream<P>, ks: seq<nat>, events: seq<Event>)
    requires Plausible(ks) && InTime(ks) && LagFits(stream, events) && Arrivals(events) <= ks
    ensures Admissible(stream, events)
  {
    hide After;
    if events != [] {
      var prior := events[..|events| - 1];
      InTimeIsAdmissible(stream, ks, prior);
      match events[|events| - 1]
      case ParserTurn =>
      case Arrive(k) =>
        var n := |Arrivals(prior)|;
        assert ks[n] == k && forall i | 0 <= i < n :: Arrivals(prior)[i] == ks[i];
    }
  }

  /** The parser takes every permit at once. */
  function Eager(ks: seq<nat>): seq<Event> {
    if ks == [] then [] else Eager(ks[..|ks| - 1]) + [Arrive(ks[|ks| - 1]), ParserTurn]
  }

  lemma OneMoreEvent<P>(stream: Stream<P>, events: seq<Event>, event: Event)
    ensures After(stream, events + [event]) == Step(stream, After(stream, events), event)
    ensures Arrivals(events + [event])
         == match event case Arrive(k) => Arrivals(events) + [k] case ParserTurn => Arrivals(events)
    ensures LagFits(stream, events + [event])
       <==> LagFits(stream, events) && (event.Arrive? ==> event.k < After(stream, events).index + BUFFER_SIZE)
  {
    assert (events + [event])[..|events|] == events;
  }

  lemma EagerSteps<P>(stream: Stream<P>, r: Ring<P>, k: nat)
    requires RingFits(r) && r.sem == 0 && r.index == EagerIndex(r.received)
    ensures var r' := Step(stream, Step(stream, r, Arrive(k)), ParserTurn);
            r'.sem == 0 && r'.received == r.received + 1 && r'.index == EagerIndex(r.received + 1)
  {
    hide Position;
  }

  lemma {:induction false} EagerRun<P>(stream: Stream<P>, ks: seq<nat>)
    requires NotAhead(ks)
    ensures LagFits(stream, Eager(ks)) && Arrivals(Eager(ks)) == ks
    ensures var r := After(stream, Eager(ks)); r.sem == 0 && r.received == |ks| && r.index == EagerIndex(|ks|)
  {
    hide After, Arrivals, LagFits, Step;
    if ks == [] {
      NoEvents(stream);
    } else {
      var prior, k := ks[..|ks| - 1], ks[|ks| - 1];
      EagerRun(stream, prior);
      OneMoreEvent(stream, Eager(prior), Arrive(k));
      OneMoreEvent(stream, Eager(prior) + [Arrive(k)], ParserTurn);
      EagerSteps(stream, After(stream, Eager(prior)), k);
      assert Eager(ks) == Eager(prior) + [Arrive(k)] + [ParserTurn];
      assert prior + [k] == ks;
    }
  }

  lemma NoEvents<P>(stream: Stream<P>)
    ensures LagFits(stream, []) && Arrivals([]) == [] && After(stream, []) == Started()
  {
  }

  lemma {:induction false} FirstLate(ks: seq<nat>) returns (i: nat)
    requires !InTime(ks)
    ensures i < |ks| && i > ks[i] + HEAD_START && InTime(ks[..i])
    decreases |ks|
  {
    var prior := ks[..|ks| - 1];
    if InTime(prior) {
      i := |ks| - 1;
      assert forall j | 0 <= j < |prior| :: prior[j] == ks[j];
    } else {
      i := FirstLate(prior);
      assert ks[..i] == prior[..i];
    }
  }

  /**
   An order of arrivals keeps the sequence order under every schedule if and only if every packet
   k is among the first k + 31 arrivals.
   */
  lemma KeepsOrderIff<P>(stream: Stream<P>, ks: seq<nat>)
    requires Plausible(ks) && NotAhead(ks)
    ensures KeepsOrder(stream, ks) <==> InTime(ks)
  {
    hide After, Arrivals, LagFits, Admissible, InOrder, InTime;
    if InTime(ks) {
      forall events | LagFits(stream, events) && Arrivals(events) <= ks
        ensures After(stream, events).handed == InOrder(stream, Arrivals(events), After(stream, events).index)
      {
        InTimeIsAdmissible(stream, ks, events);
        HandedInSequenceOrder(stream, events);
      }
    } else {
      var i := FirstLate(ks);
      LateUnderEagerParser(stream, ks, i);
    }
  }

  /** After the arrivals before it, a parser that never waits has passed the late packet. */
  lemma LateUnderEagerParser<P>(stream: Stream<P>, ks: seq<nat>, i: nat)
    requires Plausible(ks) && NotAhead(ks) && i < |ks| && i > ks[i] + HEAD_START && InTime(ks[..i])
    ensures !KeepsOrder(stream, ks)
  {
    hide After, Arrivals, LagFits, Admissible, InOrder, InTime, Step;
    var prior, k := ks[..i], ks[i];
    var events := Eager(prior);
    EagerRun(stream, prior);
    InTimeIsAdmissible(stream, prior, events);
    LatePacketIsSkippedIff(stream, events, k);
    OneMoreEvent(stream, events, Arrive(k));
    StepReceives(stream, After(stream, events), k);
    assert Arrivals(events + [Arrive(k)]) == ks[..i + 1];
    SameIndex(After(stream, events), stream.At(k));
  }

  lemma StepReceives<P>(stream: Stream<P>, r: Ring<P>, k: nat)
    requires RingFits(r)
    ensures Step(stream, r, Arrive(k)) == Receive(r, stream.At(k))
  {
    hide Receive;
  }

  lemma SameIndex<P>(r: Ring<P>, packet: Packet<P>)
    requires RingFits(r)
    ensures Receive(r, packet).index == r.index
  {
    hide Position;
  }

  /** Packet 1 comes after packets 0 and 2 to 32. */
  const LATE: seq<nat> := [0] + seq(31, j => j + 2) + [1]

  lemma LateOrder()
    ensures Plausible(LATE) && NotAhead(LATE) && !InTime(LATE)
  {
    assert LATE[32] == 1 && |LATE| == 33;
    assert forall j | 1 <= j < 32 :: LATE[j] == j + 1;
  }

  /** One packet as the 33rd arrival instead of the 32nd at the latest breaks the order. */
  lemma LatePacketBreaksOrder<P>(stream: Stream<P>)
    ensures !KeepsOrder(stream, LATE)
  {
    hide KeepsOrder, InTime;
    LateOrder();
    KeepsOrderIff(stream, LATE);
  }
}
