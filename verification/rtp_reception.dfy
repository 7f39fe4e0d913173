/** From the packets on the network to the byte stream of the callback: the reorder ring feeding the depacketiser. */
module RtpReception {
  import opened Bytes
  import opened RtpRing
  import opened NalDepacketizer

  /** The stream carries the packets of the units, in order; what follows them is not constrained. */
  ghost predicate Sends(stream: Stream<RtpPacket>, packets: seq<RtpPacket>) {
    forall k | 0 <= k < |packets| :: stream.payload(k) == packets[k]
  }

  function PayloadsOf(handed: seq<Packet<RtpPacket>>): (packets: seq<RtpPacket>)
    ensures |packets| == |handed| && forall i | 0 <= i < |handed| :: packets[i] == handed[i].payload
  {
    seq(|handed|, i requires 0 <= i < |handed| => handed[i].payload)
  }

  /** Without losses below p, the packets below p are handed out gapless. */
  lemma {:induction false} NothingLost(stream: Stream<RtpPacket>, ks: seq<nat>, p: nat)
    requires forall k | 0 <= k < p :: k in ks
    ensures |InOrder(stream, ks, p)| == p
    ensures forall k | 0 <= k < p :: InOrder(stream, ks, p)[k] == stream.At(k)
  {
    if p > 0 {
      NothingLost(stream, ks, p - 1);
    }
  }

  /**
   However the network reorders the packets of a stream, and however the two threads
   interleave: once the parser is past the last packet of the units and none of their
   packets was lost, the callbacks concatenate to the byte stream of the units.
   */
  lemma ReorderedStreamRoundTrip(codec: Codec, stream: Stream<RtpPacket>, events: seq<Event>, units: seq<Unit>)
    requires Admissible(stream, events) && Sends(stream, AllPackets(units))
    requires forall u | u in units :: Carries(codec, u)
    requires forall u, p | u in units && p in u.packets :: |p| >= 2
    requires forall u | u in units :: MarksConform(u)
    requires |AllPackets(units)| == After(stream, events).index
    requires forall k | 0 <= k < |AllPackets(units)| :: k in Arrivals(events)
    ensures PayloadsOf(After(stream, events).handed) == AllPackets(units)
    ensures forall p | p in AllPackets(units) :: LongEnough(codec, p)
    ensures var r := Run(codec, false, PayloadsOf(After(stream, events).handed));
            r.Output? && r.data == ByteStream(codec, false, units)
  {
    hide Run, ByteStream, Carries, MarksConform, LongEnough, Admissible, After, AllPackets, Arrivals;
    HandedInSequenceOrder(stream, events);
    NothingLost(stream, Arrivals(events), |AllPackets(units)|);
    StreamRoundTrip(codec, false, units);
  }

  // --------------------------------------------------------------------------- lost packets

  /** The elements whose indices, counted from off, are listed. */
  function Listed<T>(s: seq<T>, ks: seq<nat>, off: nat): seq<T> {
    if s == [] then []
    else if off in ks then [s[0]] + Listed(s[1..], ks, off + 1)
    else Listed(s[1..], ks, off + 1)
  }

  lemma {:induction false} ListedAreElements<T>(s: seq<T>, ks: seq<nat>, off: nat)
    ensures forall x | x in Listed(s, ks, off) :: x in s
    decreases |s|
  {
    if s != [] {
      ListedAreElements(s[1..], ks, off + 1);
    }
  }

  lemma {:induction false} ListedAppends<T>(a: seq<T>, b: seq<T>, ks: seq<nat>, off: nat)
    ensures Listed(a + b, ks, off) == Listed(a, ks, off) + Listed(b, ks, off + |a|)
    decreases |a|
  {
    if a == [] {
      assert a + b == b;
    } else {
      assert (a + b)[1..] == a[1..] + b;
      ListedAppends(a[1..], b, ks, off + 1);
    }
  }

  /** The packets that arrived, of those with extended indices from off on. */
  function Kept(packets: seq<RtpPacket>, ks: seq<nat>, off: nat): (kept: seq<RtpPacket>)
    ensures forall p | p in kept :: p in packets
  {
    ListedAreElements(packets, ks, off);
    Listed(packets, ks, off)
  }

  lemma KeptAppends(a: seq<RtpPacket>, b: seq<RtpPacket>, ks: seq<nat>, off: nat)
    ensures Kept(a + b, ks, off) == Kept(a, ks, off) + Kept(b, ks, off + |a|)
  {
    hide Listed;
    ListedAppends(a, b, ks, off);
  }

  lemma {:induction false} HandedAreKept(stream: Stream<RtpPacket>, packets: seq<RtpPacket>, ks: seq<nat>, p: nat)
    requires Sends(stream, packets) && p <= |packets|
    ensures PayloadsOf(InOrder(stream, ks, p)) == Kept(packets[..p], ks, 0)
  {
    if p > 0 {
      HandedAreKept(stream, packets, ks, p - 1);
      assert packets[..p] == packets[..p - 1] + [packets[p - 1]];
      KeptAppends(packets[..p - 1], [packets[p - 1]], ks, 0);
      assert Listed([packets[p - 1]][1..], ks, p) == [];
      assert Kept([packets[p - 1]], ks, p - 1) == if p - 1 in ks then [packets[p - 1]] else [];
    }
  }

  /** What is left of a unit: its start and header if its first packet arrived, and every payload that did. */
  function Salvaged(codec: Codec, u: Unit, ks: seq<nat>, off: nat): seq<Octet>
    requires Carries(codec, u)
  {
    CarriedPacketsAreLong(codec, u);
    if |u.packets| == 1 then (if off in ks then START_CODE + u.nal else [])
    else
      FragmentsAreLong(codec, u);
      (if off in ks then START_CODE + Reassembled(codec, u)[..HeaderLength(codec)] + u.packets[0][FuOffset(codec)..] else [])
      + Payloads(codec, Kept(u.packets[1..], ks, off + 1))
  }

  lemma RunOne(codec: Codec, p: RtpPacket, rest: seq<RtpPacket>, data: seq<Octet>)
    requires (forall q | q in [p] + rest :: LongEnough(codec, q)) && forall q | q in rest :: LongEnough(codec, q)
    requires LongEnough(codec, p) && ParseOne(codec, true, true, p) == Delivered(data)
    ensures Run(codec, true, [p] + rest) == Prepend(data, Run(codec, true, rest))
  {
    hide ParseOne, LongEnough;
    assert ([p] + rest)[1..] == rest && ([p] + rest)[0] == p;
  }

  lemma PayloadsOne(codec: Codec, p: RtpPacket, rest: seq<RtpPacket>)
    requires (forall q | q in [p] + rest :: |q| >= FuOffset(codec)) && forall q | q in rest :: |q| >= FuOffset(codec)
    ensures p in [p] + rest && Payloads(codec, [p] + rest) == p[FuOffset(codec)..] + Payloads(codec, rest)
  {
    assert ([p] + rest)[1..] == rest && ([p] + rest)[0] == p;
  }

  lemma KeptOne(packets: seq<RtpPacket>, ks: seq<nat>, off: nat)
    requires packets != []
    ensures Kept(packets, ks, off)
         == if off in ks then [packets[0]] + Kept(packets[1..], ks, off + 1) else Kept(packets[1..], ks, off + 1)
  {
  }

  /** The later fragments that arrived deliver their payloads. */
  lemma {:induction false} KeptLaterFragments(codec: Codec, nal: seq<Octet>, ps: seq<RtpPacket>, ks: seq<nat>, off: nat)
    requires |nal| >= HeaderLength(codec) && ps != []
    requires forall i | 0 <= i < |ps| :: FragmentOf(codec, nal, ps[i], false, i == |ps| - 1)
    requires |ps[|ps| - 1]| >= 2 && Mark(ps[|ps| - 1])
    ensures forall p | p in ps :: LongEnough(codec, p) && |p| >= FuOffset(codec)
    ensures Run(codec, true, Kept(ps, ks, off)) == Output(true, Payloads(codec, Kept(ps, ks, off)))
    decreases |ps|
  {
    hide FragmentOf, LongEnough, KindOf, RebuiltHeader, Mark;
    hide Run, Payloads, ParseOne, Kept;
    var p, rest := ps[0], ps[1..];
    LaterFragmentDelivers(codec, nal, p, |ps| == 1);
    if |ps| == 1 {
      NothingRuns(codec, true, ks, off + 1);
      NoPayloads(codec);
    } else {
      KeptLaterFragments(codec, nal, rest, ks, off + 1);
    }
    KeptOne(ps, ks, off);
    if off in ks {
      RunOne(codec, p, Kept(rest, ks, off + 1), p[FuOffset(codec)..]);
      PayloadsOne(codec, p, Kept(rest, ks, off + 1));
    }
  }

  lemma NoPayloads(codec: Codec)
    ensures Payloads(codec, []) == []
  {
  }

  lemma LaterFragmentDelivers(codec: Codec, nal: seq<Octet>, p: RtpPacket, last: bool)
    requires |nal| >= HeaderLength(codec) && FragmentOf(codec, nal, p, false, last)
    requires last ==> |p| >= 2 && Mark(p)
    ensures LongEnough(codec, p) && |p| >= FuOffset(codec)
    ensures ParseOne(codec, true, true, p) == Delivered(p[FuOffset(codec)..])
  {
    hide FragmentOf, LongEnough, KindOf, RebuiltHeader, Mark;
    FragmentKind(codec, nal, p, false, last);
    FragmentIsLong(codec, nal, p, false, last);
  }

  lemma UnitSalvaged(codec: Codec, u: Unit, ks: seq<nat>, off: nat)
    requires Carries(codec, u)
    requires (forall p | p in u.packets :: |p| >= 2) && MarksConform(u)
    ensures forall p | p in Kept(u.packets, ks, off) :: LongEnough(codec, p)
    ensures Run(codec, true, Kept(u.packets, ks, off)) == Output(true, Salvaged(codec, u, ks, off))
  {
    CarriedPacketsAreLong(codec, u);
    var p, rest := u.packets[0], u.packets[1..];
    assert p in u.packets;
    if |u.packets| == 1 {
      assert Kept(rest, ks, off + 1) == [];
      SingleRoundTrip(codec, p);
      assert Kept(u.packets, ks, off) == if off in ks then [p] else [];
    } else {
      FragmentsSalvaged(codec, u, ks, off);
    }
  }

  lemma FragmentsSalvaged(codec: Codec, u: Unit, ks: seq<nat>, off: nat)
    requires Carries(codec, u) && |u.packets| >= 2
    requires (forall p | p in u.packets :: LongEnough(codec, p) && |p| >= 2) && MarksConform(u)
    ensures Run(codec, true, Kept(u.packets, ks, off)) == Output(true, Salvaged(codec, u, ks, off))
  {
    hide FragmentOf, LongEnough, KindOf, RebuiltHeader, Mark, Reassembled, START_CODE, Run, Payloads, Kept, ParseOne;
    var p, rest := u.packets[0], u.packets[1..];
    MarkIsTopBit(p);
    MarkIsTopBit(rest[|rest| - 1]);
    FirstFragmentDelivers(codec, u);
    KeptLaterFragments(codec, u.nal, rest, ks, off + 1);
    KeptOne(u.packets, ks, off);
    if off in ks {
      RunOne(codec, p, Kept(rest, ks, off + 1),
             START_CODE + Reassembled(codec, u)[..HeaderLength(codec)] + p[FuOffset(codec)..]);
    }
  }

  lemma FirstFragmentDelivers(codec: Codec, u: Unit)
    requires Carries(codec, u) && |u.packets| >= 2 && |u.packets[0]| >= 2 && !Mark(u.packets[0])
    ensures var p := u.packets[0];
            && LongEnough(codec, p) && |p| >= FuOffset(codec) && |Reassembled(codec, u)| >= HeaderLength(codec)
            && ParseOne(codec, true, true, p)
               == Delivered(START_CODE + Reassembled(codec, u)[..HeaderLength(codec)] + p[FuOffset(codec)..])
  {
    hide FragmentOf, LongEnough, KindOf, RebuiltHeader, Mark, Reassembled, START_CODE;
    var p := u.packets[0];
    FragmentKind(codec, u.nal, p, true, false);
    FragmentIsLong(codec, u.nal, p, true, false);
    HeaderCompletesUnit(codec, u, RebuiltHeader(codec, p));
    HeaderIsFirst(codec, u, RebuiltHeader(codec, p));
  }

  lemma HeaderIsFirst(codec: Codec, u: Unit, header: seq<Octet>)
    requires Carries(codec, u) && |header| == HeaderLength(codec)
    requires header + u.nal[HeaderLength(codec)..] == Reassembled(codec, u)
    ensures Reassembled(codec, u)[..HeaderLength(codec)] == header
  {
  }

  /** Before the start a unit gives nothing, unless it is a parameter set that arrived. */
  lemma UnitBeforeStartSalvaged(codec: Codec, u: Unit, ks: seq<nat>, off: nat)
    requires Carries(codec, u)
    ensures forall p | p in Kept(u.packets, ks, off) :: LongEnough(codec, p)
    ensures Starts(codec, u) && off in ks ==>
              Run(codec, false, Kept(u.packets, ks, off)) == Run(codec, true, Kept(u.packets, ks, off))
    ensures !(Starts(codec, u) && off in ks) ==> Run(codec, false, Kept(u.packets, ks, off)) == Output(false, [])
  {
    CarriedPacketsAreLong(codec, u);
    if Starts(codec, u) {
      assert Kept(u.packets[1..], ks, off + 1) == [];
      assert Kept(u.packets, ks, off) == if off in ks then u.packets else [];
      UnitBeforeStart(codec, u);
    } else {
      NoStartKey(codec, u);
      IgnoredBeforeStart(codec, Kept(u.packets, ks, off));
    }
  }

  lemma NoStartKey(codec: Codec, u: Unit)
    requires Carries(codec, u) && !Starts(codec, u)
    ensures forall p | p in u.packets :: LongEnough(codec, p) && p[12] != StartKey(codec)
  {
    CarriedPacketsAreLong(codec, u);
    forall p | p in u.packets
      ensures p[12] != StartKey(codec)
    {
      var i :| 0 <= i < |u.packets| && u.packets[i] == p;
      if |u.packets| >= 2 {
        FragmentKind(codec, u.nal, p, i == 0, i == |u.packets| - 1);
      }
    }
  }

  /** What is left of the units from the first parameter set that arrived on. */
  function LossyStream(codec: Codec, started: bool, units: seq<Unit>, ks: seq<nat>, off: nat): seq<Octet>
    requires forall u | u in units :: Carries(codec, u)
    decreases |units|
  {
    if units == [] then []
    else
      var u, next := units[0], off + |units[0].packets|;
      if started || (Starts(codec, u) && off in ks)
      then Salvaged(codec, u, ks, off) + LossyStream(codec, true, units[1..], ks, next)
      else LossyStream(codec, false, units[1..], ks, next)
  }

  /** Whatever is lost, the packets that arrived never end the process and give what is left of each unit. */
  lemma {:induction false} StreamSalvaged(codec: Codec, started: bool, units: seq<Unit>, ks: seq<nat>, off: nat)
    requires forall u | u in units :: Carries(codec, u)
    requires forall u, p | u in units && p in u.packets :: |p| >= 2
    requires forall u | u in units :: MarksConform(u)
    ensures forall p | p in Kept(AllPackets(units), ks, off) :: LongEnough(codec, p)
    ensures Run(codec, started, Kept(AllPackets(units), ks, off)).Output?
    ensures Run(codec, started, Kept(AllPackets(units), ks, off)).data == LossyStream(codec, started, units, ks, off)
    decreases |units|
  {
    hide Run, Carries, Salvaged, MarksConform, Starts, LongEnough, Kept;
    AllPacketsAreLong(codec, units);
    if units == [] {
      NothingRuns(codec, started, ks, off);
    } else {
      var u, rest, next := units[0], AllPackets(units[1..]), off + |units[0].packets|;
      var now := started || (Starts(codec, u) && off in ks);
      UnitRuns(codec, started, u, ks, off);
      StreamSalvaged(codec, now, units[1..], ks, next);
      KeptAppends(u.packets, rest, ks, off);
      UnitThenStream(codec, started, Kept(u.packets, ks, off), Kept(rest, ks, next));
    }
  }

  lemma NothingRuns(codec: Codec, started: bool, ks: seq<nat>, off: nat)
    ensures Kept([], ks, off) == [] && Run(codec, started, []) == Output(started, [])
  {
  }

  lemma UnitRuns(codec: Codec, started: bool, u: Unit, ks: seq<nat>, off: nat)
    requires Carries(codec, u)
    requires (forall p | p in u.packets :: |p| >= 2) && MarksConform(u)
    ensures forall p | p in Kept(u.packets, ks, off) :: LongEnough(codec, p)
    ensures Run(codec, started, Kept(u.packets, ks, off))
         == if started || (Starts(codec, u) && off in ks) then Output(true, Salvaged(codec, u, ks, off))
            else Output(false, [])
  {
    hide Run, Carries, Salvaged, MarksConform, Starts, LongEnough, Kept;
    UnitSalvaged(codec, u, ks, off);
    if !started {
      UnitBeforeStartSalvaged(codec, u, ks, off);
    }
  }

  lemma UnitThenStream(codec: Codec, started: bool, ps: seq<RtpPacket>, qs: seq<RtpPacket>)
    requires (forall p | p in ps :: LongEnough(codec, p)) && forall p | p in qs :: LongEnough(codec, p)
    requires Run(codec, started, ps).Output? && Run(codec, Run(codec, started, ps).isStart, qs).Output?
    ensures forall p | p in ps + qs :: LongEnough(codec, p)
    ensures Run(codec, started, ps + qs).Output?
    ensures Run(codec, started, ps + qs).data
         == Run(codec, started, ps).data + Run(codec, Run(codec, started, ps).isStart, qs).data
  {
    hide Run, LongEnough;
    RunAppends(codec, started, ps, qs);
  }

  lemma {:induction false} AllKept(packets: seq<RtpPacket>, ks: seq<nat>, off: nat)
    requires forall k | off <= k < off + |packets| :: k in ks
    ensures Kept(packets, ks, off) == packets
    decreases |packets|
  {
    if packets != [] {
      AllKept(packets[1..], ks, off + 1);
    }
  }

  /** A unit all of whose packets arrived comes out whole, whatever else is lost. */
  lemma WholeUnitSalvaged(codec: Codec, u: Unit, ks: seq<nat>, off: nat)
    requires Carries(codec, u)
    requires forall k | off <= k < off + |u.packets| :: k in ks
    ensures Salvaged(codec, u, ks, off) == START_CODE + Reassembled(codec, u)
  {
    if |u.packets| >= 2 {
      hide FragmentOf, Reassembled, START_CODE, Payloads;
      FragmentsAreLong(codec, u);
      AllKept(u.packets[1..], ks, off + 1);
      BodyOfFragments(codec, u);
      BodyIsKept(codec, u);
      var n := HeaderLength(codec);
      JoinWhole(START_CODE, Reassembled(codec, u)[..n], u.packets[0][FuOffset(codec)..],
                Payloads(codec, u.packets[1..]), u.nal[n..], Reassembled(codec, u));
    }
  }

  lemma BodyIsKept(codec: Codec, u: Unit)
    requires Carries(codec, u)
    ensures Reassembled(codec, u)[..HeaderLength(codec)] + u.nal[HeaderLength(codec)..] == Reassembled(codec, u)
  {
  }

  /**
   However the network reorders and loses packets of a stream, and however the threads
   interleave: the callbacks give what is left of each unit the parser has passed.
   */
  lemma LossyReceptionSalvages(codec: Codec, stream: Stream<RtpPacket>, events: seq<Event>, units: seq<Unit>)
    requires Admissible(stream, events) && Sends(stream, AllPackets(units))
    requires forall u | u in units :: Carries(codec, u)
    requires forall u, p | u in units && p in u.packets :: |p| >= 2
    requires forall u | u in units :: MarksConform(u)
    requires |AllPackets(units)| == After(stream, events).index
    ensures var handed := PayloadsOf(After(stream, events).handed);
            && (forall p | p in handed :: LongEnough(codec, p))
            && Run(codec, false, handed).Output?
            && Run(codec, false, handed).data == LossyStream(codec, false, units, Arrivals(events), 0)
  {
    hide Run, LossyStream, Carries, MarksConform, LongEnough, Admissible, After, AllPackets, Arrivals, Kept;
    var packets, ks := AllPackets(units), Arrivals(events);
    HandedInSequenceOrder(stream, events);
    HandedAreKept(stream, packets, ks, |packets|);
    assert packets[..|packets|] == packets;
    StreamSalvaged(codec, false, units, ks, 0);
  }
}
