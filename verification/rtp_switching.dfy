/** Reception while boxes are wanted only now and then: a parser switched off and on again. */
module RtpSwitching {
  import opened Bytes
  import opened NalDepacketizer
  import opened RtpReception
  import opened RtpRing
  import opened Wrappers

  /** Every callback payload of a run; needs tells for each packet whether boxes are wanted when it is parsed. */
  function RunSwitched(codec: Codec, isStart: bool, packets: seq<RtpPacket>, needs: seq<bool>): Output
    requires |needs| == |packets| && forall p | p in packets :: LongEnough(codec, p)
    decreases |packets|
  {
    if packets == [] then Output(isStart, [])
    else
      match ParseOne(codec, isStart, needs[0], packets[0])
      case CheckFailed => Failed
      case Ignored(started) => RunSwitched(codec, started, packets[1..], needs[1..])
      case Delivered(data) => Prepend(data, RunSwitched(codec, true, packets[1..], needs[1..]))
  }

  /** While boxes are wanted throughout this is the plain run. */
  lemma {:induction false} AlwaysWanted(codec: Codec, isStart: bool, packets: seq<RtpPacket>, needs: seq<bool>)
    requires |needs| == |packets| && forall p | p in packets :: LongEnough(codec, p)
    requires forall i | 0 <= i < |needs| :: needs[i]
    ensures RunSwitched(codec, isStart, packets, needs) == Run(codec, isStart, packets)
    decreases |packets|
  {
    hide ParseOne, LongEnough;
    if packets != [] {
      match ParseOne(codec, isStart, true, packets[0])
      case CheckFailed =>
      case Ignored(started) => AlwaysWanted(codec, started, packets[1..], needs[1..]);
      case Delivered(_) => AlwaysWanted(codec, true, packets[1..], needs[1..]);
    }
  }

  function ContinueSwitched(codec: Codec, before: Output, packets: seq<RtpPacket>, needs: seq<bool>): Output
    requires |needs| == |packets| && forall p | p in packets :: LongEnough(codec, p)
  {
    match before
    case Failed => Failed
    case Output(isStart, data) => Prepend(data, RunSwitched(codec, isStart, packets, needs))
  }

  lemma {:induction false} SwitchedAppends(codec: Codec, isStart: bool, ps: seq<RtpPacket>, ns: seq<bool>,
                                           qs: seq<RtpPacket>, ms: seq<bool>)
    requires |ns| == |ps| && |ms| == |qs|
    requires (forall p | p in ps :: LongEnough(codec, p)) && forall p | p in qs :: LongEnough(codec, p)
    ensures forall p | p in ps + qs :: LongEnough(codec, p)
    ensures RunSwitched(codec, isStart, ps + qs, ns + ms)
         == ContinueSwitched(codec, RunSwitched(codec, isStart, ps, ns), qs, ms)
    decreases |ps|
  {
    hide ParseOne, LongEnough;
    if ps == [] {
      assert ps + qs == qs && ns + ms == ms;
      PrependNothing(RunSwitched(codec, isStart, qs, ms));
    } else {
      assert (ps + qs)[1..] == ps[1..] + qs && (ns + ms)[1..] == ns[1..] + ms;
      match ParseOne(codec, isStart, ns[0], ps[0])
      case CheckFailed =>
      case Ignored(started) => SwitchedAppends(codec, started, ps[1..], ns[1..], qs, ms);
      case Delivered(data) =>
        SwitchedAppends(codec, true, ps[1..], ns[1..], qs, ms);
        PrependContinues(data, RunSwitched(codec, true, ps[1..], ns[1..]), codec, qs, ms);
    }
  }

  lemma PrependNothing(rest: Output)
    ensures Prepend([], rest) == rest
  {
  }

  lemma PrependContinues(data: seq<Octet>, rest: Output, codec: Codec, qs: seq<RtpPacket>, ms: seq<bool>)
    requires |ms| == |qs| && forall p | p in qs :: LongEnough(codec, p)
    ensures Prepend(data, ContinueSwitched(codec, rest, qs, ms)) == ContinueSwitched(codec, Prepend(data, rest), qs, ms)
  {
    hide RunSwitched, LongEnough;
    match rest
    case Failed =>
    case Output(isStart, tail) =>
      match RunSwitched(codec, isStart, qs, ms)
      case Failed =>
      case Output(_, last) => assert data + (tail + last) == (data + tail) + last;
  }

  /** A packet parsed while no boxes are wanted switches the parser off. */
  lemma UnwantedSwitchesOff(codec: Codec, isStart: bool, q: RtpPacket, qs: seq<RtpPacket>, ms: seq<bool>)
    requires |ms| == |qs| && LongEnough(codec, q) && forall p | p in qs :: LongEnough(codec, p)
    ensures forall p | p in [q] + qs :: LongEnough(codec, p)
    ensures RunSwitched(codec, isStart, [q] + qs, [false] + ms) == RunSwitched(codec, false, qs, ms)
  {
    hide LongEnough;
    assert ([q] + qs)[1..] == qs && ([false] + ms)[1..] == ms;
  }

  /** Whether boxes are wanted when packet off + i is parsed, for the next n packets. */
  function Needs(need: nat -> bool, off: nat, n: nat): (needs: seq<bool>)
    ensures |needs| == n
  {
    seq(n, i requires 0 <= i < n => need(off + i))
  }

  lemma {:induction false} ListedLength<S, T>(a: seq<S>, b: seq<T>, ks: seq<nat>, off: nat)
    requires |a| == |b|
    ensures |Listed(a, ks, off)| == |Listed(b, ks, off)|
    decreases |a|
  {
    if a != [] {
      ListedLength(a[1..], b[1..], ks, off + 1);
    }
  }

  lemma {:induction false} ListedAgree<T>(s: seq<T>, ks: seq<nat>, ks': seq<nat>, off: nat)
    requires forall k | off <= k < off + |s| :: k in ks <==> k in ks'
    ensures Listed(s, ks, off) == Listed(s, ks', off)
    decreases |s|
  {
    if s != [] {
      ListedAgree(s[1..], ks, ks', off + 1);
    }
  }

  lemma {:induction false} NoneListed<T>(s: seq<T>, ks: seq<nat>, off: nat)
    requires forall k | off <= k < off + |s| :: k !in ks
    ensures Listed(s, ks, off) == []
    decreases |s|
  {
    if s != [] {
      NoneListed(s[1..], ks, off + 1);
    }
  }

  /** The arrivals with extended indices from lo to hi. */
  function Within(ks: seq<nat>, lo: nat, hi: nat): (within: seq<nat>)
    ensures forall k :: k in within <==> k in ks && lo <= k < hi
  {
    if ks == [] then []
    else (if lo <= ks[0] < hi then [ks[0]] else []) + Within(ks[1..], lo, hi)
  }

  lemma KeptWithin(packets: seq<RtpPacket>, ks: seq<nat>, lo: nat, hi: nat)
    requires lo <= hi <= |packets|
    ensures Kept(packets[lo..hi], ks, lo) == Kept(packets, Within(ks, lo, hi), 0)
  {
    hide Listed, Within;
    var within := Within(ks, lo, hi);
    var a, b, c := packets[..lo], packets[lo..hi], packets[hi..];
    assert packets == a + (b + c);
    ListedAppends(a, b + c, within, 0);
    ListedAppends(b, c, within, lo);
    NoneListed(a, within, 0);
    NoneListed(c, within, hi);
    ListedAgree(b, ks, within, lo);
  }

  /** The last packet below p that is parsed while no boxes are wanted. */
  function LastUnwanted(ks: seq<nat>, need: nat -> bool, p: nat): (k: Option<nat>)
    ensures k.Some? ==> k.value < p && k.value in ks && !need(k.value)
    ensures forall j | (if k.Some? then k.value + 1 else 0) <= j < p && j in ks :: need(j)
  {
    if p == 0 then None
    else if p - 1 in ks && !need(p - 1) then Some(p - 1)
    else LastUnwanted(ks, need, p - 1)
  }

  /** What is left of the units, the parser starting afresh after every packet it does not want. */
  function SwitchedStream(codec: Codec, units: seq<Unit>, ks: seq<nat>, need: nat -> bool, p: nat): seq<Octet>
    requires forall u | u in units :: Carries(codec, u)
    decreases p
  {
    match LastUnwanted(ks, need, p)
    case None => LossyStream(codec, false, units, Within(ks, 0, p), 0)
    case Some(k) =>
      SwitchedStream(codec, units, ks, need, k) + LossyStream(codec, false, units, Within(ks, k + 1, p), 0)
  }

  lemma {:induction false} ListedWanted(ks: seq<nat>, need: nat -> bool, off: nat, n: nat)
    requires forall k | off <= k < off + n && k in ks :: need(k)
    ensures forall i | 0 <= i < |Listed(Needs(need, off, n), ks, off)| :: Listed(Needs(need, off, n), ks, off)[i]
    decreases n
  {
    if n > 0 {
      assert Needs(need, off, n)[1..] == Needs(need, off + 1, n - 1);
      ListedWanted(ks, need, off + 1, n - 1);
    }
  }

  /** The packets lo to hi, boxes wanted at every one that arrived, from a parser switched off. */
  lemma WantedPhase(codec: Codec, units: seq<Unit>, ks: seq<nat>, need: nat -> bool, lo: nat, hi: nat)
    requires forall u | u in units :: Carries(codec, u)
    requires forall u, p | u in units && p in u.packets :: |p| >= 2
    requires forall u | u in units :: MarksConform(u)
    requires lo <= hi <= |AllPackets(units)| && forall k | lo <= k < hi && k in ks :: need(k)
    ensures var kept, needs := Kept(AllPackets(units)[lo..hi], ks, lo), Listed(Needs(need, lo, hi - lo), ks, lo);
            && |kept| == |needs| && (forall p | p in kept :: LongEnough(codec, p))
            && RunSwitched(codec, false, kept, needs).Output?
            && RunSwitched(codec, false, kept, needs).data == LossyStream(codec, false, units, Within(ks, lo, hi), 0)
  {
    hide Run, RunSwitched, LossyStream, Carries, MarksConform, LongEnough, Within, AllPackets, Listed;
    var packets := AllPackets(units);
    ListedLength(packets[lo..hi], Needs(need, lo, hi - lo), ks, lo);
    KeptWithin(packets, ks, lo, hi);
    StreamSalvaged(codec, false, units, Within(ks, lo, hi), 0);
    ListedWanted(ks, need, lo, hi - lo);
    AlwaysWanted(codec, false, Kept(packets[lo..hi], ks, lo), Listed(Needs(need, lo, hi - lo), ks, lo));
  }

  lemma Phases(packets: seq<RtpPacket>, ks: seq<nat>, need: nat -> bool, k: nat, p: nat)
    requires k < p <= |packets| && k in ks && !need(k)
    ensures Kept(packets[..p], ks, 0)
         == Kept(packets[..k], ks, 0) + ([packets[k]] + Kept(packets[k + 1..p], ks, k + 1))
    ensures Listed(Needs(need, 0, p), ks, 0)
         == Listed(Needs(need, 0, k), ks, 0) + ([false] + Listed(Needs(need, k + 1, p - k - 1), ks, k + 1))
  {
    var a, b := packets[..k], packets[k + 1..p];
    assert packets[..p] == a + ([packets[k]] + b);
    ListedAppends(a, [packets[k]] + b, ks, 0);
    ListedFirst(packets[k], b, ks, k);
    var n, m := Needs(need, 0, k), Needs(need, k + 1, p - k - 1);
    assert Needs(need, 0, p) == n + ([false] + m);
    ListedAppends(n, [false] + m, ks, 0);
    ListedFirst(false, m, ks, k);
  }

  lemma ListedFirst<T>(x: T, rest: seq<T>, ks: seq<nat>, off: nat)
    requires off in ks
    ensures Listed([x] + rest, ks, off) == [x] + Listed(rest, ks, off + 1)
  {
    assert ([x] + rest)[1..] == rest;
  }

  /** A finished part, a packet that switches the parser off, and what comes after it. */
  lemma JoinPhases(codec: Codec, ps: seq<RtpPacket>, ns: seq<bool>, q: RtpPacket, qs: seq<RtpPacket>, ms: seq<bool>)
    requires |ns| == |ps| && |ms| == |qs| && LongEnough(codec, q)
    requires (forall p | p in ps :: LongEnough(codec, p)) && forall p | p in qs :: LongEnough(codec, p)
    requires RunSwitched(codec, false, ps, ns).Output? && RunSwitched(codec, false, qs, ms).Output?
    ensures forall p | p in ps + ([q] + qs) :: LongEnough(codec, p)
    ensures var r := RunSwitched(codec, false, ps + ([q] + qs), ns + ([false] + ms));
            r.Output? && r.data == RunSwitched(codec, false, ps, ns).data + RunSwitched(codec, false, qs, ms).data
  {
    hide RunSwitched, LongEnough;
    UnwantedSwitchesOff(codec, RunSwitched(codec, false, ps, ns).isStart, q, qs, ms);
    SwitchedAppends(codec, false, ps, ns, [q] + qs, [false] + ms);
  }

  /** The packets below p, with boxes wanted now and then. */
  lemma {:induction false} SwitchedRun(codec: Codec, units: seq<Unit>, ks: seq<nat>, need: nat -> bool, p: nat)
    requires forall u | u in units :: Carries(codec, u)
    requires forall u, p | u in units && p in u.packets :: |p| >= 2
    requires forall u | u in units :: MarksConform(u)
    requires p <= |AllPackets(units)|
    ensures var kept, needs := Kept(AllPackets(units)[..p], ks, 0), Listed(Needs(need, 0, p), ks, 0);
            && |kept| == |needs| && (forall p | p in kept :: LongEnough(codec, p))
            && RunSwitched(codec, false, kept, needs).Output?
            && RunSwitched(codec, false, kept, needs).data == SwitchedStream(codec, units, ks, need, p)
    decreases p
  {
    hide RunSwitched, LossyStream, Carries, MarksConform, LongEnough, AllPackets, Listed, Kept, Within, LastUnwanted;
    var packets := AllPackets(units);
    match LastUnwanted(ks, need, p)
    case None =>
      assert packets[..p] == packets[0..p];
      WantedPhase(codec, units, ks, need, 0, p);
    case Some(k) =>
      SwitchedRun(codec, units, ks, need, k);
      WantedPhase(codec, units, ks, need, k + 1, p);
      Phases(packets, ks, need, k, p);
      AllPacketsAreLong(codec, units);
      assert packets[k] in packets;
      JoinPhases(codec, Kept(packets[..k], ks, 0), Listed(Needs(need, 0, k), ks, 0), packets[k],
                 Kept(packets[k + 1..p], ks, k + 1), Listed(Needs(need, k + 1, p - k - 1), ks, k + 1));
  }

  /**
   However packets are reordered and lost, however the threads interleave, and whenever boxes are
   wanted: between two packets at which they are not, the callbacks give what is left of each
   unit from the first parameter set that arrived in between.
   */
  lemma SwitchedReceptionSalvages(codec: Codec, stream: Stream<RtpPacket>, events: seq<Event>, units: seq<Unit>,
                                  need: nat -> bool)
    requires Admissible(stream, events) && Sends(stream, AllPackets(units))
    requires forall u | u in units :: Carries(codec, u)
    requires forall u, p | u in units && p in u.packets :: |p| >= 2
    requires forall u | u in units :: MarksConform(u)
    requires After(stream, events).index <= |AllPackets(units)|
    ensures var r, ks := After(stream, events), Arrivals(events);
            var handed, needs := PayloadsOf(r.handed), Listed(Needs(need, 0, r.index), ks, 0);
            && |handed| == |needs| && (forall p | p in handed :: LongEnough(codec, p))
            && RunSwitched(codec, false, handed, needs).Output?
            && RunSwitched(codec, false, handed, needs).data == SwitchedStream(codec, units, ks, need, r.index)
  {
    hide RunSwitched, SwitchedStream, Carries, MarksConform, LongEnough, Admissible, After, AllPackets, Arrivals;
    hide Listed, Kept;
    HandedInSequenceOrder(stream, events);
    HandedAreKept(stream, AllPackets(units), Arrivals(events), After(stream, events).index);
    SwitchedRun(codec, units, Arrivals(events), need, After(stream, events).index);
  }
}
