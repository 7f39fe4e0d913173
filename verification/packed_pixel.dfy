/**
 The packed pixel word of the YUV to RGB kernel. Three channels share one 32-bit
 word: the first and the third output byte ("A" and "C") as value + 512 at bits 0
 and 11, the second output byte ("G") as twice its value + 1024 at bit 21. The word
 is saturated in all three channels at once by Fixup.
 */
module PackedPixel {
  import opened Bytes

  type Word = bv32

  /** One flag bit per channel: set exactly when the channel left 0..255. */
  const FLAGS: Word := 0x40080100

  /** FIXUP: saturates every flagged channel without branching on the channel. */
  function Fixup(y: Word): Word {
    var tmp := y & FLAGS;
    if tmp != 0 then
      var y1 := y | (tmp - (tmp >> 8));
      y1 + ((FLAGS & !(y1 >> 1)) >> 8)
    else
      y
  }

  /** STORE: the three bytes in the order they are written. */
  function Store(y: Word): (bytes: seq<Octet>)
    ensures |bytes| == 3
  {
    [LowByte(y), GreenByte(y), ThirdByte(y)]
  }

  function LowByte(w: Word): Octet {
    (w & 0xFF) as Octet
  }

  function GreenByte(w: Word): Octet {
    LowByte(w >> 22)
  }

  function ThirdByte(w: Word): Octet {
    LowByte(w >> 11)
  }

  function LaneA(w: Word): Word { w & 0x7FF }

  function LaneC(w: Word): Word { (w >> 11) & 0x3FF }

  function LaneG(w: Word): Word { w >> 21 }

  /** Some channel raised its flag. */
  predicate Flagged(w: Word) {
    w & FLAGS != 0
  }

  /** What saturation means for one channel: clamp(lane - 512, 0, 255). */
  function Clamped(lane: Word): Octet {
    if lane < 512 then 0 else if lane >= 768 then 255 else LowByte(lane - 512)
  }

  /** The three stored bytes of clamped lanes; the middle one carries a fraction bit. */
  function ClampedBytes(a: Word, c: Word, g: Word): (bytes: seq<Octet>)
    ensures |bytes| == 3
  {
    [Clamped(a), Clamped(g >> 1), Clamped(c)]
  }

  /** Every channel, before its bias, lies in -256..511 (G with one fraction bit). */
  predicate LanesInRange(w: Word) {
    256 <= LaneA(w) < 1024 && 256 <= LaneC(w) && 512 <= LaneG(w)
  }

  /** The same for the two outer channels, with the first one down to -511. */
  predicate LanesInReach(w: Word) {
    1 <= LaneA(w) < 1024 && 256 <= LaneC(w) && 512 <= LaneG(w)
  }

  /** The parallel saturation is the per-channel clamp; no carry crosses a channel. */
  lemma FixupClampsEveryChannel(w: Word)
    requires LanesInRange(w)
    ensures Store(Fixup(w)) == ClampedBytes(LaneA(w), LaneC(w), LaneG(w))
  {
    hide Fixup, LowByte, GreenByte, ThirdByte, Clamped, LaneA, LaneC, LaneG, LanesInRange, LanesInReach;
    RangeIsReach(w);
    FixupA(w);
    FixupC(w);
    FixupG(w);
  }

  lemma RangeIsReach(w: Word)
    requires LanesInRange(w)
    ensures LanesInReach(w) && 256 <= LaneA(w) < 1024
  {
    hide LaneA, LaneC, LaneG;
  }

  lemma FixupA(w: Word)
    requires 256 <= LaneA(w) < 1024
    ensures LowByte(Fixup(w)) == Clamped(LaneA(w))
  {
    assert Fixup(w) & 0xFF == Clamped(LaneA(w)) as Word;
  }

  lemma FixupC(w: Word)
    requires LanesInReach(w)
    ensures ThirdByte(Fixup(w)) == Clamped(LaneC(w))
  {
    assert (Fixup(w) >> 11) & 0xFF == Clamped(LaneC(w)) as Word;
  }

  lemma FixupG(w: Word)
    requires LanesInReach(w)
    ensures GreenByte(Fixup(w)) == Clamped(LaneG(w) >> 1)
  {
    assert (Fixup(w) >> 22) & 0xFF == Clamped(LaneG(w) >> 1) as Word;
  }

  /**
   Below -256 the A channel has no flag left. For every A lane from -511 up the stored
   byte is the clamp exactly when the lane is at least -256, or is -257 and another
   channel raised a flag (the correction then carries out of it).
   */
  lemma LowChannelIsClampedIff(w: Word)
    requires 1 <= LaneA(w) < 1024
    ensures LowByte(Fixup(w)) == Clamped(LaneA(w)) <==> LowLaneClamps(LaneA(w), Flagged(w))
  {
    hide Fixup, Clamped, LowByte, LaneA, Flagged;
    if 256 <= LaneA(w) {
      FixupA(w);
    } else if Flagged(w) {
      LowWithFlag(w);
    } else {
      LowWithoutFlag(w);
    }
  }

  /** Below -256 the low lane itself is stored, one more if another channel is corrected. */
  lemma LowWithFlag(w: Word)
    requires 1 <= LaneA(w) < 256 && Flagged(w)
    ensures LowByte(Fixup(w)) == Clamped(LaneA(w)) <==> LaneA(w) == 255
  {
    assert Fixup(w) & 0xFF == (LaneA(w) + 1) & 0xFF;
  }

  lemma LowWithoutFlag(w: Word)
    requires 1 <= LaneA(w) < 256 && !Flagged(w)
    ensures LowByte(Fixup(w)) != Clamped(LaneA(w))
  {
    assert Fixup(w) & 0xFF == LaneA(w);
  }

  /**
   With the shipped tables, Y = 0, U = 0 and V = 128 drive the A channel to -272: a
   byte that should be 0 is stored as 240.
   */
  lemma DarkPixelMissesClamp()
    ensures var w := Sum(Sum(0x0C400103, 0x00100000), 0x7FFFFFED);
            LowByte(Fixup(w)) == 240 && Clamped(LaneA(w)) == 0
  {
    var w: Word := 0x8C5000F0;
    assert w & FLAGS == 0;
    assert LowByte(w) == 240;
  }

  /** Addition of unsigned 32-bit words, which wraps. */
  function Sum(x: Word, y: Word): Word {
    x + y
  }

  /** The three lane values one table entry stands for, each modulo 2^32. */
  datatype Lanes = Lanes(a: Word, c: Word, g: Word)

  function Pack(l: Lanes): Word {
    Packed(l.a, l.c, l.g)
  }

  function Packed(a: Word, c: Word, g: Word): Word {
    a + 2048 * c + 2097152 * g
  }

  function Plus(x: Lanes, y: Lanes): Lanes {
    Lanes(Sum(x.a, y.a), Sum(x.c, y.c), Sum(x.g, y.g))
  }

  /** The lane sums of a pixel, each including its bias, fit their fields. */
  predicate Fits(l: Lanes) {
    256 <= l.a < 1024 && 256 <= l.c < 1024 && 512 <= l.g < 2048
  }

  lemma PackIsAdditive(x: Lanes, y: Lanes)
    ensures Sum(Pack(x), Pack(y)) == Pack(Plus(x, y))
  {
    AddLanes(x.a, x.c, x.g, y.a, y.c, y.g);
  }

  lemma AddLanes(a: Word, c: Word, g: Word, a': Word, c': Word, g': Word)
    ensures Sum(Packed(a, c, g), Packed(a', c', g')) == Packed(Sum(a, a'), Sum(c, c'), Sum(g, g'))
  {
    hide Packed;
    AddFields(a, c, g, a', c', g');
  }

  lemma AddFields(a: Word, c: Word, g: Word, a': Word, c': Word, g': Word)
    ensures Sum(Packed(a, c, g), Packed(a', c', g')) == Packed(a + a', c + c', g + g')
  {
    assert Sum(a + 2048 * c + 2097152 * g, a' + 2048 * c' + 2097152 * g')
        == (a + a') + 2048 * (c + c') + 2097152 * (g + g');
  }

  lemma UnpackFitting(l: Lanes)
    requires l.a < 2048 && l.c < 1024 && l.g < 2048
    ensures LaneA(Pack(l)) == l.a && LaneC(Pack(l)) == l.c && LaneG(Pack(l)) == l.g
  {
  }

  /**
   The wrapping sum of a U, a V and a Y entry holds the lane-wise sums, and what is
   stored is the clamp of each of them.
   */
  lemma TableSumStoresClampedSums(u: Lanes, v: Lanes, y: Lanes)
    requires Fits(Plus(Plus(u, v), y))
    ensures var s := Plus(Plus(u, v), y);
            Store(Fixup(Sum(Sum(Pack(u), Pack(v)), Pack(y)))) == ClampedBytes(s.a, s.c, s.g)
  {
    hide *;
    PackIsAdditive(u, v);
    PackIsAdditive(Plus(u, v), y);
    FittingWord(Plus(Plus(u, v), y));
  }

  lemma FittingWord(l: Lanes)
    requires Fits(l)
    ensures Store(Fixup(Pack(l))) == ClampedBytes(l.a, l.c, l.g)
  {
    hide *;
    FittingLanes(l);
    FixupClampsEveryChannel(Pack(l));
  }

  lemma FittingLanes(l: Lanes)
    requires Fits(l)
    ensures LanesInRange(Pack(l))
    ensures LaneA(Pack(l)) == l.a && LaneC(Pack(l)) == l.c && LaneG(Pack(l)) == l.g
  {
    hide LaneA, LaneC, LaneG, Pack;
    UnpackFitting(l);
  }

  /** Lane sums that fit, but for the first channel, which may go down to -511. */
  predicate DarkFits(l: Lanes) {
    1 <= l.a < 1024 && 256 <= l.c < 1024 && 512 <= l.g < 2048
  }

  /** The first channel's lane is at least -256, or -257 with another channel's flag raised. */
  predicate LowLaneClamps(a: Word, flagged: bool) {
    256 <= a || (a == 255 && flagged)
  }

  /** The second and third byte stored are clamps; so is the first, if and only if its lane allows it. */
  predicate DarkBytes(bytes: seq<Octet>, clamped: seq<Octet>, lowClamps: bool)
    requires |bytes| == |clamped| == 3
  {
    bytes[1] == clamped[1] && bytes[2] == clamped[2] && (bytes[0] == clamped[0] <==> lowClamps)
  }

  lemma ReachOfLow(w: Word)
    requires LanesInReach(w)
    ensures 1 <= LaneA(w) < 1024
  {
  }

  lemma DarkFixup(w: Word)
    requires LanesInReach(w)
    ensures DarkBytes(Store(Fixup(w)), ClampedBytes(LaneA(w), LaneC(w), LaneG(w)), LowLaneClamps(LaneA(w), Flagged(w)))
  {
    hide Fixup, LowByte, GreenByte, ThirdByte, Clamped, LaneA, LaneC, LaneG, LanesInReach, LowLaneClamps;
    ReachOfLow(w);
    FixupC(w);
    FixupG(w);
    LowChannelIsClampedIff(w);
  }

  /** The bytes stored for a word that packs dark lanes. */
  lemma DarkWord(l: Lanes)
    requires DarkFits(l)
    ensures DarkBytes(Store(Fixup(Pack(l))), ClampedBytes(l.a, l.c, l.g), LowLaneClamps(l.a, Flagged(Pack(l))))
  {
    hide *;
    DarkLanes(l);
    DarkFixup(Pack(l));
  }

  lemma DarkLanes(l: Lanes)
    requires DarkFits(l)
    ensures LanesInReach(Pack(l)) && 1 <= LaneA(Pack(l)) < 1024
    ensures LaneA(Pack(l)) == l.a && LaneC(Pack(l)) == l.c && LaneG(Pack(l)) == l.g
  {
    hide LaneA, LaneC, LaneG, Pack;
    UnpackFitting(l);
  }

  /** A dark pixel: what is stored for the wrapping sum of a U, a V and a Y entry. */
  lemma TableSumDarkBytes(u: Lanes, v: Lanes, y: Lanes)
    requires DarkFits(Plus(Plus(u, v), y))
    ensures var s := Plus(Plus(u, v), y);
            DarkBytes(Store(Fixup(Sum(Sum(Pack(u), Pack(v)), Pack(y)))), ClampedBytes(s.a, s.c, s.g),
                      LowLaneClamps(s.a, Flagged(Pack(s))))
  {
    hide *;
    PackIsAdditive(u, v);
    PackIsAdditive(Plus(u, v), y);
    DarkWord(Plus(Plus(u, v), y));
  }
}
