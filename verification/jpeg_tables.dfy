/** What is computed from a JPEG file for the decoder: Huffman start codes and the end of the scan. */
module JpegTables {
  import opened Bytes
  import opened Powers
  import opened Wrappers

  /** An unsigned 16-bit integer. */
  type Word16 = n: int | 0 <= n < 65536

  /** The number of codes of each length 1..16, as stored in the DHT segment. */
  type Counts = c: seq<Byte> | |c| == 16 witness seq(16, _ => 0)

  function CountOf(counts: Counts, i: nat): Byte
    requires 1 <= i <= 16
  {
    counts[i - 1]
  }

  // ------------------------------------------------------------------------------ the code

  function Ntohs(v: Word16): Word16 {
    v % 256 * 256 + v / 256
  }

  /** How far for (int8_t j = 0; j < count; j++) value++ gets for a count read as int8_t. */
  function Added(count: Byte): nat {
    if count < 128 then count else 0
  }

  /** value when length i is reached, in 16-bit arithmetic. */
  function Value(counts: Counts, i: nat): Word16
    requires 1 <= i <= 17
  {
    if i == 1 then 0 else 2 * ((Value(counts, i - 1) + Added(CountOf(counts, i - 1))) % 65536) % 65536
  }

  /** The increments of one length, with the count read as int8_t. */
  method AddCodes(value: Word16, stored: Byte) returns (r: Word16)
    ensures r == (value + Added(stored)) % 65536
  {
    var count := if stored < 128 then stored else stored - 256;
    r := value;
    var j := 0;
    while j < count
      invariant 0 <= j && (count > 0 ==> j <= count) && (count <= 0 ==> j == 0)
      invariant r == (value + j) % 65536
    {
      r := (r + 1) % 65536;
      j := j + 1;
    }
  }

  /** The entry recorded for length i: the start code in network order, or 0 without codes. */
  function Recorded(counts: Counts, i: nat): Word16
    requires 1 <= i <= 16
  {
    if CountOf(counts, i) != 0 then Ntohs(Value(counts, i)) else 0
  }

  /** The loop over the 16 lengths of one table. */
  method RecordStarts(counts: Counts) returns (pdata: array<Word16>)
    ensures fresh(pdata) && pdata.Length == 16
    ensures forall k | 0 <= k < 16 :: pdata[k] == Recorded(counts, k + 1)
  {
    hide Value, Ntohs, Added;
    pdata := new Word16[16](_ => 0);
    var value: Word16 := 0;
    FirstValue(counts);
    for i := 0 to 16
      invariant value == Value(counts, i + 1)
      invariant forall k | 0 <= k < i :: pdata[k] == Recorded(counts, k + 1)
      invariant forall k | i <= k < 16 :: pdata[k] == 0
    {
      if counts[i] != 0 {
        pdata[i] := Ntohs(value);
        value := AddCodes(value, counts[i]);
      }
      value := value * 2 % 65536;
      NextValue(counts, i + 1);
    }
  }

  lemma FirstValue(counts: Counts)
    ensures Value(counts, 1) == 0
  {
  }

  lemma NextValue(counts: Counts, i: nat)
    requires 1 <= i <= 16
    ensures Value(counts, i + 1) == 2 * ((Value(counts, i) + Added(CountOf(counts, i))) % 65536) % 65536
    ensures CountOf(counts, i) == 0 ==> Value(counts, i + 1) == 2 * Value(counts, i) % 65536
  {
    hide Added, CountOf;
    AddNone();
    ReducedAlready(Value(counts, i));
  }

  lemma AddNone()
    ensures Added(0) == 0
  {
  }

  lemma ReducedAlready(v: Word16)
    ensures (v + 0) % 65536 == v
  {
  }

  // ----------------------------------------------------------------------- canonical codes

  /** The codes of lengths up to j, each weighted by the 2^(i-j) codes of length i below it. */
  function Weight(counts: Counts, i: nat, j: nat): nat
    requires j <= i <= 16
  {
    if j == 0 then 0 else Weight(counts, i, j - 1) + CountOf(counts, j) * Pow2(i - j)
  }

  /** Kraft's inequality: there is room for all codes. */
  predicate Kraft(counts: Counts) {
    Weight(counts, 16, 16) <= Pow2(16)
  }

  /** The first code of length i: all shorter codes, extended to length i, come before it. */
  function First(counts: Counts, i: nat): nat
    requires 1 <= i <= 16
  {
    Weight(counts, i, i - 1)
  }

  lemma {:induction false} WeightDoubles(counts: Counts, i: nat, j: nat)
    requires j <= i < 16
    ensures Weight(counts, i + 1, j) == 2 * Weight(counts, i, j)
  {
    hide CountOf, Pow2;
    if j > 0 {
      WeightDoubles(counts, i, j - 1);
      PowerDoubles(i - j);
      DoubleProduct(CountOf(counts, j), Pow2(i - j));
    }
  }

  /** The first code after the codes of length i, doubled, is the first of length i + 1. */
  lemma FirstFollows(counts: Counts, i: nat)
    requires 1 <= i < 16
    ensures First(counts, i + 1) == 2 * (First(counts, i) + CountOf(counts, i))
  {
    WeightDoubles(counts, i, i);
    assert Pow2(0) == 1;
  }

  /** Under Kraft's inequality the codes of each length fit in that many bits. */
  lemma {:induction false} CodesFit(counts: Counts, i: nat)
    requires Kraft(counts) && 1 <= i <= 16
    ensures First(counts, i) + CountOf(counts, i) <= Pow2(i)
    decreases 16 - i
  {
    hide CountOf, Pow2;
    assert Pow2(0) == 1 by { PowerDoubles(0); }
    if i == 16 {
      assert Weight(counts, 16, 16) == Weight(counts, 16, 15) + CountOf(counts, 16) * Pow2(0);
    } else {
      CodesFit(counts, i + 1);
      FirstFollows(counts, i);
      PowerDoubles(i);
    }
  }

  /** Every earlier length's codes, extended to length j, end before the first code of length j. */
  lemma {:induction false} FirstIsBeyond(counts: Counts, i: nat, j: nat)
    requires 1 <= i < j <= 16
    ensures First(counts, j) >= (First(counts, i) + CountOf(counts, i)) * Pow2(j - i)
    decreases j
  {
    hide CountOf, First, Pow2;
    var end := First(counts, i) + CountOf(counts, i);
    FirstFollows(counts, j - 1);
    if i == j - 1 {
      PowerDoubles(0);
    } else {
      FirstIsBeyond(counts, i, j - 1);
      PowerDoubles(j - 1 - i);
      DoubleProduct(end, Pow2(j - 1 - i));
    }
  }

  /** The code is prefix-free: no code word begins with another. */
  lemma PrefixFree(counts: Counts, i: nat, k: nat, j: nat, l: nat)
    requires 1 <= i <= j <= 16 && k < CountOf(counts, i) && l < CountOf(counts, j) && (i != j || k != l)
    ensures (First(counts, j) + l) / Pow2(j - i) != First(counts, i) + k
  {
    hide CountOf, First;
    if i < j {
      FirstIsBeyond(counts, i, j);
      QuotientIsBeyond(First(counts, j) + l, First(counts, i) + CountOf(counts, i), Pow2(j - i));
    } else {
      assert Pow2(0) == 1;
    }
  }

  lemma QuotientIsBeyond(x: nat, bound: nat, p: nat)
    requires p > 0 && x >= bound * p
    ensures x / p >= bound
  {
    var q := x / p;
    assert x < q * p + p;
    if q < bound {
      RowsBelow(q, bound, p);
    }
  }

  // -------------------------------------------------------------------- code against spec

  /** No length with 128 or more codes precedes a length that has codes. */
  predicate SmallBefore(counts: Counts, j: nat)
    requires 1 <= j <= 16
  {
    forall i | 1 <= i < j :: CountOf(counts, i) <= 127
  }

  /** What the 16-bit loop holds: the first code, or less once a count was read as negative. */
  lemma ValueAgainstFirst(counts: Counts, j: nat)
    requires Kraft(counts) && 1 <= j <= 16 && CountOf(counts, j) != 0
    ensures Value(counts, j) == First(counts, j) <==> SmallBefore(counts, j)
  {
    hide Kraft, Value, First, SmallBefore, Pow2;
    ValueBelowFirst(counts, j);
    CodesFit(counts, j);
    PowersFit(j);
  }

  lemma {:induction false} ValueBelowFirst(counts: Counts, j: nat)
    requires Kraft(counts) && 1 <= j <= 16
    ensures SmallBefore(counts, j) ==> Value(counts, j) == First(counts, j) % 65536
    ensures !SmallBefore(counts, j) && First(counts, j) < 65536 ==> Value(counts, j) < First(counts, j)
  {
    hide Kraft, Weight, Pow2;
    if j == 1 {
      assert First(counts, 1) == 0 by { FirstOfOne(counts); }
    } else {
      ValueBelowFirst(counts, j - 1);
      FirstFollows(counts, j - 1);
      CodesFit(counts, j - 1);
      PowersFit(j - 1);
      hide First;
      OneLength(Value(counts, j - 1), First(counts, j - 1), CountOf(counts, j - 1));
      assert SmallBefore(counts, j) <==> SmallBefore(counts, j - 1) && CountOf(counts, j - 1) <= 127;
    }
  }

  lemma FirstOfOne(counts: Counts)
    ensures First(counts, 1) == 0
  {
  }

  lemma OneLength(value: Word16, first: nat, count: Byte)
    requires first + count <= 32768
    ensures var next := 2 * ((value + Added(count)) % 65536) % 65536;
            && (value == first && count <= 127 ==> next == 2 * (first + count) % 65536)
            && (value == first && count > 127 ==> next < 2 * (first + count))
            && (value < first ==> next < 2 * (first + count))
  {
  }

  lemma PowersFit(i: nat)
    requires i <= 16
    ensures Pow2(i) <= 65536 && (i < 16 ==> Pow2(i) <= 32768)
  {
    SmallPowers();
    PowersAscend(i, if i < 16 then 15 else 16);
  }

  /** What the decoder reads: the two bytes of a little-endian integer, the first one high. */
  function InNetworkOrder(v: Word16): nat {
    256 * (v % 256) + v / 256
  }

  lemma RecordedValue(counts: Counts, j: nat)
    requires 1 <= j <= 16 && CountOf(counts, j) != 0
    ensures InNetworkOrder(Recorded(counts, j)) == Value(counts, j)
  {
    hide Value;
  }

  /** All start codes the decoder reads are canonical exactly if no count above 127 precedes a used length. */
  lemma StartsAreCanonicalIff(counts: Counts)
    requires Kraft(counts)
    ensures (forall j | 1 <= j <= 16 && CountOf(counts, j) != 0 ::
               InNetworkOrder(Recorded(counts, j)) == First(counts, j))
       <==> (forall j | 1 <= j <= 16 && CountOf(counts, j) != 0 :: SmallBefore(counts, j))
  {
    hide Value, First, SmallBefore, Kraft, Recorded, InNetworkOrder;
    forall j | 1 <= j <= 16 && CountOf(counts, j) != 0
      ensures InNetworkOrder(Recorded(counts, j)) == First(counts, j) <==> SmallBefore(counts, j)
    {
      RecordedValue(counts, j);
      ValueAgainstFirst(counts, j);
    }
  }

  /** 128 codes of length 8 and one of length 9. */
  const CROWDED: Counts := [0, 0, 0, 0, 0, 0, 0, 128, 1, 0, 0, 0, 0, 0, 0, 0]

  /** A count of 128 is read as negative: the code of length 9 is recorded as 0, not 256. */
  lemma LargeCountMissesStart()
    ensures Kraft(CROWDED) && CountOf(CROWDED, 9) == 1
    ensures InNetworkOrder(Recorded(CROWDED, 9)) == 0 && First(CROWDED, 9) == 256
  {
    hide Weight, Value, Recorded, InNetworkOrder, Ntohs;
    CrowdedWeights();
    NoCodesYet(CROWDED, 8);
    NextValue(CROWDED, 8);
    RecordedValue(CROWDED, 9);
  }

  lemma CrowdedWeights()
    ensures Weight(CROWDED, 9, 8) == 256 && Weight(CROWDED, 16, 16) <= Pow2(16)
  {
    hide Weight, Pow2;
    SmallPowers();
    WeightStays(CROWDED, 16, 0, 7);
    WeightStays(CROWDED, 9, 0, 7);
    WeightStays(CROWDED, 16, 9, 16);
    NextWeight(CROWDED, 16, 8);
    NextWeight(CROWDED, 16, 9);
    NextWeight(CROWDED, 9, 8);
  }

  lemma NextWeight(counts: Counts, i: nat, j: nat)
    requires 1 <= j <= i <= 16
    ensures Weight(counts, i, j) == Weight(counts, i, j - 1) + CountOf(counts, j) * Pow2(i - j)
  {
  }

  lemma {:induction false} WeightStays(counts: Counts, i: nat, j: nat, j': nat)
    requires j <= j' <= i <= 16 && forall k | j < k <= j' :: CountOf(counts, k) == 0
    ensures Weight(counts, i, j') == Weight(counts, i, j) && Weight(counts, i, 0) == 0
    decreases j'
  {
    if j < j' {
      WeightStays(counts, i, j, j' - 1);
    }
  }

  lemma {:induction false} NoCodesYet(counts: Counts, i: nat)
    requires 1 <= i <= 16 && forall k | 1 <= k < i :: CountOf(counts, k) == 0
    ensures Value(counts, i) == 0
  {
    if i > 1 {
      NoCodesYet(counts, i - 1);
    }
  }

  // ---------------------------------------------------------------------- end of the scan

  /** An EOI marker ends at index p. */
  predicate EndsAt(file: seq<Byte>, p: int) {
    1 <= p < |file| && file[p] == 0xD9 && file[p - 1] == 0xFF
  }

  /**
   getFileEnd2: the length of the scan data from pos to the last EOI marker up to endPos. Without
   one the program reads on before the file's first byte; the model stops there.
   */
  method GetFileEnd2(file: seq<Byte>, pos: int, endPos: int) returns (len: Option<int>)
    requires 0 <= endPos < |file|
    ensures len.Some? <==> exists p :: p <= endPos && EndsAt(file, p)
    ensures len.Some? ==>
              var last := pos + len.value - 1;
              EndsAt(file, last) && last <= endPos && forall p | last < p <= endPos :: !EndsAt(file, p)
  {
    var at, length := endPos, 0;
    while at >= 0
      invariant -1 <= at == endPos - length
      invariant forall q | at < q <= endPos :: !EndsAt(file, q)
      decreases at
    {
      var found := file[at] == 0xD9;
      at := at - 1;
      if found && at >= 0 && file[at] == 0xFF {
        assert EndsAt(file, at + 1);
        return Some(endPos - length - pos + 1);
      }
      length := length + 1;
    }
    len := None;
  }

  // ---------------------------------------------------------------------------- padding

  const DATA_MOD := 16

  /** bytes, then only 0xFF up to a whole number of 16-byte blocks. */
  predicate Padded(bytes: seq<Byte>, padded: seq<Byte>) {
    && bytes <= padded && |padded| % 16 == 0
    && forall i | |bytes| <= i < |padded| :: padded[i] == 0xFF
  }

  /** The scan data gets the fewest bytes that complete its last block. */
  method PadScan(scan: seq<Byte>) returns (data: array<Byte>, blocks: nat)
    ensures fresh(data) && Padded(scan, data[..])
    ensures data.Length == 16 * blocks < |scan| + 16
  {
    var mod := |scan| % DATA_MOD;
    var len := if mod != 0 then |scan| + (DATA_MOD - mod) else |scan|;
    data := new Byte[len](i requires 0 <= i < len => if i < |scan| then scan[i] else 0xFF);
    assert data[..|scan|] == scan;
    blocks := len / DATA_MOD;
  }

  /** The Huffman tables get at least one byte: a whole extra block when they already end on a boundary. */
  method PadTables(tables: seq<Byte>) returns (padded: seq<Byte>)
    requires tables != []
    ensures Padded(tables, padded)
    ensures |tables| < |padded| <= |tables| + 16
    ensures |padded| == |tables| + 16 <==> |tables| % 16 == 0
  {
    var num := DATA_MOD - |tables| % DATA_MOD;
    padded := tables;
    while num > 0
      invariant 0 <= num && tables <= padded && |padded| + num == |tables| + (DATA_MOD - |tables| % DATA_MOD)
      invariant forall i | |tables| <= i < |padded| :: padded[i] == 0xFF
    {
      num := num - 1;
      padded := padded + [0xFF];
    }
  }
}
