/** Register lookup in a bit-packed index table, as the two device layers implement it. */
module RegLookup {
  import opened Bytes
  import opened Powers
  import opened Wrappers

  type int32 = n: int | -0x8000_0000 <= n < 0x8000_0000

  datatype Status = ErrNone | ErrNorm | ErrRegIndexInvalid

  // ------------------------------------------------------------------- operations on int32

  /** n >> s on a two's complement integer. */
  function ShiftRight(n: int, s: nat): int {
    n / Pow2(s)
  }

  /** n & ((1 << m) - 1) on a two's complement integer. */
  function LowBits(n: int, m: nat): nat {
    n % Pow2(m)
  }

  /** low | (high << t) where low has no bits from t on. */
  function JoinBits(low: int, high: nat, t: nat): int {
    low + Pow2(t) * high
  }

  function Unsigned(w: int32): uint32 {
    w % WORD
  }

  /** The i-th index, from one word of the table or straddling two. */
  function Extract(mapped: seq<int32>, bits: nat, i: nat): int
    requires 1 <= bits <= 31 && TableFits(mapped, bits, i + 1)
  {
    var at := i * bits / 32 + 1;
    var shift := i * bits % 32;
    LastWordFits(mapped, bits, i);
    if shift + bits > 32 then
      JoinBits(LowBits(ShiftRight(mapped[at], shift), 32 - shift), LowBits(mapped[at + 1], shift + bits - 32), 32 - shift)
    else
      LowBits(ShiftRight(mapped[at], shift), bits)
  }

  /** The words after the header hold num fields of the given width. */
  predicate TableFits(mapped: seq<int32>, bits: nat, num: nat) {
    num * bits <= 32 * (|mapped| - 1)
  }

  lemma LastWordFits(mapped: seq<int32>, bits: nat, i: nat)
    requires 1 <= bits && TableFits(mapped, bits, i + 1)
    ensures i * bits / 32 + 1 < |mapped|
    ensures i * bits % 32 + bits > 32 ==> i * bits / 32 + 2 < |mapped|
  {
    var n := i * bits;
    assert (i + 1) * bits == n + bits;
    assert n == 32 * (n / 32) + n % 32;
  }

  // --------------------------------------------------------- the table as one number

  /** The words read as one little-endian number. */
  function Number(words: seq<int32>): nat {
    if words == [] then 0 else Unsigned(words[0]) + WORD * Number(words[1..])
  }

  lemma {:induction false} DropWords(words: seq<int32>, q: nat)
    requires q <= |words|
    ensures Number(words) / Pow2(32 * q) == Number(words[q..])
  {
    if q == 0 {
      assert words[0..] == words && Pow2(0) == 1;
    } else {
      DropWords(words[1..], q - 1);
      assert words[1..][q - 1..] == words[q..];
      SmallPowers();
      PowersMultiply(32, 32 * (q - 1));
      Divided(Number(words), WORD, Number(words[1..]), Unsigned(words[0]));
      DivideTwice(Number(words), WORD, Pow2(32 * (q - 1)));
    }
  }

  /** Bits of a word are the same read as signed or unsigned. */
  lemma SignedBits(w: int32, s: nat)
    requires s <= 32
    ensures LowBits(ShiftRight(w, s), 32 - s) == ShiftRight(Unsigned(w), s)
  {
    hide Pow2;
    SmallPowers();
    PowersMultiply(s, 32 - s);
    var e := w / WORD;
    assert w == Unsigned(w) + Pow2(s) * Pow2(32 - s) * e;
    QuotientOfReduced(Unsigned(w), Pow2(s), Pow2(32 - s), e);
  }

  /** b bits of a number from bit s on. */
  function Bits(n: nat, s: nat, b: nat): nat {
    n / Pow2(s) % Pow2(b)
  }

  /** A field inside the low word of a number. */
  lemma FieldInWord(u: uint32, rest: nat, s: nat, b: nat)
    requires s + b <= 32
    ensures Bits(u + WORD * rest, s, b) == LowBits(ShiftRight(u, s), b)
  {
    WordSplits(s);
    PowersMultiply(b, 32 - s - b);
    hide Pow2;
    FieldBelow(u, Pow2(s), Pow2(b), Pow2(32 - s - b), rest);
  }

  lemma WordSplits(s: nat)
    requires s <= 32
    ensures WORD == Pow2(s) * Pow2(32 - s)
  {
    hide Pow2;
    SmallPowers();
    PowersMultiply(s, 32 - s);
  }

  /** A field that continues in the next word. */
  lemma FieldAcrossWords(u: uint32, v: uint32, rest: nat, s: nat, b: nat)
    requires s < 32 < s + b && b < 32
    ensures Bits(u + WORD * (v + WORD * rest), s, b)
         == JoinBits(ShiftRight(u, s), LowBits(v, s + b - 32), 32 - s)
  {
    hide Pow2;
    WordSplits(s);
    WordSplits(s + b - 32);
    PowersMultiply(32 - s, s + b - 32);
    FieldAcross(u, v, Pow2(s), Pow2(32 - s), Pow2(s + b - 32), Pow2(64 - s - b), rest);
  }

  /** Bits i * bits to (i + 1) * bits of a number. */
  function Field(n: nat, bits: nat, i: nat): nat {
    Bits(n, i * bits, bits)
  }

  /** The words from one on, as a number. */
  lemma NumberSplits(words: seq<int32>, q: nat)
    requires q < |words|
    ensures Number(words[q..]) == Unsigned(words[q]) + WORD * Number(words[q + 1..])
  {
    assert words[q..][1..] == words[q + 1..];
  }

  /** Dropping whole words first leaves a field's bits. */
  lemma FieldStart(words: seq<int32>, bits: nat, i: nat)
    requires i * bits / 32 <= |words|
    ensures Field(Number(words), bits, i) == Bits(Number(words[i * bits / 32..]), i * bits % 32, bits)
  {
    hide Pow2, Number;
    var q, s := i * bits / 32, i * bits % 32;
    assert i * bits == 32 * q + s;
    DropWords(words, q);
    PowersMultiply(32 * q, s);
    DivideTwice(Number(words), Pow2(32 * q), Pow2(s));
  }

  lemma ExtractWithin(w: int32, rest: nat, s: nat, bits: nat)
    requires s + bits <= 32
    ensures LowBits(ShiftRight(w, s), bits) == Bits(Unsigned(w) + WORD * rest, s, bits)
  {
    hide Pow2, Bits, LowBits, ShiftRight, Unsigned;
    SignedBits(w, s);
    FewerBits(ShiftRight(w, s), bits, 32 - s);
    FieldInWord(Unsigned(w), rest, s, bits);
  }

  lemma ExtractAcross(w: int32, v: int32, rest: nat, s: nat, bits: nat)
    requires s < 32 < s + bits && bits < 32
    ensures JoinBits(LowBits(ShiftRight(w, s), 32 - s), LowBits(v, s + bits - 32), 32 - s)
         == Bits(Unsigned(w) + WORD * (Unsigned(v) + WORD * rest), s, bits)
  {
    hide Pow2, Bits, LowBits, ShiftRight, Unsigned, JoinBits;
    SignedBits(w, s);
    LowBitsUnsigned(v, s + bits - 32);
    FieldAcrossWords(Unsigned(w), Unsigned(v), rest, s, bits);
  }

  /** Every extracted index is its field of the table read as one number. */
  lemma ExtractIsField(mapped: seq<int32>, bits: nat, i: nat)
    requires 1 <= bits <= 31 && TableFits(mapped, bits, i + 1)
    ensures Extract(mapped, bits, i) == Field(Number(mapped[1..]), bits, i)
  {
    hide Pow2, Number, Unsigned, JoinBits, LowBits, ShiftRight;
    var words, n := mapped[1..], i * bits;
    LastWordFits(mapped, bits, i);
    FieldStart(words, bits, i);
    var q, s := n / 32, n % 32;
    NumberSplits(words, q);
    if s + bits > 32 {
      NumberSplits(words, q + 1);
      ExtractAcross(words[q], words[q + 1], Number(words[q + 2..]), s, bits);
    } else {
      ExtractWithin(words[q], Number(words[q + 1..]), s, bits);
    }
  }

  /** Masking more narrowly after a wider mask is the narrow mask. */
  lemma FewerBits(n: int, b: nat, wide: nat)
    requires b <= wide
    ensures LowBits(n, b) == LowBits(LowBits(n, wide), b)
  {
    hide Pow2;
    PowersMultiply(b, wide - b);
    var p, k := Pow2(b), Pow2(wide - b);
    var high := n / (p * k);
    assert n == n % (p * k) + p * (k * high) by { assert n == high * (p * k) + n % (p * k); }
    DropMultiple(n % (p * k), p, k * high);
  }

  lemma LowBitsUnsigned(w: int32, b: nat)
    requires b <= 32
    ensures LowBits(w, b) == LowBits(Unsigned(w), b)
  {
    hide Pow2;
    SmallPowers();
    FewerBits(w, b, 32);
  }

  // ------------------------------------------------------------------------------ packing

  /** The number that holds the given indices side by side. */
  function Packed(indices: seq<nat>, bits: nat): nat {
    if indices == [] then 0 else indices[0] + Pow2(bits) * Packed(indices[1..], bits)
  }

  lemma {:induction false} PackedField(indices: seq<nat>, bits: nat, i: nat)
    requires i < |indices| && forall k | 0 <= k < |indices| :: indices[k] < Pow2(bits)
    ensures Field(Packed(indices, bits), bits, i) == indices[i]
  {
    hide Pow2;
    var n, p, rest := Packed(indices, bits), Pow2(bits), Packed(indices[1..], bits);
    assert n == indices[0] + p * rest;
    Divided(n, p, rest, indices[0]);
    if i == 0 {
      SmallPowers();
    } else {
      PackedField(indices[1..], bits, i - 1);
      assert i * bits == bits + (i - 1) * bits;
      PowersMultiply(bits, (i - 1) * bits);
      DivideTwice(n, p, Pow2((i - 1) * bits));
    }
  }

  /** Unpacking inverts packing. */
  lemma UnpackPacked(mapped: seq<int32>, bits: nat, indices: seq<nat>, i: nat)
    requires 1 <= bits <= 31 && TableFits(mapped, bits, |indices|) && i < |indices|
    requires Number(mapped[1..]) == Packed(indices, bits)
    requires forall k | 0 <= k < |indices| :: indices[k] < Pow2(bits)
    ensures TableFits(mapped, bits, i + 1) && Extract(mapped, bits, i) == indices[i]
  {
    hide Pow2, Number, Packed, Extract, Field;
    FewerFieldsFit(mapped, bits, i + 1, |indices|);
    ExtractIsField(mapped, bits, i);
    PackedField(indices, bits, i);
  }

  lemma FewerFieldsFit(mapped: seq<int32>, bits: nat, n: nat, num: nat)
    requires n <= num && TableFits(mapped, bits, num)
    ensures TableFits(mapped, bits, n)
  {
    RowsAscend(n, num, bits);
  }

  // ------------------------------------------------------------------------------ readers

  /** The first 32-bit word of the mapping holds the width, the count and the table length. */
  datatype Header = Header(bits: nat, num: nat, words: nat)

  ghost predicate HeaderFits(h: Header, mapped: seq<int32>) {
    1 <= h.bits <= 31 && TableFits(mapped, h.bits, h.num) && 1 + h.words + h.num <= |mapped|
  }

  function IndexAt(h: Header, mapped: seq<int32>, i: nat): int
    requires HeaderFits(h, mapped) && i < h.num
  {
    FewerFieldsFit(mapped, h.bits, i + 1, h.num);
    Extract(mapped, h.bits, i)
  }

  function DataAt(h: Header, mapped: seq<int32>, i: nat): int32
    requires HeaderFits(h, mapped) && i < h.num
  {
    mapped[1 + h.words + i]
  }

  /** The first entry from i on with the index. */
  function FirstFrom(h: Header, mapped: seq<int32>, regIndex: uint32, i: nat): (at: Option<nat>)
    requires HeaderFits(h, mapped) && i <= h.num
    ensures at.Some? ==> i <= at.value < h.num && IndexAt(h, mapped, at.value) == regIndex
    ensures forall k: nat | i <= k < (if at.Some? then at.value else h.num) :: IndexAt(h, mapped, k) != regIndex
    decreases h.num - i
  {
    if i == h.num then None
    else if IndexAt(h, mapped, i) == regIndex then Some(i)
    else FirstFrom(h, mapped, regIndex, i + 1)
  }

  /** The last entry before n with the index. */
  function LastBefore(h: Header, mapped: seq<int32>, regIndex: uint32, n: nat): (at: Option<nat>)
    requires HeaderFits(h, mapped) && n <= h.num
    ensures at.Some? ==> at.value < n && IndexAt(h, mapped, at.value) == regIndex
    ensures forall k: nat | (if at.Some? then at.value + 1 else 0) <= k < n :: IndexAt(h, mapped, k) != regIndex
  {
    if n == 0 then None
    else if IndexAt(h, mapped, n - 1) == regIndex then Some(n - 1)
    else LastBefore(h, mapped, regIndex, n - 1)
  }

  function DataOr(h: Header, mapped: seq<int32>, at: Option<nat>, default: int32): int32
    requires HeaderFits(h, mapped) && (at.Some? ==> at.value < h.num)
  {
    match at case None => default case Some(i) => DataAt(h, mapped, i)
  }

  /** shm: getRegs stops at the first entry with the index. */
  method GetRegs(h: Header, mapped: seq<int32>, regIndex: uint32, dataIn: int32) returns (ret: Status, dataOut: int32)
    requires HeaderFits(h, mapped)
    ensures ret == if FirstFrom(h, mapped, regIndex, 0).Some? then ErrNone else ErrRegIndexInvalid
    ensures dataOut == DataOr(h, mapped, FirstFrom(h, mapped, regIndex, 0), dataIn)
  {
    hide IndexAt, HeaderFits;
    ret, dataOut := ErrRegIndexInvalid, dataIn;
    var i := 0;
    while i < h.num
      invariant 0 <= i <= h.num && ret == ErrRegIndexInvalid && dataOut == dataIn
      invariant FirstFrom(h, mapped, regIndex, 0) == FirstFrom(h, mapped, regIndex, i)
    {
      if IndexAt(h, mapped, i) == regIndex {
        dataOut := DataAt(h, mapped, i);
        ret := ErrNone;
        break;
      }
      i := i + 1;
    }
  }

  /** xdma: the loop runs on, so the last entry with the index wins, and a miss is not reported. */
  method XdmaReadReg(h: Header, mapped: seq<int32>, regIndex: uint32, dataIn: int32) returns (ret: Status, dataOut: int32)
    requires HeaderFits(h, mapped)
    ensures ret == if h.num == 0 then ErrNorm else ErrNone
    ensures dataOut == DataOr(h, mapped, LastBefore(h, mapped, regIndex, h.num), dataIn)
  {
    hide IndexAt, HeaderFits;
    dataOut := dataIn;
    if h.num == 0 {
      ret := ErrNorm;
      return;
    }
    ret := ErrNone;
    var i := 0;
    while i < h.num
      invariant 0 <= i <= h.num
      invariant dataOut == DataOr(h, mapped, LastBefore(h, mapped, regIndex, i), dataIn)
    {
      if IndexAt(h, mapped, i) == regIndex {
        dataOut := DataAt(h, mapped, i);
      }
      i := i + 1;
    }
  }

  /** Both readers find the same entry, or none, exactly if the index is not in the table twice. */
  lemma ReadersAgreeIff(h: Header, mapped: seq<int32>, regIndex: uint32)
    requires HeaderFits(h, mapped)
    ensures FirstFrom(h, mapped, regIndex, 0) == LastBefore(h, mapped, regIndex, h.num)
       <==> forall i: nat, k: nat | i < k < h.num && IndexAt(h, mapped, i) == regIndex :: IndexAt(h, mapped, k) != regIndex
  {
    hide IndexAt, HeaderFits;
    var first, last := FirstFrom(h, mapped, regIndex, 0), LastBefore(h, mapped, regIndex, h.num);
    if first != last {
      assert first.value < last.value;
      assert IndexAt(h, mapped, first.value) == regIndex && IndexAt(h, mapped, last.value) == regIndex;
    }
  }

  // --------------------------------------------------------------------- a table as written

  lemma {:induction false} NumberJoins(a: seq<int32>, b: seq<int32>)
    ensures Number(a + b) == Number(a) + Pow2(32 * |a|) * Number(b)
    decreases |a|
  {
    hide Pow2, Unsigned;
    SmallPowers();
    if a == [] {
      assert a + b == b && Pow2(0) == 1;
    } else {
      assert (a + b)[1..] == a[1..] + b;
      NumberJoins(a[1..], b);
      PowersMultiply(32, 32 * |a[1..]|);
      Regroup(Unsigned(a[0]), WORD, Number(a[1..]), Pow2(32 * |a[1..]|), Number(b));
    }
  }

  lemma Regroup(u: nat, word: nat, n: nat, p: nat, m: nat)
    ensures u + word * (n + p * m) == u + word * n + word * p * m
  {
  }

  /** What lies behind a field does not matter to it. */
  lemma FieldIgnoresRest(n: nat, m: nat, s: nat, b: nat, t: nat)
    requires s + b <= t
    ensures Bits(n + Pow2(t) * m, s, b) == Bits(n, s, b)
  {
    hide Pow2, Bits;
    PowerOfThree(s, b, t - s - b);
    BitsAre(n, s, b);
    BitsAre(n + Pow2(t) * m, s, b);
    FieldBelow(n, Pow2(s), Pow2(b), Pow2(t - s - b), m);
  }

  lemma BitsAre(n: nat, s: nat, b: nat)
    ensures Bits(n, s, b) == n / Pow2(s) % Pow2(b)
  {
  }

  lemma PowerOfThree(a: nat, b: nat, c: nat)
    ensures Pow2(a + b + c) == Pow2(a) * (Pow2(b) * Pow2(c))
  {
    hide Pow2;
    PowersMultiply(b, c);
    PowersMultiply(a, b + c);
  }

  /** A header word, the packed indices in as many words as it says, and one data word per index. */
  predicate Table(h: Header, mapped: seq<int32>, words: seq<int32>, indices: seq<nat>, data: seq<int32>) {
    && 1 <= h.bits <= 31 && h.words == |words| && h.num == |indices| == |data|
    && h.num * h.bits <= 32 * |words|
    && Number(words) == Packed(indices, h.bits)
    && (forall k | 0 <= k < |indices| :: indices[k] < Pow2(h.bits))
    && |mapped| == 1 + |words| + |data| && mapped[1..1 + |words|] == words && mapped[1 + |words|..] == data
  }

  lemma TableIsReadable(h: Header, mapped: seq<int32>, words: seq<int32>, indices: seq<nat>, data: seq<int32>)
    requires Table(h, mapped, words, indices, data)
    ensures HeaderFits(h, mapped)
  {
  }

  /** Entry i of a table is its i-th index with its i-th data word. */
  lemma EntryOfTable(h: Header, mapped: seq<int32>, words: seq<int32>, indices: seq<nat>, data: seq<int32>, i: nat)
    requires Table(h, mapped, words, indices, data) && i < h.num
    ensures HeaderFits(h, mapped) && IndexAt(h, mapped, i) == indices[i] && DataAt(h, mapped, i) == data[i]
  {
    hide Pow2, Number, Packed, Extract, Field;
    TableIsReadable(h, mapped, words, indices, data);
    FewerFieldsFit(mapped, h.bits, i + 1, h.num);
    ExtractIsField(mapped, h.bits, i);
    assert mapped[1..] == words + data;
    NumberJoins(words, data);
    FieldEnds(i, h.bits, h.num, 32 * |words|);
    FieldOfSum(Number(words), Number(data), h.bits, i, 32 * |words|);
    PackedField(indices, h.bits, i);
  }

  lemma FieldEnds(i: nat, bits: nat, num: nat, limit: nat)
    requires i < num && num * bits <= limit
    ensures i * bits + bits <= limit
  {
    RowsAscend(i + 1, num, bits);
    assert (i + 1) * bits == i * bits + bits;
  }

  lemma FieldOfSum(n: nat, m: nat, bits: nat, i: nat, t: nat)
    requires i * bits + bits <= t
    ensures Field(n + Pow2(t) * m, bits, i) == Field(n, bits, i)
  {
    FieldIgnoresRest(n, m, i * bits, bits, t);
  }

  /** The first reader finds the data beside the first occurrence of an index, and nothing if there is none. */
  lemma FirstOfTable(h: Header, mapped: seq<int32>, words: seq<int32>, indices: seq<nat>, data: seq<int32>,
                     regIndex: uint32, dataIn: int32)
    requires Table(h, mapped, words, indices, data)
    ensures HeaderFits(h, mapped)
    ensures var at := FirstFrom(h, mapped, regIndex, 0);
            && (at.None? <==> regIndex !in indices)
            && (at.None? ==> DataOr(h, mapped, at, dataIn) == dataIn)
            && (at.Some? ==> indices[at.value] == regIndex && regIndex !in indices[..at.value]
                             && DataOr(h, mapped, at, dataIn) == data[at.value])
  {
    hide IndexAt, HeaderFits, Table, DataAt;
    TableIsReadable(h, mapped, words, indices, data);
    TableLength(h, mapped, words, indices, data);
    forall i: nat | i < h.num
      ensures IndexAt(h, mapped, i) == indices[i] && DataAt(h, mapped, i) == data[i]
    {
      EntryOfTable(h, mapped, words, indices, data, i);
    }
  }

  lemma TableLength(h: Header, mapped: seq<int32>, words: seq<int32>, indices: seq<nat>, data: seq<int32>)
    requires Table(h, mapped, words, indices, data)
    ensures |indices| == |data| == h.num
  {
  }
}
