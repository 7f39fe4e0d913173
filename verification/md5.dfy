/** The streaming MD5 digest of RFC 1321. */
module Md5 {
  import opened Bytes
  import opened Md5Compression
  import Powers

  // ---------------------------------------------------------------------- padded messages

  function Zeros(n: nat): (z: seq<Byte>)
    ensures |z| == n
  {
    seq(n, _ => 0)
  }

  function PadLength(index: nat): nat
    requires index < 64
  {
    if index < 56 then 56 - index else 120 - index
  }

  /** The bit count as two words, low word first. */
  function BitCount(n: nat): seq<Word> {
    [8 * n % WORD, 8 * n / WORD % WORD]
  }

  /** Sections 3.1 and 3.2: a one bit, zeros, and the bit count modulo 2^64. */
  function Pad(m: seq<Byte>): seq<Byte> {
    m + ([0x80] + Zeros(PadLength(|m| % 64) - 1)) + EncodeWords(BitCount(|m|))
  }

  lemma PaddedLength(m: seq<Byte>)
    ensures |Pad(m)| % 64 == 0 && |m| + 9 <= |Pad(m)| <= |m| + 72
    ensures Pad(m)[..|m|] == m
    ensures Pad(m)[|Pad(m)| - 8..] == EncodeWords(BitCount(|m|))
  {
    hide EncodeWords;
    PadLengthFits(|m|);
    var filler, count := [0x80] + Zeros(PadLength(|m| % 64) - 1), EncodeWords(BitCount(|m|));
    assert |filler| == PadLength(|m| % 64) && |count| == 8;
  }

  lemma PadLengthFits(n: nat)
    ensures (n + PadLength(n % 64) + 8) % 64 == 0
  {
  }

  /** The state after absorbing whole blocks. */
  function Absorb(f: Compression, s: State, bytes: seq<Byte>): State
    requires |bytes| % 64 == 0
    decreases |bytes|
  {
    if bytes == [] then s else Absorb(f, f(s, bytes[..64]), bytes[64..])
  }

  lemma {:induction false} AbsorbAppends(f: Compression, s: State, a: seq<Byte>, b: seq<Byte>)
    requires |a| % 64 == 0 && |b| % 64 == 0
    ensures Absorb(f, s, a + b) == Absorb(f, Absorb(f, s, a), b)
    decreases |a|
  {
    if a == [] {
      assert a + b == b;
    } else {
      assert (a + b)[..64] == a[..64] && (a + b)[64..] == a[64..] + b;
      AbsorbAppends(f, f(s, a[..64]), a[64..], b);
    }
  }

  lemma AbsorbBlock(f: Compression, s: State, a: seq<Byte>, block: seq<Byte>)
    requires |a| % 64 == 0 && |block| == 64
    ensures Absorb(f, s, a + block) == f(Absorb(f, s, a), block)
  {
    AbsorbAppends(f, s, a, block);
    assert block[..64] == block && block[64..] == [];
    assert Absorb(f, f(Absorb(f, s, a), block), []) == f(Absorb(f, s, a), block);
  }

  /** The digest of a message: all padded blocks, then the four words as bytes. */
  function Digest(f: Compression, m: seq<Byte>): seq<Byte> {
    PaddedLength(m);
    EncodeWords(StateWords(Absorb(f, INITIAL, Pad(m))))
  }

  lemma AbsorbNext(f: Compression, s: State, all: seq<Byte>, n: nat)
    requires n % 64 == 0 && n + 64 <= |all|
    ensures Absorb(f, s, all[..n + 64]) == f(Absorb(f, s, all[..n]), all[n..n + 64])
  {
    hide Compresses, Absorb;
    assert all[..n] + all[n..n + 64] == all[..n + 64];
    AbsorbBlock(f, s, all[..n], all[n..n + 64]);
  }

  function WholeBlocks(m: seq<Byte>): seq<Byte> {
    m[..|m| - |m| % 64]
  }

  function Leftover(m: seq<Byte>): seq<Byte> {
    m[|m| - |m| % 64..]
  }

  // ------------------------------------------------------------------------ the bit counter

  /** count[0] and count[1] hold eight times n modulo 2^64. */
  predicate Counts(count0: Word, count1: Word, n: nat) {
    count0 == 8 * n % WORD && count1 == 8 * n / WORD % WORD
  }

  /** The carry test on wrapped words is right, and so is the high part of the length. */
  lemma CarryIsRight(count0: Word, count1: Word, n: nat, len: Word)
    requires Counts(count0, count1, n)
    ensures var shifted := len * 8 % WORD;
            var low := (count0 + shifted) % WORD;
            var carried := if low < shifted then (count1 + 1) % WORD else count1;
            Counts(low, (carried + len / 0x2000_0000) % WORD, n + len)
  {
    var shifted := len * 8 % WORD;
    var high := len / 0x2000_0000;
    var q := 8 * n / WORD;
    var carry := if count0 + shifted >= WORD then 1 else 0;
    var low := count0 + shifted - WORD * carry;
    WordSplits(8 * n, count0, q);
    WordSplits(count0 + shifted, low, carry);
    assert len * 8 == shifted + WORD * high;
    WordSplits(8 * (n + len), low, q + high + carry);
    HighWord(q, carry, high);
  }

  lemma WordSplits(x: nat, low: Word, high: nat)
    ensures x == low + WORD * high <==> x % WORD == low && x / WORD == high
  {
  }

  lemma HighWord(q: nat, carry: nat, high: nat)
    requires carry <= 1
    ensures ((if carry == 1 then (q % WORD + 1) % WORD else q % WORD) + high) % WORD == (q + high + carry) % WORD
  {
  }

  lemma IndexIsLeftover(count0: Word, count1: Word, n: nat)
    requires Counts(count0, count1, n)
    ensures count0 / 8 % 64 == n % 64
  {
    var q := 8 * n / WORD;
    assert 8 * n == count0 + WORD * q;
    var m := n - 0x2000_0000 * q;
    assert count0 == 8 * m;
    Powers.DropMultiple(m, 64, 0x80_0000 * q);
  }

  /**
   The longest update whose block loop does not wrap i + 64: exactly those lengths, for a
   buffer holding index bytes.
   */
  predicate NoWrap(len: nat, index: nat)
    requires index < 64
  {
    len < WORD - 64 + (64 - index) % 64
  }

  lemma NoWrapIff(len: nat, index: nat)
    requires index < 64
    ensures NoWrap(len, index) <==> forall m: nat | 64 - index + 64 * m <= len :: 64 - index + 64 * m + 64 < WORD
  {
    if !NoWrap(len, index) {
      var m := if index == 0 then 0x3FF_FFFE else 0x3FF_FFFF;
      assert 64 - index + 64 * m <= len && !(64 - index + 64 * m + 64 < WORD);
    }
  }

  /** The test of the block loop before its k-th turn, in 32-bit arithmetic. */
  predicate LoopsOn(len: nat, index: nat, k: nat)
    requires index < 64
  {
    ((64 - index + 64 * k) % WORD + 64) % WORD <= len
  }

  /** The block loop of an update that reaches it ends if and only if the length does not make it wrap. */
  lemma BlockLoopEndsIff(len: uint32, index: nat)
    requires index < 64 && len >= 64 - index
    ensures NoWrap(len, index) <==> exists k :: !LoopsOn(len, index, k)
  {
    hide LoopsOn;
    if NoWrap(len, index) {
      LastBlock(len, index);
    } else {
      forall k: nat
        ensures LoopsOn(len, index, k)
      {
        WrapsBelow(index, k, len);
      }
    }
  }

  /** The block loop of an update of 2^32 - 64 bytes on an empty buffer goes on at every turn. */
  lemma EndlessUpdate(k: nat)
    ensures !NoWrap(WORD - 64, 0) && LoopsOn(WORD - 64, 0, k)
  {
    WrapsBelow(0, k, WORD - 64);
  }

  lemma LastBlock(len: uint32, index: nat)
    requires index < 64 && len >= 64 - index && NoWrap(len, index)
    ensures !LoopsOn(len, index, (len - (64 - index)) / 64)
  {
    NoWrapAt(len, index, (len - (64 - index)) / 64);
  }

  lemma WrapsBelow(index: nat, k: nat, len: nat)
    requires index < 64 && len >= WORD - 64 + (64 - index) % 64
    ensures LoopsOn(len, index, k)
  {
    var partLen := 64 - index;
    var v := (partLen + 64 * k) % WORD;
    SameLowBits(partLen + 64 * k);
    Powers.DropMultiple(partLen, 64, k);
    SameLowBits(v + 64);
    Powers.DropMultiple(v, 64, 1);
    BelowTop((v + 64) % WORD);
  }

  lemma BelowTop(u: uint32)
    ensures u <= WORD - 64 + u % 64
  {
  }

  lemma SameLowBits(n: nat)
    ensures n % WORD % 64 == n % 64
  {
    var q := n / WORD;
    Powers.DropMultiple(n % WORD, 64, 0x400_0000 * q);
  }

  lemma ShortNeverWraps(len: nat, index: nat)
    requires index < 64 && len <= 64
    ensures NoWrap(len, index)
  {
  }

  const PADDING: seq<Byte> := [0x80] + Zeros(63)

  lemma WholeMessage(m: seq<Byte>)
    requires |m| % 64 == 0
    ensures WholeBlocks(m) == m
  {
  }

  lemma NoWrapAt(len: nat, index: nat, m: nat)
    requires index < 64 && NoWrap(len, index) && 64 - index + 64 * m <= len
    ensures 64 - index + 64 * m + 64 < WORD
    ensures (64 - index + 64 * m + 64) % WORD == 64 - index + 64 * m + 64
  {
  }

  /** state is what the whole blocks of bytes leave. */
  ghost predicate StandsFor(f: Compression, state: State, bytes: seq<Byte>) {
    |bytes| % 64 == 0 && state == Absorb(f, INITIAL, bytes)
  }

  lemma FirstBlock(f: Compression, state: State, m: seq<Byte>, input: seq<Byte>)
    requires StandsFor(f, state, WholeBlocks(m)) && |input| >= 64 - |m| % 64
    ensures var n := 64 - |m| % 64;
            StandsFor(f, f(state, Leftover(m) + input[..n]), (m + input)[..|m| + n])
  {
    hide Absorb;
    var all, whole := m + input, |m| - |m| % 64;
    assert all[..whole] == WholeBlocks(m);
    assert all[whole..whole + 64] == Leftover(m) + input[..64 - |m| % 64];
    AbsorbNext(f, INITIAL, all, whole);
  }

  lemma InputBlock(f: Compression, state: State, m: seq<Byte>, input: seq<Byte>, i: nat)
    requires i + 64 <= |input| && StandsFor(f, state, (m + input)[..|m| + i])
    ensures StandsFor(f, f(state, input[i..i + 64]), (m + input)[..|m| + i + 64])
  {
    hide Absorb;
    AbsorbNext(f, INITIAL, m + input, |m| + i);
    InputSlice(m, input, i);
  }

  /** MD5_CTX; absorbed is the message so far. */
  class Md5Context {
    var count0: Word
    var count1: Word
    var state: State
    const buffer: array<Byte>
    ghost var absorbed: seq<Byte>
    ghost const f: Compression

    ghost predicate Valid()
      reads this, buffer
    {
      && buffer.Length == 64 && Compresses(f)
      && Counts(count0, count1, |absorbed|)
      && StandsFor(f, state, WholeBlocks(absorbed))
      && buffer[..|absorbed| % 64] == Leftover(absorbed)
    }

    /** MD5Init */
    constructor (ghost f: Compression)
      requires Compresses(f)
      ensures Valid() && absorbed == [] && fresh(buffer) && this.f == f
    {
      this.f := f;
      count0, count1 := 0, 0;
      state := INITIAL;
      buffer := new Byte[64];
      absorbed := [];
    }

    method CopyIn(at: nat, bytes: seq<Byte>)
      requires at + |bytes| <= buffer.Length
      modifies buffer
      ensures buffer[..at + |bytes|] == old(buffer[..at]) + bytes
    {
      ghost var kept := buffer[..at];
      for k := 0 to |bytes|
        invariant buffer[..at + k] == kept + bytes[..k]
      {
        buffer[at + k] := bytes[k];
        assert buffer[..at + k + 1] == buffer[..at + k] + [bytes[k]];
      }
      assert bytes[..|bytes|] == bytes;
    }

    /** Fills the buffer with the first bytes of the input and transforms it. */
    method AbsorbBuffer(input: seq<Byte>, index: nat)
      requires buffer.Length == 64 && Compresses(f) && index == |absorbed| % 64 && |input| >= 64 - index
      requires StandsFor(f, state, WholeBlocks(absorbed)) && buffer[..index] == Leftover(absorbed)
      modifies this`state, buffer
      ensures StandsFor(f, state, (absorbed + input)[..|absorbed| + 64 - index])
    {
      hide Compresses, StandsFor, Transform;
      CopyIn(index, input[..64 - index]);
      assert buffer[..] == buffer[..64];
      FirstBlock(f, state, absorbed, input);
      CompressionOf(f, state, buffer[..]);
      state := Md5Transform(state, buffer[..]);
    }

    /** One turn of the block loop. */
    method AbsorbOneBlock(input: seq<Byte>, i: nat)
      requires Compresses(f) && i + 64 <= |input| && StandsFor(f, state, (absorbed + input)[..|absorbed| + i])
      modifies this`state
      ensures StandsFor(f, state, (absorbed + input)[..|absorbed| + i + 64])
    {
      hide Compresses, StandsFor, Transform;
      InputBlock(f, state, absorbed, input, i);
      CompressionOf(f, state, input[i..i + 64]);
      state := Md5Transform(state, input[i..i + 64]);
    }

    /** The block loop of MD5Update; the result is where the rest of the input starts. */
    method AbsorbBlocks(input: seq<Byte>, partLen: nat) returns (i: nat)
      requires Compresses(f) && 1 <= partLen <= 64 && (|absorbed| + partLen) % 64 == 0
      requires partLen <= |input| && NoWrap(|input|, 64 - partLen)
      requires StandsFor(f, state, (absorbed + input)[..|absorbed| + partLen])
      modifies this`state
      ensures i <= |input| < i + 64 && (|absorbed| + i) % 64 == 0
      ensures StandsFor(f, state, (absorbed + input)[..|absorbed| + i])
    {
      hide Compresses, StandsFor, NoWrap;
      i := partLen;
      ghost var m := 0;
      NoWrapAt(|input|, 64 - partLen, m);
      while (i + 64) % WORD <= |input|
        invariant i == partLen + 64 * m && i <= |input| && (i + 64) % WORD == i + 64
        invariant StandsFor(f, state, (absorbed + input)[..|absorbed| + i])
        decreases |input| - i
      {
        AbsorbOneBlock(input, i);
        i, m := i + 64, m + 1;
        NoWrapAt(|input|, 64 - partLen, m);
      }
      Powers.DropMultiple(|absorbed| + partLen, 64, m);
    }

    method CountInput(inputLen: Word, ghost n: nat)
      requires Counts(count0, count1, n)
      modifies this`count0, this`count1
      ensures Counts(count0, count1, n + inputLen)
    {
      CarryIsRight(count0, count1, n, inputLen);
      var shifted := inputLen * 8 % WORD;
      count0 := (count0 + shifted) % WORD;
      if count0 < shifted {
        count1 := (count1 + 1) % WORD;
      }
      count1 := (count1 + inputLen / 0x2000_0000) % WORD;
    }

    /** The branches of MD5Update: the blocks go into the state, the rest into the buffer. */
    method AbsorbInput(input: seq<Byte>, index: nat)
      requires buffer.Length == 64 && Compresses(f) && index == |absorbed| % 64 && NoWrap(|input|, index)
      requires StandsFor(f, state, WholeBlocks(absorbed)) && buffer[..index] == Leftover(absorbed)
      modifies this`state, buffer
      ensures StandsFor(f, state, WholeBlocks(absorbed + input))
      ensures buffer[..|absorbed + input| % 64] == Leftover(absorbed + input)
    {
      hide Compresses, StandsFor, WholeBlocks, Leftover, NoWrap;
      var partLen := 64 - index;
      if |input| >= partLen {
        AbsorbBuffer(input, index);
        var i := AbsorbBlocks(input, partLen);
        RestIsLeftover(absorbed, input, i);
        CopyIn(0, input[i..]);
      } else {
        ShortInputIsLeftover(absorbed, input);
        CopyIn(index, input);
      }
    }

    /**
     MD5Update: after any update the context stands for the longer message. ends is false when
     the block loop would run for ever; the model stops before it.
     */
    method Update(input: seq<Byte>) returns (ends: bool)
      requires Valid() && |input| < WORD
      modifies this, buffer
      ensures ends <==> NoWrap(|input|, old(|absorbed|) % 64)
      ensures ends ==> Valid() && absorbed == old(absorbed) + input
    {
      hide Compresses, StandsFor, Counts, WholeBlocks, Leftover, NoWrap;
      IndexIsLeftover(count0, count1, |absorbed|);
      var index := count0 / 8 % 64;
      CountInput(|input|, |absorbed|);
      if !NoWrap(|input|, index) {
        return false;
      }
      AbsorbInput(input, index);
      absorbed := absorbed + input;
      ends := true;
    }

    /** MD5Final: whatever the updates were, the digest is that of the padded message. */
    method Final() returns (digest: seq<Byte>)
      requires Valid()
      modifies this, buffer
      ensures digest == Digest(f, old(absorbed))
    {
      hide Compresses, StandsFor, WholeBlocks, Leftover, EncodeWords, Digest, Pad, PADDING;
      ghost var m := absorbed;
      IndexIsLeftover(count0, count1, |m|);
      var index := count0 / 8 % 64;
      var padLen := if index < 56 then 56 - index else 120 - index;
      PadPieces(m);
      var bits := Md5Encode([count0, count1], 8);
      ShortNeverWraps(padLen, index);
      var ends := Update(PADDING[..padLen]);
      ShortNeverWraps(8, |absorbed| % 64);
      ends := Update(bits);
      WholeMessage(Pad(m));
      DigestOfState(f, state, m);
      digest := Md5Encode(StateWords(state), 16);
    }
  }

  /** The two updates of MD5Final complete the padded message. */
  lemma PadPieces(m: seq<Byte>)
    ensures |PADDING| == 64 && PadLength(|m| % 64) <= 64
    ensures m + PADDING[..PadLength(|m| % 64)] + EncodeWords(BitCount(|m|)) == Pad(m)
    ensures |Pad(m)| % 64 == 0
  {
    hide EncodeWords;
    PaddedLength(m);
    var n := PadLength(|m| % 64);
    assert PADDING[..n] == [0x80] + Zeros(n - 1);
  }

  lemma DigestOfState(f: Compression, state: State, m: seq<Byte>)
    requires StandsFor(f, state, Pad(m))
    ensures Digest(f, m) == EncodeWords(StateWords(state))
  {
    hide Absorb, EncodeWords, Pad;
  }

  lemma InputSlice(m: seq<Byte>, input: seq<Byte>, i: nat)
    requires i + 64 <= |input|
    ensures (m + input)[|m| + i..|m| + i + 64] == input[i..i + 64]
  {
  }

  lemma RestIsLeftover(m: seq<Byte>, input: seq<Byte>, i: nat)
    requires i <= |input| < i + 64 && (|m| + i) % 64 == 0
    ensures WholeBlocks(m + input) == (m + input)[..|m| + i]
    ensures Leftover(m + input) == input[i..] && |m + input| % 64 == |input| - i
  {
  }

  lemma ShortInputIsLeftover(m: seq<Byte>, input: seq<Byte>)
    requires |m| % 64 + |input| < 64
    ensures WholeBlocks(m + input) == WholeBlocks(m)
    ensures Leftover(m + input) == Leftover(m) + input && |m + input| % 64 == |m| % 64 + |input|
  {
    assert |m + input| % 64 == |m| % 64 + |input|;
  }

  // -------------------------------------------------------------------------- whole runs

  function Concat(chunks: seq<seq<Byte>>): seq<Byte> {
    if chunks == [] then [] else Concat(chunks[..|chunks| - 1]) + chunks[|chunks| - 1]
  }

  /** No update wraps the block loop, after the updates before it. */
  predicate ChunksFit(chunks: seq<seq<Byte>>) {
    chunks == [] ||
    var prior := chunks[..|chunks| - 1];
    ChunksFit(prior) && NoWrap(|chunks[|chunks| - 1]|, |Concat(prior)| % 64)
  }

  lemma {:induction false} PrefixFits(chunks: seq<seq<Byte>>, i: nat)
    requires ChunksFit(chunks) && i <= |chunks|
    ensures ChunksFit(chunks[..i])
    decreases |chunks|
  {
    hide NoWrap;
    if i == |chunks| {
      assert chunks[..i] == chunks;
    } else {
      var prior := chunks[..|chunks| - 1];
      PrefixFits(prior, i);
      assert prior[..i] == chunks[..i];
    }
  }

  lemma FitsOneMore(chunks: seq<seq<Byte>>, i: nat)
    requires i < |chunks|
    ensures ChunksFit(chunks[..i + 1]) <==> ChunksFit(chunks[..i]) && NoWrap(|chunks[i]|, |Concat(chunks[..i])| % 64)
    ensures ChunksFit([])
  {
    hide NoWrap;
    assert chunks[..i + 1][..i] == chunks[..i];
  }

  /**
   However a message is cut into updates, the digest is that of the whole message; ends is false
   exactly when one of the updates would run for ever.
   */
  method HashChunks(chunks: seq<seq<Byte>>, ghost f: Compression) returns (ends: bool, digest: seq<Byte>)
    requires Compresses(f) && forall c | c in chunks :: |c| < WORD
    ensures ends <==> ChunksFit(chunks)
    ensures ends ==> digest == Digest(f, Concat(chunks))
  {
    hide Digest, Concat, Compresses, NoWrap, ChunksFit;
    var context := new Md5Context(f);
    digest := [];
    NoChunks(chunks);
    for i := 0 to |chunks|
      invariant context.Valid() && context.f == f && fresh(context) && fresh(context.buffer)
      invariant context.absorbed == Concat(chunks[..i]) && ChunksFit(chunks[..i])
    {
      FitsOneMore(chunks, i);
      ends := context.Update(chunks[i]);
      if !ends {
        if ChunksFit(chunks) {
          PrefixFits(chunks, i + 1);
        }
        return;
      }
      OneMoreChunk(chunks, i);
    }
    assert chunks[..|chunks|] == chunks;
    digest := context.Final();
    ends := true;
  }

  /** The digest with the compression itself. */
  method Md5Hash(chunks: seq<seq<Byte>>) returns (ends: bool, digest: seq<Byte>)
    requires forall c | c in chunks :: |c| < WORD
    ensures ends <==> ChunksFit(chunks)
    ensures ends ==> digest == Digest(Standard, Concat(chunks))
  {
    hide Digest, Concat, Compresses, ChunksFit;
    StandardCompresses();
    ends, digest := HashChunks(chunks, Standard);
  }

  lemma NoChunks(chunks: seq<seq<Byte>>)
    ensures Concat(chunks[..0]) == [] && ChunksFit(chunks[..0])
  {
  }

  lemma OneMoreChunk(chunks: seq<seq<Byte>>, i: nat)
    requires i < |chunks|
    ensures Concat(chunks[..i + 1]) == Concat(chunks[..i]) + chunks[i]
  {
    assert chunks[..i + 1][..i] == chunks[..i];
  }

  /** Below 2^61 bytes, different messages are padded to different block sequences. */
  lemma PaddingIsInjective(m: seq<Byte>, m': seq<Byte>)
    requires |m| < 0x2000_0000_0000_0000 && |m'| < 0x2000_0000_0000_0000
    requires Pad(m) == Pad(m')
    ensures m == m'
  {
    hide EncodeWords, DecodeWords, Pad, BitCount;
    PaddedLength(m);
    PaddedLength(m');
    EncodeThenDecode(BitCount(|m|));
    EncodeThenDecode(BitCount(|m'|));
    BitCountIsInjective(|m|, |m'|);
  }

  lemma BitCountIsInjective(n: nat, n': nat)
    requires n < 0x2000_0000_0000_0000 && n' < 0x2000_0000_0000_0000 && BitCount(n) == BitCount(n')
    ensures n == n'
  {
    assert 8 * n == BitCount(n)[0] + WORD * BitCount(n)[1];
    assert 8 * n' == BitCount(n')[0] + WORD * BitCount(n')[1];
  }
}
