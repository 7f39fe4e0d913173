/** The compression step of RFC 1321 and the byte order of its words. */
module Md5Compression {
  import opened Bytes

  type Word = uint32

  datatype State = State(a: Word, b: Word, c: Word, d: Word)

  const INITIAL := State(0x67452301, 0xEFCDAB89, 0x98BADCFE, 0x10325476)

  function StateWords(s: State): seq<Word> {
    [s.a, s.b, s.c, s.d]
  }

  // -------------------------------------------------------------------------- byte order

  function EncodeWords(words: seq<Word>): (bytes: seq<Byte>)
    ensures |bytes| == 4 * |words|
  {
    if words == [] then [] else EncodeWord(words[0]) + EncodeWords(words[1..])
  }

  function DecodeWords(bytes: seq<Byte>): (words: seq<Word>)
    requires |bytes| % 4 == 0
    ensures 4 * |words| == |bytes|
    decreases |bytes|
  {
    if bytes == [] then [] else [DecodeWord(bytes[..4])] + DecodeWords(bytes[4..])
  }

  /** MD5Encode and MD5Decode invert each other on whole words. */
  lemma {:induction false} EncodeThenDecode(words: seq<Word>)
    ensures DecodeWords(EncodeWords(words)) == words
  {
    hide EncodeWord, DecodeWord;
    if words != [] {
      var head, tail := EncodeWord(words[0]), EncodeWords(words[1..]);
      assert (head + tail)[..4] == head && (head + tail)[4..] == tail;
      WordRoundTrip(words[0]);
      EncodeThenDecode(words[1..]);
    }
  }

  lemma {:induction false} DecodeThenEncode(bytes: seq<Byte>)
    requires |bytes| % 4 == 0
    ensures EncodeWords(DecodeWords(bytes)) == bytes
    decreases |bytes|
  {
    hide EncodeWord, DecodeWord;
    if bytes != [] {
      BytesRoundTrip(bytes[..4]);
      DecodeThenEncode(bytes[4..]);
      var words := DecodeWords(bytes);
      assert words[1..] == DecodeWords(bytes[4..]);
    }
  }

  lemma {:induction false} EncodeAppends(words: seq<Word>, w: Word)
    ensures EncodeWords(words + [w]) == EncodeWords(words) + EncodeWord(w)
  {
    hide EncodeWord;
    if words == [] {
      assert EncodeWords([w][1..]) == [];
    } else {
      assert (words + [w])[1..] == words[1..] + [w];
      EncodeAppends(words[1..], w);
    }
  }

  lemma {:induction false} DecodeAppends(bytes: seq<Byte>, b: seq<Byte>)
    requires |bytes| % 4 == 0 && |b| == 4
    ensures DecodeWords(bytes + b) == DecodeWords(bytes) + [DecodeWord(b)]
    decreases |bytes|
  {
    hide DecodeWord;
    if bytes == [] {
      assert bytes + b == b && b[..4] == b && b[4..] == [];
    } else {
      assert (bytes + b)[..4] == bytes[..4] && (bytes + b)[4..] == bytes[4..] + b;
      DecodeAppends(bytes[4..], b);
    }
  }

  /** MD5Encode, with len the number of bytes. */
  method Md5Encode(input: seq<Word>, len: nat) returns (output: seq<Byte>)
    requires len == 4 * |input|
    ensures output == EncodeWords(input)
  {
    hide EncodeWord;
    output := [];
    var i, j := 0, 0;
    while j < len
      invariant 0 <= i <= |input| && j == 4 * i && output == EncodeWords(input[..i])
    {
      output := output + EncodeWord(input[i]);
      EncodeAppends(input[..i], input[i]);
      assert input[..i + 1] == input[..i] + [input[i]];
      i, j := i + 1, j + 4;
    }
    assert input[..i] == input;
  }

  /** MD5Decode, with len the number of bytes. */
  method Md5Decode(input: seq<Byte>, len: nat) returns (output: seq<Word>)
    requires len == |input| && len % 4 == 0
    ensures output == DecodeWords(input)
  {
    hide DecodeWord, DecodeWords;
    NoWords();
    output := [];
    var j := 0;
    while j < len
      invariant 0 <= j <= len && j % 4 == 0 && output == DecodeWords(input[..j])
    {
      FourMoreBytes(input, j);
      output := output + [DecodeWord(input[j..j + 4])];
      j := j + 4;
    }
    assert input[..j] == input;
  }

  lemma FourMoreBytes(input: seq<Byte>, j: nat)
    requires j % 4 == 0 && j + 4 <= |input|
    ensures DecodeWords(input[..j + 4]) == DecodeWords(input[..j]) + [DecodeWord(input[j..j + 4])]
  {
    hide DecodeWords;
    DecodeAppends(input[..j], input[j..j + 4]);
    assert input[..j + 4] == input[..j] + input[j..j + 4];
  }

  lemma NoWords()
    ensures DecodeWords([]) == []
  {
  }

  // ----------------------------------------------------------------- the step by its table

  datatype Regs = Regs(a: Word, b: Word, c: Word, d: Word)

  function Bits(w: Word): bv32 {
    w as bv32
  }

  function Value(b: bv32): Word {
    b as int
  }

  function F(x: Word, y: Word, z: Word): Word {
    Value((Bits(x) & Bits(y)) | (!Bits(x) & Bits(z)))
  }

  function G(x: Word, y: Word, z: Word): Word {
    Value((Bits(x) & Bits(z)) | (Bits(y) & !Bits(z)))
  }

  function H(x: Word, y: Word, z: Word): Word {
    Value(Bits(x) ^ Bits(y) ^ Bits(z))
  }

  function I(x: Word, y: Word, z: Word): Word {
    Value(Bits(y) ^ (Bits(x) | !Bits(z)))
  }

  function RotateLeft(x: Word, n: nat): Word
    requires n <= 32
  {
    Value((Bits(x) << n) | (Bits(x) >> (32 - n)))
  }

  /** Addition of unsigned 32-bit integers. */
  function Add(x: int, y: int): Word {
    (x + y) % WORD
  }

  /** a := rotate(a + mix + x + ac) + b, the body of FF, GG, HH and II. */
  function Turn(a: Word, mix: Word, b: Word, x: Word, s: nat, ac: Word): Word
    requires s <= 32
  {
    Add(RotateLeft(Add(a, Add(Add(mix, x), ac)), s), b)
  }

  function FF(a: Word, b: Word, c: Word, d: Word, x: Word, s: nat, ac: Word): Word
    requires s <= 32
  {
    Turn(a, F(b, c, d), b, x, s, ac)
  }

  function GG(a: Word, b: Word, c: Word, d: Word, x: Word, s: nat, ac: Word): Word
    requires s <= 32
  {
    Turn(a, G(b, c, d), b, x, s, ac)
  }

  function HH(a: Word, b: Word, c: Word, d: Word, x: Word, s: nat, ac: Word): Word
    requires s <= 32
  {
    Turn(a, H(b, c, d), b, x, s, ac)
  }

  function II(a: Word, b: Word, c: Word, d: Word, x: Word, s: nat, ac: Word): Word
    requires s <= 32
  {
    Turn(a, I(b, c, d), b, x, s, ac)
  }

  /** Which message word step i uses (section 3.4 of RFC 1321). */
  function MessageIndex(i: nat): (k: nat)
    ensures k < 16
  {
    if i < 16 then i % 16
    else if i < 32 then (1 + 5 * i) % 16
    else if i < 48 then (5 + 3 * i) % 16
    else 7 * i % 16
  }

  /** The rotation of step i. */
  function Shift(i: nat): (s: nat)
    ensures s <= 32
  {
    if i < 16 then Pick(i % 4, 7, 12, 17, 22)
    else if i < 32 then Pick(i % 4, 5, 9, 14, 20)
    else if i < 48 then Pick(i % 4, 4, 11, 16, 23)
    else Pick(i % 4, 6, 10, 15, 21)
  }

  function Pick<X>(i: nat, p: X, q: X, r: X, s: X): X {
    if i == 0 then p else if i == 1 then q else if i == 2 then r else s
  }

  /** The table T of section 3.4, four entries at a time. */
  function T(i: nat): Word {
    if i < 16 then T1(i / 4, i % 4) else if i < 32 then T2(i / 4 - 4, i % 4)
    else if i < 48 then T3(i / 4 - 8, i % 4) else T4(i / 4 - 12, i % 4)
  }

  function T1(row: int, i: nat): Word {
    if row == 0 then Pick(i, 0xD76AA478, 0xE8C7B756, 0x242070DB, 0xC1BDCEEE)
    else if row == 1 then Pick(i, 0xF57C0FAF, 0x4787C62A, 0xA8304613, 0xFD469501)
    else if row == 2 then Pick(i, 0x698098D8, 0x8B44F7AF, 0xFFFF5BB1, 0x895CD7BE)
    else Pick(i, 0x6B901122, 0xFD987193, 0xA679438E, 0x49B40821)
  }

  function T2(row: int, i: nat): Word {
    if row == 0 then Pick(i, 0xF61E2562, 0xC040B340, 0x265E5A51, 0xE9B6C7AA)
    else if row == 1 then Pick(i, 0xD62F105D, 0x02441453, 0xD8A1E681, 0xE7D3FBC8)
    else if row == 2 then Pick(i, 0x21E1CDE6, 0xC33707D6, 0xF4D50D87, 0x455A14ED)
    else Pick(i, 0xA9E3E905, 0xFCEFA3F8, 0x676F02D9, 0x8D2A4C8A)
  }

  function T3(row: int, i: nat): Word {
    if row == 0 then Pick(i, 0xFFFA3942, 0x8771F681, 0x6D9D6122, 0xFDE5380C)
    else if row == 1 then Pick(i, 0xA4BEEA44, 0x4BDECFA9, 0xF6BB4B60, 0xBEBFBC70)
    else if row == 2 then Pick(i, 0x289B7EC6, 0xEAA127FA, 0xD4EF3085, 0x04881D05)
    else Pick(i, 0xD9D4D039, 0xE6DB99E5, 0x1FA27CF8, 0xC4AC5665)
  }

  function T4(row: int, i: nat): Word {
    if row == 0 then Pick(i, 0xF4292244, 0x432AFF97, 0xAB9423A7, 0xFC93A039)
    else if row == 1 then Pick(i, 0x655B59C3, 0x8F0CCC92, 0xFFEFF47D, 0x85845DD1)
    else if row == 2 then Pick(i, 0x6FA87E4F, 0xFE2CE6E0, 0xA3014314, 0x4E0811A1)
    else Pick(i, 0xF7537E82, 0xBD3AF235, 0x2AD7D2BB, 0xEB86D391)
  }

  function Mix(i: nat, b: Word, c: Word, d: Word): Word {
    if i < 16 then F(b, c, d) else if i < 32 then G(b, c, d) else if i < 48 then H(b, c, d) else I(b, c, d)
  }

  /** Step i turns the four registers. */
  function Step(r: Regs, x: seq<Word>, i: nat): Regs
    requires |x| == 16
  {
    Regs(r.d, Turn(r.a, Mix(i, r.b, r.c, r.d), r.b, x[MessageIndex(i)], Shift(i), T(i)), r.b, r.c)
  }

  function FourSteps(r: Regs, x: seq<Word>, i: nat): Regs
    requires |x| == 16
  {
    Step(Step(Step(Step(r, x, i), x, i + 1), x, i + 2), x, i + 3)
  }

  /** Half a round. */
  function EightSteps(r: Regs, x: seq<Word>, i: nat): Regs
    requires |x| == 16
  {
    FourSteps(FourSteps(r, x, i), x, i + 4)
  }

  /** The first n steps. */
  function Steps(r: Regs, x: seq<Word>, n: nat): Regs
    requires |x| == 16
  {
    if n == 0 then r else Step(Steps(r, x, n - 1), x, n - 1)
  }

  lemma EightMore(r: Regs, x: seq<Word>, n: nat)
    requires |x| == 16
    ensures Steps(r, x, n + 8) == EightSteps(Steps(r, x, n), x, n)
  {
    hide Steps, FourSteps;
    FourMore(r, x, n);
    FourMore(r, x, n + 4);
  }

  lemma FourMore(r: Regs, x: seq<Word>, n: nat)
    requires |x| == 16
    ensures Steps(r, x, n + 4) == FourSteps(Steps(r, x, n), x, n)
  {
    hide Step;
    assert Steps(r, x, n + 1) == Step(Steps(r, x, n), x, n);
    assert Steps(r, x, n + 2) == Step(Steps(r, x, n + 1), x, n + 1);
    assert Steps(r, x, n + 3) == Step(Steps(r, x, n + 2), x, n + 2);
  }

  /** The compression of one block: four table-driven steps per message word, added to the state. */
  function Transform(s: State, block: seq<Byte>): State
    requires |block| == 64
  {
    var x := DecodeWords(block);
    var r := Steps(Regs(s.a, s.b, s.c, s.d), x, 4 * |x|);
    State(Add(s.a, r.a), Add(s.b, r.b), Add(s.c, r.c), Add(s.d, r.d))
  }

  // ------------------------------------------------------------------ the unrolled rounds

  lemma FourUnfold(r: Regs, x: seq<Word>, i: nat)
    requires |x| == 16
    ensures FourSteps(r, x, i) == Step(Step(Step(Step(r, x, i), x, i + 1), x, i + 2), x, i + 3)
  {
  }

  lemma EightUnfold(r: Regs, x: seq<Word>, i: nat)
    requires |x| == 16
    ensures EightSteps(r, x, i) == FourSteps(FourSteps(r, x, i), x, i + 4)
  {
  }

  method Round1First(r: Regs, x: seq<Word>) returns (a: Word, b: Word, c: Word, d: Word)
    requires |x| == 16
    ensures Regs(a, b, c, d) == EightSteps(r, x, 0)
  {
    hide F, G, H, I, Turn, EightSteps, FourSteps;
    a, b, c, d := r.a, r.b, r.c, r.d;
    EightUnfold(r, x, 0);
    a := FF(a, b, c, d, x[0], 7, 0xD76AA478);
    d := FF(d, a, b, c, x[1], 12, 0xE8C7B756);
    c := FF(c, d, a, b, x[2], 17, 0x242070DB);
    b := FF(b, c, d, a, x[3], 22, 0xC1BDCEEE);
    assert Regs(a, b, c, d) == FourSteps(r, x, 0) by { FourUnfold(r, x, 0); }
    ghost var half := Regs(a, b, c, d);
    a := FF(a, b, c, d, x[4], 7, 0xF57C0FAF);
    d := FF(d, a, b, c, x[5], 12, 0x4787C62A);
    c := FF(c, d, a, b, x[6], 17, 0xA8304613);
    b := FF(b, c, d, a, x[7], 22, 0xFD469501);
    assert Regs(a, b, c, d) == FourSteps(half, x, 4) by { FourUnfold(half, x, 4); }
  }

  method Round1Second(r: Regs, x: seq<Word>) returns (a: Word, b: Word, c: Word, d: Word)
    requires |x| == 16
    ensures Regs(a, b, c, d) == EightSteps(r, x, 8)
  {
    hide F, G, H, I, Turn, EightSteps, FourSteps;
    a, b, c, d := r.a, r.b, r.c, r.d;
    EightUnfold(r, x, 8);
    a := FF(a, b, c, d, x[8], 7, 0x698098D8);
    d := FF(d, a, b, c, x[9], 12, 0x8B44F7AF);
    c := FF(c, d, a, b, x[10], 17, 0xFFFF5BB1);
    b := FF(b, c, d, a, x[11], 22, 0x895CD7BE);
    assert Regs(a, b, c, d) == FourSteps(r, x, 8) by { FourUnfold(r, x, 8); }
    ghost var half := Regs(a, b, c, d);
    a := FF(a, b, c, d, x[12], 7, 0x6B901122);
    d := FF(d, a, b, c, x[13], 12, 0xFD987193);
    c := FF(c, d, a, b, x[14], 17, 0xA679438E);
    b := FF(b, c, d, a, x[15], 22, 0x49B40821);
    assert Regs(a, b, c, d) == FourSteps(half, x, 12) by { FourUnfold(half, x, 12); }
  }

  method Round2First(r: Regs, x: seq<Word>) returns (a: Word, b: Word, c: Word, d: Word)
    requires |x| == 16
    ensures Regs(a, b, c, d) == EightSteps(r, x, 16)
  {
    hide F, G, H, I, Turn, EightSteps, FourSteps;
    a, b, c, d := r.a, r.b, r.c, r.d;
    EightUnfold(r, x, 16);
    a := GG(a, b, c, d, x[1], 5, 0xF61E2562);
    d := GG(d, a, b, c, x[6], 9, 0xC040B340);
    c := GG(c, d, a, b, x[11], 14, 0x265E5A51);
    b := GG(b, c, d, a, x[0], 20, 0xE9B6C7AA);
    assert Regs(a, b, c, d) == FourSteps(r, x, 16) by { FourUnfold(r, x, 16); }
    ghost var half := Regs(a, b, c, d);
    a := GG(a, b, c, d, x[5], 5, 0xD62F105D);
    d := GG(d, a, b, c, x[10], 9, 0x02441453);
    c := GG(c, d, a, b, x[15], 14, 0xD8A1E681);
    b := GG(b, c, d, a, x[4], 20, 0xE7D3FBC8);
    assert Regs(a, b, c, d) == FourSteps(half, x, 20) by { FourUnfold(half, x, 20); }
  }

  method Round2Second(r: Regs, x: seq<Word>) returns (a: Word, b: Word, c: Word, d: Word)
    requires |x| == 16
    ensures Regs(a, b, c, d) == EightSteps(r, x, 24)
  {
    hide F, G, H, I, Turn, EightSteps, FourSteps;
    a, b, c, d := r.a, r.b, r.c, r.d;
    EightUnfold(r, x, 24);
    a := GG(a, b, c, d, x[9], 5, 0x21E1CDE6);
    d := GG(d, a, b, c, x[14], 9, 0xC33707D6);
    c := GG(c, d, a, b, x[3], 14, 0xF4D50D87);
    b := GG(b, c, d, a, x[8], 20, 0x455A14ED);
    assert Regs(a, b, c, d) == FourSteps(r, x, 24) by { FourUnfold(r, x, 24); }
    ghost var half := Regs(a, b, c, d);
    a := GG(a, b, c, d, x[13], 5, 0xA9E3E905);
    d := GG(d, a, b, c, x[2], 9, 0xFCEFA3F8);
    c := GG(c, d, a, b, x[7], 14, 0x676F02D9);
    b := GG(b, c, d, a, x[12], 20, 0x8D2A4C8A);
    assert Regs(a, b, c, d) == FourSteps(half, x, 28) by { FourUnfold(half, x, 28); }
  }

  method Round3First(r: Regs, x: seq<Word>) returns (a: Word, b: Word, c: Word, d: Word)
    requires |x| == 16
    ensures Regs(a, b, c, d) == EightSteps(r, x, 32)
  {
    hide F, G, H, I, Turn, EightSteps, FourSteps;
    a, b, c, d := r.a, r.b, r.c, r.d;
    EightUnfold(r, x, 32);
    a := HH(a, b, c, d, x[5], 4, 0xFFFA3942);
    d := HH(d, a, b, c, x[8], 11, 0x8771F681);
    c := HH(c, d, a, b, x[11], 16, 0x6D9D6122);
    b := HH(b, c, d, a, x[14], 23, 0xFDE5380C);
    assert Regs(a, b, c, d) == FourSteps(r, x, 32) by { FourUnfold(r, x, 32); }
    ghost var half := Regs(a, b, c, d);
    a := HH(a, b, c, d, x[1], 4, 0xA4BEEA44);
    d := HH(d, a, b, c, x[4], 11, 0x4BDECFA9);
    c := HH(c, d, a, b, x[7], 16, 0xF6BB4B60);
    b := HH(b, c, d, a, x[10], 23, 0xBEBFBC70);
    assert Regs(a, b, c, d) == FourSteps(half, x, 36) by { FourUnfold(half, x, 36); }
  }

  method Round3Second(r: Regs, x: seq<Word>) returns (a: Word, b: Word, c: Word, d: Word)
    requires |x| == 16
    ensures Regs(a, b, c, d) == EightSteps(r, x, 40)
  {
    hide F, G, H, I, Turn, EightSteps, FourSteps;
    a, b, c, d := r.a, r.b, r.c, r.d;
    EightUnfold(r, x, 40);
    a := HH(a, b, c, d, x[13], 4, 0x289B7EC6);
    d := HH(d, a, b, c, x[0], 11, 0xEAA127FA);
    c := HH(c, d, a, b, x[3], 16, 0xD4EF3085);
    b := HH(b, c, d, a, x[6], 23, 0x04881D05);
    assert Regs(a, b, c, d) == FourSteps(r, x, 40) by { FourUnfold(r, x, 40); }
    ghost var half := Regs(a, b, c, d);
    a := HH(a, b, c, d, x[9], 4, 0xD9D4D039);
    d := HH(d, a, b, c, x[12], 11, 0xE6DB99E5);
    c := HH(c, d, a, b, x[15], 16, 0x1FA27CF8);
    b := HH(b, c, d, a, x[2], 23, 0xC4AC5665);
    assert Regs(a, b, c, d) == FourSteps(half, x, 44) by { FourUnfold(half, x, 44); }
  }

  method Round4First(r: Regs, x: seq<Word>) returns (a: Word, b: Word, c: Word, d: Word)
    requires |x| == 16
    ensures Regs(a, b, c, d) == EightSteps(r, x, 48)
  {
    hide F, G, H, I, Turn, EightSteps, FourSteps;
    a, b, c, d := r.a, r.b, r.c, r.d;
    EightUnfold(r, x, 48);
    a := II(a, b, c, d, x[0], 6, 0xF4292244);
    d := II(d, a, b, c, x[7], 10, 0x432AFF97);
    c := II(c, d, a, b, x[14], 15, 0xAB9423A7);
    b := II(b, c, d, a, x[5], 21, 0xFC93A039);
    assert Regs(a, b, c, d) == FourSteps(r, x, 48) by { FourUnfold(r, x, 48); }
    ghost var half := Regs(a, b, c, d);
    a := II(a, b, c, d, x[12], 6, 0x655B59C3);
    d := II(d, a, b, c, x[3], 10, 0x8F0CCC92);
    c := II(c, d, a, b, x[10], 15, 0xFFEFF47D);
    b := II(b, c, d, a, x[1], 21, 0x85845DD1);
    assert Regs(a, b, c, d) == FourSteps(half, x, 52) by { FourUnfold(half, x, 52); }
  }

  method Round4Second(r: Regs, x: seq<Word>) returns (a: Word, b: Word, c: Word, d: Word)
    requires |x| == 16
    ensures Regs(a, b, c, d) == EightSteps(r, x, 56)
  {
    hide F, G, H, I, Turn, EightSteps, FourSteps;
    a, b, c, d := r.a, r.b, r.c, r.d;
    EightUnfold(r, x, 56);
    a := II(a, b, c, d, x[8], 6, 0x6FA87E4F);
    d := II(d, a, b, c, x[15], 10, 0xFE2CE6E0);
    c := II(c, d, a, b, x[6], 15, 0xA3014314);
    b := II(b, c, d, a, x[13], 21, 0x4E0811A1);
    assert Regs(a, b, c, d) == FourSteps(r, x, 56) by { FourUnfold(r, x, 56); }
    ghost var half := Regs(a, b, c, d);
    a := II(a, b, c, d, x[4], 6, 0xF7537E82);
    d := II(d, a, b, c, x[11], 10, 0xBD3AF235);
    c := II(c, d, a, b, x[2], 15, 0x2AD7D2BB);
    b := II(b, c, d, a, x[9], 21, 0xEB86D391);
    assert Regs(a, b, c, d) == FourSteps(half, x, 60) by { FourUnfold(half, x, 60); }
  }

  /** All 64 steps, eight at a time. */
  function AllSteps(r: Regs, x: seq<Word>): Regs
    requires |x| == 16
  {
    hide *;
    var q := EightSteps(EightSteps(EightSteps(EightSteps(r, x, 0), x, 8), x, 16), x, 24);
    EightSteps(EightSteps(EightSteps(EightSteps(q, x, 32), x, 40), x, 48), x, 56)
  }

  lemma SixtyFourSteps(r: Regs, x: seq<Word>)
    requires |x| == 16
    ensures Steps(r, x, 4 * |x|) == AllSteps(r, x)
  {
    hide EightSteps, Step;
    var n := 0;
    assert Steps(r, x, n) == r;
    EightMore(r, x, n);
    EightMore(r, x, n + 8);
    EightMore(r, x, n + 16);
    EightMore(r, x, n + 24);
    EightMore(r, x, n + 32);
    EightMore(r, x, n + 40);
    EightMore(r, x, n + 48);
    EightMore(r, x, n + 56);
  }

  /** MD5Transform: the unrolled code computes the table-driven compression. */
  method Md5Transform(s: State, block: seq<Byte>) returns (s': State)
    requires |block| == 64
    ensures s' == Transform(s, block)
  {
    hide EightSteps, Add, DecodeWords, Steps;
    var x := Md5Decode(block, 64);
    var a, b, c, d := s.a, s.b, s.c, s.d;
    SixtyFourSteps(Regs(a, b, c, d), x);
    a, b, c, d := Round1First(Regs(a, b, c, d), x);
    a, b, c, d := Round1Second(Regs(a, b, c, d), x);
    a, b, c, d := Round2First(Regs(a, b, c, d), x);
    a, b, c, d := Round2Second(Regs(a, b, c, d), x);
    a, b, c, d := Round3First(Regs(a, b, c, d), x);
    a, b, c, d := Round3Second(Regs(a, b, c, d), x);
    a, b, c, d := Round4First(Regs(a, b, c, d), x);
    a, b, c, d := Round4Second(Regs(a, b, c, d), x);
    s' := State(Add(s.a, a), Add(s.b, b), Add(s.c, c), Add(s.d, d));
  }

  /** A function that is the compression on blocks; the streaming proofs know no more of it. */
  type Compression = (State, seq<Byte>) -> State

  ghost predicate Compresses(f: Compression) {
    forall s, block {:trigger Transform(s, block)} | |block| == 64 :: f(s, block) == Transform(s, block)
  }

  /** The compression, made total: other lengths than a block's leave the state alone. */
  function Standard(s: State, block: seq<Byte>): State {
    if |block| == 64 then Transform(s, block) else s
  }

  lemma StandardCompresses()
    ensures Compresses(Standard)
  {
    hide Transform;
  }

  lemma CompressionOf(f: Compression, s: State, block: seq<Byte>)
    requires Compresses(f) && |block| == 64
    ensures f(s, block) == Transform(s, block)
  {
  }
}
