/** What the auxiliary functions of section 3.4 of RFC 1321 do to each bit, a mask choosing the bits. */
module Md5Bits {
  import opened Bytes
  import opened Md5Compression

  lemma BitsOfValue(b: bv32)
    ensures Bits(Value(b)) == b
  {
  }

  lemma Choice(x: bv32, y: bv32, z: bv32)
    ensures ((x & y) | (!x & z)) & x == y & x && ((x & y) | (!x & z)) & !x == z & !x
  {
  }

  lemma HWord(x: Word, y: Word, z: Word)
    ensures Bits(H(x, y, z)) == Bits(x) ^ Bits(y) ^ Bits(z)
  {
    BitsOfValue(Bits(x) ^ Bits(y) ^ Bits(z));
    hide Bits, Value;
  }

  lemma IWord(x: Word, y: Word, z: Word)
    ensures Bits(I(x, y, z)) == Bits(y) ^ (Bits(x) | !Bits(z))
  {
    BitsOfValue(Bits(y) ^ (Bits(x) | !Bits(z)));
    hide Bits, Value;
  }

  /** F is y where x has a one and z elsewhere, and nothing else is. */
  lemma FChooses(x: Word, y: Word, z: Word)
    ensures Bits(F(x, y, z)) & Bits(x) == Bits(y) & Bits(x)
    ensures Bits(F(x, y, z)) & !Bits(x) == Bits(z) & !Bits(x)
  {
    BitsOfValue((Bits(x) & Bits(y)) | (!Bits(x) & Bits(z)));
    Choice(Bits(x), Bits(y), Bits(z));
    hide Bits, Value;
  }

  /** G is x where z has a one and y elsewhere. */
  lemma GChooses(x: Word, y: Word, z: Word)
    ensures Bits(G(x, y, z)) & Bits(z) == Bits(x) & Bits(z)
    ensures Bits(G(x, y, z)) & !Bits(z) == Bits(y) & !Bits(z)
  {
    BitsOfValue((Bits(x) & Bits(z)) | (Bits(y) & !Bits(z)));
    GChoice(Bits(x), Bits(y), Bits(z));
    hide Bits, Value;
  }

  lemma GChoice(x: bv32, y: bv32, z: bv32)
    ensures ((x & z) | (y & !z)) & z == x & z && ((x & z) | (y & !z)) & !z == y & !z
  {
  }

  /** H is the parity: with any two of the words it gives back the third. */
  lemma HIsParity(x: Word, y: Word, z: Word)
    ensures Bits(H(x, y, z)) ^ Bits(x) ^ Bits(y) == Bits(z)
  {
    hide H, Bits;
    HWord(x, y, z);
    Parity(Bits(x), Bits(y), Bits(z));
  }

  lemma Parity(x: bv32, y: bv32, z: bv32)
    ensures (x ^ y ^ z) ^ x ^ y == z
  {
  }

  /** I is the parity of x and y where z has a one, and y inverted elsewhere. */
  lemma IByMask(x: Word, y: Word, z: Word)
    ensures Bits(I(x, y, z)) & Bits(z) == (Bits(x) ^ Bits(y)) & Bits(z)
    ensures Bits(I(x, y, z)) & !Bits(z) == !Bits(y) & !Bits(z)
  {
    hide I, Bits;
    IWord(x, y, z);
    IMask(Bits(x), Bits(y), Bits(z));
  }

  lemma IMask(x: bv32, y: bv32, z: bv32)
    ensures (y ^ (x | !z)) & z == (x ^ y) & z && (y ^ (x | !z)) & !z == !y & !z
  {
  }
}
