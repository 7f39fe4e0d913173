/** The digest RFC 1321 gives for the lower-case alphabet (appendix A.5), half a round at a time. */
module Md5Vector {
  import opened Bytes
  import opened Md5
  import opened Md5Compression

  const ALPHABET: seq<Byte> := seq(26, i requires 0 <= i < 26 => 0x61 + i)

  /** The words of its one padded block. */
  const WORDS: seq<Word> := [
    0x64636261, 0x68676665, 0x6C6B6A69, 0x706F6E6D, 0x74737271, 0x78777675, 0x00807A79, 0x00000000,
    0x00000000, 0x00000000, 0x00000000, 0x00000000, 0x00000000, 0x00000000, 0x000000D0, 0x00000000]

  const REGS0 := Regs(0x67452301, 0xEFCDAB89, 0x98BADCFE, 0x10325476)
  const REGS1 := Regs(0xD6D117A6, 0x4503B812, 0x227D8CF1, 0xAAB1AAAA)
  const REGS2 := Regs(0xFE15F787, 0xDA9BBB0D, 0xB71122FC, 0xA811B278)
  const REGS3 := Regs(0xAE752899, 0x56CFA5CB, 0x7D4BD80B, 0x2BBE757F)
  const REGS4 := Regs(0x1754A316, 0x608D6B7E, 0x00DF74D5, 0x85567D90)
  const REGS5 := Regs(0x2D8071CC, 0x4C2145B3, 0xEDFE7E4B, 0x5DCEE119)
  const REGS6 := Regs(0x570C43E0, 0xC9F162D4, 0xC28AB49D, 0x977EFD2A)
  const REGS7 := Regs(0x25BFAE3B, 0xE6D3B398, 0xF8C8365F, 0x89980104)
  const REGS8 := Regs(0xF54D8710, 0xAEB35766, 0x2E69AFC7, 0x927B72E2)
  const REGS9 := Regs(0xB4BF680E, 0x06A5E211, 0x2361ED0A, 0x4C8FFA80)
  const REGS10 := Regs(0xB9C0C733, 0x8D41BF99, 0x23A9451B, 0xF1E6DC7A)
  const REGS11 := Regs(0xA3E88EAD, 0x90A35AF5, 0x66F6468D, 0x02C0B11C)
  const REGS12 := Regs(0xB5D41F9C, 0x71D10367, 0x703D54D8, 0xA04B4904)
  const REGS13 := Regs(0xFC32DD6E, 0x33EDB197, 0xB35602CB, 0x65456B34)
  const REGS14 := Regs(0xC1E942F1, 0x83877D1B, 0x23A68048, 0xD9BB987C)
  const REGS15 := Regs(0x0077C208, 0x5E6BC930, 0xA3E2247F, 0x847FC2E7)
  const REGS16 := Regs(0x708ED9C2, 0x1116E6D8, 0xD38F1E7F, 0x2BAF1354)

  lemma StepTo(r: Regs, i: nat, mix: Word, x: Word, s: nat, t: Word, sum: Word, rotated: Word)
    requires x == WORDS[MessageIndex(i)] && s == Shift(i) && t == T(i)
    requires mix == Mix(i, r.b, r.c, r.d)
    requires sum == (r.a + mix + x + t) % WORD && rotated == RotateLeft(sum, s)
    ensures Step(r, WORDS, i) == Regs(r.d, (rotated + r.b) % WORD, r.b, r.c)
  {
    hide RotateLeft, Mix, MessageIndex, T, Shift;
    SumOfFour(r.a, mix, x, t);
  }

  lemma SumOfFour(a: Word, mix: Word, x: Word, t: Word)
    ensures Add(a, Add(Add(mix, x), t)) == (a + mix + x + t) % WORD
  {
    WrapsOnce(t, mix + x);
    WrapsOnce(a, mix + x + t);
  }

  lemma WrapsOnce(a: int, b: int)
    ensures (a + b % WORD) % WORD == (a + b) % WORD
  {
  }

  lemma Mixes0()
    ensures Mix(0, 0xEFCDAB89, 0x98BADCFE, 0x10325476) == 0x98BADCFE
    ensures Mix(1, 0xD6D117A6, 0xEFCDAB89, 0x98BADCFE) == 0xCEEBCBD8
    ensures Mix(2, 0xAAB1AAAA, 0xD6D117A6, 0xEFCDAB89) == 0xC7DD03A3
    ensures Mix(3, 0x227D8CF1, 0xAAB1AAAA, 0xD6D117A6) == 0xF6B19BA6
    ensures Mix(4, 0x4503B812, 0x227D8CF1, 0xAAB1AAAA) == 0xAAB18AB8
    ensures Mix(5, 0xFE15F787, 0x4503B812, 0x227D8CF1) == 0x4469B872
    ensures Mix(6, 0xA811B278, 0xFE15F787, 0x4503B812) == 0xED13BA02
    ensures Mix(7, 0xB71122FC, 0xA811B278, 0xFE15F787) == 0xE815F77B
  {
  }

  lemma Rotates0()
    ensures RotateLeft(0x3BCE06D8, 7) == 0xE7036C1D
    ensures RotateLeft(0x304D3E09, 12) == 0xD3E09304
    ensures RotateLeft(0xF123BBE5, 17) == 0x77CBE247
    ensures RotateLeft(0x18AC848A, 22) == 0x22862B21
    ensures RotateLeft(0xEB72247E, 7) == 0xB9123F75
    ensures RotateLeft(0xAF1A9FBB, 12) == 0xA9FBBAF1
    ensures RotateLeft(0xB842077F, 17) == 0x0EFF7084
    ensures RotateLeft(0x2A60448E, 22) == 0x238A9811
  {
  }

  lemma Four0()
    ensures FourSteps(REGS0, WORDS, 0) == REGS1
  {
    hide Mix, RotateLeft, Step;
    Mixes0();
    Rotates0();
    StepTo(Regs(0x67452301, 0xEFCDAB89, 0x98BADCFE, 0x10325476), 0,
           0x98BADCFE, 0x64636261, 7, 0xD76AA478, 0x3BCE06D8, 0xE7036C1D);
    StepTo(Regs(0x10325476, 0xD6D117A6, 0xEFCDAB89, 0x98BADCFE), 1,
           0xCEEBCBD8, 0x68676665, 12, 0xE8C7B756, 0x304D3E09, 0xD3E09304);
    StepTo(Regs(0x98BADCFE, 0xAAB1AAAA, 0xD6D117A6, 0xEFCDAB89), 2,
           0xC7DD03A3, 0x6C6B6A69, 17, 0x242070DB, 0xF123BBE5, 0x77CBE247);
    StepTo(Regs(0xEFCDAB89, 0x227D8CF1, 0xAAB1AAAA, 0xD6D117A6), 3,
           0xF6B19BA6, 0x706F6E6D, 22, 0xC1BDCEEE, 0x18AC848A, 0x22862B21);
  }

  lemma Four1()
    ensures FourSteps(REGS1, WORDS, 4) == REGS2
  {
    hide Mix, RotateLeft, Step;
    Mixes0();
    Rotates0();
    StepTo(Regs(0xD6D117A6, 0x4503B812, 0x227D8CF1, 0xAAB1AAAA), 4,
           0xAAB18AB8, 0x74737271, 7, 0xF57C0FAF, 0xEB72247E, 0xB9123F75);
    StepTo(Regs(0xAAB1AAAA, 0xFE15F787, 0x4503B812, 0x227D8CF1), 5,
           0x4469B872, 0x78777675, 12, 0x4787C62A, 0xAF1A9FBB, 0xA9FBBAF1);
    StepTo(Regs(0x227D8CF1, 0xA811B278, 0xFE15F787, 0x4503B812), 6,
           0xED13BA02, 0x00807A79, 17, 0xA8304613, 0xB842077F, 0x0EFF7084);
    StepTo(Regs(0x4503B812, 0xB71122FC, 0xA811B278, 0xFE15F787), 7,
           0xE815F77B, 0x00000000, 22, 0xFD469501, 0x2A60448E, 0x238A9811);
  }

  lemma Mixes1()
    ensures Mix(8, 0xDA9BBB0D, 0xB71122FC, 0xA811B278) == 0xB211227C
    ensures Mix(9, 0xAE752899, 0xDA9BBB0D, 0xB71122FC) == 0x9B112A6D
    ensures Mix(10, 0x2BBE757F, 0xAE752899, 0xDA9BBB0D) == 0xFA35AA19
    ensures Mix(11, 0x7D4BD80B, 0x2BBE757F, 0xAE752899) == 0xAB3E709B
    ensures Mix(12, 0x56CFA5CB, 0x7D4BD80B, 0x2BBE757F) == 0x7D7BD03F
    ensures Mix(13, 0x1754A316, 0x56CFA5CB, 0x7D4BD80B) == 0x7E4FF90B
    ensures Mix(14, 0x85567D90, 0x1754A316, 0x56CFA5CB) == 0x57DDA15B
    ensures Mix(15, 0x00DF74D5, 0x85567D90, 0x1754A316) == 0x1756F792
  {
  }

  lemma Rotates1()
    ensures RotateLeft(0x19A7B2DB, 7) == 0xD3D96D8C
    ensures RotateLeft(0xCE67D494, 12) == 0x7D494CE6
    ensures RotateLeft(0xB14628C6, 17) == 0x518D628C
    ensures RotateLeft(0x0F370366, 22) == 0xD983CDC0
    ensures RotateLeft(0x978109FA, 7) == 0xC084FD4B
    ensures RotateLeft(0xA7A6E01D, 12) == 0x6E01DA7A
    ensures RotateLeft(0x7BA2BDC4, 17) == 0x7B88F745
    ensures RotateLeft(0xB7DAA57E, 22) == 0x5FADF6A9
  {
  }

  lemma Four2()
    ensures FourSteps(REGS2, WORDS, 8) == REGS3
  {
    hide Mix, RotateLeft, Step;
    Mixes1();
    Rotates1();
    StepTo(Regs(0xFE15F787, 0xDA9BBB0D, 0xB71122FC, 0xA811B278), 8,
           0xB211227C, 0x00000000, 7, 0x698098D8, 0x19A7B2DB, 0xD3D96D8C);
    StepTo(Regs(0xA811B278, 0xAE752899, 0xDA9BBB0D, 0xB71122FC), 9,
           0x9B112A6D, 0x00000000, 12, 0x8B44F7AF, 0xCE67D494, 0x7D494CE6);
    StepTo(Regs(0xB71122FC, 0x2BBE757F, 0xAE752899, 0xDA9BBB0D), 10,
           0xFA35AA19, 0x00000000, 17, 0xFFFF5BB1, 0xB14628C6, 0x518D628C);
    StepTo(Regs(0xDA9BBB0D, 0x7D4BD80B, 0x2BBE757F, 0xAE752899), 11,
           0xAB3E709B, 0x00000000, 22, 0x895CD7BE, 0x0F370366, 0xD983CDC0);
  }

  lemma Four3()
    ensures FourSteps(REGS3, WORDS, 12) == REGS4
  {
    hide Mix, RotateLeft, Step;
    Mixes1();
    Rotates1();
    StepTo(Regs(0xAE752899, 0x56CFA5CB, 0x7D4BD80B, 0x2BBE757F), 12,
           0x7D7BD03F, 0x00000000, 7, 0x6B901122, 0x978109FA, 0xC084FD4B);
    StepTo(Regs(0x2BBE757F, 0x1754A316, 0x56CFA5CB, 0x7D4BD80B), 13,
           0x7E4FF90B, 0x00000000, 12, 0xFD987193, 0xA7A6E01D, 0x6E01DA7A);
    StepTo(Regs(0x7D4BD80B, 0x85567D90, 0x1754A316, 0x56CFA5CB), 14,
           0x57DDA15B, 0x000000D0, 17, 0xA679438E, 0x7BA2BDC4, 0x7B88F745);
    StepTo(Regs(0x56CFA5CB, 0x00DF74D5, 0x85567D90, 0x1754A316), 15,
           0x1756F792, 0x00000000, 22, 0x49B40821, 0xB7DAA57E, 0x5FADF6A9);
  }

  lemma Mixes2()
    ensures Mix(16, 0x608D6B7E, 0x00DF74D5, 0x85567D90) == 0x008D6955
    ensures Mix(17, 0x2D8071CC, 0x608D6B7E, 0x00DF74D5) == 0x60807BEE
    ensures Mix(18, 0x5DCEE119, 0x2D8071CC, 0x608D6B7E) == 0x4D8C7198
    ensures Mix(19, 0xEDFE7E4B, 0x5DCEE119, 0x2D8071CC) == 0x7DCEF059
    ensures Mix(20, 0x4C2145B3, 0xEDFE7E4B, 0x5DCEE119) == 0xEC305F53
    ensures Mix(21, 0x570C43E0, 0x4C2145B3, 0xEDFE7E4B) == 0x450D43F0
    ensures Mix(22, 0x977EFD2A, 0x570C43E0, 0x4C2145B3) == 0x172C4762
    ensures Mix(23, 0xC28AB49D, 0x977EFD2A, 0x570C43E0) == 0xC27ABC8A
  {
  }

  lemma Rotates2()
    ensures RotateLeft(0x76679832, 5) == 0xCCF3064E
    ensures RotateLeft(0xA6982737, 9) == 0x304E6F4D
    ensures RotateLeft(0x74CA40BE, 14) == 0x902F9D32
    ensures RotateLeft(0x2C7685E2, 20) == 0x5E22C768
    ensures RotateLeft(0x685757F1, 5) == 0x0AEAFE2D
    ensures RotateLeft(0xA520395C, 9) == 0x4072B94A
    ensures RotateLeft(0xDDCCAC2E, 14) == 0x2B0BB773
    ensures RotateLeft(0x6AE37076, 20) == 0x0766AE37
  {
  }

  lemma Four4()
    ensures FourSteps(REGS4, WORDS, 16) == REGS5
  {
    hide Mix, RotateLeft, Step;
    Mixes2();
    Rotates2();
    StepTo(Regs(0x1754A316, 0x608D6B7E, 0x00DF74D5, 0x85567D90), 16,
           0x008D6955, 0x68676665, 5, 0xF61E2562, 0x76679832, 0xCCF3064E);
    StepTo(Regs(0x85567D90, 0x2D8071CC, 0x608D6B7E, 0x00DF74D5), 17,
           0x60807BEE, 0x00807A79, 9, 0xC040B340, 0xA6982737, 0x304E6F4D);
    StepTo(Regs(0x00DF74D5, 0x5DCEE119, 0x2D8071CC, 0x608D6B7E), 18,
           0x4D8C7198, 0x00000000, 14, 0x265E5A51, 0x74CA40BE, 0x902F9D32);
    StepTo(Regs(0x608D6B7E, 0xEDFE7E4B, 0x5DCEE119, 0x2D8071CC), 19,
           0x7DCEF059, 0x64636261, 20, 0xE9B6C7AA, 0x2C7685E2, 0x5E22C768);
  }

  lemma Four5()
    ensures FourSteps(REGS5, WORDS, 20) == REGS6
  {
    hide Mix, RotateLeft, Step;
    Mixes2();
    Rotates2();
    StepTo(Regs(0x2D8071CC, 0x4C2145B3, 0xEDFE7E4B, 0x5DCEE119), 20,
           0xEC305F53, 0x78777675, 5, 0xD62F105D, 0x685757F1, 0x0AEAFE2D);
    StepTo(Regs(0x5DCEE119, 0x570C43E0, 0x4C2145B3, 0xEDFE7E4B), 21,
           0x450D43F0, 0x00000000, 9, 0x02441453, 0xA520395C, 0x4072B94A);
    StepTo(Regs(0xEDFE7E4B, 0x977EFD2A, 0x570C43E0, 0x4C2145B3), 22,
           0x172C4762, 0x00000000, 14, 0xD8A1E681, 0xDDCCAC2E, 0x2B0BB773);
    StepTo(Regs(0x4C2145B3, 0xC28AB49D, 0x977EFD2A, 0x570C43E0), 23,
           0xC27ABC8A, 0x74737271, 20, 0xE7D3FBC8, 0x6AE37076, 0x0766AE37);
  }

  lemma Mixes3()
    ensures Mix(24, 0xC9F162D4, 0xC28AB49D, 0x977EFD2A) == 0xC1F06095
    ensures Mix(25, 0x25BFAE3B, 0xC9F162D4, 0xC28AB49D) == 0x09FBE659
    ensures Mix(26, 0x89980104, 0x25BFAE3B, 0xC9F162D4) == 0xAD9E8C2F
    ensures Mix(27, 0xF8C8365F, 0x89980104, 0x25BFAE3B) == 0xA888271F
    ensures Mix(28, 0xE6D3B398, 0xF8C8365F, 0x89980104) == 0xF0D0375B
    ensures Mix(29, 0xF54D8710, 0xE6D3B398, 0xF8C8365F) == 0xF65B8790
    ensures Mix(30, 0x927B72E2, 0xF54D8710, 0xE6D3B398) == 0x935F3680
    ensures Mix(31, 0x2E69AFC7, 0x927B72E2, 0xF54D8710) == 0x267BF7E2
  {
  }

  lemma Rotates3()
    ensures RotateLeft(0x3ADE725B, 5) == 0x5BCE4B67
    ensures RotateLeft(0x64B1EC29, 9) == 0x63D852C9
    ensures RotateLeft(0xD56DBCC0, 14) == 0x6F30355B
    ensures RotateLeft(0xB7D39EE0, 20) == 0xEE0B7D39
    ensures RotateLeft(0xC073CE9B, 5) == 0x0E79D378
    ensures RotateLeft(0xE94E96F5, 9) == 0x9D2DEBD2
    ensures RotateLeft(0xF3966FB8, 14) == 0x9BEE3CE5
    ensures RotateLeft(0x9A79F804, 20) == 0x8049A79F
  {
  }

  lemma Four6()
    ensures FourSteps(REGS6, WORDS, 24) == REGS7
  {
    hide Mix, RotateLeft, Step;
    Mixes3();
    Rotates3();
    StepTo(Regs(0x570C43E0, 0xC9F162D4, 0xC28AB49D, 0x977EFD2A), 24,
           0xC1F06095, 0x00000000, 5, 0x21E1CDE6, 0x3ADE725B, 0x5BCE4B67);
    StepTo(Regs(0x977EFD2A, 0x25BFAE3B, 0xC9F162D4, 0xC28AB49D), 25,
           0x09FBE659, 0x000000D0, 9, 0xC33707D6, 0x64B1EC29, 0x63D852C9);
    StepTo(Regs(0xC28AB49D, 0x89980104, 0x25BFAE3B, 0xC9F162D4), 26,
           0xAD9E8C2F, 0x706F6E6D, 14, 0xF4D50D87, 0xD56DBCC0, 0x6F30355B);
    StepTo(Regs(0xC9F162D4, 0xF8C8365F, 0x89980104, 0x25BFAE3B), 27,
           0xA888271F, 0x00000000, 20, 0x455A14ED, 0xB7D39EE0, 0xEE0B7D39);
  }

  lemma Four7()
    ensures FourSteps(REGS7, WORDS, 28) == REGS8
  {
    hide Mix, RotateLeft, Step;
    Mixes3();
    Rotates3();
    StepTo(Regs(0x25BFAE3B, 0xE6D3B398, 0xF8C8365F, 0x89980104), 28,
           0xF0D0375B, 0x00000000, 5, 0xA9E3E905, 0xC073CE9B, 0x0E79D378);
    StepTo(Regs(0x89980104, 0xF54D8710, 0xE6D3B398, 0xF8C8365F), 29,
           0xF65B8790, 0x6C6B6A69, 9, 0xFCEFA3F8, 0xE94E96F5, 0x9D2DEBD2);
    StepTo(Regs(0xF8C8365F, 0x927B72E2, 0xF54D8710, 0xE6D3B398), 30,
           0x935F3680, 0x00000000, 14, 0x676F02D9, 0xF3966FB8, 0x9BEE3CE5);
    StepTo(Regs(0xE6D3B398, 0x2E69AFC7, 0x927B72E2, 0xF54D8710), 31,
           0x267BF7E2, 0x00000000, 20, 0x8D2A4C8A, 0x9A79F804, 0x8049A79F);
  }

  lemma Mixes4()
    ensures Mix(32, 0xAEB35766, 0x2E69AFC7, 0x927B72E2) == 0x12A18A43
    ensures Mix(33, 0xB4BF680E, 0xAEB35766, 0x2E69AFC7) == 0x346590AF
    ensures Mix(34, 0x4C8FFA80, 0xB4BF680E, 0xAEB35766) == 0x5683C5E8
    ensures Mix(35, 0x2361ED0A, 0x4C8FFA80, 0xB4BF680E) == 0xDB517F84
    ensures Mix(36, 0x06A5E211, 0x2361ED0A, 0x4C8FFA80) == 0x694BF59B
    ensures Mix(37, 0xB9C0C733, 0x06A5E211, 0x2361ED0A) == 0x9C04C828
    ensures Mix(38, 0xF1E6DC7A, 0xB9C0C733, 0x06A5E211) == 0x4E83F958
    ensures Mix(39, 0x23A9451B, 0xF1E6DC7A, 0xB9C0C733) == 0x6B8F5E52
  {
  }

  lemma Rotates4()
    ensures RotateLeft(0x8060C10A, 4) == 0x060C10A8
    ensures RotateLeft(0x4E52FA12, 11) == 0x97D09272
    ensures RotateLeft(0xF28AD6D1, 16) == 0xD6D1F28A
    ensures RotateLeft(0x87EA0FC6, 23) == 0xE343F507
    ensures RotateLeft(0x2B31AE52, 4) == 0xB31AE522
    ensures RotateLeft(0xA8E704C2, 11) == 0x38261547
    ensures RotateLeft(0x68A131C2, 16) == 0x31C268A1
    ensures RotateLeft(0x30F4FCD3, 23) == 0x69987A7E
  {
  }

  lemma Four8()
    ensures FourSteps(REGS8, WORDS, 32) == REGS9
  {
    hide Mix, RotateLeft, Step;
    Mixes4();
    Rotates4();
    StepTo(Regs(0xF54D8710, 0xAEB35766, 0x2E69AFC7, 0x927B72E2), 32,
           0x12A18A43, 0x78777675, 4, 0xFFFA3942, 0x8060C10A, 0x060C10A8);
    StepTo(Regs(0x927B72E2, 0xB4BF680E, 0xAEB35766, 0x2E69AFC7), 33,
           0x346590AF, 0x00000000, 11, 0x8771F681, 0x4E52FA12, 0x97D09272);
    StepTo(Regs(0x2E69AFC7, 0x4C8FFA80, 0xB4BF680E, 0xAEB35766), 34,
           0x5683C5E8, 0x00000000, 16, 0x6D9D6122, 0xF28AD6D1, 0xD6D1F28A);
    StepTo(Regs(0xAEB35766, 0x2361ED0A, 0x4C8FFA80, 0xB4BF680E), 35,
           0xDB517F84, 0x000000D0, 23, 0xFDE5380C, 0x87EA0FC6, 0xE343F507);
  }

  lemma Four9()
    ensures FourSteps(REGS9, WORDS, 36) == REGS10
  {
    hide Mix, RotateLeft, Step;
    Mixes4();
    Rotates4();
    StepTo(Regs(0xB4BF680E, 0x06A5E211, 0x2361ED0A, 0x4C8FFA80), 36,
           0x694BF59B, 0x68676665, 4, 0xA4BEEA44, 0x2B31AE52, 0xB31AE522);
    StepTo(Regs(0x4C8FFA80, 0xB9C0C733, 0x06A5E211, 0x2361ED0A), 37,
           0x9C04C828, 0x74737271, 11, 0x4BDECFA9, 0xA8E704C2, 0x38261547);
    StepTo(Regs(0x2361ED0A, 0xF1E6DC7A, 0xB9C0C733, 0x06A5E211), 38,
           0x4E83F958, 0x00000000, 16, 0xF6BB4B60, 0x68A131C2, 0x31C268A1);
    StepTo(Regs(0x06A5E211, 0x23A9451B, 0xF1E6DC7A, 0xB9C0C733), 39,
           0x6B8F5E52, 0x00000000, 23, 0xBEBFBC70, 0x30F4FCD3, 0x69987A7E);
  }

  lemma Mixes5()
    ensures Mix(40, 0x8D41BF99, 0x23A9451B, 0xF1E6DC7A) == 0x5F0E26F8
    ensures Mix(41, 0xA3E88EAD, 0x8D41BF99, 0x23A9451B) == 0x0D00742F
    ensures Mix(42, 0x02C0B11C, 0xA3E88EAD, 0x8D41BF99) == 0x2C698028
    ensures Mix(43, 0x66F6468D, 0x02C0B11C, 0xA3E88EAD) == 0xC7DE793C
    ensures Mix(44, 0x90A35AF5, 0x66F6468D, 0x02C0B11C) == 0xF495AD64
    ensures Mix(45, 0xB5D41F9C, 0x90A35AF5, 0x66F6468D) == 0x438103E4
    ensures Mix(46, 0xA04B4904, 0xB5D41F9C, 0x90A35AF5) == 0x853C0C6D
    ensures Mix(47, 0x703D54D8, 0xA04B4904, 0xB5D41F9C) == 0x65A20240
  {
  }

  lemma Rotates5()
    ensures RotateLeft(0x416A6CF1, 4) == 0x16A6CF14
    ensures RotateLeft(0x4DEBDB04, 11) == 0x5ED8226F
    ensures RotateLeft(0x95716435, 16) == 0x64359571
    ensures RotateLeft(0x5A28D053, 23) == 0x29AD1468
    ensures RotateLeft(0x72530C4A, 4) == 0x2530C4A7
    ensures RotateLeft(0x2D1D4EE5, 11) == 0xEA772968
    ensures RotateLeft(0x0BD4CFF2, 16) == 0xCFF20BD4
    ensures RotateLeft(0x275D1E03, 23) == 0x0193AE8F
  {
  }

  lemma Four10()
    ensures FourSteps(REGS10, WORDS, 40) == REGS11
  {
    hide Mix, RotateLeft, Step;
    Mixes5();
    Rotates5();
    StepTo(Regs(0xB9C0C733, 0x8D41BF99, 0x23A9451B, 0xF1E6DC7A), 40,
           0x5F0E26F8, 0x00000000, 4, 0x289B7EC6, 0x416A6CF1, 0x16A6CF14);
    StepTo(Regs(0xF1E6DC7A, 0xA3E88EAD, 0x8D41BF99, 0x23A9451B), 41,
           0x0D00742F, 0x64636261, 11, 0xEAA127FA, 0x4DEBDB04, 0x5ED8226F);
    StepTo(Regs(0x23A9451B, 0x02C0B11C, 0xA3E88EAD, 0x8D41BF99), 42,
           0x2C698028, 0x706F6E6D, 16, 0xD4EF3085, 0x95716435, 0x64359571);
    StepTo(Regs(0x8D41BF99, 0x66F6468D, 0x02C0B11C, 0xA3E88EAD), 43,
           0xC7DE793C, 0x00807A79, 23, 0x04881D05, 0x5A28D053, 0x29AD1468);
  }

  lemma Four11()
    ensures FourSteps(REGS11, WORDS, 44) == REGS12
  {
    hide Mix, RotateLeft, Step;
    Mixes5();
    Rotates5();
    StepTo(Regs(0xA3E88EAD, 0x90A35AF5, 0x66F6468D, 0x02C0B11C), 44,
           0xF495AD64, 0x00000000, 4, 0xD9D4D039, 0x72530C4A, 0x2530C4A7);
    StepTo(Regs(0x02C0B11C, 0xB5D41F9C, 0x90A35AF5, 0x66F6468D), 45,
           0x438103E4, 0x00000000, 11, 0xE6DB99E5, 0x2D1D4EE5, 0xEA772968);
    StepTo(Regs(0x66F6468D, 0xA04B4904, 0xB5D41F9C, 0x90A35AF5), 46,
           0x853C0C6D, 0x00000000, 16, 0x1FA27CF8, 0x0BD4CFF2, 0xCFF20BD4);
    StepTo(Regs(0x90A35AF5, 0x703D54D8, 0xA04B4904, 0xB5D41F9C), 47,
           0x65A20240, 0x6C6B6A69, 23, 0xC4AC5665, 0x275D1E03, 0x0193AE8F);
  }

  lemma Mixes6()
    ensures Mix(48, 0x71D10367, 0x703D54D8, 0xA04B4904) == 0x0FC8E327
    ensures Mix(49, 0xFC32DD6E, 0x71D10367, 0x703D54D8) == 0x8E23FC08
    ensures Mix(50, 0x65456B34, 0xFC32DD6E, 0x71D10367) == 0x135D22D2
    ensures Mix(51, 0xB35602CB, 0x65456B34, 0xFC32DD6E) == 0xD69A49EF
    ensures Mix(52, 0x33EDB197, 0xB35602CB, 0x65456B34) == 0x08A9B714
    ensures Mix(53, 0xC1E942F1, 0x33EDB197, 0xB35602CB) == 0xFE044E62
    ensures Mix(54, 0xD9BB987C, 0xC1E942F1, 0x33EDB197) == 0x1C529C8D
    ensures Mix(55, 0x23A68048, 0xD9BB987C, 0xC1E942F1) == 0xE60D2532
  {
  }

  lemma Rotates6()
    ensures RotateLeft(0x1E298768, 6) == 0x8A61DA07
    ensures RotateLeft(0x719A44A3, 10) == 0x69128DC6
    ensures RotateLeft(0x2F2E9C21, 15) == 0x4E109797
    ensures RotateLeft(0xBD766404, 21) == 0x8097AECC
    ensures RotateLeft(0x6A37EE45, 6) == 0x8DFB915A
    ensures RotateLeft(0x62C5F495, 10) == 0x17D2558B
    ensures RotateLeft(0xCF9893D5, 15) == 0x49EAE7CC
    ensures RotateLeft(0x07E69AFF, 21) == 0x5FE0FCD3
  {
  }

  lemma Four12()
    ensures FourSteps(REGS12, WORDS, 48) == REGS13
  {
    hide Mix, RotateLeft, Step;
    Mixes6();
    Rotates6();
    StepTo(Regs(0xB5D41F9C, 0x71D10367, 0x703D54D8, 0xA04B4904), 48,
           0x0FC8E327, 0x64636261, 6, 0xF4292244, 0x1E298768, 0x8A61DA07);
    StepTo(Regs(0xA04B4904, 0xFC32DD6E, 0x71D10367, 0x703D54D8), 49,
           0x8E23FC08, 0x00000000, 10, 0x432AFF97, 0x719A44A3, 0x69128DC6);
    StepTo(Regs(0x703D54D8, 0x65456B34, 0xFC32DD6E, 0x71D10367), 50,
           0x135D22D2, 0x000000D0, 15, 0xAB9423A7, 0x2F2E9C21, 0x4E109797);
    StepTo(Regs(0x71D10367, 0xB35602CB, 0x65456B34, 0xFC32DD6E), 51,
           0xD69A49EF, 0x78777675, 21, 0xFC93A039, 0xBD766404, 0x8097AECC);
  }

  lemma Four13()
    ensures FourSteps(REGS13, WORDS, 52) == REGS14
  {
    hide Mix, RotateLeft, Step;
    Mixes6();
    Rotates6();
    StepTo(Regs(0xFC32DD6E, 0x33EDB197, 0xB35602CB, 0x65456B34), 52,
           0x08A9B714, 0x00000000, 6, 0x655B59C3, 0x6A37EE45, 0x8DFB915A);
    StepTo(Regs(0x65456B34, 0xC1E942F1, 0x33EDB197, 0xB35602CB), 53,
           0xFE044E62, 0x706F6E6D, 10, 0x8F0CCC92, 0x62C5F495, 0x17D2558B);
    StepTo(Regs(0xB35602CB, 0xD9BB987C, 0xC1E942F1, 0x33EDB197), 54,
           0x1C529C8D, 0x00000000, 15, 0xFFEFF47D, 0xCF9893D5, 0x49EAE7CC);
    StepTo(Regs(0x33EDB197, 0x23A68048, 0xD9BB987C, 0xC1E942F1), 55,
           0xE60D2532, 0x68676665, 21, 0x85845DD1, 0x07E69AFF, 0x5FE0FCD3);
  }

  lemma Mixes7()
    ensures Mix(56, 0x83877D1B, 0x23A68048, 0xD9BB987C) == 0x8461FFD3
    ensures Mix(57, 0x0077C208, 0x83877D1B, 0x23A68048) == 0x5FF882A4
    ensures Mix(58, 0x847FC2E7, 0x0077C208, 0x83877D1B) == 0xFC0800EF
    ensures Mix(59, 0xA3E2247F, 0x847FC2E7, 0x0077C208) == 0x7B95FF18
    ensures Mix(60, 0x5E6BC930, 0xA3E2247F, 0x847FC2E7) == 0xDC09D947
    ensures Mix(61, 0x708ED9C2, 0x5E6BC930, 0xA3E2247F) == 0x22F412F2
    ensures Mix(62, 0x2BAF1354, 0x708ED9C2, 0x5E6BC930) == 0xDB31EE1D
    ensures Mix(63, 0xD38F1E7F, 0x2BAF1354, 0x708ED9C2) == 0xF4502D2B
  {
  }

  lemma Rotates7()
    ensures RotateLeft(0xB5F3C113, 6) == 0x7CF044ED
    ensures RotateLeft(0x37E10200, 10) == 0x840800DF
    ensures RotateLeft(0xC3303EC4, 15) == 0x1F626198
    ensures RotateLeft(0x4D258DD4, 21) == 0xBA89A4B1
    ensures RotateLeft(0x48488C42, 6) == 0x12231092
    ensures RotateLeft(0x64AEC80E, 10) == 0xBB203992
    ensures RotateLeft(0x16574FC0, 15) == 0xA7E00B2B
    ensures RotateLeft(0x3E42C9EC, 21) == 0x3D87C859
  {
  }

  lemma Four14()
    ensures FourSteps(REGS14, WORDS, 56) == REGS15
  {
    hide Mix, RotateLeft, Step;
    Mixes7();
    Rotates7();
    StepTo(Regs(0xC1E942F1, 0x83877D1B, 0x23A68048, 0xD9BB987C), 56,
           0x8461FFD3, 0x00000000, 6, 0x6FA87E4F, 0xB5F3C113, 0x7CF044ED);
    StepTo(Regs(0xD9BB987C, 0x0077C208, 0x83877D1B, 0x23A68048), 57,
           0x5FF882A4, 0x00000000, 10, 0xFE2CE6E0, 0x37E10200, 0x840800DF);
    StepTo(Regs(0x23A68048, 0x847FC2E7, 0x0077C208, 0x83877D1B), 58,
           0xFC0800EF, 0x00807A79, 15, 0xA3014314, 0xC3303EC4, 0x1F626198);
    StepTo(Regs(0x83877D1B, 0xA3E2247F, 0x847FC2E7, 0x0077C208), 59,
           0x7B95FF18, 0x00000000, 21, 0x4E0811A1, 0x4D258DD4, 0xBA89A4B1);
  }

  lemma Four15()
    ensures FourSteps(REGS15, WORDS, 60) == REGS16
  {
    hide Mix, RotateLeft, Step;
    Mixes7();
    Rotates7();
    StepTo(Regs(0x0077C208, 0x5E6BC930, 0xA3E2247F, 0x847FC2E7), 60,
           0xDC09D947, 0x74737271, 6, 0xF7537E82, 0x48488C42, 0x12231092);
    StepTo(Regs(0x847FC2E7, 0x708ED9C2, 0x5E6BC930, 0xA3E2247F), 61,
           0x22F412F2, 0x00000000, 10, 0xBD3AF235, 0x64AEC80E, 0xBB203992);
    StepTo(Regs(0xA3E2247F, 0x2BAF1354, 0x708ED9C2, 0x5E6BC930), 62,
           0xDB31EE1D, 0x6C6B6A69, 15, 0x2AD7D2BB, 0x16574FC0, 0xA7E00B2B);
    StepTo(Regs(0x5E6BC930, 0xD38F1E7F, 0x2BAF1354, 0x708ED9C2), 63,
           0xF4502D2B, 0x00000000, 21, 0xEB86D391, 0x3E42C9EC, 0x3D87C859);
  }
  /** All 64 steps on the one block. */
  lemma AllStepsOfAlphabet()
    ensures AllSteps(REGS0, WORDS) == REGS16
  {
    hide FourSteps;
    Four0();
    Four1();
    Four2();
    Four3();
    Four4();
    Four5();
    Four6();
    Four7();
    Four8();
    Four9();
    Four10();
    Four11();
    Four12();
    Four13();
    Four14();
    Four15();
  }

  lemma EncodeNext(w: Word, rest: seq<Word>)
    ensures EncodeWords([w] + rest) == EncodeWord(w) + EncodeWords(rest)
  {
    assert ([w] + rest)[1..] == rest;
  }

  /** Six words of letters, one with the last two and the bit that ends the message, zeros, and the bit count. */
  lemma PaddedAlphabet()
    ensures Pad(ALPHABET) == EncodeWords(WORDS)
  {
    hide EncodeWords;
    LettersAsWords();
    ZerosAsWords(7);
    EncodesJoin(WORDS[..7], WORDS[7..14]);
    EncodesJoin(WORDS[..14], WORDS[14..]);
    assert WORDS[..14] == WORDS[..7] + WORDS[7..14] && WORDS == WORDS[..14] + WORDS[14..];
    assert WORDS[7..14] == seq(7, _ => 0) && WORDS[14..] == BitCount(26);
    assert ALPHABET + ([0x80] + Zeros(29)) == (ALPHABET + [0x80, 0]) + Zeros(28);
  }

  lemma LetterWord(k: nat)
    requires k < 6
    ensures EncodeWord(WORDS[k]) == [0x61 + 4 * k, 0x62 + 4 * k, 0x63 + 4 * k, 0x64 + 4 * k]
  {
    hide EncodeWord;
    BytesRoundTrip([0x61 + 4 * k, 0x62 + 4 * k, 0x63 + 4 * k, 0x64 + 4 * k]);
    assert WORDS[k] == 0x64636261 + 0x04040404 * k;
  }

  lemma LastLetters()
    ensures EncodeWord(0x00807A79) == [0x79, 0x7A, 0x80, 0]
  {
    hide EncodeWord;
    BytesRoundTrip([0x79, 0x7A, 0x80, 0]);
  }

  lemma LetterWords(n: nat)
    requires n <= 6
    ensures EncodeWords(WORDS[..n]) == ALPHABET[..4 * n]
  {
    hide EncodeWords, EncodeWord;
    if n == 0 {
      NoBytes();
    } else {
      LetterWords(n - 1);
      EncodeAppends(WORDS[..n - 1], WORDS[n - 1]);
      assert WORDS[..n] == WORDS[..n - 1] + [WORDS[n - 1]];
      LetterWord(n - 1);
    }
  }

  lemma LettersAsWords()
    ensures EncodeWords(WORDS[..7]) == ALPHABET + [0x80, 0]
  {
    hide EncodeWords, EncodeWord;
    LetterWords(6);
    LastLetters();
    EncodeAppends(WORDS[..6], WORDS[6]);
    assert WORDS[..7] == WORDS[..6] + [WORDS[6]];
  }

  lemma NoBytes()
    ensures EncodeWords([]) == []
  {
  }

  lemma {:induction false} EncodesJoin(a: seq<Word>, b: seq<Word>)
    ensures EncodeWords(a + b) == EncodeWords(a) + EncodeWords(b)
    decreases |a|
  {
    hide EncodeWord;
    if a == [] {
      assert a + b == b;
    } else {
      assert (a + b)[1..] == a[1..] + b;
      EncodesJoin(a[1..], b);
    }
  }

  lemma {:induction false} ZerosAsWords(n: nat)
    ensures EncodeWords(seq(n, _ => 0)) == Zeros(4 * n)
  {
    if n > 0 {
      ZerosAsWords(n - 1);
      assert seq(n, _ => 0)[1..] == seq(n - 1, _ => 0);
    }
  }

  /** Whatever compresses as RFC 1321 says, the alphabet has the digest of its appendix A.5. */
  lemma DigestOfAlphabet(f: Compression)
    requires Compresses(f)
    ensures Digest(f, ALPHABET) == [
              0xC3, 0xFC, 0xD3, 0xD7, 0x61, 0x92, 0xE4, 0x00, 0x7D, 0xFB, 0x49, 0x6C, 0xCA, 0x67, 0xE1, 0x3B]
  {
    hide EncodeWords, DecodeWords, AllSteps, Steps, Pad, Compresses, Transform, Absorb;
    var block := Pad(ALPHABET);
    PaddedAlphabet();
    EncodeThenDecode(WORDS);
    AbsorbOne(f, INITIAL, block);
    CompressionOf(f, INITIAL, block);
    SixtyFourSteps(REGS0, WORDS);
    AllStepsOfAlphabet();
    assert Transform(INITIAL, block) == AFTER by { TransformOf(INITIAL, block); }
    AsBytes();
  }

  const AFTER := State(0xD7D3FCC3, 0x00E49261, 0x6C49FB7D, 0x3BE167CA)

  lemma AbsorbOne(f: Compression, s: State, block: seq<Byte>)
    requires |block| == 64
    ensures Absorb(f, s, block) == f(s, block)
  {
    assert block[..64] == block && block[64..] == [];
    assert Absorb(f, f(s, block), []) == f(s, block);
  }

  lemma TransformOf(s: State, block: seq<Byte>)
    requires |block| == 64
    ensures var r := Steps(Regs(s.a, s.b, s.c, s.d), DecodeWords(block), 4 * |DecodeWords(block)|);
            Transform(s, block) == State(Add(s.a, r.a), Add(s.b, r.b), Add(s.c, r.c), Add(s.d, r.d))
  {
  }

  lemma AsBytes()
    ensures EncodeWords(StateWords(AFTER))
         == [0xC3, 0xFC, 0xD3, 0xD7, 0x61, 0x92, 0xE4, 0x00, 0x7D, 0xFB, 0x49, 0x6C, 0xCA, 0x67, 0xE1, 0x3B]
  {
    hide EncodeWords, EncodeWord;
    BytesRoundTrip([0xC3, 0xFC, 0xD3, 0xD7]);
    BytesRoundTrip([0x61, 0x92, 0xE4, 0x00]);
    BytesRoundTrip([0x7D, 0xFB, 0x49, 0x6C]);
    BytesRoundTrip([0xCA, 0x67, 0xE1, 0x3B]);
    EncodeNext(AFTER.d, []);
    EncodeNext(AFTER.c, [AFTER.d]);
    EncodeNext(AFTER.b, [AFTER.c, AFTER.d]);
    EncodeNext(AFTER.a, [AFTER.b, AFTER.c, AFTER.d]);
    NoBytes();
    assert [AFTER.d] + [] == [AFTER.d] && [AFTER.c] + [AFTER.d] == [AFTER.c, AFTER.d];
    assert [AFTER.b] + [AFTER.c, AFTER.d] == [AFTER.b, AFTER.c, AFTER.d];
    assert [AFTER.a] + [AFTER.b, AFTER.c, AFTER.d] == StateWords(AFTER);
  }
}
