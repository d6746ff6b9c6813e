/** The constants of sections 4.2.2 and 5.3.3 of FIPS 180-4, and the two bitwise functions of section
    4.1.2, by what they are and not by their digits or their formulas. */
module Fips180Constants {
  import opened ByteStrings
  import F = Fips180
  import opened Sha256Known

  type Word = F.Word

  /** Each bit of the result is that of `y` where `x` has a one, and that of `z` where it has a zero. */
  lemma ChChooses(x: Word, y: Word, z: Word)
    ensures x & F.Ch(x, y, z) == x & y && !x & F.Ch(x, y, z) == !x & z
  {
  }

  /** Where two of the three agree, they decide. */
  lemma MajDecides(x: Word, y: Word, z: Word)
    ensures F.Maj(x, x, y) == x && F.Maj(x, y, x) == x && F.Maj(y, x, x) == x
    ensures F.Maj(x, y, z) & !(x ^ y) == x & !(x ^ y)
  {
  }

  /** `w` is the first 32 bits of the fractional part of the square root of `n`, whose whole part is `a`. */
  predicate SquareRootBits(n: nat, a: nat, w: nat) {
    var r := a * U32_LIMIT + w;
    w < U32_LIMIT && r * r <= n * (U32_LIMIT * U32_LIMIT) < (r + 1) * (r + 1)
  }

  /** The same of the cube root. */
  predicate CubeRootBits(n: nat, a: nat, w: nat) {
    var r := a * U32_LIMIT + w;
    w < U32_LIMIT && r * r * r <= n * (U32_LIMIT * U32_LIMIT * U32_LIMIT) < (r + 1) * (r + 1) * (r + 1)
  }

  lemma SquareRoots()
    ensures SquareRootBits(2, 1, F.H0[0] as nat)
    ensures SquareRootBits(3, 1, F.H0[1] as nat)
    ensures SquareRootBits(5, 2, F.H0[2] as nat)
    ensures SquareRootBits(7, 2, F.H0[3] as nat)
    ensures SquareRootBits(11, 3, F.H0[4] as nat)
    ensures SquareRootBits(13, 3, F.H0[5] as nat)
    ensures SquareRootBits(17, 4, F.H0[6] as nat)
    ensures SquareRootBits(19, 4, F.H0[7] as nat)
  {
    assert F.H0[0] as nat == 0x6a09e667;
    assert F.H0[1] as nat == 0xbb67ae85;
    assert F.H0[2] as nat == 0x3c6ef372;
    assert F.H0[3] as nat == 0xa54ff53a;
    assert F.H0[4] as nat == 0x510e527f;
    assert F.H0[5] as nat == 0x9b05688c;
    assert F.H0[6] as nat == 0x1f83d9ab;
    assert F.H0[7] as nat == 0x5be0cd19;
  }

  lemma CubeRoots0()
    ensures CubeRootBits(2, 1, F.K[0] as nat)
    ensures CubeRootBits(3, 1, F.K[1] as nat)
    ensures CubeRootBits(5, 1, F.K[2] as nat)
    ensures CubeRootBits(7, 1, F.K[3] as nat)
    ensures CubeRootBits(11, 2, F.K[4] as nat)
    ensures CubeRootBits(13, 2, F.K[5] as nat)
    ensures CubeRootBits(17, 2, F.K[6] as nat)
    ensures CubeRootBits(19, 2, F.K[7] as nat)
  {
    ConstantsAre0();
    hide F.K;
  }

  lemma CubeRoots8()
    ensures CubeRootBits(23, 2, F.K[8] as nat)
    ensures CubeRootBits(29, 3, F.K[9] as nat)
    ensures CubeRootBits(31, 3, F.K[10] as nat)
    ensures CubeRootBits(37, 3, F.K[11] as nat)
    ensures CubeRootBits(41, 3, F.K[12] as nat)
    ensures CubeRootBits(43, 3, F.K[13] as nat)
    ensures CubeRootBits(47, 3, F.K[14] as nat)
    ensures CubeRootBits(53, 3, F.K[15] as nat)
  {
    ConstantsAre0();
    hide F.K;
  }

  lemma CubeRoots16()
    ensures CubeRootBits(59, 3, F.K[16] as nat)
    ensures CubeRootBits(61, 3, F.K[17] as nat)
    ensures CubeRootBits(67, 4, F.K[18] as nat)
    ensures CubeRootBits(71, 4, F.K[19] as nat)
    ensures CubeRootBits(73, 4, F.K[20] as nat)
    ensures CubeRootBits(79, 4, F.K[21] as nat)
    ensures CubeRootBits(83, 4, F.K[22] as nat)
    ensures CubeRootBits(89, 4, F.K[23] as nat)
  {
    ConstantsAre16();
    hide F.K;
  }

  lemma CubeRoots24()
    ensures CubeRootBits(97, 4, F.K[24] as nat)
    ensures CubeRootBits(101, 4, F.K[25] as nat)
    ensures CubeRootBits(103, 4, F.K[26] as nat)
    ensures CubeRootBits(107, 4, F.K[27] as nat)
    ensures CubeRootBits(109, 4, F.K[28] as nat)
    ensures CubeRootBits(113, 4, F.K[29] as nat)
    ensures CubeRootBits(127, 5, F.K[30] as nat)
    ensures CubeRootBits(131, 5, F.K[31] as nat)
  {
    ConstantsAre16();
    hide F.K;
  }

  lemma CubeRoots32()
    ensures CubeRootBits(137, 5, F.K[32] as nat)
    ensures CubeRootBits(139, 5, F.K[33] as nat)
    ensures CubeRootBits(149, 5, F.K[34] as nat)
    ensures CubeRootBits(151, 5, F.K[35] as nat)
    ensures CubeRootBits(157, 5, F.K[36] as nat)
    ensures CubeRootBits(163, 5, F.K[37] as nat)
    ensures CubeRootBits(167, 5, F.K[38] as nat)
    ensures CubeRootBits(173, 5, F.K[39] as nat)
  {
    ConstantsAre32();
    hide F.K;
  }

  lemma CubeRoots40()
    ensures CubeRootBits(179, 5, F.K[40] as nat)
    ensures CubeRootBits(181, 5, F.K[41] as nat)
    ensures CubeRootBits(191, 5, F.K[42] as nat)
    ensures CubeRootBits(193, 5, F.K[43] as nat)
    ensures CubeRootBits(197, 5, F.K[44] as nat)
    ensures CubeRootBits(199, 5, F.K[45] as nat)
    ensures CubeRootBits(211, 5, F.K[46] as nat)
    ensures CubeRootBits(223, 6, F.K[47] as nat)
  {
    ConstantsAre32();
    hide F.K;
  }

  lemma CubeRoots48()
    ensures CubeRootBits(227, 6, F.K[48] as nat)
    ensures CubeRootBits(229, 6, F.K[49] as nat)
    ensures CubeRootBits(233, 6, F.K[50] as nat)
    ensures CubeRootBits(239, 6, F.K[51] as nat)
    ensures CubeRootBits(241, 6, F.K[52] as nat)
    ensures CubeRootBits(251, 6, F.K[53] as nat)
    ensures CubeRootBits(257, 6, F.K[54] as nat)
    ensures CubeRootBits(263, 6, F.K[55] as nat)
  {
    ConstantsAre48();
    hide F.K;
  }

  lemma CubeRoots56()
    ensures CubeRootBits(269, 6, F.K[56] as nat)
    ensures CubeRootBits(271, 6, F.K[57] as nat)
    ensures CubeRootBits(277, 6, F.K[58] as nat)
    ensures CubeRootBits(281, 6, F.K[59] as nat)
    ensures CubeRootBits(283, 6, F.K[60] as nat)
    ensures CubeRootBits(293, 6, F.K[61] as nat)
    ensures CubeRootBits(307, 6, F.K[62] as nat)
    ensures CubeRootBits(311, 6, F.K[63] as nat)
  {
    ConstantsAre48();
    hide F.K;
  }

}
