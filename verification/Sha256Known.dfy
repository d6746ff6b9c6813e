/** A known answer: the SHA-256 of "abc", one of the test vectors of upki/src/sha256.rs, worked out word
    by word and round by round from FIPS 180-4. */
module Sha256Known {
  import opened ByteStrings
  import F = Fips180

  type Word = F.Word

  const ABC: Bytes := [0x61, 0x62, 0x63]

  const DIGEST_OF_ABC: Bytes :=
    [0xba, 0x78, 0x16, 0xbf] + [0x8f, 0x01, 0xcf, 0xea] + [0x41, 0x41, 0x40, 0xde] + [0x5d, 0xae, 0x22, 0x23] +
    [0xb0, 0x03, 0x61, 0xa3] + [0x96, 0x17, 0x7a, 0x9c] + [0xb4, 0x10, 0xff, 0x61] + [0xf2, 0x00, 0x15, 0xad]

  /** One more word of the schedule. */
  lemma NextWord(b: F.Block, t: nat, w2: Word, w7: Word, w15: Word, w16: Word, w: Word)
    requires 16 <= t < 64
    requires F.W(b, t - 2) == w2 && F.W(b, t - 7) == w7 && F.W(b, t - 15) == w15 && F.W(b, t - 16) == w16
    requires F.Add(F.Add(F.Add(F.SmallSigma1(w2), w7), F.SmallSigma0(w15)), w16) == w
    ensures F.W(b, t) == w
  {
    hide F.Add, F.SmallSigma0, F.SmallSigma1;
  }

  /** One more round: two of the working variables are new, the others move up. */
  lemma NextRound(blk: F.Block, t: nat, a: Word, b: Word, c: Word, d: Word, e: Word, f: Word, g: Word, h: Word,
                  k: Word, w: Word, a': Word, e': Word)
    requires t < 64 && F.Rounds(F.H0, blk, t) == F.Working(a, b, c, d, e, f, g, h)
    requires F.K[t] == k && F.W(blk, t) == w
    requires F.Round(F.Working(a, b, c, d, e, f, g, h), k, w) == F.Working(a', a, b, c, e', e, f, g)
    ensures F.Rounds(F.H0, blk, t + 1) == F.Working(a', a, b, c, e', e, f, g)
  {
    hide F.Round;
  }

  ghost predicate Words0(b: F.Block) {
    F.W(b, 0) == 0x61626380 && F.W(b, 1) == 0x00000000 && F.W(b, 2) == 0x00000000 &&
    F.W(b, 3) == 0x00000000 && F.W(b, 4) == 0x00000000 && F.W(b, 5) == 0x00000000 &&
    F.W(b, 6) == 0x00000000 && F.W(b, 7) == 0x00000000 && F.W(b, 8) == 0x00000000 &&
    F.W(b, 9) == 0x00000000 && F.W(b, 10) == 0x00000000 && F.W(b, 11) == 0x00000000 &&
    F.W(b, 12) == 0x00000000 && F.W(b, 13) == 0x00000000 && F.W(b, 14) == 0x00000000 &&
    F.W(b, 15) == 0x00000018
  }

  ghost predicate Words16(b: F.Block) {
    F.W(b, 16) == 0x61626380 && F.W(b, 17) == 0x000f0000 && F.W(b, 18) == 0x7da86405 &&
    F.W(b, 19) == 0x600003c6 && F.W(b, 20) == 0x3e9d7b78 && F.W(b, 21) == 0x0183fc00 &&
    F.W(b, 22) == 0x12dcbfdb && F.W(b, 23) == 0xe2e2c38e && F.W(b, 24) == 0xc8215c1a &&
    F.W(b, 25) == 0xb73679a2 && F.W(b, 26) == 0xe5bc3909 && F.W(b, 27) == 0x32663c5b &&
    F.W(b, 28) == 0x9d209d67 && F.W(b, 29) == 0xec8726cb && F.W(b, 30) == 0x702138a4 &&
    F.W(b, 31) == 0xd3b7973b
  }

  ghost predicate Words32(b: F.Block) {
    F.W(b, 32) == 0x93f5997f && F.W(b, 33) == 0x3b68ba73 && F.W(b, 34) == 0xaff4ffc1 &&
    F.W(b, 35) == 0xf10a5c62 && F.W(b, 36) == 0x0a8b3996 && F.W(b, 37) == 0x72af830a &&
    F.W(b, 38) == 0x9409e33e && F.W(b, 39) == 0x24641522 && F.W(b, 40) == 0x9f47bf94 &&
    F.W(b, 41) == 0xf0a64f5a && F.W(b, 42) == 0x3e246a79 && F.W(b, 43) == 0x27333ba3 &&
    F.W(b, 44) == 0x0c4763f2 && F.W(b, 45) == 0x840abf27 && F.W(b, 46) == 0x7a290d5d &&
    F.W(b, 47) == 0x065c43da
  }

  ghost predicate Words48(b: F.Block) {
    F.W(b, 48) == 0xfb3e89cb && F.W(b, 49) == 0xcc7617db && F.W(b, 50) == 0xb9e66c34 &&
    F.W(b, 51) == 0xa9993667 && F.W(b, 52) == 0x84badedd && F.W(b, 53) == 0xc21462bc &&
    F.W(b, 54) == 0x1487472c && F.W(b, 55) == 0xb20f7a99 && F.W(b, 56) == 0xef57b9cd &&
    F.W(b, 57) == 0xebe6b238 && F.W(b, 58) == 0x9fe3095e && F.W(b, 59) == 0x78bc8d4b &&
    F.W(b, 60) == 0xa43fcf15 && F.W(b, 61) == 0x668b2ff8 && F.W(b, 62) == 0xeeaba2cc &&
    F.W(b, 63) == 0x12b1edeb
  }

  ghost predicate Constants0() {
    F.K[0] == 0x428a2f98 && F.K[1] == 0x71374491 && F.K[2] == 0xb5c0fbcf && F.K[3] == 0xe9b5dba5 &&
    F.K[4] == 0x3956c25b && F.K[5] == 0x59f111f1 && F.K[6] == 0x923f82a4 && F.K[7] == 0xab1c5ed5 &&
    F.K[8] == 0xd807aa98 && F.K[9] == 0x12835b01 && F.K[10] == 0x243185be && F.K[11] == 0x550c7dc3 &&
    F.K[12] == 0x72be5d74 && F.K[13] == 0x80deb1fe && F.K[14] == 0x9bdc06a7 && F.K[15] == 0xc19bf174
  }

  lemma ConstantsAre0()
    ensures Constants0()
  {
  }

  ghost predicate Constants16() {
    F.K[16] == 0xe49b69c1 && F.K[17] == 0xefbe4786 && F.K[18] == 0x0fc19dc6 && F.K[19] == 0x240ca1cc &&
    F.K[20] == 0x2de92c6f && F.K[21] == 0x4a7484aa && F.K[22] == 0x5cb0a9dc && F.K[23] == 0x76f988da &&
    F.K[24] == 0x983e5152 && F.K[25] == 0xa831c66d && F.K[26] == 0xb00327c8 && F.K[27] == 0xbf597fc7 &&
    F.K[28] == 0xc6e00bf3 && F.K[29] == 0xd5a79147 && F.K[30] == 0x06ca6351 && F.K[31] == 0x14292967
  }

  lemma ConstantsAre16()
    ensures Constants16()
  {
  }

  ghost predicate Constants32() {
    F.K[32] == 0x27b70a85 && F.K[33] == 0x2e1b2138 && F.K[34] == 0x4d2c6dfc && F.K[35] == 0x53380d13 &&
    F.K[36] == 0x650a7354 && F.K[37] == 0x766a0abb && F.K[38] == 0x81c2c92e && F.K[39] == 0x92722c85 &&
    F.K[40] == 0xa2bfe8a1 && F.K[41] == 0xa81a664b && F.K[42] == 0xc24b8b70 && F.K[43] == 0xc76c51a3 &&
    F.K[44] == 0xd192e819 && F.K[45] == 0xd6990624 && F.K[46] == 0xf40e3585 && F.K[47] == 0x106aa070
  }

  lemma ConstantsAre32()
    ensures Constants32()
  {
  }

  ghost predicate Constants48() {
    F.K[48] == 0x19a4c116 && F.K[49] == 0x1e376c08 && F.K[50] == 0x2748774c && F.K[51] == 0x34b0bcb5 &&
    F.K[52] == 0x391c0cb3 && F.K[53] == 0x4ed8aa4a && F.K[54] == 0x5b9cca4f && F.K[55] == 0x682e6ff3 &&
    F.K[56] == 0x748f82ee && F.K[57] == 0x78a5636f && F.K[58] == 0x84c87814 && F.K[59] == 0x8cc70208 &&
    F.K[60] == 0x90befffa && F.K[61] == 0xa4506ceb && F.K[62] == 0xbef9a3f7 && F.K[63] == 0xc67178f2
  }

  lemma ConstantsAre48()
    ensures Constants48()
  {
  }

  lemma WordsAre16(b: F.Block)
    requires Words0(b)
    ensures Words16(b)
  {
    NextWord(b, 16, 0x00000000, 0x00000000, 0x00000000, 0x61626380, 0x61626380);
    NextWord(b, 17, 0x00000018, 0x00000000, 0x00000000, 0x00000000, 0x000f0000);
    NextWord(b, 18, 0x61626380, 0x00000000, 0x00000000, 0x00000000, 0x7da86405);
    NextWord(b, 19, 0x000f0000, 0x00000000, 0x00000000, 0x00000000, 0x600003c6);
    NextWord(b, 20, 0x7da86405, 0x00000000, 0x00000000, 0x00000000, 0x3e9d7b78);
    NextWord(b, 21, 0x600003c6, 0x00000000, 0x00000000, 0x00000000, 0x0183fc00);
    NextWord(b, 22, 0x3e9d7b78, 0x00000018, 0x00000000, 0x00000000, 0x12dcbfdb);
    NextWord(b, 23, 0x0183fc00, 0x61626380, 0x00000000, 0x00000000, 0xe2e2c38e);
    NextWord(b, 24, 0x12dcbfdb, 0x000f0000, 0x00000000, 0x00000000, 0xc8215c1a);
    NextWord(b, 25, 0xe2e2c38e, 0x7da86405, 0x00000000, 0x00000000, 0xb73679a2);
    NextWord(b, 26, 0xc8215c1a, 0x600003c6, 0x00000000, 0x00000000, 0xe5bc3909);
    NextWord(b, 27, 0xb73679a2, 0x3e9d7b78, 0x00000000, 0x00000000, 0x32663c5b);
    NextWord(b, 28, 0xe5bc3909, 0x0183fc00, 0x00000000, 0x00000000, 0x9d209d67);
    NextWord(b, 29, 0x32663c5b, 0x12dcbfdb, 0x00000000, 0x00000000, 0xec8726cb);
    NextWord(b, 30, 0x9d209d67, 0xe2e2c38e, 0x00000018, 0x00000000, 0x702138a4);
    NextWord(b, 31, 0xec8726cb, 0xc8215c1a, 0x61626380, 0x00000018, 0xd3b7973b);
  }

  lemma WordsAre32(b: F.Block)
    requires Words16(b)
    ensures Words32(b)
  {
    NextWord(b, 32, 0x702138a4, 0xb73679a2, 0x000f0000, 0x61626380, 0x93f5997f);
    NextWord(b, 33, 0xd3b7973b, 0xe5bc3909, 0x7da86405, 0x000f0000, 0x3b68ba73);
    NextWord(b, 34, 0x93f5997f, 0x32663c5b, 0x600003c6, 0x7da86405, 0xaff4ffc1);
    NextWord(b, 35, 0x3b68ba73, 0x9d209d67, 0x3e9d7b78, 0x600003c6, 0xf10a5c62);
    NextWord(b, 36, 0xaff4ffc1, 0xec8726cb, 0x0183fc00, 0x3e9d7b78, 0x0a8b3996);
    NextWord(b, 37, 0xf10a5c62, 0x702138a4, 0x12dcbfdb, 0x0183fc00, 0x72af830a);
    NextWord(b, 38, 0x0a8b3996, 0xd3b7973b, 0xe2e2c38e, 0x12dcbfdb, 0x9409e33e);
    NextWord(b, 39, 0x72af830a, 0x93f5997f, 0xc8215c1a, 0xe2e2c38e, 0x24641522);
    NextWord(b, 40, 0x9409e33e, 0x3b68ba73, 0xb73679a2, 0xc8215c1a, 0x9f47bf94);
    NextWord(b, 41, 0x24641522, 0xaff4ffc1, 0xe5bc3909, 0xb73679a2, 0xf0a64f5a);
    NextWord(b, 42, 0x9f47bf94, 0xf10a5c62, 0x32663c5b, 0xe5bc3909, 0x3e246a79);
    NextWord(b, 43, 0xf0a64f5a, 0x0a8b3996, 0x9d209d67, 0x32663c5b, 0x27333ba3);
    NextWord(b, 44, 0x3e246a79, 0x72af830a, 0xec8726cb, 0x9d209d67, 0x0c4763f2);
    NextWord(b, 45, 0x27333ba3, 0x9409e33e, 0x702138a4, 0xec8726cb, 0x840abf27);
    NextWord(b, 46, 0x0c4763f2, 0x24641522, 0xd3b7973b, 0x702138a4, 0x7a290d5d);
    NextWord(b, 47, 0x840abf27, 0x9f47bf94, 0x93f5997f, 0xd3b7973b, 0x065c43da);
  }

  lemma WordsAre48(b: F.Block)
    requires Words32(b)
    ensures Words48(b)
  {
    NextWord(b, 48, 0x7a290d5d, 0xf0a64f5a, 0x3b68ba73, 0x93f5997f, 0xfb3e89cb);
    NextWord(b, 49, 0x065c43da, 0x3e246a79, 0xaff4ffc1, 0x3b68ba73, 0xcc7617db);
    NextWord(b, 50, 0xfb3e89cb, 0x27333ba3, 0xf10a5c62, 0xaff4ffc1, 0xb9e66c34);
    NextWord(b, 51, 0xcc7617db, 0x0c4763f2, 0x0a8b3996, 0xf10a5c62, 0xa9993667);
    NextWord(b, 52, 0xb9e66c34, 0x840abf27, 0x72af830a, 0x0a8b3996, 0x84badedd);
    NextWord(b, 53, 0xa9993667, 0x7a290d5d, 0x9409e33e, 0x72af830a, 0xc21462bc);
    NextWord(b, 54, 0x84badedd, 0x065c43da, 0x24641522, 0x9409e33e, 0x1487472c);
    NextWord(b, 55, 0xc21462bc, 0xfb3e89cb, 0x9f47bf94, 0x24641522, 0xb20f7a99);
    NextWord(b, 56, 0x1487472c, 0xcc7617db, 0xf0a64f5a, 0x9f47bf94, 0xef57b9cd);
    NextWord(b, 57, 0xb20f7a99, 0xb9e66c34, 0x3e246a79, 0xf0a64f5a, 0xebe6b238);
    NextWord(b, 58, 0xef57b9cd, 0xa9993667, 0x27333ba3, 0x3e246a79, 0x9fe3095e);
    NextWord(b, 59, 0xebe6b238, 0x84badedd, 0x0c4763f2, 0x27333ba3, 0x78bc8d4b);
    NextWord(b, 60, 0x9fe3095e, 0xc21462bc, 0x840abf27, 0x0c4763f2, 0xa43fcf15);
    NextWord(b, 61, 0x78bc8d4b, 0x1487472c, 0x7a290d5d, 0x840abf27, 0x668b2ff8);
    NextWord(b, 62, 0xa43fcf15, 0xb20f7a99, 0x065c43da, 0x7a290d5d, 0xeeaba2cc);
    NextWord(b, 63, 0x668b2ff8, 0xef57b9cd, 0xfb3e89cb, 0x065c43da, 0x12b1edeb);
  }

  lemma Rounds0(b: F.Block)
    requires Words0(b) && Constants0()
    requires F.Rounds(F.H0, b, 0) == F.Working(
      0x6a09e667, 0xbb67ae85, 0x3c6ef372, 0xa54ff53a, 0x510e527f, 0x9b05688c, 0x1f83d9ab, 0x5be0cd19)
    ensures F.Rounds(F.H0, b, 4) == F.Working(
      0xd550f666, 0xc8c347a7, 0x5a6ad9ad, 0x5d6aebcd, 0x24e00850, 0xf92939eb, 0x78ce7989, 0xfa2a4622)
  {
    hide F.K, F.H0, F.W, F.Rounds;
    NextRound(b, 0, 0x6a09e667, 0xbb67ae85, 0x3c6ef372, 0xa54ff53a, 0x510e527f, 0x9b05688c, 0x1f83d9ab, 0x5be0cd19,
              0x428a2f98, 0x61626380, 0x5d6aebcd, 0xfa2a4622);
    NextRound(b, 1, 0x5d6aebcd, 0x6a09e667, 0xbb67ae85, 0x3c6ef372, 0xfa2a4622, 0x510e527f, 0x9b05688c, 0x1f83d9ab,
              0x71374491, 0x00000000, 0x5a6ad9ad, 0x78ce7989);
    NextRound(b, 2, 0x5a6ad9ad, 0x5d6aebcd, 0x6a09e667, 0xbb67ae85, 0x78ce7989, 0xfa2a4622, 0x510e527f, 0x9b05688c,
              0xb5c0fbcf, 0x00000000, 0xc8c347a7, 0xf92939eb);
    NextRound(b, 3, 0xc8c347a7, 0x5a6ad9ad, 0x5d6aebcd, 0x6a09e667, 0xf92939eb, 0x78ce7989, 0xfa2a4622, 0x510e527f,
              0xe9b5dba5, 0x00000000, 0xd550f666, 0x24e00850);
  }

  lemma Rounds4(b: F.Block)
    requires Words0(b) && Constants0()
    requires F.Rounds(F.H0, b, 4) == F.Working(
      0xd550f666, 0xc8c347a7, 0x5a6ad9ad, 0x5d6aebcd, 0x24e00850, 0xf92939eb, 0x78ce7989, 0xfa2a4622)
    ensures F.Rounds(F.H0, b, 8) == F.Working(
      0x85a07b5f, 0xe5030380, 0x2b4209f5, 0x04409a6a, 0x0c657a79, 0x9b27a401, 0x714260ad, 0x43ada245)
  {
    hide F.K, F.H0, F.W, F.Rounds;
    NextRound(b, 4, 0xd550f666, 0xc8c347a7, 0x5a6ad9ad, 0x5d6aebcd, 0x24e00850, 0xf92939eb, 0x78ce7989, 0xfa2a4622,
              0x3956c25b, 0x00000000, 0x04409a6a, 0x43ada245);
    NextRound(b, 5, 0x04409a6a, 0xd550f666, 0xc8c347a7, 0x5a6ad9ad, 0x43ada245, 0x24e00850, 0xf92939eb, 0x78ce7989,
              0x59f111f1, 0x00000000, 0x2b4209f5, 0x714260ad);
    NextRound(b, 6, 0x2b4209f5, 0x04409a6a, 0xd550f666, 0xc8c347a7, 0x714260ad, 0x43ada245, 0x24e00850, 0xf92939eb,
              0x923f82a4, 0x00000000, 0xe5030380, 0x9b27a401);
    NextRound(b, 7, 0xe5030380, 0x2b4209f5, 0x04409a6a, 0xd550f666, 0x9b27a401, 0x714260ad, 0x43ada245, 0x24e00850,
              0xab1c5ed5, 0x00000000, 0x85a07b5f, 0x0c657a79);
  }

  lemma Rounds8(b: F.Block)
    requires Words0(b) && Constants0()
    requires F.Rounds(F.H0, b, 8) == F.Working(
      0x85a07b5f, 0xe5030380, 0x2b4209f5, 0x04409a6a, 0x0c657a79, 0x9b27a401, 0x714260ad, 0x43ada245)
    ensures F.Rounds(F.H0, b, 12) == F.Working(
      0xf71fc5a9, 0x4798a3f4, 0x8c87346b, 0x8e04ecb9, 0x816fd6e9, 0x436b23e8, 0x1cc92596, 0x32ca2d8c)
  {
    hide F.K, F.H0, F.W, F.Rounds;
    NextRound(b, 8, 0x85a07b5f, 0xe5030380, 0x2b4209f5, 0x04409a6a, 0x0c657a79, 0x9b27a401, 0x714260ad, 0x43ada245,
              0xd807aa98, 0x00000000, 0x8e04ecb9, 0x32ca2d8c);
    NextRound(b, 9, 0x8e04ecb9, 0x85a07b5f, 0xe5030380, 0x2b4209f5, 0x32ca2d8c, 0x0c657a79, 0x9b27a401, 0x714260ad,
              0x12835b01, 0x00000000, 0x8c87346b, 0x1cc92596);
    NextRound(b, 10, 0x8c87346b, 0x8e04ecb9, 0x85a07b5f, 0xe5030380, 0x1cc92596, 0x32ca2d8c, 0x0c657a79, 0x9b27a401,
              0x243185be, 0x00000000, 0x4798a3f4, 0x436b23e8);
    NextRound(b, 11, 0x4798a3f4, 0x8c87346b, 0x8e04ecb9, 0x85a07b5f, 0x436b23e8, 0x1cc92596, 0x32ca2d8c, 0x0c657a79,
              0x550c7dc3, 0x00000000, 0xf71fc5a9, 0x816fd6e9);
  }

  lemma Rounds12(b: F.Block)
    requires Words0(b) && Constants0()
    requires F.Rounds(F.H0, b, 12) == F.Working(
      0xf71fc5a9, 0x4798a3f4, 0x8c87346b, 0x8e04ecb9, 0x816fd6e9, 0x436b23e8, 0x1cc92596, 0x32ca2d8c)
    ensures F.Rounds(F.H0, b, 16) == F.Working(
      0xb0fa238e, 0xc0645fde, 0xd932eb16, 0x87912990, 0x07590dcd, 0x0b92f20c, 0x745a48de, 0x1e578218)
  {
    hide F.K, F.H0, F.W, F.Rounds;
    NextRound(b, 12, 0xf71fc5a9, 0x4798a3f4, 0x8c87346b, 0x8e04ecb9, 0x816fd6e9, 0x436b23e8, 0x1cc92596, 0x32ca2d8c,
              0x72be5d74, 0x00000000, 0x87912990, 0x1e578218);
    NextRound(b, 13, 0x87912990, 0xf71fc5a9, 0x4798a3f4, 0x8c87346b, 0x1e578218, 0x816fd6e9, 0x436b23e8, 0x1cc92596,
              0x80deb1fe, 0x00000000, 0xd932eb16, 0x745a48de);
    NextRound(b, 14, 0xd932eb16, 0x87912990, 0xf71fc5a9, 0x4798a3f4, 0x745a48de, 0x1e578218, 0x816fd6e9, 0x436b23e8,
              0x9bdc06a7, 0x00000000, 0xc0645fde, 0x0b92f20c);
    NextRound(b, 15, 0xc0645fde, 0xd932eb16, 0x87912990, 0xf71fc5a9, 0x0b92f20c, 0x745a48de, 0x1e578218, 0x816fd6e9,
              0xc19bf174, 0x00000018, 0xb0fa238e, 0x07590dcd);
  }

  lemma Rounds16(b: F.Block)
    requires Words16(b) && Constants16()
    requires F.Rounds(F.H0, b, 16) == F.Working(
      0xb0fa238e, 0xc0645fde, 0xd932eb16, 0x87912990, 0x07590dcd, 0x0b92f20c, 0x745a48de, 0x1e578218)
    ensures F.Rounds(F.H0, b, 20) == F.Working(
      0xe1f20c33, 0xfe777bbf, 0xc2fbd9d1, 0x21da9a9b, 0xb0638179, 0xcc899961, 0x846ee454, 0x8034229c)
  {
    hide F.K, F.H0, F.W, F.Rounds;
    NextRound(b, 16, 0xb0fa238e, 0xc0645fde, 0xd932eb16, 0x87912990, 0x07590dcd, 0x0b92f20c, 0x745a48de, 0x1e578218,
              0xe49b69c1, 0x61626380, 0x21da9a9b, 0x8034229c);
    NextRound(b, 17, 0x21da9a9b, 0xb0fa238e, 0xc0645fde, 0xd932eb16, 0x8034229c, 0x07590dcd, 0x0b92f20c, 0x745a48de,
              0xefbe4786, 0x000f0000, 0xc2fbd9d1, 0x846ee454);
    NextRound(b, 18, 0xc2fbd9d1, 0x21da9a9b, 0xb0fa238e, 0xc0645fde, 0x846ee454, 0x8034229c, 0x07590dcd, 0x0b92f20c,
              0x0fc19dc6, 0x7da86405, 0xfe777bbf, 0xcc899961);
    NextRound(b, 19, 0xfe777bbf, 0xc2fbd9d1, 0x21da9a9b, 0xb0fa238e, 0xcc899961, 0x846ee454, 0x8034229c, 0x07590dcd,
              0x240ca1cc, 0x600003c6, 0xe1f20c33, 0xb0638179);
  }

  lemma Rounds20(b: F.Block)
    requires Words16(b) && Constants16()
    requires F.Rounds(F.H0, b, 20) == F.Working(
      0xe1f20c33, 0xfe777bbf, 0xc2fbd9d1, 0x21da9a9b, 0xb0638179, 0xcc899961, 0x846ee454, 0x8034229c)
    ensures F.Rounds(F.H0, b, 24) == F.Working(
      0xc5d53d8d, 0xa7a3623f, 0xc2606d6d, 0x9dc68b63, 0xaa47c347, 0x49f5114a, 0xe1257970, 0x8ada8930)
  {
    hide F.K, F.H0, F.W, F.Rounds;
    NextRound(b, 20, 0xe1f20c33, 0xfe777bbf, 0xc2fbd9d1, 0x21da9a9b, 0xb0638179, 0xcc899961, 0x846ee454, 0x8034229c,
              0x2de92c6f, 0x3e9d7b78, 0x9dc68b63, 0x8ada8930);
    NextRound(b, 21, 0x9dc68b63, 0xe1f20c33, 0xfe777bbf, 0xc2fbd9d1, 0x8ada8930, 0xb0638179, 0xcc899961, 0x846ee454,
              0x4a7484aa, 0x0183fc00, 0xc2606d6d, 0xe1257970);
    NextRound(b, 22, 0xc2606d6d, 0x9dc68b63, 0xe1f20c33, 0xfe777bbf, 0xe1257970, 0x8ada8930, 0xb0638179, 0xcc899961,
              0x5cb0a9dc, 0x12dcbfdb, 0xa7a3623f, 0x49f5114a);
    NextRound(b, 23, 0xa7a3623f, 0xc2606d6d, 0x9dc68b63, 0xe1f20c33, 0x49f5114a, 0xe1257970, 0x8ada8930, 0xb0638179,
              0x76f988da, 0xe2e2c38e, 0xc5d53d8d, 0xaa47c347);
  }

  lemma Rounds24(b: F.Block)
    requires Words16(b) && Constants16()
    requires F.Rounds(F.H0, b, 24) == F.Working(
      0xc5d53d8d, 0xa7a3623f, 0xc2606d6d, 0x9dc68b63, 0xaa47c347, 0x49f5114a, 0xe1257970, 0x8ada8930)
    ensures F.Rounds(F.H0, b, 28) == F.Working(
      0x77d37528, 0xb62ec4bc, 0xcde8037d, 0x1c2c2838, 0xedffbff8, 0xc74c6516, 0x14383d8e, 0x2823ef91)
  {
    hide F.K, F.H0, F.W, F.Rounds;
    NextRound(b, 24, 0xc5d53d8d, 0xa7a3623f, 0xc2606d6d, 0x9dc68b63, 0xaa47c347, 0x49f5114a, 0xe1257970, 0x8ada8930,
              0x983e5152, 0xc8215c1a, 0x1c2c2838, 0x2823ef91);
    NextRound(b, 25, 0x1c2c2838, 0xc5d53d8d, 0xa7a3623f, 0xc2606d6d, 0x2823ef91, 0xaa47c347, 0x49f5114a, 0xe1257970,
              0xa831c66d, 0xb73679a2, 0xcde8037d, 0x14383d8e);
    NextRound(b, 26, 0xcde8037d, 0x1c2c2838, 0xc5d53d8d, 0xa7a3623f, 0x14383d8e, 0x2823ef91, 0xaa47c347, 0x49f5114a,
              0xb00327c8, 0xe5bc3909, 0xb62ec4bc, 0xc74c6516);
    NextRound(b, 27, 0xb62ec4bc, 0xcde8037d, 0x1c2c2838, 0xc5d53d8d, 0xc74c6516, 0x14383d8e, 0x2823ef91, 0xaa47c347,
              0xbf597fc7, 0x32663c5b, 0x77d37528, 0xedffbff8);
  }

  lemma Rounds28(b: F.Block)
    requires Words16(b) && Constants16()
    requires F.Rounds(F.H0, b, 28) == F.Working(
      0x77d37528, 0xb62ec4bc, 0xcde8037d, 0x1c2c2838, 0xedffbff8, 0xc74c6516, 0x14383d8e, 0x2823ef91)
    ensures F.Rounds(F.H0, b, 32) == F.Working(
      0x73b33bf5, 0xea992a22, 0xa0060b30, 0x363482c9, 0xba591112, 0x0109ab3a, 0xade79437, 0x6112a3b7)
  {
    hide F.K, F.H0, F.W, F.Rounds;
    NextRound(b, 28, 0x77d37528, 0xb62ec4bc, 0xcde8037d, 0x1c2c2838, 0xedffbff8, 0xc74c6516, 0x14383d8e, 0x2823ef91,
              0xc6e00bf3, 0x9d209d67, 0x363482c9, 0x6112a3b7);
    NextRound(b, 29, 0x363482c9, 0x77d37528, 0xb62ec4bc, 0xcde8037d, 0x6112a3b7, 0xedffbff8, 0xc74c6516, 0x14383d8e,
              0xd5a79147, 0xec8726cb, 0xa0060b30, 0xade79437);
    NextRound(b, 30, 0xa0060b30, 0x363482c9, 0x77d37528, 0xb62ec4bc, 0xade79437, 0x6112a3b7, 0xedffbff8, 0xc74c6516,
              0x06ca6351, 0x702138a4, 0xea992a22, 0x0109ab3a);
    NextRound(b, 31, 0xea992a22, 0xa0060b30, 0x363482c9, 0x77d37528, 0x0109ab3a, 0xade79437, 0x6112a3b7, 0xedffbff8,
              0x14292967, 0xd3b7973b, 0x73b33bf5, 0xba591112);
  }

  lemma Rounds32(b: F.Block)
    requires Words32(b) && Constants32()
    requires F.Rounds(F.H0, b, 32) == F.Working(
      0x73b33bf5, 0xea992a22, 0xa0060b30, 0x363482c9, 0xba591112, 0x0109ab3a, 0xade79437, 0x6112a3b7)
    ensures F.Rounds(F.H0, b, 36) == F.Working(
      0x65a0cfe4, 0xa9a7738c, 0xfe604df5, 0x98e12507, 0xf4b002d6, 0x085f3833, 0x59249dd3, 0x9cd9f5f6)
  {
    hide F.K, F.H0, F.W, F.Rounds;
    NextRound(b, 32, 0x73b33bf5, 0xea992a22, 0xa0060b30, 0x363482c9, 0xba591112, 0x0109ab3a, 0xade79437, 0x6112a3b7,
              0x27b70a85, 0x93f5997f, 0x98e12507, 0x9cd9f5f6);
    NextRound(b, 33, 0x98e12507, 0x73b33bf5, 0xea992a22, 0xa0060b30, 0x9cd9f5f6, 0xba591112, 0x0109ab3a, 0xade79437,
              0x2e1b2138, 0x3b68ba73, 0xfe604df5, 0x59249dd3);
    NextRound(b, 34, 0xfe604df5, 0x98e12507, 0x73b33bf5, 0xea992a22, 0x59249dd3, 0x9cd9f5f6, 0xba591112, 0x0109ab3a,
              0x4d2c6dfc, 0xaff4ffc1, 0xa9a7738c, 0x085f3833);
    NextRound(b, 35, 0xa9a7738c, 0xfe604df5, 0x98e12507, 0x73b33bf5, 0x085f3833, 0x59249dd3, 0x9cd9f5f6, 0xba591112,
              0x53380d13, 0xf10a5c62, 0x65a0cfe4, 0xf4b002d6);
  }

  lemma Rounds36(b: F.Block)
    requires Words32(b) && Constants32()
    requires F.Rounds(F.H0, b, 36) == F.Working(
      0x65a0cfe4, 0xa9a7738c, 0xfe604df5, 0x98e12507, 0xf4b002d6, 0x085f3833, 0x59249dd3, 0x9cd9f5f6)
    ensures F.Rounds(F.H0, b, 40) == F.Working(
      0x79ea687a, 0x6dc57a8a, 0x34df1604, 0x41a65cb1, 0x1efbc0a0, 0xf0781bc8, 0xa507a53d, 0x0772a26b)
  {
    hide F.K, F.H0, F.W, F.Rounds;
    NextRound(b, 36, 0x65a0cfe4, 0xa9a7738c, 0xfe604df5, 0x98e12507, 0xf4b002d6, 0x085f3833, 0x59249dd3, 0x9cd9f5f6,
              0x650a7354, 0x0a8b3996, 0x41a65cb1, 0x0772a26b);
    NextRound(b, 37, 0x41a65cb1, 0x65a0cfe4, 0xa9a7738c, 0xfe604df5, 0x0772a26b, 0xf4b002d6, 0x085f3833, 0x59249dd3,
              0x766a0abb, 0x72af830a, 0x34df1604, 0xa507a53d);
    NextRound(b, 38, 0x34df1604, 0x41a65cb1, 0x65a0cfe4, 0xa9a7738c, 0xa507a53d, 0x0772a26b, 0xf4b002d6, 0x085f3833,
              0x81c2c92e, 0x9409e33e, 0x6dc57a8a, 0xf0781bc8);
    NextRound(b, 39, 0x6dc57a8a, 0x34df1604, 0x41a65cb1, 0x65a0cfe4, 0xf0781bc8, 0xa507a53d, 0x0772a26b, 0xf4b002d6,
              0x92722c85, 0x24641522, 0x79ea687a, 0x1efbc0a0);
  }

  lemma Rounds40(b: F.Block)
    requires Words32(b) && Constants32()
    requires F.Rounds(F.H0, b, 40) == F.Working(
      0x79ea687a, 0x6dc57a8a, 0x34df1604, 0x41a65cb1, 0x1efbc0a0, 0xf0781bc8, 0xa507a53d, 0x0772a26b)
    ensures F.Rounds(F.H0, b, 44) == F.Working(
      0x9d4baf93, 0x17aa0dfe, 0xdf46652f, 0xd6670766, 0xfda24c2e, 0xdecd4715, 0x838b2711, 0x26352d63)
  {
    hide F.K, F.H0, F.W, F.Rounds;
    NextRound(b, 40, 0x79ea687a, 0x6dc57a8a, 0x34df1604, 0x41a65cb1, 0x1efbc0a0, 0xf0781bc8, 0xa507a53d, 0x0772a26b,
              0xa2bfe8a1, 0x9f47bf94, 0xd6670766, 0x26352d63);
    NextRound(b, 41, 0xd6670766, 0x79ea687a, 0x6dc57a8a, 0x34df1604, 0x26352d63, 0x1efbc0a0, 0xf0781bc8, 0xa507a53d,
              0xa81a664b, 0xf0a64f5a, 0xdf46652f, 0x838b2711);
    NextRound(b, 42, 0xdf46652f, 0xd6670766, 0x79ea687a, 0x6dc57a8a, 0x838b2711, 0x26352d63, 0x1efbc0a0, 0xf0781bc8,
              0xc24b8b70, 0x3e246a79, 0x17aa0dfe, 0xdecd4715);
    NextRound(b, 43, 0x17aa0dfe, 0xdf46652f, 0xd6670766, 0x79ea687a, 0xdecd4715, 0x838b2711, 0x26352d63, 0x1efbc0a0,
              0xc76c51a3, 0x27333ba3, 0x9d4baf93, 0xfda24c2e);
  }

  lemma Rounds44(b: F.Block)
    requires Words32(b) && Constants32()
    requires F.Rounds(F.H0, b, 44) == F.Working(
      0x9d4baf93, 0x17aa0dfe, 0xdf46652f, 0xd6670766, 0xfda24c2e, 0xdecd4715, 0x838b2711, 0x26352d63)
    ensures F.Rounds(F.H0, b, 48) == F.Working(
      0x4172328d, 0xa14c14b0, 0x72ab4b91, 0x26628815, 0xfecf0bc6, 0xd57b94a9, 0xb7755da1, 0xa80f11f0)
  {
    hide F.K, F.H0, F.W, F.Rounds;
    NextRound(b, 44, 0x9d4baf93, 0x17aa0dfe, 0xdf46652f, 0xd6670766, 0xfda24c2e, 0xdecd4715, 0x838b2711, 0x26352d63,
              0xd192e819, 0x0c4763f2, 0x26628815, 0xa80f11f0);
    NextRound(b, 45, 0x26628815, 0x9d4baf93, 0x17aa0dfe, 0xdf46652f, 0xa80f11f0, 0xfda24c2e, 0xdecd4715, 0x838b2711,
              0xd6990624, 0x840abf27, 0x72ab4b91, 0xb7755da1);
    NextRound(b, 46, 0x72ab4b91, 0x26628815, 0x9d4baf93, 0x17aa0dfe, 0xb7755da1, 0xa80f11f0, 0xfda24c2e, 0xdecd4715,
              0xf40e3585, 0x7a290d5d, 0xa14c14b0, 0xd57b94a9);
    NextRound(b, 47, 0xa14c14b0, 0x72ab4b91, 0x26628815, 0x9d4baf93, 0xd57b94a9, 0xb7755da1, 0xa80f11f0, 0xfda24c2e,
              0x106aa070, 0x065c43da, 0x4172328d, 0xfecf0bc6);
  }

  lemma Rounds48(b: F.Block)
    requires Words48(b) && Constants48()
    requires F.Rounds(F.H0, b, 48) == F.Working(
      0x4172328d, 0xa14c14b0, 0x72ab4b91, 0x26628815, 0xfecf0bc6, 0xd57b94a9, 0xb7755da1, 0xa80f11f0)
    ensures F.Rounds(F.H0, b, 52) == F.Working(
      0x886e7a22, 0x7a0508a1, 0xf11bfaa8, 0x05757ceb, 0x49231c1e, 0x52f1ccf7, 0x6e5c390c, 0xbd714038)
  {
    hide F.K, F.H0, F.W, F.Rounds;
    NextRound(b, 48, 0x4172328d, 0xa14c14b0, 0x72ab4b91, 0x26628815, 0xfecf0bc6, 0xd57b94a9, 0xb7755da1, 0xa80f11f0,
              0x19a4c116, 0xfb3e89cb, 0x05757ceb, 0xbd714038);
    NextRound(b, 49, 0x05757ceb, 0x4172328d, 0xa14c14b0, 0x72ab4b91, 0xbd714038, 0xfecf0bc6, 0xd57b94a9, 0xb7755da1,
              0x1e376c08, 0xcc7617db, 0xf11bfaa8, 0x6e5c390c);
    NextRound(b, 50, 0xf11bfaa8, 0x05757ceb, 0x4172328d, 0xa14c14b0, 0x6e5c390c, 0xbd714038, 0xfecf0bc6, 0xd57b94a9,
              0x2748774c, 0xb9e66c34, 0x7a0508a1, 0x52f1ccf7);
    NextRound(b, 51, 0x7a0508a1, 0xf11bfaa8, 0x05757ceb, 0x4172328d, 0x52f1ccf7, 0x6e5c390c, 0xbd714038, 0xfecf0bc6,
              0x34b0bcb5, 0xa9993667, 0x886e7a22, 0x49231c1e);
  }

  lemma Rounds52(b: F.Block)
    requires Words48(b) && Constants48()
    requires F.Rounds(F.H0, b, 52) == F.Working(
      0x886e7a22, 0x7a0508a1, 0xf11bfaa8, 0x05757ceb, 0x49231c1e, 0x52f1ccf7, 0x6e5c390c, 0xbd714038)
    ensures F.Rounds(F.H0, b, 56) == F.Working(
      0x38cc9913, 0x3ec45cdb, 0xf5702fdb, 0x101fd28f, 0x54cb266b, 0xe50e1b4f, 0x9f4787c3, 0x529e7d00)
  {
    hide F.K, F.H0, F.W, F.Rounds;
    NextRound(b, 52, 0x886e7a22, 0x7a0508a1, 0xf11bfaa8, 0x05757ceb, 0x49231c1e, 0x52f1ccf7, 0x6e5c390c, 0xbd714038,
              0x391c0cb3, 0x84badedd, 0x101fd28f, 0x529e7d00);
    NextRound(b, 53, 0x101fd28f, 0x886e7a22, 0x7a0508a1, 0xf11bfaa8, 0x529e7d00, 0x49231c1e, 0x52f1ccf7, 0x6e5c390c,
              0x4ed8aa4a, 0xc21462bc, 0xf5702fdb, 0x9f4787c3);
    NextRound(b, 54, 0xf5702fdb, 0x101fd28f, 0x886e7a22, 0x7a0508a1, 0x9f4787c3, 0x529e7d00, 0x49231c1e, 0x52f1ccf7,
              0x5b9cca4f, 0x1487472c, 0x3ec45cdb, 0xe50e1b4f);
    NextRound(b, 55, 0x3ec45cdb, 0xf5702fdb, 0x101fd28f, 0x886e7a22, 0xe50e1b4f, 0x9f4787c3, 0x529e7d00, 0x49231c1e,
              0x682e6ff3, 0xb20f7a99, 0x38cc9913, 0x54cb266b);
  }

  lemma Rounds56(b: F.Block)
    requires Words48(b) && Constants48()
    requires F.Rounds(F.H0, b, 56) == F.Working(
      0x38cc9913, 0x3ec45cdb, 0xf5702fdb, 0x101fd28f, 0x54cb266b, 0xe50e1b4f, 0x9f4787c3, 0x529e7d00)
    ensures F.Rounds(F.H0, b, 60) == F.Working(
      0xb6ae8fff, 0xffb70472, 0xc062d46f, 0xfcd1887b, 0xb21bad3d, 0x6d83bfc6, 0x7e44008e, 0x9b5e906c)
  {
    hide F.K, F.H0, F.W, F.Rounds;
    NextRound(b, 56, 0x38cc9913, 0x3ec45cdb, 0xf5702fdb, 0x101fd28f, 0x54cb266b, 0xe50e1b4f, 0x9f4787c3, 0x529e7d00,
              0x748f82ee, 0xef57b9cd, 0xfcd1887b, 0x9b5e906c);
    NextRound(b, 57, 0xfcd1887b, 0x38cc9913, 0x3ec45cdb, 0xf5702fdb, 0x9b5e906c, 0x54cb266b, 0xe50e1b4f, 0x9f4787c3,
              0x78a5636f, 0xebe6b238, 0xc062d46f, 0x7e44008e);
    NextRound(b, 58, 0xc062d46f, 0xfcd1887b, 0x38cc9913, 0x3ec45cdb, 0x7e44008e, 0x9b5e906c, 0x54cb266b, 0xe50e1b4f,
              0x84c87814, 0x9fe3095e, 0xffb70472, 0x6d83bfc6);
    NextRound(b, 59, 0xffb70472, 0xc062d46f, 0xfcd1887b, 0x38cc9913, 0x6d83bfc6, 0x7e44008e, 0x9b5e906c, 0x54cb266b,
              0x8cc70208, 0x78bc8d4b, 0xb6ae8fff, 0xb21bad3d);
  }

  lemma Rounds60(b: F.Block)
    requires Words48(b) && Constants48()
    requires F.Rounds(F.H0, b, 60) == F.Working(
      0xb6ae8fff, 0xffb70472, 0xc062d46f, 0xfcd1887b, 0xb21bad3d, 0x6d83bfc6, 0x7e44008e, 0x9b5e906c)
    ensures F.Rounds(F.H0, b, 64) == F.Working(
      0x506e3058, 0xd39a2165, 0x04d24d6c, 0xb85e2ce9, 0x5ef50f24, 0xfb121210, 0x948d25b6, 0x961f4894)
  {
    hide F.K, F.H0, F.W, F.Rounds;
    NextRound(b, 60, 0xb6ae8fff, 0xffb70472, 0xc062d46f, 0xfcd1887b, 0xb21bad3d, 0x6d83bfc6, 0x7e44008e, 0x9b5e906c,
              0x90befffa, 0xa43fcf15, 0xb85e2ce9, 0x961f4894);
    NextRound(b, 61, 0xb85e2ce9, 0xb6ae8fff, 0xffb70472, 0xc062d46f, 0x961f4894, 0xb21bad3d, 0x6d83bfc6, 0x7e44008e,
              0xa4506ceb, 0x668b2ff8, 0x04d24d6c, 0x948d25b6);
    NextRound(b, 62, 0x04d24d6c, 0xb85e2ce9, 0xb6ae8fff, 0xffb70472, 0x948d25b6, 0x961f4894, 0xb21bad3d, 0x6d83bfc6,
              0xbef9a3f7, 0xeeaba2cc, 0xd39a2165, 0xfb121210);
    NextRound(b, 63, 0xd39a2165, 0x04d24d6c, 0xb85e2ce9, 0xb6ae8fff, 0xfb121210, 0x948d25b6, 0x961f4894, 0xb21bad3d,
              0xc67178f2, 0x12b1edeb, 0x506e3058, 0x5ef50f24);
  }

  // The block, and the digest of the last hash value

  lemma ZeroDigits(n: nat)
    ensures BeBytes(0, n) == Zeros(n)
  {
    if n > 0 {
      ZeroDigits(n - 1);
    }
  }

  lemma PaddedAbc()
    ensures var p := F.Pad(ABC);
      |p| == 64 && p[..4] == [0x61, 0x62, 0x63, 0x80] && p[60..] == [0, 0, 0, 0x18] &&
      forall t :: 1 <= t < 15 ==> p[4 * t..4 * t + 4] == [0, 0, 0, 0]
  {
    ZeroDigits(7);
    assert 8 * |ABC| == 24 && F.PadZeros(3) == 52;
    assert BeBytes(24, 8) == Zeros(7) + [0x18];
    assert F.Pad(ABC) == [0x61, 0x62, 0x63, 0x80] + Zeros(59) + [0x18];
  }

  lemma WordIs(s: Bytes, v: nat)
    requires |s| == 4 && v == ((s[0] as int * 256 + s[1]) * 256 + s[2]) * 256 + s[3]
    ensures BeValue(s) == v && BeBytes(v, 4) == s
  {
    BigEndian4(s);
    BeBytesOfValue(s);
  }

  lemma ThereAndBack(w: Word)
    ensures (w as nat) as bv32 == w
  {
  }

  lemma WordOfIs(s: Bytes, w: Word)
    requires |s| == 4 && BeValue(s) == w as nat
    ensures F.WordOf(s) == w
  {
    ThereAndBack(w);
    hide BeValue, Pow256;
  }

  lemma FirstWord()
    ensures F.WordOf([0x61, 0x62, 0x63, 0x80]) == 0x61626380
  {
    hide F.WordOf;
    WordIs([0x61, 0x62, 0x63, 0x80], 0x61626380);
    WordOfIs([0x61, 0x62, 0x63, 0x80], 0x61626380);
  }

  lemma ZeroWord()
    ensures F.WordOf([0, 0, 0, 0]) == 0
  {
    hide F.WordOf;
    WordIs([0, 0, 0, 0], 0);
    WordOfIs([0, 0, 0, 0], 0);
  }

  lemma LengthWord()
    ensures F.WordOf([0, 0, 0, 0x18]) == 0x18
  {
    hide F.WordOf;
    WordIs([0, 0, 0, 0x18], 0x18);
    WordOfIs([0, 0, 0, 0x18], 0x18);
  }

  lemma FirstWords(b: F.Block)
    requires b == F.Pad(ABC)
    ensures Words0(b)
  {
    PaddedAbc();
    FirstWord();
    ZeroWord();
    LengthWord();
    hide F.WordOf, F.Pad;
    forall t | 1 <= t < 15
      ensures F.W(b, t) == 0
    {
      assert b[4 * t..4 * t + 4] == [0, 0, 0, 0];
    }
    assert b[0..4] == [0x61, 0x62, 0x63, 0x80] && b[60..64] == [0, 0, 0, 0x18];
  }

  lemma LastBytes0()
    ensures F.BytesOf(0xba7816bf) == [0xba, 0x78, 0x16, 0xbf]
  {
    WordIs([0xba, 0x78, 0x16, 0xbf], 0xba7816bf);
    hide BeBytes;
  }

  lemma LastBytes1()
    ensures F.BytesOf(0x8f01cfea) == [0x8f, 0x01, 0xcf, 0xea]
  {
    WordIs([0x8f, 0x01, 0xcf, 0xea], 0x8f01cfea);
    hide BeBytes;
  }

  lemma LastBytes2()
    ensures F.BytesOf(0x414140de) == [0x41, 0x41, 0x40, 0xde]
  {
    WordIs([0x41, 0x41, 0x40, 0xde], 0x414140de);
    hide BeBytes;
  }

  lemma LastBytes3()
    ensures F.BytesOf(0x5dae2223) == [0x5d, 0xae, 0x22, 0x23]
  {
    WordIs([0x5d, 0xae, 0x22, 0x23], 0x5dae2223);
    hide BeBytes;
  }

  lemma LastBytes4()
    ensures F.BytesOf(0xb00361a3) == [0xb0, 0x03, 0x61, 0xa3]
  {
    WordIs([0xb0, 0x03, 0x61, 0xa3], 0xb00361a3);
    hide BeBytes;
  }

  lemma LastBytes5()
    ensures F.BytesOf(0x96177a9c) == [0x96, 0x17, 0x7a, 0x9c]
  {
    WordIs([0x96, 0x17, 0x7a, 0x9c], 0x96177a9c);
    hide BeBytes;
  }

  lemma LastBytes6()
    ensures F.BytesOf(0xb410ff61) == [0xb4, 0x10, 0xff, 0x61]
  {
    WordIs([0xb4, 0x10, 0xff, 0x61], 0xb410ff61);
    hide BeBytes;
  }

  lemma LastBytes7()
    ensures F.BytesOf(0xf20015ad) == [0xf2, 0x00, 0x15, 0xad]
  {
    WordIs([0xf2, 0x00, 0x15, 0xad], 0xf20015ad);
    hide BeBytes;
  }

  lemma LastValue(b: F.Block)
    requires F.Rounds(F.H0, b, 64) == F.Working(
      0x506e3058, 0xd39a2165, 0x04d24d6c, 0xb85e2ce9, 0x5ef50f24, 0xfb121210, 0x948d25b6, 0x961f4894)
    ensures F.Compress(F.H0, b) == [
      0xba7816bf, 0x8f01cfea, 0x414140de, 0x5dae2223, 0xb00361a3, 0x96177a9c, 0xb410ff61, 0xf20015ad]
  {
    hide F.Rounds;
  }

  lemma AllRounds(b: F.Block)
    requires b == F.Pad(ABC)
    ensures F.Rounds(F.H0, b, 64) == F.Working(
      0x506e3058, 0xd39a2165, 0x04d24d6c, 0xb85e2ce9, 0x5ef50f24, 0xfb121210, 0x948d25b6, 0x961f4894)
  {
    FirstWords(b);
    hide *;
    WordsAre16(b);
    WordsAre32(b);
    WordsAre48(b);
    ConstantsAre0();
    ConstantsAre16();
    ConstantsAre32();
    ConstantsAre48();
    FirstState(b);
    Rounds0(b);
    Rounds4(b);
    Rounds8(b);
    Rounds12(b);
    Rounds16(b);
    Rounds20(b);
    Rounds24(b);
    Rounds28(b);
    Rounds32(b);
    Rounds36(b);
    Rounds40(b);
    Rounds44(b);
    Rounds48(b);
    Rounds52(b);
    Rounds56(b);
    Rounds60(b);
  }

  lemma FirstState(b: F.Block)
    ensures F.Rounds(F.H0, b, 0) == F.Working(
      0x6a09e667, 0xbb67ae85, 0x3c6ef372, 0xa54ff53a, 0x510e527f, 0x9b05688c, 0x1f83d9ab, 0x5be0cd19)
  {
  }

  lemma OneBlock(b: F.Block)
    ensures F.Blocks(F.H0, b) == F.Compress(F.H0, b)
  {
    hide F.Compress, F.H0;
    assert b[..0] == [] && b[0..] == b;
    assert F.Blocks(F.H0, b) == F.Compress(F.Blocks(F.H0, b[..0]), b[0..]);
  }

  lemma LastDigest(hv: F.HashValue)
    requires hv == [
      0xba7816bf, 0x8f01cfea, 0x414140de, 0x5dae2223, 0xb00361a3, 0x96177a9c, 0xb410ff61, 0xf20015ad]
    ensures F.DigestBytes(hv) == DIGEST_OF_ABC
  {
    LastBytes0();
    LastBytes1();
    LastBytes2();
    LastBytes3();
    LastBytes4();
    LastBytes5();
    LastBytes6();
    LastBytes7();
    hide F.BytesOf;
  }

  lemma DigestOfBlocks(m: Bytes, hv: F.HashValue)
    requires F.Blocks(F.H0, F.Pad(m)) == hv
    ensures F.Sha256(m) == F.DigestBytes(hv)
  {
    hide F.Blocks, F.Pad, F.DigestBytes, F.H0;
  }

  /** The digest of "abc". */
  lemma KnownAnswer()
    ensures F.Sha256(ABC) == DIGEST_OF_ABC
  {
    PaddedAbc();
    hide *;
    var b: F.Block := F.Pad(ABC);
    AllRounds(b);
    LastValue(b);
    OneBlock(b);
    LastDigest(F.Compress(F.H0, b));
    DigestOfBlocks(ABC, F.Compress(F.H0, b));
  }
}
