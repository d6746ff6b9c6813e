/** SHA-256 as FIPS 180-4 defines it: the specification the hasher of
    upki/src/sha256.rs is proved against. */
module Fips180 {
  import opened ByteStrings

  type Word = bv32
  type Block = s: Bytes | |s| == 64 witness Zeros(64)
  type HashValue = s: seq<Word> | |s| == 8 witness [0, 0, 0, 0, 0, 0, 0, 0]

  // Section 3.2: rotations are written with shifts.
  function ROTR(n: bv6, x: Word): Word
    requires 0 < n < 32
  {
    (x >> n) | (x << (32 - n))
  }

  // Section 3.2: addition modulo 2^32.
  function Add(x: Word, y: Word): Word { x + y }

  // Section 4.1.2
  function Ch(x: Word, y: Word, z: Word): Word { (x & y) ^ (!x & z) }
  function Maj(x: Word, y: Word, z: Word): Word { (x & y) ^ (x & z) ^ (y & z) }
  function BigSigma0(x: Word): Word { ROTR(2, x) ^ ROTR(13, x) ^ ROTR(22, x) }
  function BigSigma1(x: Word): Word { ROTR(6, x) ^ ROTR(11, x) ^ ROTR(25, x) }
  function SmallSigma0(x: Word): Word { ROTR(7, x) ^ ROTR(18, x) ^ (x >> 3) }
  function SmallSigma1(x: Word): Word { ROTR(17, x) ^ ROTR(19, x) ^ (x >> 10) }

  function WordOf(s: Bytes): Word
    requires |s| == 4
  {
    Pow256Widths();
    BeValue(s) as bv32
  }

  function BytesOf(w: Word): (s: Bytes)
    ensures |s| == 4
  {
    BeBytes(w as nat, 4)
  }

  // Section 4.2.2
  const K_0: seq<Word> := [
    0x428a2f98, 0x71374491, 0xb5c0fbcf, 0xe9b5dba5, 0x3956c25b, 0x59f111f1, 0x923f82a4, 0xab1c5ed5,
    0xd807aa98, 0x12835b01, 0x243185be, 0x550c7dc3, 0x72be5d74, 0x80deb1fe, 0x9bdc06a7, 0xc19bf174]

  const K_16: seq<Word> := [
    0xe49b69c1, 0xefbe4786, 0x0fc19dc6, 0x240ca1cc, 0x2de92c6f, 0x4a7484aa, 0x5cb0a9dc, 0x76f988da,
    0x983e5152, 0xa831c66d, 0xb00327c8, 0xbf597fc7, 0xc6e00bf3, 0xd5a79147, 0x06ca6351, 0x14292967]

  const K_32: seq<Word> := [
    0x27b70a85, 0x2e1b2138, 0x4d2c6dfc, 0x53380d13, 0x650a7354, 0x766a0abb, 0x81c2c92e, 0x92722c85,
    0xa2bfe8a1, 0xa81a664b, 0xc24b8b70, 0xc76c51a3, 0xd192e819, 0xd6990624, 0xf40e3585, 0x106aa070]

  const K_48: seq<Word> := [
    0x19a4c116, 0x1e376c08, 0x2748774c, 0x34b0bcb5, 0x391c0cb3, 0x4ed8aa4a, 0x5b9cca4f, 0x682e6ff3,
    0x748f82ee, 0x78a5636f, 0x84c87814, 0x8cc70208, 0x90befffa, 0xa4506ceb, 0xbef9a3f7, 0xc67178f2]

  const K: seq<Word> := K_0 + K_16 + K_32 + K_48

  // Section 5.3.3
  const H0: HashValue := [
    0x6a09e667, 0xbb67ae85, 0x3c6ef372, 0xa54ff53a, 0x510e527f, 0x9b05688c, 0x1f83d9ab, 0x5be0cd19]

  // Section 6.2.2, step 1: the full 64-word message schedule.
  function W(block: Block, t: nat): Word
    requires t < 64
    decreases t, |block|
  {
    if t < 16 then WordOf(block[4 * t..4 * t + 4])
    else
      Add(Add(Add(SmallSigma1(W(block, t - 2)), W(block, t - 7)), SmallSigma0(W(block, t - 15))), W(block, t - 16))
  }

  datatype Working = Working(a: Word, b: Word, c: Word, d: Word, e: Word, f: Word, g: Word, h: Word)

  // Section 6.2.2, step 3, one value of t.
  function Round(v: Working, k: Word, w: Word): Working {
    var t1 := Add(Add(Add(Add(v.h, BigSigma1(v.e)), Ch(v.e, v.f, v.g)), k), w);
    var t2 := Add(BigSigma0(v.a), Maj(v.a, v.b, v.c));
    Working(Add(t1, t2), v.a, v.b, v.c, Add(v.d, t1), v.e, v.f, v.g)
  }

  // Section 6.2.2, steps 2 and 3 up to but excluding round t.
  function Rounds(hv: HashValue, block: Block, t: nat): Working
    requires t <= 64
    decreases t, |block|
  {
    if t == 0 then Working(hv[0], hv[1], hv[2], hv[3], hv[4], hv[5], hv[6], hv[7])
    else Round(Rounds(hv, block, t - 1), K[t - 1], W(block, t - 1))
  }

  // Section 6.2.2, step 4.
  function Compress(hv: HashValue, block: Block): HashValue {
    var v := Rounds(hv, block, 64);
    var added := [v.a, v.b, v.c, v.d, v.e, v.f, v.g, v.h];
    seq(8, i requires 0 <= i < 8 => Add(hv[i], added[i]))
  }

  // Section 6.2.2: the blocks in order, each from the value the previous ones left.
  // `s` is a whole number of blocks wherever this is used.
  function Blocks(hv: HashValue, s: Bytes): HashValue {
    if |s| < 64 then hv
    else Compress(Blocks(hv, s[..|s| - 64]), s[|s| - 64..])
  }

  /** The number of zero bytes of section 5.1.1 after the byte that holds the "1" bit. */
  function PadZeros(len: nat): nat {
    (55 - len) % 64
  }

  // Section 5.1.1
  function Pad(m: Bytes): Bytes {
    m + [0x80] + Zeros(PadZeros(|m|)) + BeBytes(8 * |m|, 8)
  }

  function DigestBytes(hv: HashValue): (s: Bytes)
    ensures |s| == 32
  {
    BytesOf(hv[0]) + BytesOf(hv[1]) + BytesOf(hv[2]) + BytesOf(hv[3]) +
    BytesOf(hv[4]) + BytesOf(hv[5]) + BytesOf(hv[6]) + BytesOf(hv[7])
  }

  /** SHA-256 of a message of fewer than 2^64 bits. */
  function Sha256(m: Bytes): (d: Bytes)
    ensures |d| == 32
  {
    DigestBytes(Blocks(H0, Pad(m)))
  }

  /** The zero count is the least one that brings the length to 448 modulo 512 bits. */
  lemma PadZerosIsLeast(len: nat, k: nat)
    ensures (8 * len + 8 + 8 * PadZeros(len)) % 512 == 448
    ensures (8 * len + 8 + 8 * k) % 512 == 448 ==> PadZeros(len) <= k
  {
    assert (8 * (len + 1 + k)) % 512 == 448 <==> (len + 1 + k) % 64 == 56;
    assert (8 * (len + 1 + PadZeros(len))) % 512 == 448 <==> (len + 1 + PadZeros(len)) % 64 == 56;
  }

  /** The zero count depends only on the bytes after the whole blocks. */
  lemma PadZerosPeriodic(whole: nat, n: nat)
    requires whole % 64 == 0
    ensures PadZeros(whole + n) == PadZeros(n)
  {
    ModUnique(55 - (whole + n), (55 - n) / 64 - whole / 64, 64, PadZeros(n));
  }

  /** Padding loses nothing: two messages short enough for the 64-bit length field
      with the same padding are the same message. */
  lemma PadInjective(m: Bytes, n: Bytes)
    requires 8 * |m| < U64_LIMIT && 8 * |n| < U64_LIMIT
    requires Pad(m) == Pad(n)
    ensures m == n
  {
    Pow256Widths();
    var p, q := Pad(m), Pad(n);
    assert p[|p| - 8..] == BeBytes(8 * |m|, 8);
    assert q[|q| - 8..] == BeBytes(8 * |n|, 8);
    BeRoundTrip(8 * |m|, 8);
    BeRoundTrip(8 * |n|, 8);
    assert m == p[..|m|] && n == q[..|n|];
  }

  /** Hashing a concatenation is hashing the parts one after the other. */
  lemma {:induction false} BlocksConcat(hv: HashValue, s: Bytes, t: Bytes)
    requires |s| % 64 == 0 && |t| % 64 == 0
    ensures Blocks(hv, s + t) == Blocks(Blocks(hv, s), t)
    decreases |t|
  {
    hide Compress;
    if |t| == 0 {
      assert s + t == s;
    } else {
      BlocksConcat(hv, s, t[..|t| - 64]);
      assert (s + t)[..|s + t| - 64] == s + t[..|t| - 64];
      assert (s + t)[|s + t| - 64..] == t[|t| - 64..];
    }
  }
}
