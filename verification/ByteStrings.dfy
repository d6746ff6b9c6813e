/** Bytes, byte strings and big-endian integers, shared by every other module. */
module ByteStrings {

  type byte = b: int | 0 <= b < 256
  type Bytes = seq<byte>
  type u64 = x: int | 0 <= x < 0x1_0000_0000_0000_0000

  datatype Option<+T> = None | Some(value: T)

  const U16_LIMIT := 0x1_0000
  const U32_LIMIT := 0x1_0000_0000
  const U63_LIMIT := 0x8000_0000_0000_0000
  const U64_LIMIT := 0x1_0000_0000_0000_0000

  function Pow256(n: nat): (p: nat)
    ensures p >= 1
  {
    if n == 0 then 1 else 256 * Pow256(n - 1)
  }

  lemma Pow256Widths()
    ensures Pow256(1) == 256
    ensures Pow256(2) == U16_LIMIT
    ensures Pow256(4) == U32_LIMIT
    ensures Pow256(8) == U64_LIMIT
  {
    assert Pow256(2) == 256 * Pow256(1);
    assert Pow256(4) == 256 * (256 * Pow256(2));
    assert Pow256(6) == 256 * (256 * Pow256(4));
    assert Pow256(8) == 256 * (256 * Pow256(6));
  }

  /** The number whose big-endian digits in base 256 are `s`. */
  function BeValue(s: Bytes): (v: nat)
    ensures v < Pow256(|s|)
  {
    if |s| == 0 then 0 else BeValue(s[..|s| - 1]) * 256 + s[|s| - 1]
  }

  /** The low `n` base-256 digits of `v`: a cast to an `n`-byte integer followed by `to_be_bytes`. */
  function BeBytes(v: nat, n: nat): (s: Bytes)
    ensures |s| == n
    decreases n, v
  {
    if n == 0 then [] else BeBytes(v / 256, n - 1) + [v % 256]
  }

  lemma ProductNonNegative(k: nat, m: nat)
    ensures k * m >= 0
  {
  }

  lemma MultipleIsLarge(k: int, m: int)
    requires m > 0 && k != 0
    ensures k * m >= m || k * m <= -m
  {
    if k >= 1 {
      ProductNonNegative(k - 1, m);
    } else {
      ProductNonNegative(-k - 1, m);
    }
  }

  lemma ModUnique(a: int, q: int, m: int, r: int)
    requires 0 <= r < m && a == q * m + r
    ensures a % m == r
  {
    var d := a / m - q;
    assert d * m == r - a % m;
    if d != 0 {
      MultipleIsLarge(d, m);
    }
  }

  /** Reading back a written integer gives it modulo the width: nothing else is lost. */
  lemma {:induction false} BeValueOfBytes(v: nat, n: nat)
    ensures BeValue(BeBytes(v, n)) == v % Pow256(n)
  {
    if n > 0 {
      BeValueOfBytes(v / 256, n - 1);
      assert BeBytes(v, n)[..n - 1] == BeBytes(v / 256, n - 1);
      DigitStep(v, Pow256(n - 1));
    }
  }

  lemma DigitStep(v: nat, p: nat)
    requires p >= 1
    ensures v % (256 * p) == (v / 256 % p) * 256 + v % 256
  {
    var w := v / 256;
    var q, r := w / p, w % p;
    assert w == q * p + r;
    assert q * (256 * p) == 256 * (q * p);
    ModUnique(v, q, 256 * p, r * 256 + v % 256);
  }

  lemma BeRoundTrip(v: nat, n: nat)
    requires v < Pow256(n)
    ensures BeValue(BeBytes(v, n)) == v
  {
    BeValueOfBytes(v, n);
    ModUnique(v, 0, Pow256(n), v);
  }

  /** Every byte string of width `n` is the encoding of its own value. */
  lemma {:induction false} BeBytesOfValue(s: Bytes)
    ensures BeBytes(BeValue(s), |s|) == s
  {
    if |s| > 0 {
      var front, last := s[..|s| - 1], s[|s| - 1];
      BeBytesOfValue(front);
      assert BeValue(s) / 256 == BeValue(front) && BeValue(s) % 256 == last;
      assert s == front + [last];
    }
  }

  /** The most significant byte comes first. */
  lemma {:induction false} BigEndian(s: Bytes)
    requires s != []
    ensures BeValue(s) == s[0] as int * Pow256(|s| - 1) + BeValue(s[1..])
  {
    var front := s[..|s| - 1];
    if |s| > 1 {
      BigEndian(front);
      assert front[1..] == s[1..][..|s| - 2];
      var top, p := s[0] as int, Pow256(|s| - 2);
      assert top * p * 256 == top * (256 * p);
    }
  }

  lemma BigEndian4(s: Bytes)
    requires |s| == 4
    ensures BeValue(s) == ((s[0] as int * 256 + s[1]) * 256 + s[2]) * 256 + s[3]
  {
    var a, b, c := s[..1], s[..2], s[..3];
    assert s[..3][..2] == b && b[..1] == a && a[..0] == [];
    assert BeValue(a) == s[0] && BeValue(b) == BeValue(a) * 256 + s[1] && BeValue(c) == BeValue(b) * 256 + s[2];
  }

  /** A string of ASCII characters as bytes. */
  function Ascii(s: string): (b: Bytes)
    requires forall i :: 0 <= i < |s| ==> s[i] < 128 as char
    ensures |b| == |s|
  {
    seq(|s|, i requires 0 <= i < |s| => s[i] as int)
  }

  function Zeros(n: nat): (s: Bytes)
    ensures |s| == n && forall i :: 0 <= i < n ==> s[i] == 0
  {
    seq(n, i => 0)
  }

  lemma SliceOfSlice(t: Bytes, a: nat, b: nat, c: nat, d: nat)
    requires a <= b <= |t| && c <= d <= b - a
    ensures t[a..b][c..d] == t[a + c..a + d]
  {
    forall i | 0 <= i < d - c
      ensures t[a..b][c..d][i] == t[a + c..a + d][i]
    {
      assert t[a..b][c + i] == t[a + (c + i)];
    }
  }

  lemma ThreeParts(a: Bytes, b: Bytes, c: Bytes)
    ensures (a + b + c)[..|a|] == a
    ensures (a + b + c)[|a|..|a| + |b|] == b
    ensures (a + b + c)[|a| + |b|..|a| + |b| + |c|] == c
  {
  }

  /** Distinct numbers below `n` are at most `n` many. */
  ghost predicate DistinctBelow(s: seq<nat>, n: nat) {
    (forall i :: 0 <= i < |s| ==> s[i] < n) &&
    (forall i, j :: 0 <= i < j < |s| ==> s[i] != s[j])
  }

  lemma {:induction false} AtMost(s: seq<nat>, n: nat)
    requires DistinctBelow(s, n)
    ensures |s| <= n
    decreases n
  {
    if s == [] {
    } else if exists k :: 0 <= k < |s| && s[k] == n - 1 {
      var k :| 0 <= k < |s| && s[k] == n - 1;
      AtMost(s[..k] + s[k + 1..], n - 1);
    } else {
      assert s[0] < n;
      AtMost(s, n - 1);
    }
  }
}
