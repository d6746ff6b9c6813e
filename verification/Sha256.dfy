/** The incremental hasher of upki/src/sha256.rs, proved against FIPS 180-4. */
module Sha256 {
  import opened ByteStrings
  import F = Fips180

  type Word = F.Word

  function RotateRight(x: Word, n: nat): Word
    requires n <= 32
  {
    x.RotateRight(n)
  }

  function BSig0(x: Word): Word { RotateRight(x, 2) ^ RotateRight(x, 13) ^ RotateRight(x, 22) }
  function BSig1(x: Word): Word { RotateRight(x, 6) ^ RotateRight(x, 11) ^ RotateRight(x, 25) }
  function SSig0(x: Word): Word { RotateRight(x, 7) ^ RotateRight(x, 18) ^ (x >> 3) }
  function SSig1(x: Word): Word { RotateRight(x, 17) ^ RotateRight(x, 19) ^ (x >> 10) }

  // The program rotates with single instructions; the standard writes rotations with shifts.

  lemma Rotate2(x: Word)
    ensures RotateRight(x, 2) == F.ROTR(2, x)
  {
    assert x.RotateRight(2) == (x >> 2) | (x << 30);
    assert F.ROTR(2, x) == (x >> 2) | (x << 30);
  }

  lemma Rotate6(x: Word)
    ensures RotateRight(x, 6) == F.ROTR(6, x)
  {
    assert x.RotateRight(6) == (x >> 6) | (x << 26);
    assert F.ROTR(6, x) == (x >> 6) | (x << 26);
  }

  lemma Rotate7(x: Word)
    ensures RotateRight(x, 7) == F.ROTR(7, x)
  {
    assert x.RotateRight(7) == (x >> 7) | (x << 25);
    assert F.ROTR(7, x) == (x >> 7) | (x << 25);
  }

  lemma Rotate11(x: Word)
    ensures RotateRight(x, 11) == F.ROTR(11, x)
  {
    assert x.RotateRight(11) == (x >> 11) | (x << 21);
    assert F.ROTR(11, x) == (x >> 11) | (x << 21);
  }

  lemma Rotate13(x: Word)
    ensures RotateRight(x, 13) == F.ROTR(13, x)
  {
    assert x.RotateRight(13) == (x >> 13) | (x << 19);
    assert F.ROTR(13, x) == (x >> 13) | (x << 19);
  }

  lemma Rotate17(x: Word)
    ensures RotateRight(x, 17) == F.ROTR(17, x)
  {
    assert x.RotateRight(17) == (x >> 17) | (x << 15);
    assert F.ROTR(17, x) == (x >> 17) | (x << 15);
  }

  lemma Rotate18(x: Word)
    ensures RotateRight(x, 18) == F.ROTR(18, x)
  {
    assert x.RotateRight(18) == (x >> 18) | (x << 14);
    assert F.ROTR(18, x) == (x >> 18) | (x << 14);
  }

  lemma Rotate19(x: Word)
    ensures RotateRight(x, 19) == F.ROTR(19, x)
  {
    assert x.RotateRight(19) == (x >> 19) | (x << 13);
    assert F.ROTR(19, x) == (x >> 19) | (x << 13);
  }

  lemma Rotate22(x: Word)
    ensures RotateRight(x, 22) == F.ROTR(22, x)
  {
    assert x.RotateRight(22) == (x >> 22) | (x << 10);
    assert F.ROTR(22, x) == (x >> 22) | (x << 10);
  }

  lemma Rotate25(x: Word)
    ensures RotateRight(x, 25) == F.ROTR(25, x)
  {
    assert x.RotateRight(25) == (x >> 25) | (x << 7);
    assert F.ROTR(25, x) == (x >> 25) | (x << 7);
  }

  lemma BSig0Is(x: Word)
    ensures BSig0(x) == F.BigSigma0(x)
  {
    hide RotateRight, F.ROTR;
    Rotate2(x);
    Rotate13(x);
    Rotate22(x);
  }

  lemma BSig1Is(x: Word)
    ensures BSig1(x) == F.BigSigma1(x)
  {
    hide RotateRight, F.ROTR;
    Rotate6(x);
    Rotate11(x);
    Rotate25(x);
  }

  lemma SSig0Is(x: Word)
    ensures SSig0(x) == F.SmallSigma0(x)
  {
    hide RotateRight, F.ROTR;
    Rotate7(x);
    Rotate18(x);
  }

  lemma SSig1Is(x: Word)
    ensures SSig1(x) == F.SmallSigma1(x)
  {
    hide RotateRight, F.ROTR;
    Rotate17(x);
    Rotate19(x);
  }

  /** So the program's functions are those of the standard. */
  lemma Sigmas(x: Word)
    ensures BSig0(x) == F.BigSigma0(x) && BSig1(x) == F.BigSigma1(x)
    ensures SSig0(x) == F.SmallSigma0(x) && SSig1(x) == F.SmallSigma1(x)
  {
    hide F.BigSigma0, F.BigSigma1, F.SmallSigma0, F.SmallSigma1, BSig0, BSig1, SSig0, SSig1;
    BSig0Is(x);
    BSig1Is(x);
    SSig0Is(x);
    SSig1Is(x);
  }

  /** The window holds the last 16 schedule words before round `t`, word `i` in slot `i % 16`. */
  ghost predicate Window(w: seq<Word>, block: F.Block, t: nat)
    requires t <= 64
  {
    |w| == 16 && forall i :: 0 <= i < t && t - 16 <= i ==> w[i % 16] == F.W(block, i)
  }

  lemma WindowSlides(w: seq<Word>, block: F.Block, t: nat)
    requires t < 64 && Window(w, block, t)
    ensures Window(w[t % 16 := F.W(block, t)], block, t + 1)
  {
    var w' := w[t % 16 := F.W(block, t)];
    forall i | 0 <= i < t + 1 && t + 1 - 16 <= i
      ensures w'[i % 16] == F.W(block, i)
    {
      if i < t {
        assert i % 16 != t % 16;
      }
    }
  }

  /** The schedule word of round `t`, computed from the window and stored in it. */
  method ScheduleWord(w: array<Word>, block: Bytes, t: nat) returns (w_t: Word)
    requires |block| == 64 && t < 64
    requires Window(w[..], block, t)
    modifies w
    ensures w_t == F.W(block, t)
    ensures Window(w[..], block, t + 1)
  {
    hide F.Add, F.SmallSigma0, F.SmallSigma1, F.WordOf, SSig0, SSig1;
    ghost var before := w[..];
    if t < 16 {
      w_t := F.WordOf(block[t * 4..(t + 1) * 4]);
      w[t] := w_t;
    } else {
      Sigmas(w[(t - 2) % 16]);
      Sigmas(w[(t - 15) % 16]);
      w_t := F.Add(F.Add(F.Add(SSig1(w[(t - 2) % 16]), w[(t - 7) % 16]), SSig0(w[(t - 15) % 16])), w[(t - 16) % 16]);
      w[t % 16] := w_t;
    }
    WindowSlides(before, block, t);
    assert w[..] == before[t % 16 := F.W(block, t)];
  }

  /** The 64 rounds on the eight working variables, with the window in place of the schedule. */
  method RunRounds(hv: F.HashValue, block: Bytes)
    returns (a: Word, b: Word, c: Word, d: Word, e: Word, f: Word, g: Word, h: Word)
    requires |block| == 64
    ensures F.Working(a, b, c, d, e, f, g, h) == F.Rounds(hv, block, 64)
  {
    hide F.Add, F.BigSigma0, F.BigSigma1, F.Ch, F.Maj, F.W, BSig0, BSig1;
    a, b, c, d := hv[0], hv[1], hv[2], hv[3];
    e, f, g, h := hv[4], hv[5], hv[6], hv[7];
    var w := new Word[16](_ => 0);
    for t := 0 to 64
      invariant F.Working(a, b, c, d, e, f, g, h) == F.Rounds(hv, block, t)
      invariant Window(w[..], block, t)
    {
      var w_t := ScheduleWord(w, block, t);
      Sigmas(e);
      Sigmas(a);
      var t1 := F.Add(F.Add(F.Add(F.Add(h, BSig1(e)), F.Ch(e, f, g)), F.K[t]), w_t);
      var t2 := F.Add(BSig0(a), F.Maj(a, b, c));
      h := g;
      g := f;
      f := e;
      e := F.Add(d, t1);
      d := c;
      c := b;
      b := a;
      a := F.Add(t1, t2);
    }
  }

  method CompressBlock(state: array<Word>, block: Bytes)
    requires state.Length == 8 && |block| == 64
    modifies state
    ensures state[..] == F.Compress(old(state[..]), block)
  {
    hide F.Add, F.Rounds;
    var a, b, c, d, e, f, g, h := RunRounds(state[..], block);
    var added := [a, b, c, d, e, f, g, h];
    forall i | 0 <= i < 8 {
      state[i] := F.Add(state[i], added[i]);
    }
  }

  method CompressBlocks(state: array<Word>, blocks: Bytes)
    requires state.Length == 8 && Aligned(|blocks|)
    modifies state
    ensures state[..] == F.Blocks(old(state[..]), blocks)
  {
    hide F.Compress;
    ghost var hv := state[..];
    var i := 0;
    assert blocks[..0] == [];
    while i < |blocks|
      invariant i <= |blocks| && i % 64 == 0
      invariant state[..] == F.Blocks(hv, blocks[..i])
    {
      CompressBlock(state, blocks[i..i + 64]);
      assert blocks[..i + 64][..i] == blocks[..i];
      assert blocks[..i + 64][i..] == blocks[i..i + 64];
      i := i + 64;
    }
    assert blocks[..i] == blocks;
  }

  /** The final one or two blocks of a message. */
  datatype FinalBlocks = One(block: Bytes) | Two(first: Bytes, second: Bytes) {
    function AsRef(): Bytes {
      match this
      case One(b) => b
      case Two(b, c) => b + c
    }
  }

  lemma TwoBlocks(held: Bytes, lengthBits: Bytes)
    requires 55 < |held| < 64 && |lengthBits| == 8
    ensures (held + [0x80] + Zeros(64))[..64] + (Zeros(64)[..56] + lengthBits)
         == held + [0x80] + Zeros(F.PadZeros(|held|)) + lengthBits
  {
    var n := |held|;
    assert (held + [0x80] + Zeros(64))[..64] == held + [0x80] + Zeros(63 - n);
    assert Zeros(63 - n) + Zeros(64)[..56] == Zeros(F.PadZeros(n));
  }

  /** The partial block held between calls. */
  class Blockwise {
    const buffer: array<byte>
    var used: nat

    ghost predicate Valid()
      reads this
    {
      buffer.Length == 64 && used <= 64
    }

    ghost function Held(): Bytes
      requires Valid()
      reads this, buffer
    {
      buffer[..used]
    }

    constructor ()
      ensures Valid() && fresh(buffer) && Held() == []
    {
      buffer := new byte[64](_ => 0);
      used := 0;
    }

    /** Top up a block already begun; an empty buffer takes nothing. */
    method AddLeading(bytes: Bytes) returns (returned: Bytes)
      requires Valid()
      modifies this`used, buffer
      ensures Valid()
      ensures Held() + returned == old(Held()) + bytes
      ensures old(used) == 0 ==> used == 0
      ensures old(used) != 0 ==> used != 0 && (used == 64 || returned == [])
    {
      if used == 0 {
        return bytes;
      }
      var space := 64 - used;
      var take := if |bytes| < space then |bytes| else space;
      ghost var held := Held();
      forall i | 0 <= i < take {
        buffer[used + i] := bytes[i];
      }
      used := used + take;
      returned := bytes[take..];
      assert Held() == held + bytes[..take];
    }

    method Take() returns (block: Option<Bytes>)
      requires Valid()
      modifies this`used
      ensures Valid()
      ensures old(used) == 64 ==> block == Some(old(Held())) && used == 0
      ensures old(used) != 64 ==> block == None && used == old(used)
    {
      if used == 64 {
        assert buffer[..] == Held();
        used := 0;
        return Some(buffer[..]);
      } else {
        return None;
      }
    }

    /** Overwrites the front of the buffer, so it keeps what was held only when `trailing` is empty. */
    method AddTrailing(trailing: Bytes)
      requires Valid() && |trailing| <= 64
      modifies this`used, buffer
      ensures used == old(used) + |trailing|
      ensures buffer[..] == trailing + old(buffer[..])[|trailing|..]
    {
      forall i | 0 <= i < |trailing| {
        buffer[i] := trailing[i];
      }
      used := used + |trailing|;
    }

    /** FIPS 180-4, section 5.1.1, on the bytes held: the padding ends in the given length field. */
    method MdPadWithLength(lengthBits: Bytes) returns (blocks: FinalBlocks)
      requires Valid() && used < 64 && |lengthBits| == 8
      modifies this`used, buffer
      ensures Valid() && used == 0
      ensures blocks.AsRef() == old(Held()) + [0x80] + Zeros(F.PadZeros(old(used))) + lengthBits
      ensures blocks.One? <==> old(used) <= 55
    {
      ghost var held := Held();
      ghost var n := used;
      var space := 64 - used;
      var required := 1 + |lengthBits|;
      if required > space {
        TwoBlocks(held, lengthBits);
        var r0 := AddLeading([0x80]);
        assert r0 == [] && Held() == held + [0x80] by {
          assert |Held() + r0| == |held + [0x80]|;
        }
        var r1 := AddLeading(Zeros(64));
        assert (Held() + r1)[..64] == Held();
        var first := Take();
        var second := Zeros(64)[..64 - |lengthBits|] + lengthBits;
        blocks := Two(first.value, second);
      } else {
        buffer[used] := 0x80;
        forall i | used + 1 <= i < 64 - |lengthBits| {
          buffer[i] := 0;
        }
        forall i | 0 <= i < |lengthBits| {
          buffer[64 - |lengthBits| + i] := lengthBits[i];
        }
        used := 0;
        blocks := One(buffer[..]);
      }
    }
  }

  function Min(a: int, b: int): int { if a < b then a else b }

  const USIZE_MAX := U64_LIMIT - 1

  predicate Aligned(n: nat) { n % 64 == 0 }

  /** The length of the whole blocks of a message of `n` bytes. */
  function WholeLen(n: nat): (w: nat)
    ensures w <= n < w + 64 && Aligned(w)
  {
    n - n % 64
  }

  /** `h` and `nblocks` are what hashing the whole blocks `whole` leaves. */
  ghost predicate Compressed(h: seq<Word>, nblocks: nat, whole: Bytes) {
    Aligned(|whole|) && h == F.Blocks(F.H0, whole) && nblocks == Min(|whole| / 64, USIZE_MAX)
  }

  lemma Extend(h: F.HashValue, nblocks: nat, whole: Bytes, blocks: Bytes)
    requires Compressed(h, nblocks, whole) && Aligned(|blocks|)
    ensures Compressed(F.Blocks(h, blocks), Min(nblocks + |blocks| / 64, USIZE_MAX), whole + blocks)
  {
    hide F.Blocks;
    F.BlocksConcat(F.H0, whole, blocks);
  }

  lemma Append4(a: Bytes, b: Bytes, c: Bytes, d: Bytes, e: Bytes)
    ensures a + (b + c + d + e) == a + b + c + d + e
  {
  }

  /** The last blocks complete the message to its padding. */
  lemma PadCompletes(whole: Bytes, held: Bytes)
    requires Aligned(|whole|)
    ensures whole + (held + [0x80] + Zeros(F.PadZeros(|held|)) + BeBytes(8 * |whole + held|, 8)) == F.Pad(whole + held)
  {
    assert |whole + held| == |whole| + |held|;
    F.PadZerosPeriodic(|whole|, |held|);
    assert F.PadZeros(|held|) == F.PadZeros(|whole + held|);
    hide F.PadZeros, Zeros, BeBytes, Aligned;
    Append4(whole, held, [0x80], Zeros(F.PadZeros(|held|)), BeBytes(8 * |whole + held|, 8));
  }

  lemma Regroup(whole: Bytes, begun: Bytes, rest: Bytes, n: nat)
    requires n <= |rest| && (begun == [] || rest == [])
    ensures whole + rest[..n] + (begun + rest[n..]) == whole + begun + rest
  {
    assert rest == rest[..n] + rest[n..];
  }

  /** A hash in progress. `whole` is the part of its input already compressed. */
  class Context {
    const h: array<Word>
    const blockwise: Blockwise
    var nblocks: nat
    ghost var whole: Bytes

    ghost predicate Running()
      reads this, h
    {
      h.Length == 8 && Compressed(h[..], nblocks, whole)
    }

    ghost predicate Valid()
      reads this, h, blockwise
    {
      Running() && blockwise.Valid() && blockwise.used < 64
    }

    /** Every byte given to the hasher so far. */
    ghost function Fed(): Bytes
      requires blockwise.Valid()
      reads this, blockwise, blockwise.buffer
    {
      whole + blockwise.Held()
    }

    constructor ()
      ensures Valid() && Fed() == []
      ensures fresh(h) && fresh(blockwise) && fresh(blockwise.buffer)
    {
      h := new Word[8](i requires 0 <= i < 8 => F.H0[i]);
      blockwise := new Blockwise();
      nblocks := 0;
      whole := [];
      new;
      assert h[..] == F.H0;
    }

    method UpdateBlocks(blocks: Bytes)
      requires Running() && Aligned(|blocks|)
      modifies this`nblocks, this`whole, h
      ensures Running()
      ensures whole == old(whole) + blocks
    {
      hide F.Blocks, Aligned;
      if blocks != [] {
        Extend(h[..], nblocks, whole, blocks);
        CompressBlocks(h, blocks);
        nblocks := Min(nblocks + |blocks| / 64, USIZE_MAX);
      }
      assert whole + [] == whole;
      whole := whole + blocks;
    }

    /** The second half of `update`: whole blocks straight from the input, the remainder kept. */
    method UpdateRest(rest: Bytes)
      requires Valid() && (blockwise.used == 0 || rest == [])
      modifies this`nblocks, this`whole, h, blockwise`used, blockwise.buffer
      ensures Valid()
      ensures Fed() == old(Fed()) + rest
    {
      hide Compressed, Aligned, WholeLen;
      var wholeLen := WholeLen(|rest|);
      var wholeBlocks, remainder := rest[..wholeLen], rest[wholeLen..];
      Regroup(whole, blockwise.Held(), rest, wholeLen);
      ghost var held := blockwise.Held() + remainder;
      UpdateBlocks(wholeBlocks);
      blockwise.AddTrailing(remainder);
      assert blockwise.Held() == held;
    }

    method Update(bytes: Bytes)
      requires Valid()
      modifies this`nblocks, this`whole, h, blockwise`used, blockwise.buffer
      ensures Valid()
      ensures Fed() == old(Fed()) + bytes
    {
      assert Aligned(64);
      hide Compressed, Aligned;
      if blockwise.used == 0 && Aligned(|bytes|) {
        assert Fed() == whole;
        UpdateBlocks(bytes);
        assert Fed() == whole;
        return;
      }
      ghost var before, total := whole, Fed() + bytes;
      assert total == whole + (blockwise.Held() + bytes);
      var rest := blockwise.AddLeading(bytes);
      assert total == whole + blockwise.Held() + rest;
      var block := blockwise.Take();
      if block.Some? {
        UpdateBlocks(block.value);
        assert Fed() == whole;
      }
      UpdateRest(rest);
    }

    /** `None` is the panic of the length computation. */
    method Finish() returns (digest: Option<Bytes>)
      requires Valid()
      modifies this`nblocks, this`whole, h, blockwise`used, blockwise.buffer
      ensures digest.Some? <==> |old(Fed())| < U64_LIMIT / 8
      ensures digest.Some? ==> digest.value == F.Sha256(old(Fed()))
    {
      hide F.Blocks, F.DigestBytes, F.Pad, Zeros, BeBytes;
      ghost var fed, held := Fed(), blockwise.Held();
      var bytes := nblocks * 64;
      if bytes > USIZE_MAX || bytes + blockwise.used > USIZE_MAX {
        return None;
      }
      bytes := bytes + blockwise.used;
      if bytes * 8 > USIZE_MAX {
        return None;
      }
      assert bytes == |fed|;
      PadCompletes(whole, held);
      var lastBlocks := blockwise.MdPadWithLength(BeBytes(bytes * 8, 8));
      UpdateBlocks(lastBlocks.AsRef());
      assert whole == F.Pad(fed);
      digest := Some(F.DigestBytes(h[..]));
    }
  }

  function Concat(slices: seq<Bytes>): Bytes {
    if slices == [] then [] else Concat(slices[..|slices| - 1]) + slices[|slices| - 1]
  }

  /** `Digest::from`: the hash of the concatenation, however it was sliced. */
  method DigestFrom(slices: seq<Bytes>) returns (digest: Option<Bytes>)
    ensures digest.Some? <==> |Concat(slices)| < U64_LIMIT / 8
    ensures digest.Some? ==> digest.value == F.Sha256(Concat(slices))
  {
    var ctx := new Context();
    for i := 0 to |slices|
      invariant ctx.Valid() && fresh(ctx) && fresh(ctx.h) && fresh(ctx.blockwise) && fresh(ctx.blockwise.buffer)
      invariant ctx.Fed() == Concat(slices[..i])
    {
      ctx.Update(slices[i]);
      assert slices[..i + 1][..i] == slices[..i];
    }
    assert slices[..|slices|] == slices;
    digest := ctx.Finish();
  }

  /** An open file. A read may return fewer bytes than asked for, and may fail; `faults` counts the failures. */
  class FileReader {
    const content: Bytes
    var pos: nat
    ghost var faults: nat

    ghost predicate Valid()
      reads this
    {
      pos <= |content|
    }

    constructor (content: Bytes)
      ensures Valid() && this.content == content && pos == 0 && faults == 0
    {
      this.content := content;
      pos := 0;
      faults := 0;
    }

    /** Zero bytes are returned at the end of the file and nowhere else. */
    method Read(buffer: array<byte>) returns (n: Option<nat>)
      requires Valid() && buffer.Length > 0
      modifies this, buffer
      ensures Valid()
      ensures faults == if n.Some? then old(faults) else old(faults) + 1
      ensures n.Some? ==> n.value <= buffer.Length && pos == old(pos) + n.value
      ensures n.Some? ==> buffer[..n.value] == content[old(pos)..pos]
      ensures n.Some? ==> (n.value == 0 <==> old(pos) == |content|)
    {
      if * {
        faults := faults + 1;
        return None;
      }
      var got: nat :| got <= buffer.Length && got <= |content| - pos && (got == 0 <==> pos == |content|);
      forall i | 0 <= i < got {
        buffer[i] := content[pos + i];
      }
      pos := pos + got;
      return Some(got);
    }
  }

  datatype HashResult = Digest(bytes: Bytes) | ReadError | Panic

  /** `hash_file`: whatever the sizes of the reads, the hash of the whole content, unless a read fails. */
  method HashFile(file: FileReader) returns (r: HashResult)
    requires file.Valid() && file.pos == 0
    modifies file
    ensures r.ReadError? <==> file.faults > old(file.faults)
    ensures r.Digest? <==> file.faults == old(file.faults) && |file.content| < U64_LIMIT / 8
    ensures r.Digest? ==> r.bytes == F.Sha256(file.content)
  {
    var hasher := new Context();
    var buffer := new byte[4096](_ => 0);
    while true
      invariant file.Valid() && hasher.Valid() && file.faults == old(file.faults)
      invariant fresh(hasher) && fresh(hasher.h) && fresh(hasher.blockwise) && fresh(hasher.blockwise.buffer)
      invariant fresh(buffer) && buffer != hasher.blockwise.buffer
      invariant hasher.Fed() == file.content[..file.pos]
      decreases |file.content| - file.pos
    {
      var n := file.Read(buffer);
      match n
      case None => return ReadError;
      case Some(k) =>
        if k == 0 {
          break;
        }
        hasher.Update(buffer[..k]);
    }
    assert file.content[..file.pos] == file.content;
    var digest := hasher.Finish();
    r := if digest.Some? then Digest(digest.value) else Panic;
  }
}
