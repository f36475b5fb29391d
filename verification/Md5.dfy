/** The md5 class: a 64-byte buffer, four state words and a two-word bit counter, updated in place.
    The ghost field `message` is the message the object stands for; `Valid` ties it to the concrete
    fields.

    Lines are those of UtilityEngine/src/com_md5.cpp. */
module Md5 {
  import opened Bits
  import opened Md5Spec
  import opened Md5Transform
  import opened Sequences
  import Hex

  // ----- facts about the specification -----

  lemma {:induction false} AbsorbConcat(r: Regs, x: seq<Byte>, y: seq<Byte>, blocks: nat)
    requires |x| == 64 * blocks
    ensures Absorb(r, x + y) == Absorb(Absorb(r, x), y)
    decreases blocks
  {
    hide Compress;
    if blocks == 0 {
      assert x + y == y;
    } else {
      assert (x + y)[..64] == x[..64] && (x + y)[64..] == x[64..] + y;
      AbsorbConcat(Compress(r, x[..64]), x[64..], y, blocks - 1);
    }
  }

  lemma AbsorbBlock(r: Regs, x: seq<Byte>, block: seq<Byte>, blocks: nat)
    requires |x| == 64 * blocks && |block| == 64
    ensures Absorb(r, x + block) == Compress(Absorb(r, x), block)
  {
    hide Compress;
    AbsorbConcat(r, x, block, blocks);
    assert block[..64] == block && block[64..] == [];
  }

  lemma AbsorbLeftover(r: Regs, x: seq<Byte>, t: seq<Byte>, blocks: nat)
    requires |x| == 64 * blocks && |t| < 64
    ensures Absorb(r, x + t) == Absorb(r, x)
  {
    hide Compress;
    AbsorbConcat(r, x, t, blocks);
  }

  /** `n` bytes are so many blocks and so many bytes more. */
  function Blocks(n: nat): (k: nat)
    ensures n == 64 * k + Index(n)
  {
    n / 64
  }

  function Index(n: nat): (i: nat)
    ensures i < 64
  {
    n % 64
  }

  /** The whole blocks of a message, and what is left after them. */
  function Whole(m: seq<Byte>): (x: seq<Byte>)
    ensures |x| == 64 * Blocks(|m|)
  {
    m[..64 * Blocks(|m|)]
  }

  function Tail(m: seq<Byte>): (t: seq<Byte>)
    ensures |t| == Index(|m|)
  {
    m[64 * Blocks(|m|)..]
  }

  lemma Split(m: seq<Byte>)
    ensures m == Whole(m) + Tail(m)
  {
  }

  lemma SplitOf(x: seq<Byte>, t: seq<Byte>, blocks: nat)
    requires |x| == 64 * blocks && |t| < 64
    ensures Whole(x + t) == x && Tail(x + t) == t
  {
    assert Blocks(|x + t|) == blocks;
  }

  // ----- what update does to the message -----

  /** A chunk that does not complete the block. */
  lemma ShortUpdate(m: seq<Byte>, input: seq<Byte>)
    requires |Tail(m)| + |input| < 64
    ensures Absorb(Initial, m + input) == Absorb(Initial, m)
    ensures Tail(m + input) == Tail(m) + input
  {
    hide Absorb, Whole, Tail, Blocks, Index;
    var k, x, t := Blocks(|m|), Whole(m), Tail(m);
    Split(m);
    assert (x + t) + input == x + (t + input);
    AbsorbLeftover(Initial, x, t, k);
    AbsorbLeftover(Initial, x, t + input, k);
    SplitOf(x, t + input, k);
  }

  /** The first part of a chunk that completes the block. */
  lemma FirstBlock(m: seq<Byte>, part: seq<Byte>)
    requires |Tail(m)| + |part| == 64
    ensures Absorb(Initial, m + part) == Compress(Absorb(Initial, m), Tail(m) + part)
  {
    hide Absorb, Compress, Whole, Tail, Blocks, Index;
    var k, x, t := Blocks(|m|), Whole(m), Tail(m);
    Split(m);
    assert (x + t) + part == x + (t + part);
    AbsorbLeftover(Initial, x, t, k);
    AbsorbBlock(Initial, x, t + part, k);
  }

  /** One more whole block of the chunk, `blocks` blocks into the message. */
  lemma NextBlock(m: seq<Byte>, input: seq<Byte>, i: nat, blocks: nat)
    requires i + 64 <= |input| && |m| + i == 64 * blocks
    ensures Absorb(Initial, m + input[..i + 64]) == Compress(Absorb(Initial, m + input[..i]), input[i..i + 64])
  {
    hide Absorb, Compress;
    assert m + input[..i + 64] == (m + input[..i]) + input[i..i + 64];
    AbsorbBlock(Initial, m + input[..i], input[i..i + 64], blocks);
  }

  /** The rest of the chunk after its last whole block. */
  lemma RestOfChunk(m: seq<Byte>, input: seq<Byte>, first: nat, i: nat, blocks: nat, more: nat)
    requires first <= i <= |input| < i + 64 && |m| + i == 64 * blocks && i - first == 64 * more
    ensures Absorb(Initial, m + input) == Absorb(Initial, m + input[..i])
    ensures Tail(m + input) == input[i..] == Tail(input[first..])
  {
    hide Absorb, Compress, Whole, Tail, Blocks, Index;
    assert m + input == (m + input[..i]) + input[i..];
    AbsorbLeftover(Initial, m + input[..i], input[i..], blocks);
    SplitOf(m + input[..i], input[i..], blocks);
    assert input[first..] == input[first..i] + input[i..];
    SplitOf(input[first..i], input[i..], more);
  }

  /** The bit counter of section 3.2 for a message of `n` bytes, as two words. */
  function CountLow(n: nat): Word { 8 * n % M32 }
  function CountHigh(n: nat): Word { 8 * n / M32 % M32 }

  /** Lines 72 to 79: the low word with its carry, then the high word. */
  lemma CountAdvances(n: nat, length: nat)
    requires length < M32
    ensures var bits := length * 8 % M32;
            var low := (CountLow(n) + bits) % M32;
            var carry := if low < bits then 1 else 0;
            && low == CountLow(n + length)
            && ((CountHigh(n) + carry) % M32 + length / 0x2000_0000) % M32 == CountHigh(n + length)
  {
    var q := 8 * n / M32;
    var p := length / 0x2000_0000;
    var bits := length * 8 - M32 * p;
    assert length * 8 % M32 == bits;
    var sum := CountLow(n) + bits;
    var carry := if sum < M32 then 0 else 1;
    assert 8 * (n + length) == M32 * (q + p + carry) + (sum - M32 * carry);
    DivModOf(q + p + carry, sum - M32 * carry);
    DivModOf(carry, sum - M32 * carry);
    ModSum(q, carry, p);
  }

  lemma DivModOf(q: nat, r: nat)
    requires r < M32
    ensures (M32 * q + r) / M32 == q && (M32 * q + r) % M32 == r
  {
  }

  lemma ModSum(a: nat, b: nat, c: nat)
    ensures ((a % M32 + b) % M32 + c) % M32 == (a + b + c) % M32
  {
    var k := a / M32;
    var u := a % M32 + b;
    var v := u % M32 + c;
    assert a + b + c == M32 * (k + u / M32 + v / M32) + v % M32;
    DivModOf(k + u / M32 + v / M32, v % M32);
  }

  lemma IndexOf(q: nat, i: nat)
    requires i < 64
    ensures Index(64 * q + i) == i
  {
  }

  lemma IndexOfCount(n: nat)
    ensures CountLow(n) / 8 % 64 == Index(n)
  {
    hide Index;
    var k, r := n / 0x2000_0000, n % 0x2000_0000;
    assert CountLow(n) == 8 * r by { DivModOf(k, 8 * r); }
    var q, i := r / 64, r % 64;
    IndexOf(0x80_0000 * k + q, i);
  }

  // ----- the block loop of update: its 32-bit index -----

  /** Does the loop of lines 85-87 end without its 32-bit index wrapping? It does for chunks of up
      to 2^32 - 64 bytes. */
  predicate BlockLoopFits(index: nat, length: nat)
    requires index < 64
  {
    var first := 64 - index;
    length < first || first + (length - first) / 64 * 64 + 63 < M32
  }

  /** The loop test of line 85 after `k` rounds, with the arithmetic of a 32-bit index. */
  predicate LoopTest(index: nat, length: nat, k: nat)
    requires index < 64
  {
    ((64 - index + 64 * k) % M32 + 63) % M32 < length
  }

  lemma ShortChunksFit(index: nat, length: nat)
    requires index < 64 && length <= M32 - 64
    ensures BlockLoopFits(index, length)
  {
  }

  lemma FittingIsShort(index: nat, length: nat)
    requires index < 64 && BlockLoopFits(index, length)
    ensures length < M32
  {
  }

  /** A chunk that does not fit is so long that the wrapped index never reaches its end. */
  lemma NeverEnds(index: nat, length: nat, k: nat)
    requires index < 64 && !BlockLoopFits(index, length)
    ensures LoopTest(index, length, k)
  {
    var first := 64 - index;
    var q := (length - first) / 64;
    assert first + 64 * q <= length;
    assert q >= 0x400_0000 - 1;
    var i := (first + 64 * k) % M32;
    var t := k - 0x400_0000 * ((first + 64 * k) / M32);
    assert i == first + 64 * t;
    if i + 63 < M32 {
      assert t + 1 <= 0x400_0000 - 1;
    }
  }

  /** The bound is exact: once a block is completed, the loop ends if and only if it fits. */
  lemma LoopEndsIffFits(index: nat, length: nat)
    requires index < 64 && 64 - index <= length
    ensures BlockLoopFits(index, length) <==> exists k: nat :: !LoopTest(index, length, k)
  {
    if BlockLoopFits(index, length) {
      var k := (length - (64 - index)) / 64;
      assert !LoopTest(index, length, k);
    } else {
      forall k: nat ensures LoopTest(index, length, k) {
        NeverEnds(index, length, k);
      }
    }
  }

  /** The bound in closed form: with `index` bytes in the buffer, fewer than 2^32 - index more. */
  lemma FitsIffBelow(index: nat, length: nat)
    requires index < 64
    ensures BlockLoopFits(index, length) <==> length < M32 - index
  {
    var first := 64 - index;
    if length >= first {
      var q := (length - first) / 64;
      assert 64 * q <= length - first < 64 * q + 64;
    }
  }

  /** One chunk of 2^32 bytes keeps a new object in the loop for ever. */
  lemma FourGibibytesNeverEnd(k: nat)
    ensures LoopTest(0, M32, k)
  {
    FitsIffBelow(0, M32);
    NeverEnds(0, M32, k);
  }

  // ----- the digest and the buffer it leaves -----

  /** `update`'s effect on the 64-byte buffer, the bytes beyond the leftover included. */
  function BufferAfter(buffer: seq<Byte>, index: nat, input: seq<Byte>): (r: seq<Byte>)
    requires |buffer| == 64 && index < 64
    ensures |r| == 64
  {
    if |input| < 64 - index then
      buffer[..index] + input + buffer[index + |input|..]
    else
      var full := buffer[..index] + input[..64 - index];
      var rest := Tail(input[64 - index..]);
      rest + full[|rest|..]
  }

  lemma BufferAfterShort(buffer: seq<Byte>, index: nat, input: seq<Byte>)
    requires |buffer| == 64 && |input| < 64 - index
    ensures BufferAfter(buffer, index, input) == buffer[..index] + input + buffer[index + |input|..]
  {
  }

  lemma BufferAfterLong(buffer: seq<Byte>, index: nat, input: seq<Byte>, rest: seq<Byte>)
    requires |buffer| == 64 && index < 64 && 64 - index <= |input| && rest == Tail(input[64 - index..])
    ensures BufferAfter(buffer, index, input) == rest + (buffer[..index] + input[..64 - index])[|rest|..]
  {
  }

  /** What padding and length bytes leave in the buffer when they do not fit behind the tail. */
  function Residue(n: nat): (b: seq<Byte>)
    ensures |b| == 64
  {
    Zeros(56) + LengthBytes(n)
  }

  /** The message the object stands for once its digest has been taken: `final` restores state and
      count, but not the buffer. */
  function AfterDigest(m: seq<Byte>): (r: seq<Byte>)
    ensures |r| == |m|
  {
    if |Tail(m)| < 56 then m else Whole(m) + Residue(|m|)[..|Tail(m)|]
  }

  /** Exactly when a digest leaves the stream undisturbed. */
  lemma DigestIsHarmlessIff(m: seq<Byte>)
    ensures AfterDigest(m) == m <==> Index(|m|) < 56 || Tail(m) == Residue(|m|)[..Index(|m|)]
  {
    hide Whole, Tail, Blocks, Index, Residue;
    Split(m);
    if |Tail(m)| >= 56 && AfterDigest(m) == m {
      assert Tail(m) == m[|Whole(m)|..];
    }
  }

  /** A stream that the first digest disturbs: 56 bytes, none of them zero. */
  lemma DigestCanDisturb()
    ensures var m := seq(56, _ => 1); AfterDigest(m) != m && AfterDigest(m) == Zeros(56)
  {
    var m: seq<Byte> := seq(56, _ => 1);
    assert AfterDigest(m) == Residue(56)[..56] == Zeros(56);
    assert m[0] != Zeros(56)[0];
  }

  lemma AfterDigestParts(m: seq<Byte>)
    ensures var r := AfterDigest(m);
            Whole(r) == Whole(m) && Tail(r) == if |Tail(m)| < 56 then Tail(m) else Residue(|m|)[..|Tail(m)|]
  {
    hide Whole, Tail, Blocks, Index, Residue;
    if |Tail(m)| >= 56 {
      SplitOf(Whole(m), Residue(|m|)[..|Tail(m)|], Blocks(|m|));
    }
  }

  /** Further digests change nothing more. */
  lemma DigestIsIdempotent(m: seq<Byte>)
    ensures AfterDigest(AfterDigest(m)) == AfterDigest(m)
  {
    hide Whole, Tail, Blocks, Index, Residue;
    AfterDigestParts(m);
    Split(m);
  }

  lemma AfterDigestSameBlocks(m: seq<Byte>)
    ensures Absorb(Initial, AfterDigest(m)) == Absorb(Initial, m)
  {
    hide Absorb, Whole, Tail, Blocks, Index, Residue;
    AfterDigestParts(m);
    Split(m);
    Split(AfterDigest(m));
    AbsorbLeftover(Initial, Whole(m), Tail(m), Blocks(|m|));
    AbsorbLeftover(Initial, Whole(m), Tail(AfterDigest(m)), Blocks(|m|));
  }

  /** The length bytes complete the block that the padding has filled up to byte 56. */
  lemma BufferAfterLength(buffer: seq<Byte>, b: seq<Byte>)
    requires |buffer| == 64 && |b| == 8
    ensures BufferAfter(buffer, 56, b) == buffer[..56] + b
  {
    assert b[..8] == b && b[8..] == [];
    assert Tail([]) == [];
  }

  lemma BufferAfterPadding(buffer: seq<Byte>, n: nat)
    requires |buffer| == 64
    ensures var one := BufferAfter(buffer, Index(n), Padding(n));
            if Index(n) < 56 then one[..Index(n)] == buffer[..Index(n)] else one[..56] == Zeros(56)
  {
    var i, p := Index(n), Padding(n);
    if i < 56 {
      assert BufferAfter(buffer, i, p) == buffer[..i] + p + buffer[i + |p|..];
    } else {
      var rest := p[64 - i..];
      assert rest == Zeros(56);
      SplitOf([], rest, 0);
      assert [] + rest == rest;
    }
  }

  /** The padding and the length bytes, pushed through the buffer one after the other. */
  lemma BufferAfterFinal(buffer: seq<Byte>, m: seq<Byte>)
    requires |buffer| == 64 && buffer[..|Tail(m)|] == Tail(m)
    ensures var n, i := |m|, |Tail(m)|;
            BufferAfter(BufferAfter(buffer, i, Padding(n)), 56, LengthBytes(n))[..i] == Tail(AfterDigest(m))
  {
    hide LengthBytes, Padding, BufferAfter, Tail, Whole, Blocks, Index, AfterDigest;
    var n, i := |m|, |Tail(m)|;
    AfterDigestParts(m);
    BufferAfterPadding(buffer, n);
    BufferAfterLength(BufferAfter(buffer, i, Padding(n)), LengthBytes(n));
  }

  lemma IndexAfterPadding(m: seq<Byte>)
    ensures Index(|m + Padding(|m|)|) == 56
  {
    var n := |m|;
    assert n + |Padding(n)| == 64 * (Blocks(n) + if Index(n) < 56 then 0 else 1) + 56;
  }

  lemma LengthIsCount(n: nat)
    ensures LengthBytes(n) == EncodeWord(CountLow(n)) + EncodeWord(CountHigh(n))
  {
    hide EncodeWord;
  }

  lemma IndexIsRemainder(n: nat)
    ensures |Padding(n)| == if Index(n) < 56 then 56 - Index(n) else 120 - Index(n)
  {
  }

  lemma EncodeTwo(x: Word, y: Word)
    ensures EncodeWords([x, y]) == EncodeWord(x) + EncodeWord(y)
  {
    assert [x, y][1..] == [y] && [y][1..] == [];
    assert EncodeWords([y]) == EncodeWord(y) + [];
  }

  const PADDING: seq<Byte> := [0x80] + Zeros(63)

  lemma PaddingIsPrefix(n: nat)
    ensures Padding(n) == PADDING[..|Padding(n)|]
  {
  }

  class Hasher {
    const state: array<Word>
    const count: array<Word>
    const buffer: array<Byte>
    const digest: array<Byte>
    const result: array<Byte>
    var finished: bool
    ghost var message: seq<Byte>

    ghost predicate Shape()
      reads this
    {
      && state.Length == 4 && count.Length == 2 && buffer.Length == 64 && digest.Length == 16 && result.Length == 33
      && state != count && buffer != digest && result != buffer && result != digest
    }

    ghost function Registers(): Regs
      reads this, state
      requires Shape()
    {
      Regs(state[0], state[1], state[2], state[3])
    }

    /** The concrete fields stand for `message`. */
    ghost predicate Valid()
      reads this, state, count, buffer
    {
      && Shape()
      && Registers() == Absorb(Initial, message)
      && count[0] == CountLow(|message|) && count[1] == CountHigh(|message|)
      && buffer[..|Tail(message)|] == Tail(message)
    }

    constructor ()
      ensures Valid() && message == [] && !finished
      ensures fresh(state) && fresh(count) && fresh(buffer) && fresh(digest) && fresh(result)
    {
      state := new Word[4];
      count := new Word[2];
      buffer := new Byte[64];
      digest := new Byte[16];
      result := new Byte[33];
      new;
      Reset();
    }

    method Reset()
      requires Shape()
      modifies this, state, count
      ensures Valid() && message == [] && !finished
    {
      finished := false;
      count[1] := 0;
      count[0] := 0;
      state[0] := 0x67452301;
      state[1] := 0xefcdab89;
      state[2] := 0x98badcfe;
      state[3] := 0x10325476;
      message := [];
      assert Absorb(Initial, []) == Initial;
    }

    /** Lines 131-206. */
    method TransformBlock(block: seq<Byte>)
      requires Shape() && |block| == 64
      modifies state
      ensures Registers() == Compress(old(Registers()), block)
    {
      var x := new Word[16];
      DecodeInto(block, x);
      var r := Regs(state[0], state[1], state[2], state[3]);
      ghost var s := r;
      var words := x[..];
      r := Round1(r, words, s);
      r := Round2(r, words, s);
      r := Round3(r, words, s);
      r := Round4(r, words, s);
      state[0] := Add(state[0], r.a);
      state[1] := Add(state[1], r.b);
      state[2] := Add(state[2], r.c);
      state[3] := Add(state[3], r.d);
    }

    /** Lines 72-79: advance the bit counter and return the position in the buffer. */
    method Advance(ghost n: nat, length: nat) returns (index: nat)
      requires Shape() && count[0] == CountLow(n) && count[1] == CountHigh(n) && length < M32
      modifies count
      ensures count[0] == CountLow(n + length) && count[1] == CountHigh(n + length) && index == Index(n)
    {
      hide CountLow, CountHigh;
      assert length % M32 == length;
      IndexOfCount(n);
      CountAdvances(n, length);
      var bits := length % M32 * 8 % M32;
      index := count[0] / 8 % 64;
      count[0] := (count[0] + bits) % M32;
      var carry := if count[0] < bits then 1 else 0;
      count[1] := (count[1] + carry) % M32;
      count[1] := (count[1] + length % M32 / 0x2000_0000) % M32;
    }

    /** memcpy into the buffer. */
    method CopyIn(at: nat, bytes: seq<Byte>)
      requires buffer.Length == 64 && at + |bytes| <= 64
      modifies buffer
      ensures buffer[..] == old(buffer[..at]) + bytes + old(buffer[at + |bytes|..])
    {
      forall k | 0 <= k < |bytes| { buffer[at + k] := bytes[k]; }
    }

    /** Lines 82-88: complete the block in the buffer, then take the whole blocks of the chunk. */
    method WholeBlocks(input: seq<Byte>, index: nat, ghost m: seq<Byte>) returns (i: nat)
      requires Shape() && Registers() == Absorb(Initial, m)
      requires index == Index(|m|) && buffer[..index] == Tail(m)
      requires 64 - index <= |input| && BlockLoopFits(index, |input|)
      modifies state, buffer
      ensures Registers() == Absorb(Initial, m + input)
      ensures i <= |input| && Tail(m + input) == input[i..] == Tail(input[64 - index..])
      ensures buffer[..] == old(buffer[..index]) + input[..64 - index]
    {
      hide Absorb, Compress, Whole, Tail, Blocks, Index;
      var partLen := 64 - index;
      CopyIn(index, input[..partLen]);
      assert buffer[..] == old(buffer[..index]) + input[..partLen];
      FirstBlock(m, input[..partLen]);
      TransformBlock(buffer[..]);
      i := partLen;
      ghost var more := 0;
      while (i + 63) % M32 < |input|
        invariant partLen <= i <= |input| && i + 63 < M32 && i == partLen + 64 * more
        invariant Registers() == Absorb(Initial, m + input[..i])
        modifies state
        decreases |input| - i
      {
        NextBlock(m, input, i, Blocks(|m|) + 1 + more);
        TransformBlock(input[i..i + 64]);
        i := (i + 64) % M32;
        more := more + 1;
      }
      RestOfChunk(m, input, partLen, i, Blocks(|m|) + 1 + more, more);
    }

    /** Lines 69-95. */
    method Update(input: seq<Byte>)
      requires Valid() && BlockLoopFits(Index(|message|), |input|)
      modifies this, state, count, buffer
      ensures message == old(message) + input && !finished
      ensures Valid()
      ensures buffer[..] == BufferAfter(old(buffer[..]), Index(old(|message|)), input)
    {
      hide Absorb, Compress, CountLow, CountHigh, Whole, Tail, Blocks, Index, BlockLoopFits, BufferAfter;
      ghost var m, was := message, buffer[..];
      finished := false;
      var length := |input|;
      FittingIsShort(Index(|m|), length);
      var index := Advance(|m|, length);
      var i := 0;
      if length >= 64 - index {
        i := WholeBlocks(input, index, m);
        BufferAfterLong(was, index, input, input[i..]);
        index := 0;
      } else {
        ShortUpdate(m, input);
        BufferAfterShort(was, index, input);
        assert buffer[..index] + input == Tail(m + input);
      }
      CopyIn(index, input[i..]);
      assert buffer[..index + (length - i)] == Tail(m + input);
      message := message + input;
    }

    /** Lines 113-122: pad, and append the length. */
    method PadAndAppend()
      requires Valid()
      modifies this, state, count, buffer
      ensures Registers() == Absorb(Initial, Padded(old(message))) && !finished
      ensures buffer[..|Tail(old(message))|] == Tail(AfterDigest(old(message)))
    {
      hide Absorb, Compress, CountLow, CountHigh, Whole, Tail, Blocks, Index, BufferAfter, AfterDigest;
      hide Padding, EncodeWords, EncodeWord, BlockLoopFits;
      ghost var m, was := message, buffer[..];
      var bits := new Byte[8];
      EncodeInto(count[..], bits);
      EncodeTwo(count[0], count[1]);
      assert count[..] == [count[0], count[1]];
      assert bits[..] == LengthBytes(|m|) by { LengthIsCount(|m|); }
      var index := count[0] / 8 % 64;
      IndexOfCount(|m|);
      var padLen := if index < 56 then 56 - index else 120 - index;
      PaddingIsPrefix(|m|);
      IndexIsRemainder(|m|);
      ShortChunksFit(index, padLen);
      Update(PADDING[..padLen]);
      IndexAfterPadding(m);
      ShortChunksFit(56, 8);
      Update(bits[..]);
      BufferAfterFinal(was, m);
    }

    /** Lines 107-128. */
    method Final()
      requires Valid()
      modifies this, state, count, buffer, digest
      ensures Valid() && message == AfterDigest(old(message)) && !finished
      ensures digest[..] == Digest(old(message))
    {
      hide Absorb, CountLow, CountHigh, Tail, AfterDigest, Padded, EncodeWords;
      ghost var m := message;
      var oldState, oldCount := state[..], count[..];
      PadAndAppend();
      assert state[..] == [state[0], state[1], state[2], state[3]];
      EncodeInto(state[..], digest);
      forall k | 0 <= k < 4 { state[k] := oldState[k]; }
      forall k | 0 <= k < 2 { count[k] := oldCount[k]; }
      message := AfterDigest(m);
      AfterDigestSameBlocks(m);
    }

    /** Lines 98-102. */
    method TakeDigest()
      requires Valid()
      modifies this, state, count, buffer, digest
      ensures Valid() && message == AfterDigest(old(message)) && !finished
      ensures digest[..] == Digest(old(message))
    {
      finished := true;
      Final();
    }

    /** Lines 230-232: the digest of the message in lower-case hexadecimal, closed by a NUL. The
        kept result is handed out again only while `finished` holds, and no method returns with
        `finished` set. */
    method CStr()
      requires Valid()
      modifies this, state, count, buffer, digest, result
      ensures Valid()
      ensures old(finished) ==> message == old(message) && result[..] == old(result[..])
      ensures !old(finished) ==> message == AfterDigest(old(message)) && !finished
      ensures !old(finished) ==> result[..] == Hex.Encode(false, Digest(old(message))) + [0]
    {
      hide Digest, AfterDigest, Hex.Encode;
      if !finished {
        TakeDigest();
        Hex.BinToHex(false, result, digest[..]);
        assert result[..] == result[..33];
      }
    }
  }

  /** However a message is cut into chunks, the text is that of the whole message's digest. */
  method HashChunks(chunks: seq<seq<Byte>>) returns (text: seq<Byte>)
    requires forall c :: c in chunks ==> |c| <= M32 - 64
    ensures text == Hex.Encode(false, Digest(Flatten(chunks)))
  {
    hide Digest, Hex.Encode, BufferAfter, AfterDigest, BlockLoopFits;
    var h := new Hasher();
    var k := 0;
    while k < |chunks|
      invariant 0 <= k <= |chunks| && h.Valid() && !h.finished && h.message == Flatten(chunks[..k])
      invariant fresh(h) && fresh(h.state) && fresh(h.count) && fresh(h.buffer) && fresh(h.digest) && fresh(h.result)
    {
      ShortChunksFit(Index(|h.message|), |chunks[k]|);
      h.Update(chunks[k]);
      assert chunks[..k + 1] == chunks[..k] + [chunks[k]];
      FlattenPush(chunks[..k], chunks[k]);
      assert chunks[..k + 1][..k] == chunks[..k];
      k := k + 1;
    }
    assert chunks[..k] == chunks;
    h.CStr();
    text := h.result[..32];
  }

  /** Taking the digest twice in a row: the second text is that of the same message exactly when
      the stream was left undisturbed or the two messages happen to share a digest. */
  method DigestTwice(m: seq<Byte>) returns (first: seq<Byte>, second: seq<Byte>)
    requires |m| <= M32 - 64
    ensures first == Hex.Encode(false, Digest(m)) && second == Hex.Encode(false, Digest(AfterDigest(m)))
    ensures Index(|m|) < 56 ==> first == second
  {
    hide Digest, Hex.Encode, BufferAfter, BlockLoopFits;
    var h := new Hasher();
    ShortChunksFit(0, |m|);
    h.Update(m);
    assert h.message == m;
    h.CStr();
    first := h.result[..32];
    h.CStr();
    second := h.result[..32];
  }
}
