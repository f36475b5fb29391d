/** The compression function as com_md5.cpp has it: the TRANSFORM macro, its 64 uses with rotating
    roles of the four registers, and the conversions between bytes and words. Each group of sixteen
    lines is proved to be sixteen indexed steps of RFC 1321. Lines are those of
    UtilityEngine/src/com_md5.cpp. */
module Md5Transform {
  import opened Bits
  import opened Md5Spec

  const S11 := 7
  const S12 := 12
  const S13 := 17
  const S14 := 22
  const S21 := 5
  const S22 := 9
  const S23 := 14
  const S24 := 20
  const S31 := 4
  const S32 := 11
  const S33 := 16
  const S34 := 23
  const S41 := 6
  const S42 := 10
  const S43 := 15
  const S44 := 21

  lemma AddIsAssociative(a: Word, f: Word, x: Word, t: Word)
    ensures Add(a, Add(Add(f, x), t)) == Add(Add(Add(a, f), x), t)
  {
  }

  /** The TRANSFORM macro: three assignments to `a`. */
  function Transform(k: Round, a: Word, b: Word, c: Word, d: Word, x: Word, s: nat, ac: Word): (r: Word)
    requires s <= 32
    ensures r == Operation(k, a, b, c, d, x, s, ac)
  {
    hide RotateLeft, Auxiliary;
    AddIsAssociative(a, Auxiliary(k, b, c, d), x, ac);
    var a1 := Add(a, Add(Add(Auxiliary(k, b, c, d), x), ac));
    var a2 := RotateLeft(a1, s);
    Add(a2, b)
  }

  method Round1(r: Regs, x: seq<Word>, ghost s: Regs) returns (q: Regs)
    requires |x| == 16 && r == Steps(0, s, x)
    ensures q == Steps(16, s, x)
  {
    hide Transform, Operation;
    var a, b, c, d := r.a, r.b, r.c, r.d;
    a := Transform(F, a, b, c, d, x[0], S11, 0xd76aa478);
    assert Regs(d, a, b, c) == Steps(1, s, x);
    d := Transform(F, d, a, b, c, x[1], S12, 0xe8c7b756);
    assert Regs(c, d, a, b) == Steps(2, s, x);
    c := Transform(F, c, d, a, b, x[2], S13, 0x242070db);
    assert Regs(b, c, d, a) == Steps(3, s, x);
    b := Transform(F, b, c, d, a, x[3], S14, 0xc1bdceee);
    assert Regs(a, b, c, d) == Steps(4, s, x);
    a := Transform(F, a, b, c, d, x[4], S11, 0xf57c0faf);
    assert Regs(d, a, b, c) == Steps(5, s, x);
    d := Transform(F, d, a, b, c, x[5], S12, 0x4787c62a);
    assert Regs(c, d, a, b) == Steps(6, s, x);
    c := Transform(F, c, d, a, b, x[6], S13, 0xa8304613);
    assert Regs(b, c, d, a) == Steps(7, s, x);
    b := Transform(F, b, c, d, a, x[7], S14, 0xfd469501);
    assert Regs(a, b, c, d) == Steps(8, s, x);
    a := Transform(F, a, b, c, d, x[8], S11, 0x698098d8);
    assert Regs(d, a, b, c) == Steps(9, s, x);
    d := Transform(F, d, a, b, c, x[9], S12, 0x8b44f7af);
    assert Regs(c, d, a, b) == Steps(10, s, x);
    c := Transform(F, c, d, a, b, x[10], S13, 0xffff5bb1);
    assert Regs(b, c, d, a) == Steps(11, s, x);
    b := Transform(F, b, c, d, a, x[11], S14, 0x895cd7be);
    assert Regs(a, b, c, d) == Steps(12, s, x);
    a := Transform(F, a, b, c, d, x[12], S11, 0x6b901122);
    assert Regs(d, a, b, c) == Steps(13, s, x);
    d := Transform(F, d, a, b, c, x[13], S12, 0xfd987193);
    assert Regs(c, d, a, b) == Steps(14, s, x);
    c := Transform(F, c, d, a, b, x[14], S13, 0xa679438e);
    assert Regs(b, c, d, a) == Steps(15, s, x);
    b := Transform(F, b, c, d, a, x[15], S14, 0x49b40821);
    assert Regs(a, b, c, d) == Steps(16, s, x);
    q := Regs(a, b, c, d);
  }

  method Round2(r: Regs, x: seq<Word>, ghost s: Regs) returns (q: Regs)
    requires |x| == 16 && r == Steps(16, s, x)
    ensures q == Steps(32, s, x)
  {
    hide Transform, Operation;
    var a, b, c, d := r.a, r.b, r.c, r.d;
    a := Transform(G, a, b, c, d, x[1], S21, 0xf61e2562);
    assert Regs(d, a, b, c) == Steps(17, s, x);
    d := Transform(G, d, a, b, c, x[6], S22, 0xc040b340);
    assert Regs(c, d, a, b) == Steps(18, s, x);
    c := Transform(G, c, d, a, b, x[11], S23, 0x265e5a51);
    assert Regs(b, c, d, a) == Steps(19, s, x);
    b := Transform(G, b, c, d, a, x[0], S24, 0xe9b6c7aa);
    assert Regs(a, b, c, d) == Steps(20, s, x);
    a := Transform(G, a, b, c, d, x[5], S21, 0xd62f105d);
    assert Regs(d, a, b, c) == Steps(21, s, x);
    d := Transform(G, d, a, b, c, x[10], S22, 0x2441453);
    assert Regs(c, d, a, b) == Steps(22, s, x);
    c := Transform(G, c, d, a, b, x[15], S23, 0xd8a1e681);
    assert Regs(b, c, d, a) == Steps(23, s, x);
    b := Transform(G, b, c, d, a, x[4], S24, 0xe7d3fbc8);
    assert Regs(a, b, c, d) == Steps(24, s, x);
    a := Transform(G, a, b, c, d, x[9], S21, 0x21e1cde6);
    assert Regs(d, a, b, c) == Steps(25, s, x);
    d := Transform(G, d, a, b, c, x[14], S22, 0xc33707d6);
    assert Regs(c, d, a, b) == Steps(26, s, x);
    c := Transform(G, c, d, a, b, x[3], S23, 0xf4d50d87);
    assert Regs(b, c, d, a) == Steps(27, s, x);
    b := Transform(G, b, c, d, a, x[8], S24, 0x455a14ed);
    assert Regs(a, b, c, d) == Steps(28, s, x);
    a := Transform(G, a, b, c, d, x[13], S21, 0xa9e3e905);
    assert Regs(d, a, b, c) == Steps(29, s, x);
    d := Transform(G, d, a, b, c, x[2], S22, 0xfcefa3f8);
    assert Regs(c, d, a, b) == Steps(30, s, x);
    c := Transform(G, c, d, a, b, x[7], S23, 0x676f02d9);
    assert Regs(b, c, d, a) == Steps(31, s, x);
    b := Transform(G, b, c, d, a, x[12], S24, 0x8d2a4c8a);
    assert Regs(a, b, c, d) == Steps(32, s, x);
    q := Regs(a, b, c, d);
  }

  method Round3(r: Regs, x: seq<Word>, ghost s: Regs) returns (q: Regs)
    requires |x| == 16 && r == Steps(32, s, x)
    ensures q == Steps(48, s, x)
  {
    hide Transform, Operation;
    var a, b, c, d := r.a, r.b, r.c, r.d;
    a := Transform(H, a, b, c, d, x[5], S31, 0xfffa3942);
    assert Regs(d, a, b, c) == Steps(33, s, x);
    d := Transform(H, d, a, b, c, x[8], S32, 0x8771f681);
    assert Regs(c, d, a, b) == Steps(34, s, x);
    c := Transform(H, c, d, a, b, x[11], S33, 0x6d9d6122);
    assert Regs(b, c, d, a) == Steps(35, s, x);
    b := Transform(H, b, c, d, a, x[14], S34, 0xfde5380c);
    assert Regs(a, b, c, d) == Steps(36, s, x);
    a := Transform(H, a, b, c, d, x[1], S31, 0xa4beea44);
    assert Regs(d, a, b, c) == Steps(37, s, x);
    d := Transform(H, d, a, b, c, x[4], S32, 0x4bdecfa9);
    assert Regs(c, d, a, b) == Steps(38, s, x);
    c := Transform(H, c, d, a, b, x[7], S33, 0xf6bb4b60);
    assert Regs(b, c, d, a) == Steps(39, s, x);
    b := Transform(H, b, c, d, a, x[10], S34, 0xbebfbc70);
    assert Regs(a, b, c, d) == Steps(40, s, x);
    a := Transform(H, a, b, c, d, x[13], S31, 0x289b7ec6);
    assert Regs(d, a, b, c) == Steps(41, s, x);
    d := Transform(H, d, a, b, c, x[0], S32, 0xeaa127fa);
    assert Regs(c, d, a, b) == Steps(42, s, x);
    c := Transform(H, c, d, a, b, x[3], S33, 0xd4ef3085);
    assert Regs(b, c, d, a) == Steps(43, s, x);
    b := Transform(H, b, c, d, a, x[6], S34, 0x4881d05);
    assert Regs(a, b, c, d) == Steps(44, s, x);
    a := Transform(H, a, b, c, d, x[9], S31, 0xd9d4d039);
    assert Regs(d, a, b, c) == Steps(45, s, x);
    d := Transform(H, d, a, b, c, x[12], S32, 0xe6db99e5);
    assert Regs(c, d, a, b) == Steps(46, s, x);
    c := Transform(H, c, d, a, b, x[15], S33, 0x1fa27cf8);
    assert Regs(b, c, d, a) == Steps(47, s, x);
    b := Transform(H, b, c, d, a, x[2], S34, 0xc4ac5665);
    assert Regs(a, b, c, d) == Steps(48, s, x);
    q := Regs(a, b, c, d);
  }

  method Round4(r: Regs, x: seq<Word>, ghost s: Regs) returns (q: Regs)
    requires |x| == 16 && r == Steps(48, s, x)
    ensures q == Steps(64, s, x)
  {
    hide Transform, Operation;
    var a, b, c, d := r.a, r.b, r.c, r.d;
    a := Transform(I, a, b, c, d, x[0], S41, 0xf4292244);
    assert Regs(d, a, b, c) == Steps(49, s, x);
    d := Transform(I, d, a, b, c, x[7], S42, 0x432aff97);
    assert Regs(c, d, a, b) == Steps(50, s, x);
    c := Transform(I, c, d, a, b, x[14], S43, 0xab9423a7);
    assert Regs(b, c, d, a) == Steps(51, s, x);
    b := Transform(I, b, c, d, a, x[5], S44, 0xfc93a039);
    assert Regs(a, b, c, d) == Steps(52, s, x);
    a := Transform(I, a, b, c, d, x[12], S41, 0x655b59c3);
    assert Regs(d, a, b, c) == Steps(53, s, x);
    d := Transform(I, d, a, b, c, x[3], S42, 0x8f0ccc92);
    assert Regs(c, d, a, b) == Steps(54, s, x);
    c := Transform(I, c, d, a, b, x[10], S43, 0xffeff47d);
    assert Regs(b, c, d, a) == Steps(55, s, x);
    b := Transform(I, b, c, d, a, x[1], S44, 0x85845dd1);
    assert Regs(a, b, c, d) == Steps(56, s, x);
    a := Transform(I, a, b, c, d, x[8], S41, 0x6fa87e4f);
    assert Regs(d, a, b, c) == Steps(57, s, x);
    d := Transform(I, d, a, b, c, x[15], S42, 0xfe2ce6e0);
    assert Regs(c, d, a, b) == Steps(58, s, x);
    c := Transform(I, c, d, a, b, x[6], S43, 0xa3014314);
    assert Regs(b, c, d, a) == Steps(59, s, x);
    b := Transform(I, b, c, d, a, x[13], S44, 0x4e0811a1);
    assert Regs(a, b, c, d) == Steps(60, s, x);
    a := Transform(I, a, b, c, d, x[4], S41, 0xf7537e82);
    assert Regs(d, a, b, c) == Steps(61, s, x);
    d := Transform(I, d, a, b, c, x[11], S42, 0xbd3af235);
    assert Regs(c, d, a, b) == Steps(62, s, x);
    c := Transform(I, c, d, a, b, x[2], S43, 0x2ad7d2bb);
    assert Regs(b, c, d, a) == Steps(63, s, x);
    b := Transform(I, b, c, d, a, x[9], S44, 0xeb86d391);
    assert Regs(a, b, c, d) == Steps(64, s, x);
    q := Regs(a, b, c, d);
  }

  // ----- encode and decode -----

  lemma DecodeWordsAt(b: seq<Byte>, i: nat)
    requires 4 * i + 4 <= |b|
    ensures DecodeWords(b)[i] == DecodeWord(b[4 * i..4 * i + 4])
  {
    if i > 0 {
      assert b[4..][4 * (i - 1)..4 * (i - 1) + 4] == b[4 * i..4 * i + 4];
      DecodeWordsAt(b[4..], i - 1);
    } else {
      assert b[..4] == b[0..4];
    }
  }

  lemma SliceOfConcat<T>(s: seq<T>, t: seq<T>, i: nat, j: nat)
    requires i <= j <= |t|
    ensures (s + t)[|s| + i..|s| + j] == t[i..j]
  {
  }

  lemma EncodeWordsAt(w: seq<Word>, i: nat)
    requires i < |w|
    ensures EncodeWords(w)[4 * i..4 * i + 4] == EncodeWord(w[i])
  {
    hide EncodeWord;
    var u, v := EncodeWord(w[0]), EncodeWords(w[1..]);
    if i > 0 {
      EncodeWordsAt(w[1..], i - 1);
      SliceOfConcat(u, v, 4 * (i - 1), 4 * (i - 1) + 4);
    } else {
      assert (u + v)[0..4] == u;
    }
  }

  /** Lines 223-228. */
  method DecodeInto(input: seq<Byte>, output: array<Word>)
    requires |input| == 4 * output.Length
    modifies output
    ensures output[..] == DecodeWords(input)
  {
    var i, j := 0, 0;
    while j < |input|
      invariant j == 4 * i && i <= output.Length
      invariant forall k :: 0 <= k < i ==> output[k] == DecodeWords(input)[k]
    {
      var b0: int, b1: int, b2: int, b3: int := input[j], input[j + 1], input[j + 2], input[j + 3];
      output[i] := b0 + b1 * 0x100 + b2 * 0x1_0000 + b3 * 0x100_0000;
      DecodeWordsAt(input, i);
      i, j := i + 1, j + 4;
    }
  }

  /** Lines 211-218. */
  method EncodeInto(input: seq<Word>, output: array<Byte>)
    requires output.Length == 4 * |input|
    modifies output
    ensures output[..] == EncodeWords(input)
  {
    var i, j := 0, 0;
    while j < output.Length
      invariant j == 4 * i && i <= |input|
      invariant output[..j] == EncodeWords(input)[..j]
    {
      output[j] := input[i] % 256;
      output[j + 1] := input[i] / 0x100 % 256;
      output[j + 2] := input[i] / 0x1_0000 % 256;
      output[j + 3] := input[i] / 0x100_0000 % 256;
      EncodeWordsAt(input, i);
      assert output[j..j + 4] == EncodeWord(input[i]);
      assert output[..j + 4] == output[..j] + output[j..j + 4];
      assert EncodeWords(input)[..j + 4] == EncodeWords(input)[..j] + EncodeWords(input)[j..j + 4];
      i, j := i + 1, j + 4;
    }
  }

  /** Each of the two byte orders undoes the other. */
  lemma {:induction false} DecodeUndoesEncode(w: seq<Word>)
    ensures DecodeWords(EncodeWords(w)) == w
  {
    if w != [] {
      var b := EncodeWords(w);
      assert b[..4] == EncodeWord(w[0]) && b[4..] == EncodeWords(w[1..]);
      assert DecodeWord(EncodeWord(w[0])) == w[0];
      DecodeUndoesEncode(w[1..]);
    }
  }

  lemma {:induction false} EncodeUndoesDecode(b: seq<Byte>, n: nat)
    requires |b| == 4 * n
    ensures EncodeWords(DecodeWords(b)) == b
    decreases n
  {
    if n != 0 {
      EncodeUndoesDecode(b[4..], n - 1);
      EncodeWordUndoes(b[..4]);
      assert b == b[..4] + b[4..];
      assert DecodeWords(b)[1..] == DecodeWords(b[4..]);
    }
  }

  lemma EncodeWordUndoes(b: seq<Byte>)
    requires |b| == 4
    ensures EncodeWord(DecodeWord(b)) == b
  {
    var b0: int, b1: int, b2: int, b3: int := b[0], b[1], b[2], b[3];
    var w: int := DecodeWord(b);
    assert w / 0x100 == b1 + b2 * 0x100 + b3 * 0x1_0000;
    assert w / 0x1_0000 == b2 + b3 * 0x100;
    assert w / 0x100_0000 == b3;
    assert EncodeWord(w) == [b0, b1, b2, b3];
  }
}
