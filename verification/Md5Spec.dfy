/** The message digest of RFC 1321, as its sections 3.1 to 3.5 define it.

    Words are the integers below 2^32, bytes the integers below 256. */
module Md5Spec {
  import opened Bits

  const M32: int := 0x1_0000_0000

  type Word = x: int | 0 <= x < 0x1_0000_0000

  /** The four registers A, B, C, D. */
  datatype Regs = Regs(a: Word, b: Word, c: Word, d: Word)

  // ----- section 2 and section 3.4: operations on words ---

  /** Addition modulo 2^32. */
  function Add(x: Word, y: Word): (r: Word)
    ensures r == if (x as int) + y < M32 then (x as int) + y else (x as int) + y - M32
  {
    ((x as int) + y) % M32
  }

  function Not(x: Word): Word { M32 - 1 - x }
  function OrW(x: Word, y: Word): Word { Not(And(Not(x), Not(y))) }
  function XorW(x: Word, y: Word): Word { OrW(And(x, Not(y)), And(Not(x), y)) }

  /** The circular shift x <<< s: (x << s) | (x >> (32 - s)). */
  function RotateLeft(x: Word, s: nat): Word
    requires s <= 32
  {
    OrW(ShiftLeft(x, s) % M32, ShiftRight(x, 32 - s))
  }

  datatype Round = F | G | H | I

  /** The auxiliary functions F, G, H and I. */
  function Auxiliary(k: Round, x: Word, y: Word, z: Word): Word
  {
    match k
    case F => OrW(And(x, y), And(Not(x), z))
    case G => OrW(And(x, z), And(y, Not(z)))
    case H => XorW(XorW(x, y), z)
    case I => XorW(y, OrW(x, Not(z)))
  }

  /** a = b + ((a + K(b,c,d) + X[k] + T[i]) <<< s). */
  function Operation(k: Round, a: Word, b: Word, c: Word, d: Word, x: Word, s: nat, t: Word): Word
    requires s <= 32
  {
    Add(b, RotateLeft(Add(Add(Add(a, Auxiliary(k, b, c, d)), x), t), s))
  }

  function RoundOf(i: nat): Round
    requires i < 64
  {
    if i < 16 then F else if i < 32 then G else if i < 48 then H else I
  }

  /** Which word of the block step `i` (counted from 0) uses. */
  function Schedule(i: nat): (k: nat)
    requires i < 64
    ensures k < 16
  {
    if i < 16 then i
    else if i < 32 then (5 * i + 1) % 16
    else if i < 48 then (3 * i + 5) % 16
    else 7 * i % 16
  }

  function Shift(i: nat): (s: nat)
    requires i < 64
    ensures s <= 32
  {
    match (i / 16, i % 4)
    case (0, 0) => 7  case (0, 1) => 12  case (0, 2) => 17  case (0, _) => 22
    case (1, 0) => 5  case (1, 1) => 9   case (1, 2) => 14  case (1, _) => 20
    case (2, 0) => 4  case (2, 1) => 11  case (2, 2) => 16  case (2, _) => 23
    case (_, 0) => 6  case (_, 1) => 10  case (_, 2) => 15  case (_, _) => 21
  }

  function T1(j: nat): Word
    requires j < 16
  {
    match j
    case 0 => 0xd76aa478
    case 1 => 0xe8c7b756
    case 2 => 0x242070db
    case 3 => 0xc1bdceee
    case 4 => 0xf57c0faf
    case 5 => 0x4787c62a
    case 6 => 0xa8304613
    case 7 => 0xfd469501
    case 8 => 0x698098d8
    case 9 => 0x8b44f7af
    case 10 => 0xffff5bb1
    case 11 => 0x895cd7be
    case 12 => 0x6b901122
    case 13 => 0xfd987193
    case 14 => 0xa679438e
    case _ => 0x49b40821
  }

  function T2(j: nat): Word
    requires j < 16
  {
    match j
    case 0 => 0xf61e2562
    case 1 => 0xc040b340
    case 2 => 0x265e5a51
    case 3 => 0xe9b6c7aa
    case 4 => 0xd62f105d
    case 5 => 0x2441453
    case 6 => 0xd8a1e681
    case 7 => 0xe7d3fbc8
    case 8 => 0x21e1cde6
    case 9 => 0xc33707d6
    case 10 => 0xf4d50d87
    case 11 => 0x455a14ed
    case 12 => 0xa9e3e905
    case 13 => 0xfcefa3f8
    case 14 => 0x676f02d9
    case _ => 0x8d2a4c8a
  }

  function T3(j: nat): Word
    requires j < 16
  {
    match j
    case 0 => 0xfffa3942
    case 1 => 0x8771f681
    case 2 => 0x6d9d6122
    case 3 => 0xfde5380c
    case 4 => 0xa4beea44
    case 5 => 0x4bdecfa9
    case 6 => 0xf6bb4b60
    case 7 => 0xbebfbc70
    case 8 => 0x289b7ec6
    case 9 => 0xeaa127fa
    case 10 => 0xd4ef3085
    case 11 => 0x4881d05
    case 12 => 0xd9d4d039
    case 13 => 0xe6db99e5
    case 14 => 0x1fa27cf8
    case _ => 0xc4ac5665
  }

  function T4(j: nat): Word
    requires j < 16
  {
    match j
    case 0 => 0xf4292244
    case 1 => 0x432aff97
    case 2 => 0xab9423a7
    case 3 => 0xfc93a039
    case 4 => 0x655b59c3
    case 5 => 0x8f0ccc92
    case 6 => 0xffeff47d
    case 7 => 0x85845dd1
    case 8 => 0x6fa87e4f
    case 9 => 0xfe2ce6e0
    case 10 => 0xa3014314
    case 11 => 0x4e0811a1
    case 12 => 0xf7537e82
    case 13 => 0xbd3af235
    case 14 => 0x2ad7d2bb
    case _ => 0xeb86d391
  }

  /** The table T: element `i` (counted from 0) is the integer part of 2^32 |sin(i + 1)|. */
  function Constant(i: nat): Word
    requires i < 64
  {
    if i < 16 then T1(i) else if i < 32 then T2(i - 16) else if i < 48 then T3(i - 32) else T4(i - 48)
  }

  /** Step `i`: the operation's result goes to the register whose turn it is, and the roles rotate
      by one, so that the next operation is again written for (a, b, c, d). */
  function StepOf(i: nat, r: Regs, x: seq<Word>): Regs
    requires i < 64 && |x| == 16
  {
    Regs(r.d, Operation(RoundOf(i), r.a, r.b, r.c, r.d, x[Schedule(i)], Shift(i), Constant(i)), r.b, r.c)
  }

  /** The registers after the first `n` steps. */
  function Steps(n: nat, r: Regs, x: seq<Word>): Regs
    requires n <= 64 && |x| == 16
  {
    if n == 0 then r else StepOf(n - 1, Steps(n - 1, r, x), x)
  }

  // ----- bytes and words: section 2, low-order byte first ---

  function DecodeWord(b: seq<Byte>): Word
    requires |b| == 4
  {
    var b0: int, b1: int, b2: int, b3: int := b[0], b[1], b[2], b[3];
    b0 + b1 * 0x100 + b2 * 0x1_0000 + b3 * 0x100_0000
  }

  function EncodeWord(w: Word): (b: seq<Byte>)
    ensures |b| == 4
  {
    [w % 256, w / 0x100 % 256, w / 0x1_0000 % 256, w / 0x100_0000 % 256]
  }

  function DecodeWords(b: seq<Byte>): (w: seq<Word>)
    ensures 4 * |w| <= |b| < 4 * |w| + 4
  {
    if |b| < 4 then [] else [DecodeWord(b[..4])] + DecodeWords(b[4..])
  }

  function EncodeWords(w: seq<Word>): (b: seq<Byte>)
    ensures |b| == 4 * |w|
  {
    if w == [] then [] else EncodeWord(w[0]) + EncodeWords(w[1..])
  }

  // ----- section 3.4: a block, and a sequence of blocks ---

  function Compress(r: Regs, block: seq<Byte>): Regs
    requires |block| == 64
  {
    var x := DecodeWords(block);
    var s := Steps(4 * |x|, r, x); // 64 steps: each of the 16 words is used four times
    Regs(Add(r.a, s.a), Add(r.b, s.b), Add(r.c, s.c), Add(r.d, s.d))
  }

  /** The whole blocks of `data` in order; what is left over is not touched. */
  function Absorb(r: Regs, data: seq<Byte>): Regs
    decreases |data|
  {
    if |data| < 64 then r else Absorb(Compress(r, data[..64]), data[64..])
  }

  // ----- sections 3.1, 3.2, 3.3 and 3.5 ---

  const Initial := Regs(0x67452301, 0xefcdab89, 0x98badcfe, 0x10325476)

  function Zeros(n: nat): (z: seq<Byte>)
    ensures |z| == n
  {
    seq(n, _ => 0)
  }

  /** The message length in bits, modulo 2^64, low-order word first. */
  function LengthBytes(n: nat): (b: seq<Byte>)
    ensures |b| == 8
  {
    EncodeWord(8 * n % M32) + EncodeWord(8 * n / M32 % M32)
  }

  /** One 1-bit and then 0-bits, up to 56 modulo 64 bytes; at least one byte is added. */
  function Padding(n: nat): (b: seq<Byte>)
    ensures |b| == if n % 64 < 56 then 56 - n % 64 else 120 - n % 64
  {
    [0x80] + Zeros(if n % 64 < 56 then 55 - n % 64 else 119 - n % 64)
  }

  /** Padding and length make the message a whole number of blocks. */
  function Padded(m: seq<Byte>): (p: seq<Byte>)
    ensures |p| == if |m| % 64 < 56 then |m| / 64 * 64 + 64 else |m| / 64 * 64 + 128
  {
    m + Padding(|m|) + LengthBytes(|m|)
  }

  function Digest(m: seq<Byte>): (d: seq<Byte>)
    ensures |d| == 16
  {
    var r := Absorb(Initial, Padded(m));
    EncodeWords([r.a, r.b, r.c, r.d])
  }
}
