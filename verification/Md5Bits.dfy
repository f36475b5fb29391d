/** What the operations on words of RFC 1321 do to single bits, stated on quotients alone, and what
    pins the tables of the standard: the bytes of the initial registers, the sine behind the constants,
    the order of the words in a round, and the layout of padding and length. */
module Md5Bits {
  import opened Bits
  import opened Md5Spec

  /** Bit `i` of a number. */
  function Bit(x: nat, i: nat): (b: nat)
    ensures b < 2
  {
    x / Pow2(i) % 2
  }

  lemma QuotientIs(x: int, d: int, q: int, r: int)
    requires d > 0 && x == d * q + r && 0 <= r < d
    ensures x / d == q && x % d == r
  {
    var k := x / d - q;
    assert x == d * (x / d) + x % d;
    assert d * k == d * (x / d) - d * q;
    MultipleIsFar(d, k);
  }

  lemma MultipleIsFar(d: int, k: int)
    requires d > 0
    ensures k >= 1 ==> d * k >= d
    ensures k <= -1 ==> d * k <= -d
  {
  }

  lemma HalfFirst(x: nat, p: nat)
    requires p > 0
    ensures x / (2 * p) == x / 2 / p
  {
    var h, b := x / 2, x % 2;
    var q, r := h / p, h % p;
    assert h == p * q + r && x == 2 * h + b;
    assert 2 * (p * q) == (2 * p) * q;
    QuotientIs(x, 2 * p, q, 2 * r + b);
  }

  lemma BitOfHalf(x: nat, i: nat)
    requires i > 0
    ensures Bit(x, i) == Bit(x / 2, i - 1)
  {
    HalfFirst(x, Pow2(i - 1));
  }

  lemma BitZero(x: nat)
    ensures Bit(x, 0) == x % 2
  {
    assert Pow2(0) == 1;
  }

  lemma BitOfNothing(i: nat)
    ensures Bit(0, i) == 0
  {
    QuotientIs(0, Pow2(i), 0, 0);
  }

  lemma HalfOfAnd(x: nat, y: nat)
    requires x != 0
    ensures And(x, y) / 2 == And(x / 2, y / 2)
    ensures And(x, y) % 2 == if x % 2 == 1 && y % 2 == 1 then 1 else 0
  {
    var a := And(x / 2, y / 2);
    assert And(x, y) == 2 * a + if x % 2 == 1 && y % 2 == 1 then 1 else 0;
  }

  lemma {:induction false} BitOfAnd(x: nat, y: nat, i: nat)
    ensures Bit(And(x, y), i) == if Bit(x, i) == 1 && Bit(y, i) == 1 then 1 else 0
    decreases i
  {
    hide Bit;
    if x == 0 {
      assert And(x, y) == 0;
      BitOfNothing(i);
    } else {
      HalfOfAnd(x, y);
      hide And;
      if i == 0 {
        BitZero(x);
        BitZero(y);
        BitZero(And(x, y));
      } else {
        BitOfHalf(x, i);
        BitOfHalf(y, i);
        BitOfHalf(And(x, y), i);
        BitOfAnd(x / 2, y / 2, i - 1);
      }
    }
  }

  lemma {:induction false} BitOfComplement(x: nat, n: nat, i: nat)
    requires x < Pow2(n) && i < n
    ensures Bit(Pow2(n) - 1 - x, i) == 1 - Bit(x, i)
    decreases i
  {
    hide Bit;
    var y := Pow2(n) - 1 - x;
    assert Pow2(n) == 2 * Pow2(n - 1);
    if i == 0 {
      BitZero(x);
      BitZero(y);
    } else {
      BitOfHalf(x, i);
      BitOfHalf(y, i);
      assert y / 2 == Pow2(n - 1) - 1 - x / 2;
      BitOfComplement(x / 2, n - 1, i - 1);
    }
  }

  lemma Pow2Of32()
    ensures Pow2(32) == M32
  {
    assert Pow2(8) == 256;
    assert Pow2(16) == 65536;
    assert Pow2(24) == 0x100_0000;
  }

  lemma BitOfNot(x: Word, i: nat)
    requires i < 32
    ensures Bit(Not(x), i) == 1 - Bit(x, i)
  {
    Pow2Of32();
    BitOfComplement(x, 32, i);
  }

  lemma BitOfOr(x: Word, y: Word, i: nat)
    requires i < 32
    ensures Bit(OrW(x, y), i) == if Bit(x, i) == 1 || Bit(y, i) == 1 then 1 else 0
  {
    hide Bit, And;
    BitOfNot(x, i);
    BitOfNot(y, i);
    BitOfAnd(Not(x), Not(y), i);
    BitOfNot(And(Not(x), Not(y)), i);
  }

  lemma BitOfXor(x: Word, y: Word, i: nat)
    requires i < 32
    ensures Bit(XorW(x, y), i) == (Bit(x, i) + Bit(y, i)) % 2
  {
    hide Bit, And, OrW;
    BitOfNot(x, i);
    BitOfNot(y, i);
    BitOfAnd(x, Not(y), i);
    BitOfAnd(Not(x), y, i);
    BitOfOr(And(x, Not(y)), And(Not(x), y), i);
  }

  /** The auxiliary functions, bit by bit: F lets x choose between y and z, G lets z choose between x
      and y, H is the parity of the three, I is the parity of y and "x or not z". */
  lemma AuxiliaryBits(x: Word, y: Word, z: Word, i: nat)
    requires i < 32
    ensures Bit(Auxiliary(F, x, y, z), i) == if Bit(x, i) == 1 then Bit(y, i) else Bit(z, i)
    ensures Bit(Auxiliary(G, x, y, z), i) == if Bit(z, i) == 1 then Bit(x, i) else Bit(y, i)
    ensures Bit(Auxiliary(H, x, y, z), i) == (Bit(x, i) + Bit(y, i) + Bit(z, i)) % 2
    ensures Bit(Auxiliary(I, x, y, z), i) == (Bit(y, i) + if Bit(x, i) == 1 || Bit(z, i) == 0 then 1 else 0) % 2
  {
    hide Bit, And, OrW, XorW, Not;
    BitOfNot(x, i);
    BitOfNot(z, i);
    BitOfAnd(x, y, i);
    BitOfAnd(Not(x), z, i);
    BitOfOr(And(x, y), And(Not(x), z), i);
    BitOfAnd(x, z, i);
    BitOfAnd(y, Not(z), i);
    BitOfOr(And(x, z), And(y, Not(z)), i);
    BitOfXor(x, y, i);
    BitOfXor(XorW(x, y), z, i);
    BitOfOr(x, Not(z), i);
    BitOfXor(y, OrW(x, Not(z)), i);
  }

  // ----- rotation -----

  lemma {:induction false} BitOfShiftRight(x: nat, s: nat, i: nat)
    ensures Bit(ShiftRight(x, s), i) == Bit(x, i + s)
    decreases s
  {
    hide Bit;
    if s > 0 {
      BitOfShiftRight(x / 2, s - 1, i);
      BitOfHalf(x, i + s);
    }
  }

  lemma {:induction false} BitOfShiftLeft(x: nat, s: nat, i: nat)
    ensures Bit(ShiftLeft(x, s), i) == if i < s then 0 else Bit(x, i - s)
    decreases s
  {
    hide Bit;
    var p := Pow2(s);
    if s == 0 {
      assert x * p == x;
    } else {
      var q := Pow2(s - 1);
      assert x * p == 2 * (x * q);
      if i == 0 {
        BitZero(x * p);
      } else {
        BitOfHalf(x * p, i);
        BitOfShiftLeft(x, s - 1, i - 1);
      }
    }
  }

  /** Cutting off above bit `n` leaves the bits below. */
  lemma {:induction false} BitOfLow(x: nat, n: nat, i: nat)
    requires i < n
    ensures Bit(x % Pow2(n), i) == Bit(x, i)
    decreases i
  {
    hide Bit;
    var p, q := Pow2(n - 1), x / 2 / Pow2(n - 1);
    var r := x / 2 % p;
    assert x / 2 == p * q + r;
    assert 2 * (p * q) == (2 * p) * q;
    QuotientIs(x, 2 * p, q, 2 * r + x % 2);
    var y := x % Pow2(n);
    assert y == 2 * r + x % 2;
    if i == 0 {
      BitZero(x);
      BitZero(y);
    } else {
      BitOfHalf(x, i);
      BitOfHalf(y, i);
      BitOfLow(x / 2, n - 1, i - 1);
    }
  }

  lemma {:induction false} BitAbove(x: nat, n: nat, i: nat)
    requires x < Pow2(n) && n <= i
    ensures Bit(x, i) == 0
    decreases i
  {
    hide Bit;
    if x == 0 {
      BitOfNothing(i);
    } else {
      assert n > 0 && Pow2(n) == 2 * Pow2(n - 1);
      BitOfHalf(x, i);
      BitAbove(x / 2, n - 1, i - 1);
    }
  }

  /** Rotation moves every bit `s` places up, around the end of the word. */
  lemma RotateLeftBits(x: Word, s: nat, i: nat)
    requires s <= 32 && i < 32
    ensures Bit(RotateLeft(x, s), (i + s) % 32) == Bit(x, i)
  {
    hide Bit, OrW, ShiftLeft, ShiftRight;
    Pow2Of32();
    var k := (i + s) % 32;
    var low, high := ShiftLeft(x, s) % M32, ShiftRight(x, 32 - s);
    BitOfOr(low, high, k);
    BitOfLow(ShiftLeft(x, s), 32, k);
    BitOfShiftLeft(x, s, k);
    BitOfShiftRight(x, 32 - s, k);
    if i + s < 32 {
      BitAbove(x, 32, k + 32 - s);
    } else {
      assert k == i + s - 32;
    }
  }

  // ----- the tables -----

  /** Section 3.3 gives the initial registers as bytes, low-order first. */
  lemma InitialBytes()
    ensures EncodeWord(Initial.a) == [0x01, 0x23, 0x45, 0x67] && EncodeWord(Initial.b) == [0x89, 0xab, 0xcd, 0xef]
    ensures EncodeWord(Initial.c) == [0xfe, 0xdc, 0xba, 0x98] && EncodeWord(Initial.d) == [0x76, 0x54, 0x32, 0x10]
  {
  }

  lemma NextRemainder(a: nat, b: nat)
    requires b < 16
    ensures (a + b) % 16 == if a % 16 + b < 16 then a % 16 + b else a % 16 + b - 16
  {
  }

  /** How far a round goes on in the block from one step to the next. */
  function Stride(k: Round): nat
  {
    match k case F => 1 case G => 5 case H => 3 case I => 7
  }

  /** A round starts with word 0, 1, 5 or 0 and goes on in steps of 1, 5, 3 or 7, around the block. */
  lemma ScheduleSteps(i: nat)
    requires i < 63 && (i + 1) / 16 == i / 16
    ensures var next := Schedule(i) + Stride(RoundOf(i)); Schedule(i + 1) == if next < 16 then next else next - 16
  {
    NextRemainder(5 * i + 1, 5);
    NextRemainder(3 * i + 5, 3);
    NextRemainder(7 * i, 7);
  }

  lemma ScheduleStarts()
    ensures Schedule(0) == 0 && Schedule(16) == 1 && Schedule(32) == 5 && Schedule(48) == 0
  {
  }

  /** The sign of sin(n) for the first 64 numbers: 355/113 is pi, close enough. */
  predicate SineIsNegative(n: nat)
  {
    n * 113 / 355 % 2 == 1
  }

  /** 2^32 sin(i + 1), cut to an integer towards zero. */
  function Sine(i: nat): int
    requires i < 64
  {
    var t: int := Constant(i);
    if SineIsNegative(i + 1) then -t else t
  }

  const ONE := 0x100_0000_0000

  /** 2 cos(1), times 2^40. */
  const TWO_COS := 1188137335632

  /** The addition theorem sin(n + 1) + sin(n - 1) == 2 cos(1) sin(n), up to the cuts. */
  predicate FollowsSine(i: nat)
    requires 1 <= i < 63
  {
    -2 * ONE <= ONE * (Sine(i + 1) + Sine(i - 1)) - TWO_COS * Sine(i) <= 2 * ONE
  }

  lemma SineFrom1(i: nat)
    requires 1 <= i < 8
    ensures FollowsSine(i)
  {
  }

  lemma SineFrom8(i: nat)
    requires 8 <= i < 16
    ensures FollowsSine(i)
  {
  }

  lemma SineFrom16(i: nat)
    requires 16 <= i < 24
    ensures FollowsSine(i)
  {
  }

  lemma SineFrom24(i: nat)
    requires 24 <= i < 32
    ensures FollowsSine(i)
  {
  }

  lemma SineFrom32(i: nat)
    requires 32 <= i < 40
    ensures FollowsSine(i)
  {
  }

  lemma SineFrom40(i: nat)
    requires 40 <= i < 48
    ensures FollowsSine(i)
  {
  }

  lemma SineFrom48(i: nat)
    requires 48 <= i < 56
    ensures FollowsSine(i)
  {
  }

  lemma SineFrom56(i: nat)
    requires 56 <= i < 63
    ensures FollowsSine(i)
  {
  }

  /** The constants are those of the sine: the first is the integer part of 2^32 sin(1), between two
      sums of its series; the second follows from it; and all of them follow one another as the
      addition theorem says. */
  lemma ConstantsAreSines(i: nat)
    requires 1 <= i < 63
    ensures FollowsSine(i)
    ensures -2 * ONE <= ONE * Sine(1) - TWO_COS * Sine(0) <= 2 * ONE
    ensures var series := 1.0 - 1.0 / 6.0 + 1.0 / 120.0 - 1.0 / 5040.0 + 1.0 / 362880.0 - 1.0 / 39916800.0
                          + 1.0 / 6227020800.0;
            var t := Sine(0) as real;
            t <= 4294967296.0 * (series - 1.0 / 1307674368000.0) && 4294967296.0 * series < t + 1.0
    ensures var series := 1.0 - 1.0 / 2.0 + 1.0 / 24.0 - 1.0 / 720.0 + 1.0 / 40320.0 - 1.0 / 3628800.0
                          + 1.0 / 479001600.0 - 1.0 / 87178291200.0;
            var k := TWO_COS as real / ONE as real;
            2.0 * series - 0.000000001 <= k <= 2.0 * series + 0.000000001
  {
    hide FollowsSine;
    if i < 8 { SineFrom1(i); }
    else if i < 16 { SineFrom8(i); }
    else if i < 24 { SineFrom16(i); }
    else if i < 32 { SineFrom24(i); }
    else if i < 40 { SineFrom32(i); }
    else if i < 48 { SineFrom40(i); }
    else if i < 56 { SineFrom48(i); }
    else { SineFrom56(i); }
  }

  // ----- steps and blocks -----

  /** An operation, in numbers: the register, the auxiliary function, the word and the constant are added,
      the sum is rotated, and the next register is added, all modulo 2^32. */
  lemma OperationInNumbers(k: Round, a: Word, b: Word, c: Word, d: Word, x: Word, s: nat, t: Word)
    returns (sum: Word, turned: Word)
    requires s <= 32
    ensures sum == (a as int + Auxiliary(k, b, c, d) + x + t) % M32
    ensures forall i :: 0 <= i < 32 ==> Bit(turned, (i + s) % 32) == Bit(sum, i)
    ensures Operation(k, a, b, c, d, x, s, t) == (b as int + turned) % M32
  {
    hide Bit, RotateLeft, Auxiliary;
    sum := Add(Add(Add(a, Auxiliary(k, b, c, d)), x), t);
    turned := RotateLeft(sum, s);
    forall i | 0 <= i < 32 ensures Bit(turned, (i + s) % 32) == Bit(sum, i) {
      RotateLeftBits(sum, s, i);
    }
  }

  /** Operation `i` for named registers. */
  function Named(i: nat, a: Word, b: Word, c: Word, d: Word, x: seq<Word>): Word
    requires i < 64 && |x| == 16
  {
    Operation(RoundOf(i), a, b, c, d, x[Schedule(i)], Shift(i), Constant(i))
  }

  /** Four steps in the notation of section 3.4: [ABCD], [DABC], [CDAB], [BCDA], each changing its first
      register in place. */
  lemma FourSteps(n: nat, r: Regs, x: seq<Word>)
    requires n + 4 <= 64 && |x| == 16
    ensures var s := Steps(n, r, x);
            var a := Named(n, s.a, s.b, s.c, s.d, x);
            var d := Named(n + 1, s.d, a, s.b, s.c, x);
            var c := Named(n + 2, s.c, d, a, s.b, x);
            var b := Named(n + 3, s.b, c, d, a, x);
            Steps(n + 4, r, x) == Regs(a, b, c, d)
  {
    hide Operation, RoundOf, Schedule, Shift, Constant;
    assert Steps(n + 1, r, x) == StepOf(n, Steps(n, r, x), x);
    assert Steps(n + 2, r, x) == StepOf(n + 1, Steps(n + 1, r, x), x);
    assert Steps(n + 3, r, x) == StepOf(n + 2, Steps(n + 2, r, x), x);
    assert Steps(n + 4, r, x) == StepOf(n + 3, Steps(n + 3, r, x), x);
  }

  /** The shifts of the four rounds, each repeated through its round. */
  lemma ShiftsRepeat(j: nat)
    requires j < 4
    ensures Shift(4 * j) == 7 && Shift(4 * j + 1) == 12 && Shift(4 * j + 2) == 17 && Shift(4 * j + 3) == 22
    ensures Shift(4 * j + 16) == 5 && Shift(4 * j + 17) == 9 && Shift(4 * j + 18) == 14 && Shift(4 * j + 19) == 20
    ensures Shift(4 * j + 32) == 4 && Shift(4 * j + 33) == 11 && Shift(4 * j + 34) == 16 && Shift(4 * j + 35) == 23
    ensures Shift(4 * j + 48) == 6 && Shift(4 * j + 49) == 10 && Shift(4 * j + 50) == 15 && Shift(4 * j + 51) == 21
  {
  }

  /** The result of a block, register by register: what it was plus what the steps made of it. */
  lemma BlockAdds(r: Regs, block: seq<Byte>)
    requires |block| == 64
    ensures var x, q := DecodeWords(block), Compress(r, block);
            && |x| == 16
            && (var s := Steps(4 * |x|, r, x);
                && q.a == (r.a as int + s.a) % M32 && q.b == (r.b as int + s.b) % M32
                && q.c == (r.c as int + s.c) % M32 && q.d == (r.d as int + s.d) % M32)
  {
    hide Steps, DecodeWord;
  }

  /** The digest begins with the low-order byte of A and ends with the high-order byte of D. */
  lemma DigestBytes(m: seq<Byte>)
    ensures var r, d := Absorb(Initial, Padded(m)), Digest(m);
            && d[0] == r.a % 256 && d[3] == r.a / 0x100_0000 && d[4] == r.b % 256 && d[7] == r.b / 0x100_0000
            && d[8] == r.c % 256 && d[11] == r.c / 0x100_0000 && d[12] == r.d % 256 && d[15] == r.d / 0x100_0000
  {
    hide Absorb, Padded;
    var r := Absorb(Initial, Padded(m));
    TopByte(r.a);
    TopByte(r.b);
    TopByte(r.c);
    TopByte(r.d);
    hide EncodeWord;
    FourWords(r.a, r.b, r.c, r.d);
  }

  lemma TopByte(w: Word)
    ensures EncodeWord(w)[0] == w % 256 && EncodeWord(w)[3] == w / 0x100_0000
  {
    var q := w / 0x100_0000;
    assert 0 <= q < 256;
    assert q % 256 == q;
  }

  lemma FourWords(a: Word, b: Word, c: Word, d: Word)
    ensures EncodeWords([a, b, c, d]) == EncodeWord(a) + EncodeWord(b) + EncodeWord(c) + EncodeWord(d)
  {
    hide EncodeWord;
    var w, x, y, z := EncodeWord(a), EncodeWord(b), EncodeWord(c), EncodeWord(d);
    assert [d][1..] == [] && EncodeWords([]) == [];
    assert EncodeWords([d]) == z;
    assert [c, d][1..] == [d];
    assert EncodeWords([c, d]) == y + z;
    assert [b, c, d][1..] == [c, d];
    assert EncodeWords([b, c, d]) == x + (y + z);
    assert [a, b, c, d][1..] == [b, c, d];
    assert EncodeWords([a, b, c, d]) == w + (x + (y + z));
    assert w + (x + (y + z)) == w + x + y + z;
  }

  // ----- padding and length -----

  lemma PaddedSize(m: seq<Byte>)
    ensures var n := |Padded(m)|; n % 64 == 0 && |m| + 9 <= n < |m| + 9 + 64
    ensures |Padded(m)| == |m| + |Padding(|m|)| + 8
  {
    hide Padding, LengthBytes;
    var q, r := |m| / 64, |m| % 64;
    assert |m| == 64 * q + r;
    assert |Padded(m)| == if r < 56 then 64 * (q + 1) else 64 * (q + 2);
  }

  lemma PaddingBytes(n: nat)
    ensures Padding(n)[0] == 0x80 && forall i :: 0 < i < |Padding(n)| ==> Padding(n)[i] == 0
  {
  }

  /** The padded message: the message, the byte 0x80, zeros, and eight bytes; the shortest such whole
      number of blocks. */
  lemma PaddedLayout(m: seq<Byte>)
    ensures var p := Padded(m);
            && |p| % 64 == 0 && |m| + 9 <= |p| < |m| + 9 + 64
            && p[..|m|] == m && p[|m|] == 0x80 && (forall i :: |m| < i < |p| - 8 ==> p[i] == 0)
  {
    PaddedSize(m);
    PaddingBytes(|m|);
    hide Padding, LengthBytes;
    var p, pad := Padded(m), Padding(|m|);
    assert p == m + (pad + LengthBytes(|m|));
    assert forall i :: |m| <= i < |p| - 8 ==> p[i] == pad[i - |m|];
  }

  lemma WordValue(w: Word)
    ensures var b := EncodeWord(w);
            w == b[0] as int + 0x100 * b[1] as int + 0x1_0000 * b[2] as int + 0x100_0000 * b[3] as int
  {
    var q1 := w / 0x100;
    var q2 := q1 / 0x100;
    var q3 := q2 / 0x100;
    assert w / 0x1_0000 == q2 && w / 0x100_0000 == q3;
    assert q3 % 0x100 == q3;
  }

  /** The last eight bytes are the length in bits modulo 2^64: the number they make up, low-order byte
      first, differs from it by a multiple of 2^64. */
  lemma LengthIsBits(m: seq<Byte>) returns (k: nat)
    ensures var b := Padded(m)[|Padded(m)| - 8..];
            var low := b[0] as int + 0x100 * b[1] as int + 0x1_0000 * b[2] as int + 0x100_0000 * b[3] as int;
            var high := b[4] as int + 0x100 * b[5] as int + 0x1_0000 * b[6] as int + 0x100_0000 * b[7] as int;
            8 * |m| == low + M32 * high + M32 * M32 * k
  {
    hide EncodeWord;
    var n := 8 * |m|;
    k := n / M32 / M32;
    assert Padded(m)[|Padded(m)| - 8..] == LengthBytes(|m|);
    WordValue(n % M32);
    WordValue(n / M32 % M32);
    assert n == M32 * (n / M32) + n % M32;
    assert n / M32 == M32 * k + n / M32 % M32;
  }
}
