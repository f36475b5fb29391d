/** Fast skipping of trailing spaces, and the little-endian loads and stores. */
module SkipSpace {
  import opened Bits

  const SPACE: Byte := 0x20

  predicate AllSpaces(s: seq<Byte>)
  {
    forall i :: 0 <= i < |s| ==> s[i] == SPACE
  }

  // ----- the meaning: where the text ends -----

  /** One byte at a time. */
  function Skip(s: seq<Byte>, end: nat): (r: nat)
    requires end <= |s|
    ensures r <= end
  {
    if end > 0 && s[end - 1] == SPACE then Skip(s, end - 1) else end
  }

  /** What is skipped are spaces, and nothing more could be skipped. */
  lemma {:induction false} SkipIsMaximal(s: seq<Byte>, end: nat)
    requires end <= |s|
    ensures var r := Skip(s, end);
            && AllSpaces(s[r..end])
            && forall k :: 0 <= k < r ==> !AllSpaces(s[k..end])
  {
    var r := Skip(s, end);
    if end > 0 && s[end - 1] == SPACE {
      SkipIsMaximal(s, end - 1);
      assert s[r..end] == s[r..end - 1] + [SPACE];
      forall k | 0 <= k < r ensures !AllSpaces(s[k..end]) {
        assert s[k..end] == s[k..end - 1] + [SPACE];
        var i :| 0 <= i < end - 1 - k && s[k..end - 1][i] != SPACE;
        assert s[k..end][i] != SPACE;
      }
    } else {
      forall k | 0 <= k < r ensures !AllSpaces(s[k..end]) {
        assert s[k..end][end - 1 - k] == s[end - 1];
      }
    }
  }

  lemma {:induction false} SkipSpaces(s: seq<Byte>, from: nat, end: nat)
    requires from <= end <= |s| && AllSpaces(s[from..end])
    ensures Skip(s, end) == Skip(s, from)
    decreases end
  {
    if from < end {
      var all, front := s[from..end], s[from..end - 1];
      assert all == front + [s[end - 1]] && all[|front|] == s[end - 1];
      assert forall i :: 0 <= i < |front| ==> front[i] == all[i];
      SkipSpaces(s, from, end - 1);
    }
  }

  // ----- loads and stores -----

  const UINT32 := 0x1_0000_0000
  const UINT64 := 0x1_0000_0000_0000_0000

  function Sum4(a: seq<Byte>): nat
    requires |a| >= 4
  {
    a[0] as int + 0x100 * a[1] as int + 0x1_0000 * a[2] as int + 0x100_0000 * a[3] as int
  }

  /** Four bytes, the lowest first; the sum is taken in 32 bits. */
  function Uint4korr(a: seq<Byte>): (n: nat)
    requires |a| >= 4
    ensures n < UINT32
  {
    Sum4(a) % UINT32
  }

  /** Eight bytes, the lowest first; the sum is taken in 64 bits. */
  function Uint8korr(a: seq<Byte>): (n: nat)
    requires |a| >= 8
    ensures n < UINT64
  {
    (Uint4korr(a[..4]) + Uint4korr(a[4..8]) * UINT32) % UINT64
  }

  lemma Uint4korrExact(a: seq<Byte>)
    requires |a| >= 4
    ensures Uint4korr(a) == Sum4(a)
  {
  }

  lemma Uint8korrExact(a: seq<Byte>)
    requires |a| >= 8
    ensures Uint8korr(a) == Uint4korr(a[..4]) + Uint4korr(a[4..8]) * UINT32
  {
    hide Uint4korr;
  }

  lemma LowByte(x: Byte, y: Byte, p: int, q: int)
    requires x + 0x100 * p == y + 0x100 * q
    ensures x == y && p == q
  {
  }

  lemma Uint4korrInjective(a: seq<Byte>, b: seq<Byte>)
    requires |a| == |b| == 4
    ensures Uint4korr(a) == Uint4korr(b) <==> a == b
  {
    Uint4korrExact(a);
    Uint4korrExact(b);
    hide Uint4korr;
    var a2, b2 := a[2] as int + 0x100 * a[3] as int, b[2] as int + 0x100 * b[3] as int;
    var a1, b1 := a[1] as int + 0x100 * a2, b[1] as int + 0x100 * b2;
    assert Sum4(a) == a[0] as int + 0x100 * a1 && Sum4(b) == b[0] as int + 0x100 * b1;
    hide Sum4;
    if Uint4korr(a) == Uint4korr(b) {
      LowByte(a[0], b[0], a1, b1);
      LowByte(a[1], b[1], a2, b2);
      LowByte(a[2], b[2], a[3], b[3]);
    }
  }

  lemma Uint8korrInjective(a: seq<Byte>, b: seq<Byte>)
    requires |a| == |b| == 8
    ensures Uint8korr(a) == Uint8korr(b) <==> a == b
  {
    hide Uint4korr, Uint8korr;
    Uint8korrExact(a);
    Uint8korrExact(b);
    Uint4korrInjective(a[..4], b[..4]);
    Uint4korrInjective(a[4..8], b[4..8]);
    assert a == a[..4] + a[4..8] && b == b[..4] + b[4..8];
  }

  /** The load used by the skip gives the word of spaces exactly for eight spaces. */
  lemma SpaceWordIffSpaces(a: seq<Byte>)
    requires |a| == 8
    ensures Uint8korr(a) == 0x2020_2020_2020_2020 <==> AllSpaces(a)
  {
    var b := [SPACE, SPACE, SPACE, SPACE, SPACE, SPACE, SPACE, SPACE];
    assert Uint4korr(b[..4]) == 0x2020_2020 && Uint4korr(b[4..8]) == 0x2020_2020;
    assert Uint8korr(b) == 0x2020_2020_2020_2020;
    Uint8korrInjective(a, b);
    assert AllSpaces(a) <==> a == b;
  }

  /** The bytes of a number, the lowest first. */
  function Bytes4(n: nat): (a: seq<Byte>)
    ensures |a| == 4
  {
    [n % 0x100, n / 0x100 % 0x100, n / 0x1_0000 % 0x100, n / 0x100_0000 % 0x100]
  }

  lemma LoadOfBytes4(n: nat)
    requires n < UINT32
    ensures Uint4korr(Bytes4(n)) == n
  {
    Uint4korrExact(Bytes4(n));
    hide Uint4korr;
    var q1 := n / 0x100;
    var q2 := q1 / 0x100;
    var q3 := q2 / 0x100;
    assert n == q1 * 0x100 + n % 0x100 && q1 == q2 * 0x100 + q1 % 0x100 && q2 == q3 * 0x100 + q2 % 0x100;
    assert n / 0x1_0000 == q2 && n / 0x100_0000 == q3;
    assert q3 % 0x100 == q3;
  }

  method Int4store(t: array<Byte>, at: nat, n: nat)
    requires at + 4 <= t.Length && n < UINT32
    modifies t
    ensures Uint4korr(t[at..at + 4]) == n
    ensures t[..at] == old(t[..at]) && t[at + 4..] == old(t[at + 4..])
  {
    hide Uint4korr;
    t[at] := n % 0x100;
    t[at + 1] := n / 0x100 % 0x100;
    t[at + 2] := n / 0x1_0000 % 0x100;
    t[at + 3] := n / 0x100_0000 % 0x100;
    assert t[at..at + 4] == Bytes4(n);
    LoadOfBytes4(n);
  }

  method Int8store(t: array<Byte>, at: nat, n: nat)
    requires at + 8 <= t.Length && n < UINT64
    modifies t
    ensures Uint8korr(t[at..at + 8]) == n
    ensures t[..at] == old(t[..at]) && t[at + 8..] == old(t[at + 8..])
  {
    hide Uint4korr, Uint8korr;
    var low, high := n % UINT32, n / UINT32 % UINT32;
    Int4store(t, at, low);
    ghost var first := t[at..at + 4];
    Int4store(t, at + 4, high);
    assert t[at..at + 4] == t[..at + 4][at..] == first;
    ghost var all := t[at..at + 8];
    assert all[..4] == first && all[4..8] == t[at + 4..at + 8];
    Uint8korrExact(all);
    assert high == n / UINT32;
    assert t[..at] == t[..at + 4][..at];
    assert t[at + 8..] == old(t[at + 4..])[4..];
  }

  /** Storing what was loaded writes the same bytes back. */
  lemma StoreOfLoad(a: seq<Byte>)
    requires |a| == 4
    ensures Bytes4(Uint4korr(a)) == a
  {
    LoadOfBytes4(Uint4korr(a));
    Uint4korrInjective(a, Bytes4(Uint4korr(a)));
  }

  /** The same for eight bytes. */
  function Bytes8(n: nat): (a: seq<Byte>)
    ensures |a| == 8
  {
    Bytes4(n % UINT32) + Bytes4(n / UINT32 % UINT32)
  }

  lemma HalvesOf(low: nat, high: nat)
    requires low < UINT32 && high < UINT32
    ensures (low + high * UINT32) % UINT32 == low && (low + high * UINT32) / UINT32 == high
  {
  }

  lemma StoreOfLoad8(a: seq<Byte>)
    requires |a| == 8
    ensures Bytes8(Uint8korr(a)) == a
  {
    hide Uint4korr, Uint8korr, Bytes4;
    Uint8korrExact(a);
    HalvesOf(Uint4korr(a[..4]), Uint4korr(a[4..8]));
    StoreOfLoad(a[..4]);
    StoreOfLoad(a[4..8]);
    assert a == a[..4] + a[4..8];
  }

  /** Byte `i` of a loaded number, counted from the lowest, is the byte at `i`. */
  lemma LoadedBytes(a: seq<Byte>)
    requires |a| == 8
    ensures var n := Uint8korr(a);
            && n % 0x100 == a[0] && n / 0x100 % 0x100 == a[1]
            && n / 0x1_0000 % 0x100 == a[2] && n / 0x100_0000 % 0x100 == a[3]
            && n / 0x1_0000_0000 % 0x100 == a[4] && n / 0x100_0000_0000 % 0x100 == a[5]
            && n / 0x1_0000_0000_0000 % 0x100 == a[6] && n / 0x100_0000_0000_0000 % 0x100 == a[7]
  {
    Uint8korrExact(a);
    Uint4korrExact(a[..4]);
    Uint4korrExact(a[4..8]);
    hide Uint4korr, Uint8korr;
    var n7: int := a[7];
    var n6: int := a[6] as int + 0x100 * n7;
    var n5: int := a[5] as int + 0x100 * n6;
    var n4: int := a[4] as int + 0x100 * n5;
    var n3: int := a[3] as int + 0x100 * n4;
    var n2: int := a[2] as int + 0x100 * n3;
    var n1: int := a[1] as int + 0x100 * n2;
    assert Uint8korr(a) == a[0] as int + 0x100 * n1;
    hide Sum4;
    Peel(a[0], n1);
    Peel(a[1], n2);
    Peel(a[2], n3);
    Peel(a[3], n4);
    Peel(a[4], n5);
    Peel(a[5], n6);
    Peel(a[6], n7);
    Peel(a[7], 0);
    Quotients(Uint8korr(a));
  }

  lemma Peel(b: Byte, n: nat)
    ensures (b as int + 0x100 * n) % 0x100 == b && (b as int + 0x100 * n) / 0x100 == n
  {
  }

  lemma Quotients(n: nat)
    ensures var q := n / 0x100 / 0x100 / 0x100;
            && n / 0x1_0000 == n / 0x100 / 0x100 && n / 0x100_0000 == q && n / 0x1_0000_0000 == q / 0x100
            && n / 0x100_0000_0000 == q / 0x100 / 0x100 && n / 0x1_0000_0000_0000 == q / 0x100 / 0x100 / 0x100
            && n / 0x100_0000_0000_0000 == q / 0x100 / 0x100 / 0x100 / 0x100
  {
  }

  // ----- eight bytes at a time -----

  method SkipTrailingSpace(s: seq<Byte>) returns (end: nat)
    ensures end == Skip(s, |s|)
  {
    end := |s|;
    while end >= 8
      invariant end <= |s| && Skip(s, end) == Skip(s, |s|)
    {
      SpaceWordIffSpaces(s[end - 8..end]);
      if Uint8korr(s[end - 8..end]) != 0x2020_2020_2020_2020 {
        break;
      }
      SkipSpaces(s, end - 8, end);
      end := end - 8;
    }
    while end > 0 && s[end - 1] == SPACE
      invariant end <= |s| && Skip(s, end) == Skip(s, |s|)
    {
      end := end - 1;
    }
  }

  // ----- aligned words -----

  /** A machine word as its bytes make it up, the highest first. */
  function WordAt(a: seq<Byte>): nat
  {
    if a == [] then 0 else 0x100 * WordAt(a[..|a| - 1]) + a[|a| - 1]
  }

  lemma {:induction false} WordInjective(a: seq<Byte>, b: seq<Byte>)
    requires |a| == |b|
    ensures WordAt(a) == WordAt(b) <==> a == b
  {
    if a != [] {
      var n := |a| - 1;
      WordInjective(a[..n], b[..n]);
      assert a == a[..n] + [a[n]] && b == b[..n] + [b[n]];
    }
  }

  function Spaces(n: nat): (s: seq<Byte>)
    ensures |s| == n && AllSpaces(s)
  {
    if n == 0 then [] else Spaces(n - 1) + [SPACE]
  }

  lemma WordOfSpaces(a: seq<Byte>)
    requires |a| == 4 || |a| == 8
    ensures WordAt(a) == (if |a| == 4 then 0x2020_2020 else 0x2020_2020_2020_2020) <==> AllSpaces(a)
  {
    var b := Spaces(|a|);
    WordInjective(a, b);
    assert AllSpaces(a) <==> a == b;
    FourSpaces(b[..4]);
    if |a| == 8 {
      assert b[..7][..6][..5][..4] == b[..4];
      assert WordAt(b[..7][..6][..5]) == 0x100 * 0x2020_2020 + 0x20;
      assert WordAt(b[..7][..6]) == 0x100 * 0x20_2020_2020 + 0x20;
      assert WordAt(b[..7]) == 0x100 * 0x2020_2020_2020 + 0x20;
    } else {
      assert b[..4] == b;
    }
  }

  lemma FourSpaces(b: seq<Byte>)
    requires |b| == 4 && AllSpaces(b)
    ensures WordAt(b) == 0x2020_2020
  {
    assert b[..3][..2][..1][..0] == [];
    assert WordAt(b[..3][..2][..1]) == 0x20;
    assert WordAt(b[..3][..2]) == 0x100 * 0x20 + 0x20;
    assert WordAt(b[..3]) == 0x100 * 0x2020 + 0x20;
  }

  predicate Aligned(a: int, w: int)
    requires w == 4 || w == 8
  {
    if w == 4 then a % 4 == 0 else a % 8 == 0
  }

  /** The bytes at the addresses from `ptr` on. */
  datatype Memory = Memory(ptr: nat, bytes: seq<Byte>) {
    /** A load of one word, which is in the buffer and aligned. */
    function Load(a: int, w: int): nat
      requires w == 4 || w == 8
      requires ptr <= a && a + w <= ptr + |bytes| && Aligned(a, w)
    {
      WordAt(bytes[a - ptr..a - ptr + w])
    }

    /** The byte below an address. */
    function Below(a: int): Byte
      requires ptr < a <= ptr + |bytes|
    {
      bytes[a - 1 - ptr]
    }
  }

  function AlignDown(a: nat, w: int): (r: int)
    requires w == 4 || w == 8
    ensures Aligned(r, w) && r <= a < r + w
  {
    a / w * w
  }

  /** Byte by byte, down to an address. */
  method SkipBytes(m: Memory, from: int, stop: int) returns (end: int)
    requires m.ptr <= stop <= from <= m.ptr + |m.bytes|
    ensures stop <= end <= from && (end > stop ==> m.Below(end) != SPACE)
    ensures Skip(m.bytes, end - m.ptr) == Skip(m.bytes, from - m.ptr)
  {
    end := from;
    while end > stop && m.Below(end) == SPACE
      invariant stop <= end <= from && Skip(m.bytes, end - m.ptr) == Skip(m.bytes, from - m.ptr)
    {
      end := end - 1;
    }
  }

  lemma StepDown(a: int, b: int, w: int)
    requires (w == 4 || w == 8) && Aligned(a, w) && Aligned(b, w) && b < a
    ensures b <= a - w && Aligned(a - w, w)
  {
    if w == 4 {
      StepDown4(a, b);
    } else {
      StepDown8(a, b);
    }
  }

  lemma StepDown4(a: int, b: int)
    requires a % 4 == 0 && b % 4 == 0 && b < a
    ensures b <= a - 4 && (a - 4) % 4 == 0
  {
  }

  lemma StepDown8(a: int, b: int)
    requires a % 8 == 0 && b % 8 == 0 && b < a
    ensures b <= a - 8 && (a - 8) % 8 == 0
  {
  }

  /** Word by word, down to an aligned address. */
  method SkipWords(m: Memory, w: int, from: int, stop: int) returns (end: int)
    requires (w == 4 || w == 8) && Aligned(from, w) && Aligned(stop, w)
    requires m.ptr <= stop <= from <= m.ptr + |m.bytes|
    ensures stop <= end <= from && Skip(m.bytes, end - m.ptr) == Skip(m.bytes, from - m.ptr)
  {
    hide Aligned, WordAt, Skip, AllSpaces;
    end := from;
    while end > stop
      invariant stop <= end <= from && Aligned(end, w)
      invariant Skip(m.bytes, end - m.ptr) == Skip(m.bytes, from - m.ptr)
    {
      StepDown(end, stop, w);
      if m.Load(end - w, w) != (if w == 4 then 0x2020_2020 else 0x2020_2020_2020_2020) {
        break;
      }
      ghost var at := end - w - m.ptr;
      WordOfSpaces(m.bytes[at..at + w]);
      SkipSpaces(m.bytes, at, at + w);
      end := end - w;
    }
  }

  method SkipAligned(m: Memory, w: int) returns (end: int)
    requires w == 4 || w == 8
    ensures end == m.ptr + Skip(m.bytes, |m.bytes|)
  {
    hide AlignDown, WordAt, Aligned;
    var len := |m.bytes|;
    end := m.ptr + len;
    if len > 20 {
      var endWords := AlignDown(end, w);
      var startWords := AlignDown(m.ptr + w - 1, w);
      end := SkipBytes(m, end, endWords);
      if m.Below(end) == SPACE && startWords < endWords {
        end := SkipWords(m, w, end, startWords);
      }
    }
    end := SkipBytes(m, end, m.ptr);
  }
}
