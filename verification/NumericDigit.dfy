/** The divide-and-conquer search for the highest and the lowest set bit. */
module NumericDigit {
  import opened Bits

  // ----- words of `pw` bits; bit `i` is element `i` -----

  type Word = seq<bool>

  function Not(a: Word): (r: Word)
    ensures |r| == |a| && forall i :: 0 <= i < |a| ==> r[i] == !a[i]
  {
    seq(|a|, i requires 0 <= i < |a| => !a[i])
  }

  function BitAnd(a: Word, b: Word): (r: Word)
    requires |a| == |b|
    ensures |r| == |a| && forall i :: 0 <= i < |a| ==> r[i] == (a[i] && b[i])
  {
    seq(|a|, i requires 0 <= i < |a| => a[i] && b[i])
  }

  function Shl(a: Word, c: nat): (r: Word)
    ensures |r| == |a| && forall i :: 0 <= i < |a| ==> r[i] == (i >= c && a[i - c])
  {
    seq(|a|, i requires 0 <= i < |a| => i >= c && a[i - c])
  }

  function Shr(a: Word, c: nat): (r: Word)
    ensures |r| == |a| && forall i :: 0 <= i < |a| ==> r[i] == (i + c < |a| && a[i + c])
  {
    seq(|a|, i requires 0 <= i < |a| => i + c < |a| && a[i + c])
  }

  predicate NonZero(a: Word) { exists i :: 0 <= i < |a| && a[i] }

  /** The word with exactly the bits `lo..hi` set. */
  function Interval(pw: nat, lo: nat, hi: nat): (r: Word)
    ensures |r| == pw && forall i :: 0 <= i < pw ==> r[i] == (lo <= i < hi)
  {
    seq(pw, i => lo <= i < hi)
  }

  // ----- the templates -----

  /** An instance of the class template: the bits it looks at, and the number `k` such that there are
      2^k of them. */
  datatype Node = Node(self: Word, k: nat) {
    /** Half the number of bits. */
    function ChildBit(): (c: nat)
      requires k >= 1
      ensures Pow2(k) == 2 * c && c >= 1
    {
      Pow2(k - 1)
    }

    function L(): (r: Word)
      requires k >= 1
      ensures |r| == |self|
    {
      BitAnd(Not(Shl(self, ChildBit())), self)
    }

    function H(): (r: Word)
      requires k >= 1
      ensures |r| == |self|
    {
      Shl(BitAnd(Shr(self, ChildBit()), L()), ChildBit())
    }

    function ChildL(): (n: Node)
      requires k >= 2
      ensures n.k == k - 1 && |n.self| == |self|
    {
      Node(L(), k - 1)
    }

    function ChildH(): (n: Node)
      requires k >= 2
      ensures n.k == k - 1 && |n.self| == |self|
    {
      Node(H(), k - 1)
    }

    function Max(x: Word): nat
      requires k >= 1 && |x| == |self|
      decreases k
    {
      if k == 1 then (if NonZero(BitAnd(x, H())) then 2 else if NonZero(BitAnd(x, L())) then 1 else 0)
      else if NonZero(BitAnd(x, H())) then ChildBit() + ChildH().Max(x)
      else ChildL().Max(x)
    }

    function Min(x: Word): nat
      requires k >= 1 && |x| == |self|
      decreases k
    {
      if k == 1 then (if NonZero(BitAnd(x, L())) then 1 else if NonZero(BitAnd(x, H())) then 2 else 0)
      else if NonZero(BitAnd(x, L())) then ChildL().Min(x)
      else ChildBit() + ChildH().Min(x)
    }
  }

  /** `com::numeric_digit` for a type of 2^k bits, computed in words of `pw` bits: small types are
      promoted before the operators apply. */
  function Root(pw: nat, k: nat): (n: Node)
    ensures n.k == k && |n.self| == pw
  {
    Node(Interval(pw, 0, Pow2(k)), k)
  }

  // ----- the macros -----

  function FastMax2(x: Word, n: Node): nat
    requires n.k == 1 && |x| == |n.self|
  {
    if NonZero(BitAnd(x, n.H())) then 2 else if NonZero(BitAnd(x, n.L())) then 1 else 0
  }

  function FastMax4(x: Word, n: Node): nat
    requires n.k == 2 && |x| == |n.self|
  {
    if NonZero(BitAnd(x, n.H())) then n.ChildBit() + FastMax2(x, n.ChildH()) else FastMax2(x, n.ChildL())
  }

  function FastMax8(x: Word, n: Node): nat
    requires n.k == 3 && |x| == |n.self|
  {
    if NonZero(BitAnd(x, n.H())) then n.ChildBit() + FastMax4(x, n.ChildH()) else FastMax4(x, n.ChildL())
  }

  function FastMax16(x: Word, n: Node): nat
    requires n.k == 4 && |x| == |n.self|
  {
    if NonZero(BitAnd(x, n.H())) then n.ChildBit() + FastMax8(x, n.ChildH()) else FastMax8(x, n.ChildL())
  }

  function FastMax32(x: Word, n: Node): nat
    requires n.k == 5 && |x| == |n.self|
  {
    if NonZero(BitAnd(x, n.H())) then n.ChildBit() + FastMax16(x, n.ChildH()) else FastMax16(x, n.ChildL())
  }

  function FastMax64(x: Word, n: Node): nat
    requires n.k == 6 && |x| == |n.self|
  {
    if NonZero(BitAnd(x, n.H())) then n.ChildBit() + FastMax32(x, n.ChildH()) else FastMax32(x, n.ChildL())
  }

  // ----- the masks -----

  /** The node looks at the 2^k bits from `lo` on, and no bits below them are in its way. */
  predicate At(n: Node, pw: nat, lo: nat)
  {
    n.k >= 1 && lo + Pow2(n.k) <= pw && n.self == Interval(pw, lo, lo + Pow2(n.k))
  }

  /** The two masks of a node are the lower and the upper half of its bits. */
  lemma MasksAreHalves(n: Node, pw: nat, lo: nat)
    requires At(n, pw, lo)
    ensures var c := n.ChildBit();
            && n.L() == Interval(pw, lo, lo + c)
            && n.H() == Interval(pw, lo + c, lo + 2 * c)
  {
    var c := n.ChildBit();
    var l := Interval(pw, lo, lo + c);
    assert n.L() == l;
    assert BitAnd(Shr(n.self, c), l) == l;
    assert Shl(l, c) == Interval(pw, lo + c, lo + 2 * c);
  }

  lemma ChildrenAt(n: Node, pw: nat, lo: nat)
    requires At(n, pw, lo) && n.k >= 2
    ensures At(n.ChildL(), pw, lo) && At(n.ChildH(), pw, lo + n.ChildBit())
  {
    hide Node.L, Node.H;
    MasksAreHalves(n, pw, lo);
  }

  lemma RootIsAt(pw: nat, k: nat)
    requires k >= 1 && Pow2(k) <= pw
    ensures At(Root(pw, k), pw, 0)
  {
  }

  // ----- what is found -----

  /** `r` is one more than the highest set bit of `x[lo..hi]`, counted from `lo`; zero if there is
      none. */
  predicate IsTop(x: Word, lo: nat, hi: nat, r: nat)
    requires lo <= hi <= |x|
  {
    && lo + r <= hi
    && (r > 0 ==> x[lo + r - 1])
    && forall i :: lo + r <= i < hi ==> !x[i]
  }

  predicate AnyIn(x: Word, lo: nat, hi: nat)
    requires lo <= hi <= |x|
  {
    exists i :: lo <= i < hi && x[i]
  }

  lemma AndInterval(x: Word, lo: nat, hi: nat)
    requires lo <= hi <= |x|
    ensures NonZero(BitAnd(x, Interval(|x|, lo, hi))) <==> AnyIn(x, lo, hi)
  {
    var a := BitAnd(x, Interval(|x|, lo, hi));
    if AnyIn(x, lo, hi) {
      var i :| lo <= i < hi && x[i];
      assert a[i];
    }
  }

  /** The tests of a node ask whether the halves have a set bit. */
  lemma TestsOfNode(n: Node, x: Word, lo: nat)
    requires At(n, |x|, lo)
    ensures var c := n.ChildBit();
            && (NonZero(BitAnd(x, n.L())) <==> AnyIn(x, lo, lo + c))
            && (NonZero(BitAnd(x, n.H())) <==> AnyIn(x, lo + c, lo + 2 * c))
  {
    hide Node.L, Node.H, NonZero, BitAnd, AnyIn;
    var c := n.ChildBit();
    MasksAreHalves(n, |x|, lo);
    AndInterval(x, lo, lo + c);
    AndInterval(x, lo + c, lo + 2 * c);
  }

  lemma TopOfHalves(x: Word, lo: nat, c: nat, r: nat)
    requires lo + 2 * c <= |x|
    ensures AnyIn(x, lo + c, lo + 2 * c) && IsTop(x, lo + c, lo + 2 * c, r) ==> IsTop(x, lo, lo + 2 * c, c + r)
    ensures !AnyIn(x, lo + c, lo + 2 * c) && IsTop(x, lo, lo + c, r) ==> IsTop(x, lo, lo + 2 * c, r)
  {
  }

  lemma TopOfTwo(x: Word, lo: nat)
    requires lo + 2 <= |x|
    ensures IsTop(x, lo, lo + 2, if AnyIn(x, lo + 1, lo + 2) then 2 else if AnyIn(x, lo, lo + 1) then 1 else 0)
  {
    assert x[lo] ==> AnyIn(x, lo, lo + 1);
    assert x[lo + 1] ==> AnyIn(x, lo + 1, lo + 2);
  }

  lemma {:induction false} MaxFinds(n: Node, x: Word, lo: nat)
    requires At(n, |x|, lo)
    ensures IsTop(x, lo, lo + Pow2(n.k), n.Max(x))
    decreases n.k
  {
    hide Node.L, Node.H, NonZero, BitAnd, AnyIn, IsTop;
    var c := n.ChildBit();
    TestsOfNode(n, x, lo);
    if n.k == 1 {
      assert Pow2(n.k) == 2 && c == 1;
      hide Pow2;
      TopOfTwo(x, lo);
    } else {
      ChildrenAt(n, |x|, lo);
      hide At, Pow2;
      if AnyIn(x, lo + c, lo + 2 * c) {
        MaxFinds(n.ChildH(), x, lo + c);
        TopOfHalves(x, lo, c, n.ChildH().Max(x));
      } else {
        MaxFinds(n.ChildL(), x, lo);
        TopOfHalves(x, lo, c, n.ChildL().Max(x));
      }
    }
  }

  /** The place, counted from one, of the lowest set bit of `x[lo..hi]`; two less than the number of
      bits if there is none. */
  predicate IsBottom(x: Word, lo: nat, hi: nat, r: nat)
    requires lo + 2 <= hi <= |x|
  {
    if AnyIn(x, lo, hi) then 1 <= r && lo + r <= hi && x[lo + r - 1] && forall i :: lo <= i < lo + r - 1 ==> !x[i]
    else lo + r == hi - 2
  }

  lemma BottomOfHalves(x: Word, lo: nat, c: nat, r: nat)
    requires c >= 2 && lo + 2 * c <= |x|
    ensures AnyIn(x, lo, lo + c) && IsBottom(x, lo, lo + c, r) ==> IsBottom(x, lo, lo + 2 * c, r)
    ensures !AnyIn(x, lo, lo + c) && IsBottom(x, lo + c, lo + 2 * c, r) ==> IsBottom(x, lo, lo + 2 * c, c + r)
  {
    assert AnyIn(x, lo, lo + 2 * c) <==> AnyIn(x, lo, lo + c) || AnyIn(x, lo + c, lo + 2 * c);
  }

  lemma BottomOfTwo(x: Word, lo: nat)
    requires lo + 2 <= |x|
    ensures IsBottom(x, lo, lo + 2, if AnyIn(x, lo, lo + 1) then 1 else if AnyIn(x, lo + 1, lo + 2) then 2 else 0)
  {
    assert x[lo] ==> AnyIn(x, lo, lo + 1);
    assert x[lo + 1] ==> AnyIn(x, lo + 1, lo + 2);
  }

  lemma {:induction false} MinFinds(n: Node, x: Word, lo: nat)
    requires At(n, |x|, lo)
    ensures Pow2(n.k) >= 2 && IsBottom(x, lo, lo + Pow2(n.k), n.Min(x))
    decreases n.k
  {
    hide Node.L, Node.H, NonZero, BitAnd, AnyIn, IsBottom;
    var c := n.ChildBit();
    TestsOfNode(n, x, lo);
    if n.k == 1 {
      assert Pow2(n.k) == 2 && c == 1;
      hide Pow2;
      BottomOfTwo(x, lo);
    } else {
      assert c >= 2;
      ChildrenAt(n, |x|, lo);
      hide At, Pow2;
      if AnyIn(x, lo, lo + c) {
        MinFinds(n.ChildL(), x, lo);
        BottomOfHalves(x, lo, c, n.ChildL().Min(x));
      } else {
        MinFinds(n.ChildH(), x, lo + c);
        BottomOfHalves(x, lo, c, n.ChildH().Min(x));
      }
    }
  }

  // ----- as numbers -----

  function Number(x: Word): nat
  {
    if x == [] then 0 else (if x[0] then 1 else 0) + 2 * Number(x[1..])
  }

  /** Bits above the width of the type are clear. */
  predicate Fits(x: Word, k: nat)
  {
    Pow2(k) <= |x| && forall i :: Pow2(k) <= i < |x| ==> !x[i]
  }

  lemma {:induction false} NumberBetween(x: Word, r: nat)
    requires r <= |x| && (r > 0 ==> x[r - 1]) && forall i :: r <= i < |x| ==> !x[i]
    ensures if r == 0 then Number(x) == 0 else Pow2(r - 1) <= Number(x) < Pow2(r)
    decreases |x|
  {
    if x != [] {
      NumberBetween(x[1..], if r == 0 then 0 else r - 1);
    }
  }

  /** For every unsigned type of 2^k bits, `max` is the bit length: zero for zero, otherwise the `r`
      such that the number lies between 2^(r-1) and 2^r. */
  lemma MaxIsBitLength(x: Word, k: nat)
    requires k >= 1 && Fits(x, k)
    ensures var r := Root(|x|, k).Max(x);
            if r == 0 then Number(x) == 0 else Pow2(r - 1) <= Number(x) < Pow2(r)
  {
    hide Node.Max, Node.L, Node.H;
    RootIsAt(|x|, k);
    MaxFinds(Root(|x|, k), x, 0);
    NumberBetween(x, Root(|x|, k).Max(x));
  }

  lemma {:induction false} NumberOfLow(x: Word, r: nat)
    requires 1 <= r <= |x| && x[r - 1] && forall i :: 0 <= i < r - 1 ==> !x[i]
    ensures Number(x) == Pow2(r - 1) * (1 + 2 * Number(x[r..]))
    decreases r
  {
    if r > 1 {
      NumberOfLow(x[1..], r - 1);
      assert x[1..][r - 1..] == x[r..];
      assert Pow2(r - 1) == 2 * Pow2(r - 2);
      var p, m := Pow2(r - 2), 1 + 2 * Number(x[r..]);
      assert (2 * p) * m == 2 * (p * m);
    }
  }

  lemma {:induction false} NumberOfNone(x: Word)
    ensures Number(x) == 0 <==> !AnyIn(x, 0, |x|)
  {
    if x != [] {
      NumberOfNone(x[1..]);
      assert forall i :: 1 <= i < |x| ==> x[i] == x[1..][i - 1];
      if AnyIn(x[1..], 0, |x| - 1) {
        var i :| 0 <= i < |x| - 1 && x[1..][i];
        assert x[i + 1];
      }
    }
  }

  /** `min` of a number that is not zero is the `r` such that the number is 2^(r-1) times an odd
      number; `min` of zero is two less than the number of bits. */
  lemma MinIsLowestBit(x: Word, k: nat) returns (odd: nat)
    requires k >= 1 && Fits(x, k)
    ensures var r := Root(|x|, k).Min(x);
            if Number(x) == 0 then r == Pow2(k) - 2
            else r >= 1 && Number(x) == Pow2(r - 1) * (1 + 2 * odd)
  {
    hide Node.Min, Node.L, Node.H;
    RootIsAt(|x|, k);
    MinFinds(Root(|x|, k), x, 0);
    var r := Root(|x|, k).Min(x);
    NumberOfNone(x);
    odd := 0;
    if AnyIn(x, 0, Pow2(k)) {
      NumberOfLow(x, r);
      odd := Number(x[r..]);
    }
  }

  /** The macro of matching width computes `max`. */
  lemma FastMaxIsMax(x: Word, n: Node)
    requires 1 <= n.k <= 6 && |x| == |n.self|
    ensures n.k == 1 ==> FastMax2(x, n) == n.Max(x)
    ensures n.k == 2 ==> FastMax4(x, n) == n.Max(x)
    ensures n.k == 3 ==> FastMax8(x, n) == n.Max(x)
    ensures n.k == 4 ==> FastMax16(x, n) == n.Max(x)
    ensures n.k == 5 ==> FastMax32(x, n) == n.Max(x)
    ensures n.k == 6 ==> FastMax64(x, n) == n.Max(x)
    decreases n.k
  {
    hide Node.L, Node.H, NonZero;
    if n.k >= 2 {
      FastMaxIsMax(x, n.ChildL());
      FastMaxIsMax(x, n.ChildH());
    }
  }
}
