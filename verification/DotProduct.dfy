/**
 The blocked dot product of the benchmark, over exact arithmetic: four partial sums in the lanes of a
 256-bit vector, a horizontal reduction, and a scalar loop for what does not fill a block.
 */
module DotProduct {
  import opened Arithmetic

  /** A 256-bit vector of four doubles, and its 128-bit half. */
  datatype Vec4 = Vec4(l0: real, l1: real, l2: real, l3: real)
  datatype Vec2 = Vec2(l0: real, l1: real)

  /** Horizontal add works within each 128-bit half. */
  function HorizontalAdd(x: Vec4, y: Vec4): Vec4 {
    Vec4(x.l0 + x.l1, y.l0 + y.l1, x.l2 + x.l3, y.l2 + y.l3)
  }

  function Add4(x: Vec4, y: Vec4): Vec4 { Vec4(x.l0 + y.l0, x.l1 + y.l1, x.l2 + y.l2, x.l3 + y.l3) }
  function Mul4(x: Vec4, y: Vec4): Vec4 { Vec4(x.l0 * y.l0, x.l1 * y.l1, x.l2 * y.l2, x.l3 * y.l3) }
  function Add2(x: Vec2, y: Vec2): Vec2 { Vec2(x.l0 + y.l0, x.l1 + y.l1) }
  function HighHalf(x: Vec4): Vec2 { Vec2(x.l2, x.l3) }
  function LowHalf(x: Vec4): Vec2 { Vec2(x.l0, x.l1) }

  function Load(p: seq<real>, at: nat): Vec4
    requires at + 4 <= |p|
  {
    Vec4(p[at], p[at + 1], p[at + 2], p[at + 3])
  }

  function Total(v: Vec4): real { v.l0 + v.l1 + v.l2 + v.l3 }

  function ReduceVector1(input: Vec4): (r: real)
    ensures r == Total(input)
  {
    var temp := HorizontalAdd(input, input);
    temp.l0 + temp.l2
  }

  function ReduceVector2(input: Vec4): (r: real)
    ensures r == Total(input)
  {
    var temp := HorizontalAdd(input, input);
    Add2(HighHalf(temp), LowHalf(temp)).l0
  }

  /** The remainder of the truncating division. */
  function TruncMod(n: int, d: int): int
    requires d > 0
  {
    n - d * TruncDiv(n, d)
  }

  /** The plain sum of products over lo..hi-1. */
  function Dot(a: seq<real>, b: seq<real>, lo: nat, hi: nat): real
    requires lo <= hi <= |a| && hi <= |b|
    decreases hi
  {
    if lo == hi then 0.0 else Dot(a, b, lo, hi - 1) + a[hi - 1] * b[hi - 1]
  }

  lemma {:induction false} DotSplit(a: seq<real>, b: seq<real>, lo: nat, mid: nat, hi: nat)
    requires lo <= mid <= hi <= |a| && hi <= |b|
    ensures Dot(a, b, lo, hi) == Dot(a, b, lo, mid) + Dot(a, b, mid, hi)
    decreases hi
  {
    if mid < hi {
      DotSplit(a, b, lo, mid, hi - 1);
    }
  }

  /** Either reducer, for the partial sums of any number of blocks. */
  method DotProduct(a: seq<real>, b: seq<real>, n: int, reduce: Vec4 -> real) returns (result: real)
    requires n <= |a| && n <= |b|
    requires reduce == ReduceVector1 || reduce == ReduceVector2
    ensures result == if n <= 0 then 0.0 else Dot(a, b, 0, n)
  {
    var sum := Vec4(0.0, 0.0, 0.0, 0.0);
    var block := 0;
    while block < TruncDiv(n, 4)
      invariant 0 <= block && (block == 0 || 4 * block <= n)
      invariant n >= 0 ==> 4 * block <= n && block <= TruncDiv(n, 4) && Total(sum) == Dot(a, b, 0, 4 * block)
      invariant n < 0 ==> block == 0 && Total(sum) == 0.0
      decreases TruncDiv(n, 4) - block
    {
      sum := Accumulate(a, b, block, sum);
      block := block + 1;
    }
    var tail := 0.0;
    ghost var start := n - TruncMod(n, 4);
    var i := n - TruncMod(n, 4);
    while i < n
      invariant n >= 0 ==> 0 <= start <= i <= n && tail == Dot(a, b, start, i)
      invariant n < 0 ==> i >= n && tail == 0.0
      decreases n - i
    {
      tail := tail + a[i] * b[i];
      i := i + 1;
    }
    if n > 0 {
      DotSplit(a, b, 0, start, n);
    }
    assert reduce(sum) == Total(sum) by {
      assert ReduceVector1(sum) == Total(sum) == ReduceVector2(sum);
    }
    result := reduce(sum) + tail;
  }

  /** One block: the lane sums together grow by the block's part of the plain sum. */
  function Accumulate(a: seq<real>, b: seq<real>, block: nat, sum: Vec4): (r: Vec4)
    requires 4 * block + 4 <= |a| && 4 * block + 4 <= |b|
    ensures Total(sum) == Dot(a, b, 0, 4 * block) ==> Total(r) == Dot(a, b, 0, 4 * (block + 1))
  {
    var k := 4 * block;
    assert Dot(a, b, 0, k + 4) == Dot(a, b, 0, k) + a[k] * b[k] + a[k + 1] * b[k + 1] + a[k + 2] * b[k + 2] + a[k + 3] * b[k + 3] by {
      assert Dot(a, b, 0, k + 2) == Dot(a, b, 0, k + 1) + a[k + 1] * b[k + 1];
      assert Dot(a, b, 0, k + 3) == Dot(a, b, 0, k + 2) + a[k + 2] * b[k + 2];
      assert Dot(a, b, 0, k + 4) == Dot(a, b, 0, k + 3) + a[k + 3] * b[k + 3];
    }
    Add4(sum, Mul4(Load(a, k), Load(b, k)))
  }
}
