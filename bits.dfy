/** Partition arithmetic: the worker count is a power of two, and for such a
    count the source's `key & mask` selects the same partition as `key % (mask + 1)`. */
module Bits {

  /** `1 << k`. */
  function Pow2(k: nat): (p: nat)
    ensures p >= 1
  {
    if k == 0 then 1 else 2 * Pow2(k - 1)
  }

  predicate IsPow2(p: nat) {
    p == 1 || (p >= 2 && p % 2 == 0 && IsPow2(p / 2))
  }

  lemma {:induction false} Pow2IsPow2(k: nat)
    ensures IsPow2(Pow2(k))
  {
    if k > 0 {
      Pow2IsPow2(k - 1);
      assert Pow2(k) / 2 == Pow2(k - 1);
    }
  }

  /** Java's `a & b` on non-negative ints, bit by bit from the least significant one. */
  function BitAnd(a: nat, b: nat): nat {
    if a == 0 || b == 0 then 0
    else 2 * BitAnd(a / 2, b / 2) + (if a % 2 == 1 && b % 2 == 1 then 1 else 0)
  }

  lemma MulAtLeast(p: nat, d: int)
    requires d >= 1
    ensures p * d >= p
  {
  }

  lemma ModFromParts(k: nat, p: nat, q: int, r: int)
    requires p > 0 && k == p * q + r && 0 <= r < p
    ensures k % p == r && k / p == q
  {
    var q', r' := k / p, k % p;
    assert p * q' + r' == p * q + r;
    assert p * (q - q') == r' - r;
    if q > q' {
      MulAtLeast(p, q - q');
    } else if q < q' {
      MulAtLeast(p, q' - q);
    }
  }

  /** One halving step of the worker-count loop keeps `x` within the block of
      the doubled power of two. */
  lemma HalveStep(w: nat, n: nat, x: nat)
    requires w * n <= x < w * (n + 1)
    ensures (2 * w) * (n / 2) <= x < (2 * w) * (n / 2 + 1)
  {
    var m, e := n / 2, n % 2;
    assert n == 2 * m + e;
    assert w * n == (2 * w) * m + w * e;
    assert w * (n + 1) == (2 * w) * m + w * e + w;
    assert (2 * w) * (m + 1) == (2 * w) * m + 2 * w;
  }

  lemma DivMod(a: nat, h: nat)
    requires h > 0
    ensures a == h * (a / h) + a % h && 0 <= a % h < h
  {
  }

  lemma RegroupHalves(k: nat, h: nat)
    requires h > 0
    ensures k == (2 * h) * ((k / 2) / h) + (2 * ((k / 2) % h) + k % 2)
    ensures 2 * ((k / 2) % h) + k % 2 < 2 * h
  {
    var q, r1, r0 := (k / 2) / h, (k / 2) % h, k % 2;
    DivMod(k / 2, h);
    assert k == 2 * (k / 2) + r0;
    assert 2 * (h * q) == (2 * h) * q;
  }

  /** For a power of two `p`, masking with `p - 1` keeps the remainder modulo `p`. */
  lemma {:induction false} BitAndLowMask(k: nat, p: nat)
    requires IsPow2(p)
    ensures BitAnd(k, p - 1) == k % p
    decreases p
  {
    if p == 1 {
      assert BitAnd(k, 0) == 0;
    } else if k == 0 {
    } else {
      var h := p / 2;
      assert IsPow2(h);
      assert p == 2 * h;
      assert (p - 1) / 2 == h - 1 && (p - 1) % 2 == 1;
      BitAndLowMask(k / 2, h);
      assert BitAnd(k, p - 1) == 2 * BitAnd(k / 2, h - 1) + k % 2;
      // k == 2 * (k / 2) + k % 2 and k / 2 == h * ((k / 2) / h) + (k / 2) % h
      RegroupHalves(k, h);
      ModFromParts(k, p, (k / 2) / h, 2 * ((k / 2) % h) + k % 2);
    }
  }

  /** A power of two divides every larger power of two. */
  lemma {:induction false} Pow2Divides(p: nat, q: nat)
    requires IsPow2(p) && IsPow2(q) && p <= q
    ensures q % p == 0 && q == p * (q / p)
    decreases p
  {
    if p == 1 {
    } else {
      assert q != 1;
      Pow2Divides(p / 2, q / 2);
      var k := (q / 2) / (p / 2);
      assert q == p * k by {
        assert q / 2 == (p / 2) * k;
        assert q == 2 * (q / 2) && p == 2 * (p / 2);
        assert 2 * ((p / 2) * k) == (2 * (p / 2)) * k;
      }
      ModFromParts(q, p, k, 0);
    }
  }

  /** The worker count of the table's constructor: halve the processor count at
      most five times, stopping when it reaches zero, and take two to the number
      of halvings that left it positive. */
  method WorkerCount(processors: nat) returns (count: nat)
    ensures IsPow2(count) && 1 <= count <= 32
    ensures processors >= 1 ==> count <= processors
    ensures count == 32 || processors < 2 * count
    ensures processors <= 1 ==> count == 1
  {
    var n := processors;
    var i := 0;
    while i < 5
      invariant 0 <= i <= 5
      invariant Pow2(i) * n <= processors < Pow2(i) * (n + 1)
      invariant i > 0 ==> n >= 1 && 2 <= Pow2(i) <= processors
    {
      HalveStep(Pow2(i), n, processors);
      n := n / 2;
      if n == 0 {
        break;
      }
      MulAtLeast(Pow2(i + 1), n);
      i := i + 1;
    }
    count := Pow2(i);
    Pow2IsPow2(i);
    Pow2Monotone(i, 5);
  }

  lemma {:induction false} Pow2Monotone(i: nat, j: nat)
    requires i <= j
    ensures Pow2(i) <= Pow2(j)
    decreases j
  {
    if i < j {
      Pow2Monotone(i, j - 1);
    }
  }

  /** `b * p` for `b >= 0`, as repeated addition: the partition's invariants use
      it so that the solver sees the key of a bucket as a linear term. */
  function Scaled(b: int, p: int): int
    decreases if b < 0 then 0 else b
  {
    if b <= 0 then 0 else Scaled(b - 1, p) + p
  }

  lemma {:induction false} ScaledIsProduct(b: int, p: int)
    requires b >= 0
    ensures Scaled(b, p) == b * p
    decreases b
  {
    if b > 0 {
      ScaledIsProduct(b - 1, p);
      assert (b - 1) * p + p == b * p;
    }
  }

  /** Keys written as `bucket * p + offset` with offsets below `p` compare like
      (bucket, offset) pairs. */
  lemma KeyOrder(b: int, i: int, q: int, r: int, p: int)
    requires p > 0 && 0 <= i < p && 0 <= r < p
    ensures b * p + i > q * p + r <==> (b > q || (b == q && i > r))
    ensures b * p + i < q * p + r <==> (b < q || (b == q && i < r))
  {
    if b > q {
      assert b * p >= (q + 1) * p by { MulLeft(q + 1, b, p); }
    } else if b < q {
      assert (b + 1) * p <= q * p by { MulLeft(b + 1, q, p); }
    }
  }

  /** The first block whose key `b * p + i` exceeds `t >= 0` is `t / p` when the
      offset `i` exceeds `t`'s own offset, else the one after it. */
  lemma FirstBlockAbove(b: int, i: int, t: int, p: int)
    requires p > 0 && 0 <= i < p && t >= 0
    ensures b >= (if i > t % p then t / p else t / p + 1) <==> b * p + i > t
  {
    assert t == (t / p) * p + t % p;
    KeyOrder(b, i, t / p, t % p, p);
  }

  /** The first block `start` whose key `Scaled(b, p) + i` exceeds `t`, as the
      partition's threshold scan computes it. */
  lemma FirstScaledAbove(t: int, p: int, i: int, start: int, b: int)
    requires p > 0 && 0 <= i < p && b >= 0
    requires t >= 0 ==> start == (if i > t % p then t / p else t / p + 1)
    requires t < 0 ==> start == 0
    ensures start >= 0
    ensures b >= start <==> Scaled(b, p) + i > t
  {
    ScaledIsProduct(b, p);
    if t >= 0 {
      FirstBlockAbove(b, i, t, p);
    } else {
      MulLeft(0, b, p);
    }
  }

  /** The last block `end` whose key `Scaled(b, p) + i` is below `t >= 0`, as
      the partition's update scan computes it. */
  lemma LastScaledBelow(t: int, p: int, i: int, end: int, b: int)
    requires p > 0 && 0 <= i < p && b >= 0 && t >= 0
    requires end == (if i < t % p then t / p else t / p - 1)
    ensures end >= -1
    ensures b <= end <==> Scaled(b, p) + i < t
  {
    ScaledIsProduct(b, p);
    assert t == (t / p) * p + t % p;
    KeyOrder(b, i, t / p, t % p, p);
  }

  /** The last block the partition's update scan reaches for a threshold
      `t >= 0`, as the source computes it: the block of `t`, or the one before
      when that block's key `Scaled(b, p) + i` is not below `t`. Nothing bounds
      it by the number of blocks. */
  function LastBlockBelow(t: int, p: int, i: int): int
    requires p > 0 && 0 <= i < p && t >= 0
  {
    if i < t % p then t / p else t / p - 1
  }

  /** With `nb` blocks, the source's last block lies past the final one
      exactly when `t` exceeds the key one block beyond the end. */
  lemma LastBlockPastEnd(t: int, p: int, i: int, nb: nat)
    requires p > 0 && 0 <= i < p && t >= 0
    ensures LastBlockBelow(t, p, i) >= nb <==> Scaled(nb, p) + i < t
  {
    LastScaledBelow(t, p, i, LastBlockBelow(t, p, i), nb);
  }

  /** `LastBlockBelow` clamped to the last of `nb` blocks. */
  function ClampedLastBlock(t: int, p: int, i: int, nb: nat): (end: int)
    requires p > 0 && 0 <= i < p && t >= 0
    ensures -1 <= end < nb
  {
    var end := LastBlockBelow(t, p, i);
    if end < nb then end else nb - 1
  }

  /** For every threshold `t >= 0`, the clamped scan reaches exactly the
      blocks whose key is below `t`. */
  lemma ClampedLastBlockOrder(t: int, p: int, i: int, nb: nat, b: int)
    requires p > 0 && 0 <= i < p && t >= 0 && 0 <= b < nb
    ensures b <= ClampedLastBlock(t, p, i, nb) <==> Scaled(b, p) + i < t
  {
    LastScaledBelow(t, p, i, LastBlockBelow(t, p, i), b);
  }

  lemma MulLeft(a: int, c: int, p: nat)
    requires a <= c
    ensures a * p <= c * p
  {
    assert c * p - a * p == (c - a) * p;
  }
}
