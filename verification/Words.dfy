/** Machine-word arithmetic the driver relies on: powers of two, the kernel's ALIGN,
    roundup_pow_of_two and ilog2, and the 32- and 64-bit ranges. */
module Words {
  const U32: nat := 0x1_0000_0000
  const U64: nat := 0x1_0000_0000_0000_0000
  const PAGE: nat := 4096

  function Pow2(k: nat): (p: nat)
    ensures p > 0
  {
    if k == 0 then 1 else 2 * Pow2(k - 1)
  }

  ghost predicate IsPow2(a: nat) {
    exists k: nat :: a == Pow2(k)
  }

  /** `x & ~m` on unsigned words, bit by bit. */
  function AndNot(x: nat, m: nat): (r: nat)
    ensures r <= x
  {
    if x == 0 then 0
    else 2 * AndNot(x / 2, m / 2) + (if x % 2 == 1 && m % 2 == 0 then 1 else 0)
  }

  /** The kernel's ALIGN(x, a) on u64: `(x + a - 1) & ~(a - 1)`. */
  function Align(x: nat, a: nat): (r: nat)
    requires 1 <= a
    ensures r < U64
  {
    AndNot((x + a - 1) % U64, a - 1)
  }

  /** The least multiple of `a` that is not below `x`. */
  function RoundUp(x: nat, a: nat): (r: nat)
    requires 1 <= a
    ensures x <= r < x + a
    ensures r % a == 0
  {
    var q := (x + a - 1) / a;
    FundamentalDivMod(x + a - 1, a);
    MulMod(q, a);
    q * a
  }

  /** The greatest multiple of `a` that is not above `x`. */
  function RoundDown(x: nat, a: nat): (r: nat)
    requires 1 <= a
    ensures r <= x < r + a
    ensures r % a == 0
  {
    FundamentalDivMod(x, a);
    MulMod(x / a, a);
    (x / a) * a
  }

  lemma FundamentalDivMod(x: nat, a: nat)
    requires 1 <= a
    ensures x == (x / a) * a + x % a
  {
  }

  lemma MulMod(q: nat, a: nat)
    requires 1 <= a
    ensures (q * a) % a == 0
    ensures (q * a) / a == q
  {
    DivModUnique(q * a, a, q, 0);
  }

  lemma DivModUnique(x: nat, a: nat, q: nat, r: nat)
    requires 1 <= a && r < a
    requires x == q * a + r
    ensures x / a == q && x % a == r
  {
    var d, m := x / a, x % a;
    FundamentalDivMod(x, a);
    if d < q {
      Distance(d, q, a);
      assert false;
    } else if q < d {
      Distance(q, d, a);
      assert false;
    }
  }

  lemma Distance(p: nat, q: nat, a: nat)
    requires p < q
    ensures p * a + a <= q * a
  {
    assert q * a == p * a + (q - p) * a;
    assert (q - p - 1) * a >= 0;
  }

  /** Two multiples of `a` that are less than `a` apart are ordered as their quotients. */
  lemma MultiplesApart(x: nat, y: nat, a: nat)
    requires 1 <= a
    requires x % a == 0 && y % a == 0 && x < y
    ensures x + a <= y
  {
    FundamentalDivMod(x, a);
    FundamentalDivMod(y, a);
    if x / a < y / a {
      Distance(x / a, y / a, a);
    } else if y / a < x / a {
      Distance(y / a, x / a, a);
      assert false;
    }
  }

  lemma RoundUpLeast(x: nat, a: nat, y: nat)
    requires 1 <= a && x <= y && y % a == 0
    ensures RoundUp(x, a) <= y
  {
    if y < RoundUp(x, a) {
      MultiplesApart(y, RoundUp(x, a), a);
    }
  }

  lemma RoundDownGreatest(x: nat, a: nat, y: nat)
    requires 1 <= a && y <= x && y % a == 0
    ensures y <= RoundDown(x, a)
  {
    if RoundDown(x, a) < y {
      MultiplesApart(RoundDown(x, a), y, a);
    }
  }

  lemma {:induction false} AndNotLowMask(x: nat, k: nat)
    ensures AndNot(x, Pow2(k) - 1) == (x / Pow2(k)) * Pow2(k)
    decreases k
  {
    if k == 0 {
      AndNotZero(x);
    } else if x == 0 {
      assert 0 / Pow2(k) == 0;
    } else {
      var p := Pow2(k - 1);
      AndNotLowMask(x / 2, k - 1);
      assert (Pow2(k) - 1) / 2 == p - 1 && (Pow2(k) - 1) % 2 == 1;
      DivDiv(x, p);
      Doubled(x / 2 / p, p);
    }
  }

  lemma Doubled(q: nat, p: nat)
    ensures 2 * (q * p) == q * (2 * p)
  {
  }

  lemma {:induction false} AndNotZero(x: nat)
    ensures AndNot(x, 0) == x
  {
    if x != 0 {
      AndNotZero(x / 2);
    }
  }

  lemma DivDiv(x: nat, p: nat)
    requires 1 <= p
    ensures x / 2 / p == x / (2 * p)
  {
    var q, r := x / 2 / p, (x / 2) % p;
    assert x / 2 == q * p + r;
    assert q * (2 * p) == 2 * (q * p);
    DivModUnique(x, 2 * p, q, 2 * r + x % 2);
  }

  /** With a power of two and no wrap-around, ALIGN is the round-up it is meant to be. */
  lemma AlignIsRoundUp(x: nat, a: nat)
    requires IsPow2(a)
    requires x + a <= U64
    ensures Align(x, a) == RoundUp(x, a)
  {
    var k: nat :| a == Pow2(k);
    var t := x + a - 1;
    AndNotLowMask(t, k);
    assert t % U64 == t by {
      DivModUnique(t, U64, 0, t);
    }
  }

  /** ALIGN is only a round-up for powers of two: for every other alignment there is a
      page-aligned address that it leaves misaligned. */
  lemma AlignNeedsPow2(a: nat)
    requires 1 <= a && a % PAGE == 0 && 4 * a <= U64
    ensures (forall x: nat | x + a <= U64 && x % PAGE == 0 :: Align(x, a) % a == 0) <==> IsPow2(a)
  {
    if IsPow2(a) {
      forall x: nat | x + a <= U64 && x % PAGE == 0
        ensures Align(x, a) % a == 0
      {
        AlignIsRoundUp(x, a);
      }
    } else {
      var k := Bracket(a);
      var x := Pow2(k + 1);
      assert Pow2(k) != a;
      AndNotAbove(k + 1, a - 1);
      assert Align(x, a) == x;
      PageMultiple(k, a);
      assert x < 2 * a;
      DivModUnique(x, a, 1, x - a);
      assert Align(x, a) % a != 0;
    }
  }

  lemma {:induction false} Bracket(a: nat) returns (k: nat)
    requires 1 <= a
    ensures Pow2(k) <= a < Pow2(k + 1)
  {
    if a == 1 {
      k := 0;
      assert Pow2(1) == 2;
    } else {
      var j := Bracket(a / 2);
      k := j + 1;
    }
  }

  /** `(2^k + m) & ~m` is `2^k` when `m` has no bit at or above `k`. */
  lemma {:induction false} AndNotAbove(k: nat, m: nat)
    requires m < Pow2(k)
    ensures AndNot(Pow2(k) + m, m) == Pow2(k)
  {
    if k == 0 {
      assert AndNot(1, 0) == 1;
    } else {
      AndNotAbove(k - 1, m / 2);
      assert (Pow2(k) + m) / 2 == Pow2(k - 1) + m / 2;
    }
  }

  lemma PageMultiple(k: nat, a: nat)
    requires PAGE <= a < Pow2(k + 1)
    requires Pow2(k) <= a
    ensures Pow2(k + 1) % PAGE == 0
  {
    assert Pow2(12) == PAGE;
    if k + 1 < 12 {
      Pow2Monotone(k + 1, 12);
      assert false;
    }
    Pow2Add(12, k + 1 - 12);
    MulMod(Pow2(k + 1 - 12), PAGE);
  }

  lemma {:induction false} Pow2Monotone(j: nat, k: nat)
    requires j <= k
    ensures Pow2(j) <= Pow2(k)
  {
    if j < k {
      Pow2Monotone(j, k - 1);
    }
  }

  lemma {:induction false} Pow2Add(j: nat, k: nat)
    ensures Pow2(j + k) == Pow2(k) * Pow2(j)
  {
    if k == 0 {
    } else {
      Pow2Add(j, k - 1);
      assert Pow2(j + k) == 2 * (Pow2(k - 1) * Pow2(j));
    }
  }

  /** The kernel's roundup_pow_of_two: the least power of two that is not below `v`. */
  function RoundupPow2(v: nat): (r: nat)
    requires 1 <= v
    ensures v <= r < 2 * v
    ensures IsPow2(r)
  {
    if v == 1 then
      assert Pow2(0) == 1;
      1
    else
      var h := RoundupPow2((v + 1) / 2);
      assert IsPow2(2 * h) by {
        var k: nat :| h == Pow2(k);
        assert Pow2(k + 1) == 2 * h;
      }
      2 * h
  }

  /** The kernel's ilog2. */
  function ILog2(v: nat): (r: nat)
    requires 1 <= v
    ensures Pow2(r) <= v < Pow2(r + 1)
  {
    if v == 1 then
      assert Pow2(1) == 2;
      0
    else
      1 + ILog2(v / 2)
  }
}
