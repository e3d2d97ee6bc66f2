/** The bit arithmetic that the hash table leans on: `hashv & (num_buckets - 1)`,
    `num_items >> log2_num_buckets`, and the ceiling computed from the two. */
module Bits {

  function Min(a: nat, b: nat): nat {
    if a < b then a else b
  }

  function Pow2(k: nat): (p: nat)
    ensures p >= 1
  {
    if k == 0 then 1 else 2 * Pow2(k - 1)
  }

  // Bitwise conjunction, bit by bit from the lowest one.
  function And(x: nat, y: nat): (r: nat)
    ensures r <= y
    decreases y
  {
    if y == 0 then 0 else
    (if x % 2 == 1 && y % 2 == 1 then 1 else 0) + 2 * And(x / 2, y / 2)
  }

  function Shr(x: nat, k: nat): nat {
    if k == 0 then x else Shr(x / 2, k - 1)
  }

  // n divided by d, rounded up: how many chunks of at most d make up n.
  function CeilDiv(n: nat, d: nat): nat
    requires d > 0
  {
    if n == 0 then 0 else if n <= d then 1 else 1 + CeilDiv(n - d, d)
  }

  // n divided by d, rounded down.
  function Quot(n: nat, d: nat): nat
    requires d > 0
  {
    if n < d then 0 else 1 + Quot(n - d, d)
  }

  lemma MulMono(a: int, b: int, d: nat)
    requires a <= b
    ensures a * d <= b * d
  {
    assert (b - a) * d == b * d - a * d;
  }

  lemma MulSum(d: nat, a: nat, b: nat)
    ensures d * (a + b) == d * a + d * b
  {
  }

  lemma MulCancel(d: nat, a: nat, b: nat)
    requires d > 0 && d * a <= d * b
    ensures a <= b
  {
    assert (b + 1) * d == d * b + d && a * d == d * a;
    if a > b {
      MulMono(b + 1, a, d);
    }
  }

  lemma DivModUnique(x: nat, d: nat, q: nat, r: nat)
    requires r < d && x == q * d + r
    ensures x / d == q && x % d == r
  {
    var q' := x / d;
    assert x == q' * d + x % d;
    assert (q' + 1) * d == q' * d + d && (q + 1) * d == q * d + d;
    if q' < q {
      MulMono(q' + 1, q, d);
    } else if q < q' {
      MulMono(q + 1, q', d);
    }
  }

  // Halving then reducing mod p is reducing mod 2p, and likewise for the quotient.
  lemma HalveDivMod(x: nat, p: nat)
    requires p > 0
    ensures x / (2 * p) == x / 2 / p
    ensures x % (2 * p) == 2 * (x / 2 % p) + x % 2
  {
    var q, r := x / 2 / p, x / 2 % p;
    assert x / 2 == q * p + r;
    assert x == q * (2 * p) + (2 * r + x % 2) by {
      assert q * (2 * p) == 2 * (q * p);
    }
    DivModUnique(x, 2 * p, q, 2 * r + x % 2);
  }

  // A mask of ones: its lowest bit, and the rest of it.
  lemma MaskStep(x: nat, p: nat)
    requires p > 0
    ensures And(x, 2 * p - 1) == x % 2 + 2 * And(x / 2, p - 1)
  {
    assert (2 * p - 1) / 2 == p - 1 && (2 * p - 1) % 2 == 1;
  }

  lemma {:induction false} MaskIsMod(x: nat, k: nat)
    ensures And(x, Pow2(k) - 1) == x % Pow2(k)
  {
    hide And;
    if k != 0 {
      MaskIsMod(x / 2, k - 1);
      MaskDouble(x, Pow2(k - 1));
    } else {
      NoMask(x);
    }
  }

  lemma MaskDouble(x: nat, p: nat)
    requires p > 0 && And(x / 2, p - 1) == x / 2 % p
    ensures And(x, 2 * p - 1) == x % (2 * p)
  {
    hide And;
    MaskStep(x, p);
    HalveDivMod(x, p);
  }

  lemma NoMask(x: nat)
    ensures And(x, 0) == 0
  {
  }

  lemma {:induction false} ShrIsDiv(x: nat, k: nat)
    ensures Shr(x, k) == x / Pow2(k)
  {
    if k != 0 {
      ShrIsDiv(x / 2, k - 1);
      HalveDivMod(x, Pow2(k - 1));
    }
  }

  // Adding the divisor adds one to the quotient.
  lemma DivStep(n: nat, d: nat)
    requires 0 < d <= n
    ensures n / d == (n - d) / d + 1 && n % d == (n - d) % d
  {
    var q, r := (n - d) / d, (n - d) % d;
    assert n - d == q * d + r;
    assert (q + 1) * d == q * d + d;
    DivModUnique(n, d, q + 1, r);
  }

  lemma {:induction false} QuotIsDiv(n: nat, d: nat)
    requires d > 0
    ensures Quot(n, d) == n / d
  {
    if n >= d {
      QuotIsDiv(n - d, d);
      DivStep(n, d);
    } else {
      DivModUnique(n, d, 0, n);
    }
  }

  lemma {:induction false} CeilDivIsDiv(n: nat, d: nat)
    requires d > 0
    ensures CeilDiv(n, d) == n / d + (if n % d == 0 then 0 else 1)
  {
    if n > d {
      CeilDivIsDiv(n - d, d);
      DivStep(n, d);
    } else if n == d {
      DivModUnique(n, d, 1, 0);
    } else {
      DivModUnique(n, d, 0, n);
    }
  }

  // The header's way of writing ceil(n/b) with a shift and a mask.
  lemma CeilByShiftAndMask(n: nat, k: nat)
    ensures Shr(n, k) + (if And(n, Pow2(k) - 1) != 0 then 1 else 0) == CeilDiv(n, Pow2(k))
  {
    ShrIsDiv(n, k);
    MaskIsMod(n, k);
    CeilDivIsDiv(n, Pow2(k));
  }

  // Widening the mask by one bit keeps the value or adds the new bit.
  lemma WidenMask(x: nat, k: nat)
    ensures And(x, Pow2(k + 1) - 1) == And(x, Pow2(k) - 1)
         || And(x, Pow2(k + 1) - 1) == And(x, Pow2(k) - 1) + Pow2(k)
  {
    MaskIsMod(x, k);
    MaskIsMod(x, k + 1);
    ModDouble(x, Pow2(k));
  }

  lemma Twice(h: nat, p: nat)
    ensures (2 * h) * p == h * (2 * p) && (2 * h + 1) * p == h * (2 * p) + p
  {
  }

  lemma ModDouble(x: nat, p: nat)
    requires p > 0
    ensures x % (2 * p) == x % p || x % (2 * p) == x % p + p
  {
    var q, r := x / p, x % p;
    var h := q / 2;
    assert x == q * p + r;
    Twice(h, p);
    if q == 2 * h {
      DivModUnique(x, 2 * p, h, r);
    } else {
      assert q == 2 * h + 1;
      DivModUnique(x, 2 * p, h, p + r);
    }
  }

  lemma {:induction false} CeilDivBounds(n: nat, d: nat)
    requires d > 0
    ensures n <= CeilDiv(n, d) * d
    ensures n > 0 ==> CeilDiv(n, d) >= 1
  {
    if n > d {
      CeilDivBounds(n - d, d);
      assert (1 + CeilDiv(n - d, d)) * d == d + CeilDiv(n - d, d) * d;
    }
  }

  // The ceiling is the least multiplier whose product covers n.
  lemma {:induction false} CeilDivLeast(n: nat, d: nat, c: nat)
    requires d > 0 && n <= c * d
    ensures CeilDiv(n, d) <= c
  {
    if n > d {
      assert (c - 1) * d == c * d - d;
      assert c > 0;
      CeilDivLeast(n - d, d, c - 1);
    } else if n > 0 {
      assert c > 0;
    }
  }

  lemma {:induction false} QuotBounds(n: nat, d: nat)
    requires d > 0
    ensures Quot(n, d) * d <= n < (Quot(n, d) + 1) * d
  {
    if n >= d {
      QuotBounds(n - d, d);
      var q := Quot(n - d, d);
      assert (1 + q) * d == d + q * d && (1 + q + 1) * d == d + (q + 1) * d;
    }
  }
}
