/** Facts about quotients and remainders by a variable, proved once so that no other proof needs them inline. */
module Arith {
  function Pow2(n: nat): (p: nat)
    ensures p > 0
  {
    if n == 0 then 1 else 2 * Pow2(n - 1)
  }

  lemma ModStep(n: nat, r: nat)
    requires r > 0
    ensures (n + 1) % r == if n % r + 1 == r then 0 else n % r + 1
  {
    var q, k := n / r, n % r;
    assert n + 1 == q * r + (k + 1);
    if k + 1 == r {
      assert n + 1 == (q + 1) * r;
      DivUnique(n + 1, r, q + 1, 0);
    } else {
      DivUnique(n + 1, r, q, k + 1);
    }
  }

  lemma DivUnique(n: int, r: nat, q: int, k: nat)
    requires r > 0 && k < r && n == q * r + k
    ensures n % r == k && n / r == q
  {
    MultipleNearZero(n / r - q, r, k - n % r) by {
      assert n == (n / r) * r + n % r;
      assert (n / r - q) * r == (n / r) * r - q * r;
    }
  }

  /** The only multiple of r strictly between -r and r is 0. */
  lemma MultipleNearZero(d: int, r: int, k: int)
    requires d * r == k && -r < k < r
    ensures d == 0
  {
  }

  lemma ModDrop(n: nat, r: nat)
    requires 0 < r <= n
    ensures (n - r) % r == n % r
  {
    var q, k := (n - r) / r, (n - r) % r;
    assert n == (q + 1) * r + k by { assert n - r == q * r + k; assert (q + 1) * r == q * r + r; }
    DivUnique(n, r, q + 1, k);
  }

  lemma DivDiv(v: nat, p: nat)
    requires p > 0
    ensures (v / 256) / p == v / (256 * p)
  {
    var q := (v / 256) / p;
    var a, b := v % 256, (v / 256) % p;
    assert v == 256 * (q * p + b) + a;
    assert 256 * b + a < 256 * p;
    DivUnique(v, 256 * p, q, 256 * b + a) by { assert 256 * (q * p + b) + a == q * (256 * p) + (256 * b + a); }
  }

  /** Filling n up to a multiple of r. */
  lemma FillUp(n: nat, r: nat)
    requires r > 0
    ensures (n + (r - n % r) % r) % r == 0
  {
    var q, k := n / r, n % r;
    if k == 0 {
      DivUnique(r, r, 1, 0);
    } else {
      DivUnique(r - k, r, 0, r - k);
      assert n + (r - k) == (q + 1) * r by { assert n == q * r + k; assert (q + 1) * r == q * r + r; }
      DivUnique(n + (r - k), r, q + 1, 0);
    }
  }

  lemma ModSum(a: nat, b: nat, r: nat)
    requires r > 0 && a % r == 0
    ensures (a + b) % r == b % r
  {
    assert a + b == (a / r + b / r) * r + b % r by {
      assert a == (a / r) * r && b == (b / r) * r + b % r;
      assert (a / r + b / r) * r == (a / r) * r + (b / r) * r;
    }
    DivUnique(a + b, r, a / r + b / r, b % r);
  }

  lemma Regroup(c: int, q: int, b: int)
    ensures c * (q * 256 + b) == q * (c * 256) + c * b
  {
  }

  lemma Bounded(c: int, b: int)
    requires c > 0 && 0 <= b <= 255
    ensures 0 <= c * b <= c * 255
  {
  }

  lemma Remainder(v: nat, c: nat)
    requires c > 0
    ensures v / c >= 0 && v == c * (v / c) + v % c && v % c < c
  {
  }

  lemma DivAgain(v: nat, c: nat)
    requires c > 0
    ensures (v / c) / 256 == v / (c * 256)
  {
    Remainder(v, c);
    var x, a := v / c, v % c;
    var q, b := x / 256, x % 256;
    Regroup(c, q, b);
    Bounded(c, b);
    DivUnique(v, c * 256, q, c * b + a);
  }
}
