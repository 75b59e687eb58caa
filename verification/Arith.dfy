/** Powers of two and division with remainder, as far as the models need them. */
module Arith {
  function Pow2(n: nat): nat { if n == 0 then 1 else 2 * Pow2(n - 1) }

  lemma {:induction false} Pow2Monotone(a: nat, b: nat)
    requires a <= b
    ensures Pow2(a) <= Pow2(b)
  {
    if a < b {
      Pow2Monotone(a, b - 1);
    }
  }

  lemma {:induction false} Pow2Sum(a: nat, b: nat)
    ensures Pow2(a + b) == Pow2(a) * Pow2(b)
  {
    if b > 0 {
      Pow2Sum(a, b - 1);
    }
  }

  lemma ModOf(q: nat, r: nat, k: nat)
    requires r < k
    ensures (q * k + r) % k == r
  {
    var x := q * k + r;
    var d := q - x / k;
    assert x == k * (x / k) + x % k;
    assert k * d == x % k - r by { assert k * d == k * q - k * (x / k); }
    MulBound(k, d);
  }

  lemma MulBound(k: int, d: int)
    requires k >= 0
    ensures d >= 1 ==> k * d >= k
    ensures d <= -1 ==> k * d <= -k
  {
    if d >= 1 {
      assert k * d == k + k * (d - 1);
    } else if d <= -1 {
      assert k * d == -k + k * (d + 1);
    }
  }

  function Mod(i: nat, k: nat): nat
    requires k > 0
  {
    i % k
  }

  lemma ModSmall(i: nat, k: nat)
    requires i < k
    ensures Mod(i, k) == i
  {
  }

  lemma ModLess(i: nat, k: nat)
    requires 0 < k <= i
    ensures Mod(i, k) == Mod(i - k, k)
  {
    AddMultiple(i - k, 1, k);
  }

  lemma {:induction false} NextMod(i: nat, k: nat)
    requires k > 0
    ensures Mod(i + 1, k) == if Mod(i, k) + 1 == k then 0 else Mod(i, k) + 1
  {
    hide Mod;
    if i >= k {
      NextMod(i - k, k);
      ModLess(i, k);
      ModLess(i + 1, k);
    } else {
      ModSmall(i, k);
      if i + 1 == k {
        ModLess(i + 1, k);
        ModSmall(0, k);
      } else {
        ModSmall(i + 1, k);
      }
    }
  }

  lemma DivExact(q: nat, n: nat, k: nat)
    requires k > 0 && q * k == n
    ensures n / k == q && n % k == 0
  {
    ModOf(q, 0, k);
  }

  lemma AddMultiple(x: nat, y: nat, k: nat)
    requires k > 0
    ensures (x + y * k) % k == x % k
  {
    var q, r := x / k, x % k;
    assert x + y * k == (q + y) * k + r;
    ModOf(q + y, r, k);
  }

  /** A product may be reduced early. */
  lemma ModMul(a: nat, b: nat, k: nat)
    requires k > 0
    ensures (a % k) * b % k == a * b % k
  {
    var q, r := a / k, a % k;
    assert a * b == r * b + (q * b) * k;
    AddMultiple(r * b, q * b, k);
  }

  /** And so may both factors. */
  lemma ModProduct(a: nat, b: nat, k: nat)
    requires k > 0
    ensures (a % k) * (b % k) % k == a * b % k
  {
    var x, y := a % k, b % k;
    ModMul(b, x, k);
    ModMul(a, b, k);
    Commute(y, x);
    Commute(b, x);
  }

  lemma Commute(a: nat, b: nat)
    ensures a * b == b * a
  {
  }

  lemma Bigger(a: nat, f: nat)
    requires f >= 1
    ensures a <= a * f
  {
    assert a * f == a + a * (f - 1);
  }
}
