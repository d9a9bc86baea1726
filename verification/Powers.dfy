// Powers of two and whole logarithms.
module Powers {
  function Pow2(n: nat): (p: nat)
    ensures p > 0
  {
    if n == 0 then 1 else 2 * Pow2(n - 1)
  }

  lemma {:induction false} Pow2Monotone(a: nat, b: nat)
    requires a <= b
    ensures Pow2(a) <= Pow2(b)
    decreases b
  {
    if a < b {
      Pow2Monotone(a, b - 1);
    }
  }

  lemma {:induction false} Pow2Product(m: nat, n: nat)
    ensures Pow2(m + n) == Pow2(m) * Pow2(n)
  {
    if m > 0 {
      Pow2Product(m - 1, n);
    }
  }

  // The whole part of lg n, and 0 for n = 0.
  function Log2(n: nat): nat {
    if n < 2 then 0 else 1 + Log2(n / 2)
  }

  lemma {:induction false} Log2Bounds(n: nat)
    requires n > 0
    ensures Pow2(Log2(n)) <= n < 2 * Pow2(Log2(n))
  {
    if n >= 2 {
      Log2Bounds(n / 2);
    }
  }

  lemma {:induction false} Log2Monotone(m: nat, n: nat)
    requires m <= n
    ensures Log2(m) <= Log2(n)
  {
    if n >= 2 && m >= 2 {
      Log2Monotone(m / 2, n / 2);
    }
  }

  // Of two parts of a whole, at most one is as large as the whole up to a factor of two.
  lemma Log2Parts(x: nat, y: nat, z: nat)
    requires x > 0 && y > 0 && x + y <= z
    ensures Log2(x) + Log2(y) <= 2 * Log2(z) - 1
  {
    Log2Monotone(x, z);
    Log2Monotone(y, z);
    if Log2(x) == Log2(z) && Log2(y) == Log2(z) {
      Log2Bounds(x);
      Log2Bounds(y);
      Log2Bounds(z);
    }
  }
}
