/** Powers of two and the few non-linear facts the other modules lean on. */
module Arith {

  function Pow2(n: nat): (p: nat)
    ensures p > 0
  {
    if n == 0 then 1 else 2 * Pow2(n - 1)
  }

  lemma {:induction false} Pow2Add(m: nat, n: nat)
    ensures Pow2(m + n) == Pow2(m) * Pow2(n)
  {
    if m == 0 {
    } else {
      Pow2Add(m - 1, n);
      MulAssoc(2, Pow2(m - 1), Pow2(n));
    }
  }

  lemma {:induction false} Pow2Monotone(m: nat, n: nat)
    requires m <= n
    ensures Pow2(m) <= Pow2(n)
    decreases n - m
  {
    if m < n {
      Pow2Monotone(m + 1, n);
    }
  }

  lemma Pow2Small()
    ensures Pow2(1) == 2 && Pow2(2) == 4
  {
  }

  /** The powers of two that name machine widths. */
  lemma Pow2Literals()
    ensures Pow2(1) == 2 && Pow2(8) == 0x100 && Pow2(16) == 0x1_0000 && Pow2(32) == 0x1_0000_0000
    ensures Pow2(64) == 0x1_0000_0000_0000_0000
    ensures Pow2(128) == 0x1_0000_0000_0000_0000_0000_0000_0000_0000
  {
    hide Pow2;
    Pow2Small();
    Pow2Add(2, 2);
    Pow2Add(4, 4);
    Pow2Add(8, 8);
    Pow2Add(16, 16);
    Pow2Add(32, 32);
    Pow2Add(64, 64);
  }

  /** Floor division of naturals. */
  function Quotient(n: nat, d: nat): (q: nat)
    requires d > 0
    ensures q <= n
  {
    DivLe(n, d);
    n / d
  }

  lemma MulAssoc(a: int, b: int, c: int)
    ensures a * (b * c) == (a * b) * c
  {
  }

  lemma MulLe(a: nat, b: nat, c: nat)
    requires a <= b
    ensures a * c <= b * c
    ensures c * a <= c * b
  {
  }

  lemma CancelLe(a: int, b: int, c: nat)
    requires c > 0 && a * c <= b * c
    ensures a <= b
  {
    if b < a {
      MulLe(1, a - b, c);
    }
  }

  /** The only multiple of d strictly between -d and d is 0. */
  lemma SmallMultiple(k: int, d: int)
    requires -d < k * d < d
    ensures k == 0
  {
  }

  /** Quotient and remainder are the only decomposition with a small remainder. */
  lemma DivModUnique(n: int, d: nat, q: int, r: int)
    requires d > 0 && n == q * d + r && 0 <= r < d
    ensures n / d == q && n % d == r
  {
    DivModUniqueFrom(d, q, r, n / d, n % d);
  }

  lemma DivModUniqueFrom(d: nat, q: int, r: int, q': int, r': int)
    requires d > 0 && q * d + r == q' * d + r' && 0 <= r < d && 0 <= r' < d
    ensures q == q' && r == r'
  {
    assert (q - q') * d == r' - r;
    SmallMultiple(q - q', d);
  }

  lemma ModAddMultiple(n: int, k: int, d: nat)
    requires d > 0
    ensures (n + k * d) % d == n % d
    ensures (n + k * d) / d == n / d + k
  {
    var q, r := n / d, n % d;
    assert n + k * d == (q + k) * d + r;
    DivModUnique(n + k * d, d, q + k, r);
  }

  /** Reducing modulo a multiple first changes nothing. */
  lemma ModMod(n: int, k: nat, d: nat)
    requires d > 0 && k > 0
    ensures k * d > 0
    ensures (n % (k * d)) % d == n % d
  {
    assert k * d > 0;
    var q, r := n / (k * d), n % (k * d);
    assert n == r + (q * k) * d by {
      assert n == q * (k * d) + r;
      MulAssoc(q, k, d);
    }
    ModAddMultiple(r, q * k, d);
  }

  /** Reduction modulo 2^m followed by 2^n, n <= m, is reduction modulo 2^n. */
  lemma ModPow2(x: int, m: nat, n: nat)
    requires n <= m
    ensures (x % Pow2(m)) % Pow2(n) == x % Pow2(n)
  {
    Pow2Add(m - n, n);
    ModMod(x, Pow2(m - n), Pow2(n));
  }

  lemma DivLe(n: nat, d: nat)
    requires d > 0
    ensures 0 <= n / d <= n
    ensures (n / d) * d <= n
  {
    if n / d > n {
      MulLe(1, d, n / d);
    }
  }

  lemma DivDiv(n: nat, a: nat, b: nat)
    requires a > 0 && b > 0
    ensures a * b > 0
    ensures (n / a) / b == n / (a * b)
  {
    var q, r := n / a, n % a;
    var q2, r2 := q / b, q % b;
    assert n == q * a + r && q == q2 * b + r2;
    assert n == q2 * (a * b) + (r2 * a + r) by {
      assert q * a == q2 * b * a + r2 * a;
      assert q2 * b * a == q2 * (a * b);
    }
    assert r2 * a + r < a * b by {
      MulLe(r2, b - 1, a);
      assert (b - 1) * a + a == a * b;
    }
    DivModUnique(n, a * b, q2, r2 * a + r);
  }
}
