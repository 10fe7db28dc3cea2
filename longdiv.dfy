/** Facts about binary long division shared by the two 64-bit division
    routines: bits of a number, shifting by powers of two, and one step of
    the restoring division. */
module LongDivision {
  import opened Bytes

  /** Bit `i` of `n` */
  function Bit(n: nat, i: nat): (r: nat)
    ensures r < 2
  {
    (n / Pow2(i)) % 2
  }

  /** Dividing by `a` and then by `b` is dividing by `a * b`. */
  lemma DivDiv(n: int, a: nat, b: nat)
    requires a > 0 && b > 0
    ensures n / a / b == n / (a * b)
  {
    var m, s := n / a, n % a;
    var q, r := m / b, m % b;
    Split(n, a);
    Split(m, b);
    Recombine(n, a, b, m, s, q, r);
    ModUnique(n, a * b, q, a * r + s);
  }

  /** Two Euclidean divisions in a row, put back together as one by the
      product of the divisors. */
  lemma Recombine(n: int, a: nat, b: nat, m: int, s: int, q: int, r: int)
    requires a > 0 && b > 0
    requires n == a * m + s && 0 <= s < a && m == b * q + r && 0 <= r < b
    ensures n == (a * b) * q + (a * r + s) && 0 <= a * r + s < a * b
  {
    assert a * m == (a * b) * q + a * r;
    MulLe(a, r, b - 1);
    assert a * (b - 1) == a * b - a;
  }

  lemma MulLe(a: nat, x: nat, y: nat)
    requires x <= y
    ensures a * x <= a * y
  {
  }

  /** A quotient of naturals is a natural. Stated on its own so that
      callers passing a quotient where a `nat` is expected need not make
      the solver find it among nonlinear terms. */
  lemma DivNonNeg(n: nat, p: nat)
    requires p > 0
    ensures n / p >= 0 && n % p >= 0
  {
  }

  /** A number is its quotient times the divisor plus its remainder. */
  lemma Split(x: int, d: nat)
    requires d > 0
    ensures x == d * (x / d) + x % d
  {
  }

  /** `x >> n` on a natural number. */
  function Shr(x: nat, n: nat): nat
  {
    DivNonNeg(x, Pow2(n));
    x / Pow2(n)
  }

  /** The bits shifted out and the bits kept make up the number. */
  lemma ShrSplit(x: nat, n: nat)
    ensures x == Pow2(n) * Shr(x, n) + x % Pow2(n)
  {
    Split(x, Pow2(n));
  }

  /** A remainder never exceeds the number divided. */
  lemma ModLe(y: nat, d: nat)
    requires d > 0
    ensures y % d <= y
  {
    if y >= d {
      assert y % d < d;
    } else {
      ModUnique(y, d, 0, y);
    }
  }

  /** Rounding down to a multiple of `p` never exceeds the number. */
  lemma DivMulLe(n: nat, p: nat)
    requires p > 0
    ensures (n / p) * p <= n
  {
    assert n == p * (n / p) + n % p;
  }

  /** A quotient never exceeds the number divided. */
  lemma DivLe(x: nat, d: nat)
    requires d > 0
    ensures x / d <= x
  {
    assert x == d * (x / d) + x % d;
    MulLe(x / d, 1, d);
  }

  /** `v % (p * q)` splits into the low part and the next `q` digits. */
  lemma ModMul(v: int, p: nat, q: nat)
    requires p > 0 && q > 0
    ensures v % (p * q) == v % p + p * ((v / p) % q)
  {
    var k := v / p / q;
    var r := v % p + p * ((v / p) % q);
    assert v / p == q * k + (v / p) % q;
    assert v == p * (v / p) + v % p;
    assert v == (p * q) * k + r by {
      assert p * (q * k + (v / p) % q) == (p * q) * k + p * ((v / p) % q);
    }
    assert p * ((v / p) % q) <= p * (q - 1) by { MulLe(p, (v / p) % q, q - 1); }
    assert p * (q - 1) == p * q - p;
    ModUnique(v, p * q, k, r);
  }

  /** Reducing modulo `p * q` and then modulo `p` is reducing modulo `p`. */
  lemma ModOfMod(u: int, p: nat, q: nat)
    requires p > 0 && q > 0
    ensures (u % (p * q)) % p == u % p
  {
    ModMul(u, p, q);
    ModUnique(u % (p * q), p, (u / p) % q, u % p);
  }

  /** Adding a multiple of `p` moves the quotient and keeps the remainder. */
  lemma DivAdd(x: int, y: int, p: nat)
    requires p > 0
    ensures (x * p + y) / p == x + y / p && (x * p + y) % p == y % p
  {
    assert y == p * (y / p) + y % p;
    assert x * p + y == p * (x + y / p) + y % p;
    ModUnique(x * p + y, p, x + y / p, y % p);
  }

  /** The quotient by `2^i` is twice the quotient by `2^(i+1)` plus bit `i`. */
  lemma DivPow2Step(n: nat, i: nat)
    ensures n / Pow2(i) == 2 * (n / Pow2(i + 1)) + Bit(n, i)
  {
    DivDiv(n, Pow2(i), 2);
    assert Pow2(i + 1) == Pow2(i) * 2;
  }

  /** Each power of two is twice the one before. */
  lemma Pow2Succ(k: nat)
    ensures Pow2(k + 1) == 2 * Pow2(k) && Pow2(1) == 2
  {
  }

  /** Powers of two grow with the exponent. */
  lemma Pow2Mono(a: nat, b: nat)
    requires a <= b
    ensures Pow2(a) <= Pow2(b)
  {
    Pow2Add(a, b - a);
    MulLe(Pow2(a), 1, Pow2(b - a));
  }

  /** A number below `2^m`, divided by `2^i`, is below `2^(m-i)`. */
  lemma ShiftedBelow(n: nat, m: nat, i: nat)
    requires n < Pow2(m) && i <= m
    ensures n / Pow2(i) < Pow2(m - i)
  {
    Pow2Add(m - i, i);
    DivBelow(n, Pow2(i), Pow2(m - i));
  }

  /** A number below `k * p` has a quotient by `p` below `k`. */
  lemma DivBelow(n: nat, p: nat, k: nat)
    requires p > 0 && n < p * k
    ensures n / p < k
  {
    var q := n / p;
    DivMulLe(n, p);
    if q >= k {
      MulLe(p, k, q);
      assert false;
    }
  }

  /** One step of restoring division: appending `bit` to a dividend whose
      quotient and remainder by `d` are known gives the next quotient
      digit by comparing the new partial remainder with `d`. */
  lemma DivStep(y: nat, bit: nat, d: nat)
    requires d > 0 && bit < 2
    ensures var t := 2 * (y % d) + bit;
      (2 * y + bit) / d == 2 * (y / d) + (if t >= d then 1 else 0)
      && (2 * y + bit) % d == t - (if t >= d then d else 0)
  {
    var t := 2 * (y % d) + bit;
    assert y == d * (y / d) + y % d;
    if t >= d {
      ModUnique(2 * y + bit, d, 2 * (y / d) + 1, t - d);
    } else {
      ModUnique(2 * y + bit, d, 2 * (y / d), t);
    }
  }

  /** Multiplying by `q` modulo `p * q` keeps `a % p`, scaled by `q`. */
  lemma MulMod(a: nat, p: nat, q: nat)
    requires p > 0 && q > 0
    ensures (a * q) % (p * q) == (a % p) * q
  {
    var k, t := a / p, a % p;
    assert a * q == (p * q) * k + t * q by {
      assert a == p * k + t;
      assert (p * k + t) * q == (p * q) * k + t * q;
    }
    assert t * q <= (p - 1) * q by { MulLe(q, t, p - 1); }
    assert (p - 1) * q == p * q - q;
    ModUnique(a * q, p * q, k, t * q);
  }

  /** Multiplying by `2^m` modulo `2^w` keeps the low `w - m` bits, moved up. */
  lemma ShlMod(a: nat, m: nat, w: nat)
    requires m <= w
    ensures (a * Pow2(m)) % Pow2(w) == (a % Pow2(w - m)) * Pow2(m)
  {
    Pow2Add(w - m, m);
    MulMod(a, Pow2(w - m), Pow2(m));
  }
}
