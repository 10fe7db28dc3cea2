/** The 64-bit unsigned division of the third stage (`gcc_arithmetics64.c`
    of TSL): restoring long division, one dividend bit per round. */
module Division64 {
  import opened Bytes
  import opened LongDivision

  /** The partial remainder and quotient after the dividend's bits from 63
      down to `i` have been brought in: the remainder of `n >> i`, and its
      quotient in bits 63 .. i. */
  ghost predicate Round(n: nat, d: nat, i: nat, r: nat, q: nat)
    requires d > 0
  {
    r == (n / Pow2(i)) % d && q == n / Pow2(i) / d * Pow2(i)
  }

  /** The partial remainder, doubled, still fits in the word. */
  lemma DoubleFits(n: nat, w: nat, d: nat, i: nat, r: nat)
    requires d > 0 && i < w && n < Pow2(w) && r == (n / Pow2(i + 1)) % d
    ensures r * 2 < Pow2(w)
  {
    DivNonNeg(n, Pow2(i + 1));
    var y := n / Pow2(i + 1);
    var h := w - (i + 1);
    ShiftedBelow(n, w, i + 1);
    assert y < Pow2(h);
    ModLe(y, d);
    assert r <= y;
    Pow2Succ(h);
    Pow2Mono(h + 1, w);
    assert Pow2(h + 1) <= Pow2(w);
  }

  /** The arithmetic of one round, on plain numbers: `x` is `y` with one
      more bit appended, `r` and `k` are the remainder and quotient of `y`,
      and `q` holds `k` shifted up to weight `2 * p`. */
  lemma Digit(x: nat, y: nat, bit: nat, d: nat, r: nat, k: nat, q: nat, p: nat)
    requires d > 0 && bit < 2 && x == 2 * y + bit
    requires r == y % d && k == y / d && q == k * (2 * p)
    ensures var r1 := 2 * r + bit;
      if r1 >= d then x % d == r1 - d && x / d * p == q + p
      else x % d == r1 && x / d * p == q
  {
    DivStep(y, bit, d);
  }

  /** The partial remainder shifted left with the next dividend bit OR-ed
      in: nothing overflows and the OR adds the bit. */
  lemma ShiftIn(n: nat, w: nat, d: nat, i: nat, r: nat)
    requires d > 0 && i < w && n < Pow2(w) && r == (n / Pow2(i + 1)) % d
    ensures r * 2 + 1 < Pow2(w) && Or(r * 2, Bit(n, i)) == r * 2 + Bit(n, i)
  {
    DoubleFits(n, w, d, i, r);
    Pow2Succ(0);
    OrLow(r, Bit(n, i), 1);
  }

  /** One round keeps `Round`: comparing the new partial remainder with the
      divisor gives the next quotient bit. */
  lemma RoundStep(n: nat, d: nat, i: nat, r: nat, q: nat)
    requires d > 0 && Round(n, d, i + 1, r, q)
    ensures var r1 := r * 2 + Bit(n, i);
      if r1 >= d then Round(n, d, i, r1 - d, q + Pow2(i)) else Round(n, d, i, r1, q)
  {
    DivNonNeg(n, Pow2(i + 1));
    DivNonNeg(n, Pow2(i));
    var y := n / Pow2(i + 1);
    DivNonNeg(y, d);
    Pow2Succ(i);
    DivPow2Step(n, i);
    Digit(n / Pow2(i), y, Bit(n, i), d, r, y / d, q, Pow2(i));
  }

  /** Setting quotient bit `i` adds it, and the quotient stays in the word. */
  lemma SetBit(n: nat, w: nat, d: nat, i: nat, r: nat, q: nat)
    requires d > 0 && n < Pow2(w) && Round(n, d, i + 1, r, q)
    ensures Or(q, Pow2(i)) == q + Pow2(i)
    ensures r * 2 + Bit(n, i) >= d ==> q + Pow2(i) < Pow2(w)
  {
    DivNonNeg(n, Pow2(i + 1));
    var k := n / Pow2(i + 1) / d;
    DivNonNeg(n / Pow2(i + 1), d);
    Pow2Succ(i);
    assert q == Pow2(i + 1) * k;
    OrLow(k, Pow2(i), i + 1);
    if r * 2 + Bit(n, i) >= d {
      RoundStep(n, d, i, r, q);
      QuotientFits(n, d, i);
    }
  }

  /** The quotient held in bits 63 .. i never exceeds the dividend. */
  lemma QuotientFits(n: nat, d: nat, i: nat)
    requires d > 0
    ensures n / Pow2(i) / d * Pow2(i) <= n
  {
    var p := Pow2(i);
    DivNonNeg(n, p);
    var x := n / p;
    DivLe(x, d);
    MulLe(p, x / d, x);
    DivMulLe(n, p);
  }

  /** One round on 64-bit words: the shifted remainder with the next bit
      fits, and the comparison with the divisor keeps `Round`. */
  lemma WordRound(n: qword, d: qword, i: nat, r: qword, q: qword)
    requires d != 0 && i < 64 && Round(n, d, i + 1, r, q)
    ensures Or((r * 2) % U64, Bit(n, i)) < U64
    ensures var r1 := Or((r * 2) % U64, Bit(n, i));
      if r1 >= d then Round(n, d, i, r1 - d, Or(q, Pow2(i))) && Or(q, Pow2(i)) < U64
      else Round(n, d, i, r1, q)
  {
    Pow2Qword();
    ShiftIn(n, 64, d, i, r);
    RoundStep(n, d, i, r, q);
    SetBit(n, 64, d, i, r, q);
    ModUnique(r * 2, U64, 0, r * 2);
  }

  /** `unsigned_division64`: brings in the dividend's bits from 63 down,
      subtracting the divisor whenever the partial remainder reaches it
      and setting that quotient bit. Each result is stored only when the
      caller passed a pointer for it (`wantQ`, `wantR`); otherwise that
      variable keeps its value (`q0`, `r0`). A zero divisor faults in the
      source, so the divisor is required to be non-zero. */
  method UnsignedDivision64(n: qword, d: qword, wantQ: bool, q0: qword, wantR: bool, r0: qword)
    returns (q: qword, r: qword)
    requires d != 0
    ensures q == if wantQ then n / d else q0
    ensures r == if wantR then n % d else r0
  {
    var Q: qword := 0;
    var R: qword := 0;
    var i: int := 63;
    Pow2Qword();
    ShiftedBelow(n, 64, 64);
    while i >= 0
      invariant -1 <= i <= 63
      invariant Round(n, d, i + 1, R, Q)
    {
      WordRound(n, d, i, R, Q);
      R := (R * 2) % U64;
      R := Or(R, Bit(n, i));
      if R >= d {
        R := R - d;
        Q := Or(Q, Pow2(i));
      }
      i := i - 1;
    }
    q := if wantQ then Q else q0;
    r := if wantR then R else r0;
  }

  /** `__udivmoddi4`: the quotient, with the remainder stored through `c`
      when the caller passed it (`hasC`). */
  method UDivModDi4(a: qword, b: qword, hasC: bool, c0: qword) returns (q: qword, c: qword)
    requires b != 0
    ensures q == a / b
    ensures c == if hasC then a % b else c0
  {
    q, c := UnsignedDivision64(a, b, true, 0, hasC, c0);
  }
}
