/** The signed 64-bit helpers of the legacy second stage
    (`gcc_arithmetics64.c`): `_neg` and `_abs`, `__absvdi2`, and the
    signed `/` and `%` built on the unsigned `__divmoddi4`. Signed values
    are `int64`; the bit patterns the helpers compute on are `qword`s,
    so every wrap-around is written out modulo 2^64. */
module LegacySigned {
  import opened Bytes
  import opened LongDivision
  import opened Arith64
  import opened LegacyDivision

  // What C's `/` and `%` mean

  /** Signed division truncated toward zero, from Dafny's Euclidean one:
      the two agree on non-negative dividends. */
  function Quot(a: int, b: int): int
    requires b != 0
  {
    if a >= 0 then a / b else -((-a) / b)
  }

  /** The remainder that goes with `Quot`. */
  function Rem(a: int, b: int): int
    requires b != 0
  {
    if a >= 0 then a % b else -((-a) % b)
  }

  /** `Quot` and `Rem` are C's `/` and `%`: the dividend is rebuilt from
      them, the remainder is smaller than the divisor in magnitude and
      never has a sign opposite to the dividend's. */
  lemma Truncating(a: int, b: int)
    requires b != 0
    ensures Quot(a, b) * b + Rem(a, b) == a
    ensures -(Abs(b) as int) < Rem(a, b) < Abs(b)
    ensures a >= 0 ==> Rem(a, b) >= 0
    ensures a < 0 ==> Rem(a, b) <= 0
  {
    TruncatingSum(a, b);
    TruncatingBounds(a, b);
  }

  /** The dividend rebuilt from `Quot` and `Rem`. */
  lemma TruncatingSum(a: int, b: int)
    requires b != 0
    ensures Quot(a, b) * b + Rem(a, b) == a
  {
    var x, y := Abs(a), Abs(b);
    var q, r := x / y, x % y;
    assert x == y * q + r && r < y by { Split(x, y); }
    QuotMagnitudes(a, b);
    Rebuild(a, b, x, y, q, r, Quot(a, b), Rem(a, b));
  }

  /** The bounds and the sign of `Rem`. */
  lemma TruncatingBounds(a: int, b: int)
    requires b != 0
    ensures -(Abs(b) as int) < Rem(a, b) < Abs(b)
    ensures a >= 0 ==> Rem(a, b) >= 0
    ensures a < 0 ==> Rem(a, b) <= 0
  {
    QuotMagnitudes(a, b);
  }

  /** The sign bookkeeping of `Truncating`, on plain numbers: `q` and `r`
      are the quotient and remainder of the magnitudes `x` and `y`. */
  lemma Rebuild(a: int, b: int, x: nat, y: nat, q: nat, r: nat, quot: int, rem: int)
    requires x == Abs(a) && y == Abs(b) && x == y * q + r && r < y
    requires quot == (if (a < 0) != (b < 0) then -(q as int) else q)
    requires rem == (if a < 0 then -(r as int) else r)
    ensures quot * b + rem == a
    ensures -(y as int) < rem < y && (a >= 0 ==> rem >= 0) && (a < 0 ==> rem <= 0)
  {
    assert quot * b == (if a < 0 then -(q * y) else q * y);
  }

  /** The magnitude of an integer. */
  function Abs(x: int): nat
  {
    if x < 0 then -x else x
  }

  /** Dafny's Euclidean quotient by a negative divisor is the negated
      quotient by its magnitude; the remainder is the same. */
  lemma EuclidSign(a: int, b: int)
    requires b != 0
    ensures a / b == (if b < 0 then -(a / Abs(b)) else a / Abs(b))
    ensures a % b == a % Abs(b)
  {
    if b < 0 {
      var q, r := a / -b, a % -b;
      assert a == (-b) * q + r;
      ModUniqueSigned(a, b, -q, r);
    }
  }

  /** Uniqueness of the Euclidean quotient and remainder for a divisor of
      either sign. */
  lemma ModUniqueSigned(v: int, d: int, k: int, r: int)
    requires d != 0 && v == d * k + r && 0 <= r < Abs(d)
    ensures v / d == k && v % d == r
  {
    var k', r' := v / d, v % d;
    assert v == d * k' + r';
    assert d * (k - k') == r' - r;
    if k != k' {
      if (k - k') * d > 0 {
        MulAtLeast(k - k', d);
      } else {
        MulAtLeast(k' - k, d);
      }
      assert false;
    }
  }

  /** A non-zero multiple of `d` is at least `|d|` in magnitude. */
  lemma MulAtLeast(m: int, d: int)
    requires m != 0 && d != 0
    ensures Abs(m * d) >= Abs(d)
  {
    if m > 0 && d > 0 {
      MulLe(d, 1, m);
    } else if m > 0 {
      MulLe(-d, 1, m);
    } else if d > 0 {
      MulLe(d, 1, -m);
    } else {
      MulLe(-d, 1, -m);
    }
  }

  /** Truncating division depends only on the magnitudes and the two signs. */
  lemma QuotMagnitudes(a: int, b: int)
    requires b != 0
    ensures Quot(a, b) == if (a < 0) != (b < 0) then -(Abs(a) / Abs(b)) else Abs(a) / Abs(b)
    ensures Rem(a, b) == if a < 0 then -(Abs(a) % Abs(b)) else Abs(a) % Abs(b)
  {
    EuclidSign(Abs(a), b);
  }

  // The macros and the helpers

  /** `_neg(a, b)` on the 64-bit pattern `u` of `a`: XOR with
      `(b >= 0) - 1`, all ones exactly when `b` is negative, then add
      `b < 0`. `negative` is whether `b` is negative. */
  function Neg(u: qword, negative: bool): qword
  {
    var mask := if negative then U64 - 1 else 0;
    (Xor(u, mask) + (if negative then 1 else 0)) % U64
  }

  /** `_neg` is two's-complement negation when `negative`, and the
      identity otherwise. */
  lemma NegNegates(u: qword, negative: bool)
    ensures Neg(u, negative) == if negative then (U64 - u) % U64 else u
  {
    if negative {
      Pow2Qword();
      XorOnes(u, 64);
    }
  }

  /** `_abs(a)`, that is `_neg(a, a)`, as a 64-bit pattern. */
  function AbsBits(a: int64): qword
  {
    Neg(Bits64(a), a < 0)
  }

  /** The pattern `_abs` computes is the magnitude of `a`, even for the
      most negative value, whose magnitude `2^63` only fits unsigned. */
  lemma AbsBitsMagnitude(a: int64)
    ensures AbsBits(a) == Abs(a)
  {
    NegNegates(Bits64(a), a < 0);
    if a < 0 {
      ModUnique(a, U64, -1, a + U64);
      ModUnique(-(a as int), U64, 0, -(a as int));
    } else {
      ModUnique(a, U64, 0, a);
    }
  }

  /** `__absvdi2`: `_abs(a)` read back as a signed value. */
  function AbsVDi2(a: int64): int64
  {
    Signed64(AbsBits(a))
  }

  /** `__absvdi2` gives the magnitude of every value but the most
      negative, which it returns unchanged: `-2^63` has no positive
      counterpart, and the negation wraps. */
  lemma AbsVDi2Value(a: int64)
    ensures AbsVDi2(a) == if a == MIN64 then MIN64 else Abs(a)
    ensures a != MIN64 ==> AbsVDi2(a) >= 0
  {
    AbsBitsMagnitude(a);
  }

  /** A quotient or remainder of magnitudes, given the sign `_neg` gives it,
      is the signed value reduced to 64 bits. */
  lemma NegOfMagnitude(m: qword, negative: bool)
    requires m <= Pow2(63)
    ensures Neg(m, negative) == (if negative then -(m as int) else m) % U64
  {
    NegNegates(m, negative);
    if negative {
      var v := -(m as int);
      if m > 0 {
        ModUnique(U64 - m, U64, 0, U64 - m);
        ModUnique(v, U64, -1, U64 - m);
      } else {
        ModUnique(U64 - m, U64, 1, 0);
        ModUnique(v, U64, 0, 0);
      }
    }
  }

  /** The quotient of two 64-bit magnitudes is at most `2^63` whenever the
      dividend's magnitude is. */
  lemma MagnitudeQuotient(x: nat, y: nat)
    requires 0 < y && x <= Pow2(63)
    ensures x / y <= Pow2(63) && x % y <= Pow2(63)
  {
    DivLe(x, y);
    ModLe(x, y);
  }

  /** `__divdi3`: the quotient of the magnitudes, negated when the signs
      of `a` and `b` differ (`a ^ b` negative). The result is C's truncating
      quotient, reduced to 64 bits: only `-2^63 / -1` falls outside the
      range, and it wraps back to `-2^63`. A zero divisor traps in
      `__divmoddi4`, so `b` must be non-zero. */
  method DivDi3(a: int64, b: int64) returns (r: int64)
    requires b != 0
    ensures r == Signed64(Quot(a, b) % U64)
    ensures !(a == MIN64 && b == -1) ==> r == Quot(a, b)
    ensures a == MIN64 && b == -1 ==> r == MIN64
  {
    AbsBitsMagnitude(a);
    AbsBitsMagnitude(b);
    var c;
    var q;
    q, c := DivModDi4(AbsBits(a), AbsBits(b), false, 0);
    var negative := (a < 0) != (b < 0);
    assert Pow2(63) == -MIN64 by { Pow2Values(); Pow2Succ(63); }
    MagnitudeQuotient(Abs(a), Abs(b));
    NegOfMagnitude(q, negative);
    QuotMagnitudes(a, b);
    r := Signed64(Neg(q, negative));
    QuotRange(a, b);
  }

  /** The truncating quotient of two 64-bit values fits in 64 bits except
      for `-2^63 / -1`; reduced to 64 bits and read back as signed, it is
      itself in every other case and `-2^63` in that one. */
  lemma QuotRange(a: int64, b: int64)
    requires b != 0
    ensures !(a == MIN64 && b == -1) ==> Signed64(Quot(a, b) % U64) == Quot(a, b)
    ensures a == MIN64 && b == -1 ==> Signed64(Quot(a, b) % U64) == MIN64
  {
    QuotMagnitudes(a, b);
    if a == MIN64 && b == -1 {
      ModUnique(Quot(a, b), U64, 0, Quot(a, b));
    } else {
      QuotFits(a, b);
      SignedOfReduced(Quot(a, b));
    }
  }

  /** Apart from `-2^63 / -1`, the truncating quotient stays in range. */
  lemma QuotFits(a: int64, b: int64)
    requires b != 0 && !(a == MIN64 && b == -1)
    ensures MIN64 <= Quot(a, b) <= MAX64
  {
    QuotMagnitudes(a, b);
    var x, y := Abs(a), Abs(b);
    if y == 1 {
      ModUnique(x, 1, x, 0);
    } else {
      DivBy2(x, y);
      ModUnique(x, 2, x / 2, x % 2);
    }
  }

  /** A value in the 64-bit range, reduced modulo 2^64 and read back as
      signed, is itself. */
  lemma SignedOfReduced(v: int64)
    ensures Signed64(v % U64) == v
  {
    if v < 0 {
      ModUnique(v, U64, -1, v + U64);
    } else {
      ModUnique(v, U64, 0, v);
    }
  }

  /** Dividing by at least 2 at least halves. */
  lemma DivBy2(x: nat, y: nat)
    requires y >= 2
    ensures x / y <= x / 2
  {
    var q := x / y;
    assert x == y * q + x % y;
    MulLe(q, 2, y);
    ModUnique(x, 2, x / 2, x % 2);
  }

  /** `__moddi3`: the remainder of the magnitudes, with the sign of `a`;
      it is C's `%`, which always fits. */
  method ModDi3(a: int64, b: int64) returns (r: int64)
    requires b != 0
    ensures r == Rem(a, b)
  {
    AbsBitsMagnitude(a);
    AbsBitsMagnitude(b);
    var q;
    var m;
    q, m := DivModDi4(AbsBits(a), AbsBits(b), true, 0);
    assert Pow2(63) == -MIN64 by { Pow2Values(); Pow2Succ(63); }
    MagnitudeQuotient(Abs(a), Abs(b));
    NegOfMagnitude(m, a < 0);
    QuotMagnitudes(a, b);
    r := Signed64(Neg(m, a < 0));
    RemRange(a, b);
  }

  /** The remainder of two 64-bit values fits in 64 bits, so reducing it
      and reading it back as signed gives it back. */
  lemma RemRange(a: int64, b: int64)
    requires b != 0
    ensures Signed64(Rem(a, b) % U64) == Rem(a, b)
  {
    Truncating(a, b);
    SignedOfReduced(Rem(a, b));
  }
}
