/** The 64-bit division helpers of the legacy second stage
    (`gcc_arithmetics64.c`): `__divmoddi4`, a shift-and-subtract division
    that starts at the dividend's highest set bit and picks each quotient
    bit with a sign mask instead of a branch, and the signed and unsigned
    wrappers a 32-bit compiler calls for `/` and `%` on 64-bit operands. */
module LegacyDivision {
  import opened Bytes
  import opened LongDivision
  import opened Arith64

  /** `(int64_t)v >> 63`, back as an unsigned word: the sign of `v` spread
      over all 64 bits. */
  function SignMask(v: qword): qword
  {
    Bits64(Ashr(Signed64(v), 63))
  }

  /** The quotient of the dividend's bits from 63 down to `k`. */
  function Prefix(a: nat, b: nat, k: nat): nat
    requires b > 0
  {
    DivNonNeg(Shr(a, k), b);
    Shr(a, k) / b
  }

  /** The state of `__divmoddi4` with `k` of its `n` rounds left: `rem`
      holds the remainder of the dividend's top bits, `x` holds the
      dividend bits still to be brought in at its top and the quotient bits
      found so far (all but the last) at its bottom, and `wrap` holds the
      last quotient bit, as all ones or all zeros. */
  ghost predicate DivState(a: nat, b: nat, n: nat, k: nat, rem: nat, x: nat, wrap: nat)
    requires b > 0
  {
    k <= n <= 63
    && rem == Shr(a, k) % b
    && x == (a % Pow2(k)) * Pow2(64 - k) + Prefix(a, b, k + 1)
    && Prefix(a, b, k) < Pow2(n - k)
    && wrap == (if Prefix(a, b, k) % 2 == 1 then U64 - 1 else 0)
  }

  // The rounds of the loop

  // Arithmetic on plain numbers

  /** A number of `h` digits of weight `p`, with a remainder below `p`,
      is below `h * p`. */
  lemma Below(low: nat, t: nat, h: nat, p: nat)
    requires low < h && t < p
    ensures low * p + t < h * p
  {
    MulLe(p, low, h - 1);
    MulSub(p, h, 1);
  }

  /** Splitting `(d * h + low) * p + t` at weight `h * p`. */
  lemma TopDigit(x: nat, d: nat, low: nat, t: nat, h: nat, p: nat)
    requires x == (d * h + low) * p + t && low < h && t < p
    ensures x / (h * p) == d && x % (h * p) == low * p + t
  {
    Below(low, t, h, p);
    assert x == (h * p) * d + (low * p + t);
    ModUnique(x, h * p, d, low * p + t);
  }

  /** The low `k` bits are bit `k - 1` above the low `k - 1` bits. */
  lemma LowBits(a: nat, k: nat)
    requires 0 < k
    ensures a % Pow2(k) == Bit(a, k - 1) * Pow2(k - 1) + a % Pow2(k - 1)
  {
    Pow2Succ(k - 1);
    ModMul(a, Pow2(k - 1), 2);
  }

  lemma ShiftXSum(low: int, p: int, t: int, m: int, q: int, bit: int)
    requires m == low * p + t && t == q / 2 && bit == q % 2
    ensures 2 * m + bit == low * (2 * p) + q
  {
  }

  // The rounds of the loop

  /** The sign mask is all ones exactly when bit 63 is set. */
  lemma SignMaskIs(v: qword)
    ensures SignMask(v) == if v >= Pow2(63) then U64 - 1 else 0
  {
    Pow2Words();
    assert Pow2(64) == 2 * Pow2(63) by { Pow2Succ(63); }
    AshrShifts(Signed64(v), 63);
    FloorSmall(Signed64(v), Pow2(63));
  }

  /** Dropping one more dividend bit halves the prefix quotient. */
  lemma PrefixHalf(a: nat, b: nat, k: nat)
    requires b > 0
    ensures Prefix(a, b, k + 1) == Prefix(a, b, k) / 2
  {
    var y := Shr(a, k);
    assert Shr(a, k + 1) == y / 2 by {
      Pow2Succ(k);
      DivDiv(a, Pow2(k), 2);
    }
    DivDiv(y, 2, b);
    DivDiv(y, b, 2);
  }

  /** Bringing in dividend bit `k - 1`: the prefix doubles and takes the bit. */
  lemma PrefixStep(a: nat, k: nat)
    requires 0 < k
    ensures Shr(a, k - 1) == 2 * Shr(a, k) + Bit(a, k - 1)
  {
    DivPow2Step(a, k - 1);
  }

  /** The top bit of `x` is the next dividend bit. */
  lemma TopBit(a: nat, k: nat, t: nat, x: nat)
    requires 0 < k <= 63 && t < Pow2(64 - k) && x == (a % Pow2(k)) * Pow2(64 - k) + t
    ensures Shr(x, 63) == Bit(a, k - 1)
  {
    var h, p := Pow2(k - 1), Pow2(64 - k);
    LowBits(a, k);
    TopDigit(x, Bit(a, k - 1), a % h, t, h, p);
    Pow2Add(k - 1, 64 - k);
  }

  /** The remainder, doubled, fits in the word, and with the next bit
      added stays below twice the divisor. */
  lemma ShiftRem(a: qword, b: nat, k: nat, rem: nat, bit: nat)
    requires 0 < b && 0 < k <= 64 && rem == Shr(a, k) % b && bit == Bit(a, k - 1)
    ensures (rem * 2) % U64 == 2 * rem
    ensures 2 * rem + bit <= Shr(a, k - 1) && 2 * rem + bit < 2 * b
  {
    assert rem <= Shr(a, k) by { ModLe(Shr(a, k), b); }
    assert rem * 2 < U64 by {
      Pow2Words();
      ShiftedBelow(a, 64, k);
      Pow2Mono(64 - k, 63);
      Pow2Succ(63);
    }
    ModUnique(rem * 2, U64, 0, rem * 2);
    PrefixStep(a, k);
  }

  /** `x`, shifted left with the last quotient bit added: the next
      dividend bit leaves its top, the quotient bit enters its bottom. */
  lemma ShiftX(a: nat, k: nat, t: nat, x: nat, q: nat, bit: nat)
    requires 0 < k <= 63 && t < Pow2(64 - k) && x == (a % Pow2(k)) * Pow2(64 - k) + t
    requires t == q / 2 && bit == q % 2
    ensures (x * 2) % U64 + bit == (a % Pow2(k - 1)) * Pow2(64 - (k - 1)) + q
  {
    var p := Pow2(64 - k);
    var low := a % Pow2(k - 1);
    var m := low * p + t;
    XLow(a, k, t, x);
    assert U64 == Pow2(63) * 2 by {
      Pow2Succ(63);
      Pow2Qword();
    }
    assert (x * 2) % U64 == m * 2 by { MulMod(x, Pow2(63), 2); }
    assert 2 * p == Pow2(64 - (k - 1)) by { Pow2Succ(64 - k); }
    ShiftXSum(low, p, t, m, q, bit);
  }

  /** Below bit 63, `x` holds the dividend's bits under `k - 1` and then `t`. */
  lemma XLow(a: nat, k: nat, t: nat, x: nat)
    requires 0 < k <= 63 && t < Pow2(64 - k) && x == (a % Pow2(k)) * Pow2(64 - k) + t
    ensures x % Pow2(63) == (a % Pow2(k - 1)) * Pow2(64 - k) + t
  {
    var h, p := Pow2(k - 1), Pow2(64 - k);
    assert h * p == Pow2(63) by { Pow2Add(k - 1, 64 - k); }
    var low := a % h;
    var d := Bit(a, k - 1);
    assert x == (d * h + low) * p + t by { LowBits(a, k); }
    TopDigit(x, d, low, t, h, p);
  }

  /** The new `x` stays below `2^64`. */
  lemma ShiftXBelow(a: nat, k: nat, q: nat, n: nat, x1: nat)
    requires 0 < k <= n <= 63 && q < Pow2(n - k)
    requires x1 == (a % Pow2(k - 1)) * Pow2(64 - (k - 1)) + q
    ensures x1 < U64
  {
    assert q < Pow2(64 - (k - 1)) by { Pow2Mono(n - k, 64 - (k - 1)); }
    Below(a % Pow2(k - 1), q, Pow2(k - 1), Pow2(64 - (k - 1)));
    Pow2Add(k - 1, 64 - (k - 1));
    Pow2Qword();
  }

  /** The sign bit of `b - rem - 1`, wrapped to 64 bits, tells whether
      `rem` reached `b`, as long as `b` fits in 63 bits or `rem` did reach
      it. */
  lemma WrapBit(b: nat, r: nat)
    requires 0 < b && r < 2 * b && r < U64 && b < U64 && (b <= Pow2(63) || r >= b)
    ensures (b - r - 1) % U64 >= Pow2(63) <==> r >= b
  {
    Pow2Words();
    assert U64 == 2 * Pow2(63) by { Pow2Succ(63); }
    if r >= b {
      ModUnique(b - r - 1, U64, -1, U64 + b - r - 1);
    } else {
      ModUnique(b - r - 1, U64, 0, b - r - 1);
    }
  }

  /** AND with 1 keeps the last bit. */
  lemma AndOne(w: nat)
    ensures And(w, 1) == w % 2
  {
    if w != 0 {
      assert And(w, 1) == w % 2 + 2 * And(w / 2, 0);
    }
  }

  /** A divisor above `2^63` leaves one round, and the partial remainder
      of that round reaches it. */
  lemma BigDivisor(a: qword, b: qword, rem: nat)
    requires Pow2(63) < b <= a && rem == Shr(a, 1) % b
    ensures 2 * rem + Bit(a, 0) >= b
  {
    assert Shr(a, 1) < Pow2(63) by {
      Pow2Words();
      ShiftedBelow(a, 64, 1);
    }
    ModUnique(Shr(a, 1), b, 0, Shr(a, 1));
    assert Shr(a, 0) == a by { Pow2Small(); }
    PrefixStep(a, 1);
  }

  /** The new remainder, quotient bit and prefix bound of one round. */
  lemma DivDigit(a: nat, b: nat, n: nat, k: nat, rem: nat, rem1: nat, rem2: nat, wrap1: nat)
    requires 0 < b && 0 < k <= n && rem == Shr(a, k) % b && rem1 == 2 * rem + Bit(a, k - 1)
    requires Prefix(a, b, k) < Pow2(n - k)
    requires rem2 == (if rem1 >= b then rem1 - b else rem1)
    requires wrap1 == if rem1 >= b then U64 - 1 else 0
    ensures rem2 == Shr(a, k - 1) % b
    ensures wrap1 == (if Prefix(a, b, k - 1) % 2 == 1 then U64 - 1 else 0)
    ensures Prefix(a, b, k - 1) < Pow2(n - (k - 1))
  {
    var y := Shr(a, k);
    PrefixStep(a, k);
    DigitArith(y, Bit(a, k - 1), b, rem, rem1, rem2, n - k);
    assert n - (k - 1) == n - k + 1;
  }

  /** `DivDigit` on plain numbers: `y` is the dividend so far and `bit`
      the next one brought in. */
  lemma DigitArith(y: nat, bit: nat, b: nat, rem: nat, rem1: nat, rem2: nat, m: nat)
    requires 0 < b && bit < 2 && rem == y % b && rem1 == 2 * rem + bit && y / b < Pow2(m)
    requires rem2 == (if rem1 >= b then rem1 - b else rem1)
    ensures rem2 == (2 * y + bit) % b
    ensures ((2 * y + bit) / b % 2 == 1 <==> rem1 >= b)
    ensures (2 * y + bit) / b < Pow2(m + 1)
  {
    var q := y / b;
    DivStep(y, bit, b);
    Pow2Succ(m);
    var c := if rem1 >= b then 1 else 0;
    assert (2 * y + bit) / b == 2 * q + c;
    assert (2 * q + c) % 2 == c;
  }

  /** The remainder half of a round, up to the comparison: the remainder,
      doubled with the next dividend bit OR-ed in, fits in the word, stays
      below twice the divisor, and reaches the divisor whenever the divisor
      is above `2^63`. */
  lemma RemShift(a: qword, b: qword, n: nat, k: nat, rem: nat)
    requires 0 < b <= a && 0 < k <= n <= 63 && rem == Shr(a, k) % b
    requires b > Pow2(63) ==> n == 1
    ensures (rem * 2) % U64 == 2 * rem
    ensures var rem1 := 2 * rem + Bit(a, k - 1);
      rem1 < 2 * b && rem1 < U64 && (b <= Pow2(63) || rem1 >= b)
  {
    var bit := Bit(a, k - 1);
    var rem1 := 2 * rem + bit;
    assert (rem * 2) % U64 == 2 * rem && rem1 <= Shr(a, k - 1) && rem1 < 2 * b by {
      ShiftRem(a, b, k, rem, bit);
    }
    assert rem1 < U64 by {
      Pow2Mono(0, k - 1);
      DivLe(a, Pow2(k - 1));
    }
    if b > Pow2(63) {
      BigDivisor(a, b, rem);
    }
  }

  /** The other half of a round: `x` gives up the next dividend bit at its
      top and takes the last quotient bit at its bottom. */
  lemma XRound(a: qword, b: qword, n: nat, k: nat, x: nat, wrap: qword)
    requires 0 < b && 0 < k <= n <= 63
    requires x == (a % Pow2(k)) * Pow2(64 - k) + Prefix(a, b, k + 1)
    requires Prefix(a, b, k) < Pow2(n - k)
    requires wrap == (if Prefix(a, b, k) % 2 == 1 then U64 - 1 else 0)
    ensures Shr(x, 63) == Bit(a, k - 1)
    ensures (x * 2) % U64 + wrap % 2 == (a % Pow2(k - 1)) * Pow2(64 - (k - 1)) + Prefix(a, b, k)
    ensures (x * 2) % U64 + wrap % 2 < U64
  {
    var q := Prefix(a, b, k);
    var t := Prefix(a, b, k + 1);
    assert t == q / 2 by { PrefixHalf(a, b, k); }
    assert t < Pow2(64 - k) by {
      DivLe(q, 2);
      Pow2Mono(n - k, 64 - k);
    }
    TopBit(a, k, t, x);
    WrapParity(q, wrap);
    ShiftX(a, k, t, x, q, wrap % 2);
    ShiftXBelow(a, k, q, n, (a % Pow2(k - 1)) * Pow2(64 - (k - 1)) + q);
  }

  /** The mask spread from a quotient bit has that bit at the bottom. */
  lemma WrapParity(q: nat, wrap: nat)
    requires wrap == (if q % 2 == 1 then U64 - 1 else 0)
    ensures wrap % 2 == q % 2
  {
  }

  /** One round of the loop keeps `DivState` with one round fewer left:
      `rem1` is the shifted remainder, `wrap1` the mask of its comparison
      with the divisor, `rem2` the remainder after the subtraction and `x1`
      the shifted `x`. */
  lemma DivRound(a: qword, b: qword, n: nat, k: nat, rem: nat, x: nat, wrap: nat,
                 rem1: nat, x1: nat, wrap1: nat, rem2: nat)
    requires 0 < b <= a && 0 < k && DivState(a, b, n, k, rem, x, wrap)
    requires b > Pow2(63) ==> n == 1
    requires rem1 == (rem * 2) % U64 + Shr(x, 63)
    requires wrap1 == (if (b - rem1 - 1) % U64 >= Pow2(63) then U64 - 1 else 0)
    requires rem2 == (if wrap1 == 0 then rem1 else (rem1 - b) % U64)
    requires x1 == (x * 2) % U64 + wrap % 2
    ensures DivState(a, b, n, k - 1, rem2, x1, wrap1)
  {
    XRound(a, b, n, k, x, wrap);
    RemRound(a, b, n, k, rem, rem1, wrap1, rem2);
  }

  /** The remainder half of `DivRound`, once the bit shifted out of `x` is
      known to be the next dividend bit. */
  lemma RemRound(a: qword, b: qword, n: nat, k: nat, rem: nat, rem1: nat, wrap1: nat, rem2: nat)
    requires 0 < b <= a && 0 < k <= n <= 63 && rem == Shr(a, k) % b
    requires Prefix(a, b, k) < Pow2(n - k)
    requires b > Pow2(63) ==> n == 1
    requires rem1 == (rem * 2) % U64 + Bit(a, k - 1)
    requires wrap1 == (if (b - rem1 - 1) % U64 >= Pow2(63) then U64 - 1 else 0)
    requires rem2 == (if wrap1 == 0 then rem1 else (rem1 - b) % U64)
    ensures rem2 == Shr(a, k - 1) % b
    ensures wrap1 == (if Prefix(a, b, k - 1) % 2 == 1 then U64 - 1 else 0)
    ensures Prefix(a, b, k - 1) < Pow2(n - (k - 1))
  {
    RemShift(a, b, n, k, rem);
    WrapBit(b, rem1);
    if rem1 >= b {
      ModUnique(rem1 - b, U64, 0, rem1 - b);
    }
    DivDigit(a, b, n, k, rem, rem1, rem2, wrap1);
  }

  // Before and after the loop

  /** Where the highest set bits of the divisor (`cb` leading zeros) and
      of the dividend (`ca`) lie: the divisor's is not above the
      dividend's, not bit 0 for a divisor of at least 2, and bit 63 for a
      divisor above `2^63`. */
  lemma LeadingZeros(a: nat, b: nat, ca: nat, cb: nat)
    requires 2 <= b <= a && ca < 64 && cb < 64
    requires Pow2(63 - ca) <= a < Pow2(64 - ca) && Pow2(63 - cb) <= b < Pow2(64 - cb)
    ensures ca <= cb <= 62
    ensures b > Pow2(63) ==> cb == 0
  {
    if ca > cb {
      Pow2Mono(64 - ca, 63 - cb);
      assert false;
    }
    if cb == 63 {
      assert false;
    }
    if b > Pow2(63) && cb > 0 {
      Pow2Mono(64 - cb, 63);
      assert false;
    }
  }

  /** The start of the loop: `n` rounds, and the dividend's bits above
      the divisor's highest set bit make a number below the divisor. */
  lemma DivStart(a: qword, b: qword, ca: nat, cb: nat, n: nat)
    requires 2 <= b <= a && Places(a, 64, ca) && Places(b, 64, cb) && n == cb - ca + 1
    ensures 1 <= n <= 63 && (b > Pow2(63) ==> n == 1)
    ensures Shr(a, n) < b
  {
    LeadingZeros(a, b, ca, cb);
    ShiftedBelow(a, 64 - ca, n);
  }

  /** With the dividend's top bits below the divisor, no quotient bits yet
      and the rest of the dividend at the top of `x`, `DivState` holds. */
  lemma StartState(a: qword, b: nat, n: nat)
    requires 0 < b && n <= 63 && Shr(a, n) < b
    ensures DivState(a, b, n, n, Shr(a, n), (a * Pow2(64 - n)) % U64, 0)
  {
    ModUnique(Shr(a, n), b, 0, Shr(a, n));
    PrefixHalf(a, b, n);
    assert (a * Pow2(64 - n)) % U64 == (a % Pow2(n)) * Pow2(64 - n) by {
      ShlMod(a, 64 - n, 64);
      Pow2Qword();
    }
    assert Pow2(n - n) == 1;
  }

  /** The end of the loop: the remainder is in `rem` and the quotient is `x`
      shifted left with the last bit OR-ed in. */
  lemma DivFinish(a: qword, b: qword, n: nat, rem: nat, x: nat, wrap: nat)
    requires 0 < b && DivState(a, b, n, 0, rem, x, wrap)
    ensures rem == a % b
    ensures (x * 2) % U64 + wrap % 2 == a / b
  {
    Pow2Small();
    assert Shr(a, 0) == a;
    var q := Prefix(a, b, 0);
    assert q == a / b;
    PrefixHalf(a, b, 0);
    var t := q / 2;
    assert x == t;
    assert (x * 2) % U64 == Pow2(1) * t by {
      Pow2Words();
      Pow2Mono(n, 63);
      Pow2Succ(63);
      ModUnique(x * 2, U64, 0, x * 2);
    }
    assert wrap % 2 == q % 2;
  }

  // The operations

  /** `__divmoddi4`: the quotient of `a` by `b`, with the remainder stored
      through `c` when the caller passed it (`hasC`; `c0` is what `*c`
      held). The fast paths answer a divisor above the dividend, a divisor
      of 1, and operands that both fit in 32 bits; otherwise the loop runs
      one round per bit between the divisor's and the dividend's highest
      set bits. A zero divisor faults in the source (`1 / x` with `x` zero),
      so it is excluded here. */
  method DivModDi4(a: qword, b: qword, hasC: bool, c0: qword) returns (q: qword, c: qword)
    requires b != 0
    ensures q == a / b
    ensures c == if hasC then a % b else c0
  {
    if b > a {
      ModUnique(a, b, 0, a);
      c := if hasC then a else c0;
      return 0, c;
    }
    if Hi(b) == 0 {
      Narrow(b);
      if b == 1 {
        c := if hasC then 0 else c0;
        return a, c;
      }
      if Hi(a) == 0 {
        Narrow(a);
        c := if hasC then Lo(a) % Lo(b) else c0;
        return Lo(a) / Lo(b), c;
      }
    }
    var r;
    q, r := ShiftSubtract(a, b);
    c := if hasC then r else c0;
  }

  /** The loop of `__divmoddi4`, for a divisor of at least 2 not above the
      dividend: it starts with the dividend bits above the divisor's
      highest set bit as the partial remainder and runs one round per
      remaining bit, each shifting the next dividend bit into the remainder
      and the last quotient bit into `x`, then subtracting the divisor under
      the mask of the comparison. */
  method ShiftSubtract(a: qword, b: qword) returns (q: qword, r: qword)
    requires 2 <= b <= a
    ensures q == a / b && r == a % b
  {
    var za := LeadingZeros64(a);
    var zb := LeadingZeros64(b);
    LeadingZeros(a, b, za, zb);
    var bits := zb - za + 1;
    DivStart(a, b, za, zb, bits);
    StartState(a, b, bits);
    ghost var n := bits;
    var rem: qword := Shr(a, bits);
    var x: qword := (a * Pow2(64 - bits)) % U64;
    var wrap: qword := 0;
    while bits > 0
      invariant 0 <= bits <= n
      invariant b > Pow2(63) ==> n == 1
      invariant DivState(a, b, n, bits, rem, x, wrap)
    {
      ghost var k, rem0, x0, wrap0 := bits, rem, x, wrap;
      bits := bits - 1;
      assert Shr(x, 63) < 2 by { XRound(a, b, n, k, x, wrap); }
      rem := ShiftInBit(rem, Shr(x, 63));
      var low := LowBit(wrap);
      x := ShiftInBit(x, low);
      ghost var rem1 := rem;
      wrap := SpreadSign((b - rem - 1) % U64);
      rem := SubMasked(rem, b, wrap);
      DivRound(a, b, n, k, rem0, x0, wrap0, rem1, x, wrap, rem);
    }
    DivFinish(a, b, n, rem, x, wrap);
    DivLe(a, b);
    r := rem;
    var low := LowBit(wrap);
    q := ShiftInBit(x, low);
  }

  /** `__clzdi2(v)` for a non-zero `v`: the position of its highest set
      bit, counted from bit 63. */
  method LeadingZeros64(v: qword) returns (z: nat)
    requires v != 0
    ensures Places(v, 64, z)
  {
    ClzBounds(v);
    z := Clz64(v);
  }

  /** `Clz64Counts` for a non-zero word. */
  lemma ClzBounds(v: qword)
    requires v != 0
    ensures Places(v, 64, Clz64(v))
  {
    Clz64Counts(v);
  }

  /** `(v << 1) | bit`: the OR fills the bit the shift cleared. */
  method ShiftInBit(v: qword, bit: nat) returns (r: qword)
    requires bit < 2
    ensures r == (v * 2) % U64 + bit
  {
    var m := v % Pow2(63);
    assert (v * 2) % U64 == Pow2(1) * m by {
      Pow2Qword();
      Pow2Succ(63);
      MulMod(v, Pow2(63), 2);
    }
    assert Or(Pow2(1) * m, bit) == Pow2(1) * m + bit by { OrLow(m, bit, 1); }
    assert Pow2(1) * m + bit < U64 by {
      Pow2Qword();
      Pow2Succ(63);
    }
    r := Or((v * 2) % U64, bit);
  }

  /** `w & 1`: the lowest bit. */
  method LowBit(w: qword) returns (r: qword)
    ensures r == w % 2
  {
    AndOne(w);
    r := And(w, 1);
  }

  /** `r - (b & mask)` for a mask of all ones or all zeros: subtracts `b`
      under the full mask, nothing under the empty one. */
  method SubMasked(r: qword, b: qword, mask: qword) returns (s: qword)
    requires mask == U64 - 1 || mask == 0
    ensures s == if mask == 0 then r else (r - b) % U64
  {
    if mask == U64 - 1 {
      Pow2Qword();
      AndOnes(b, 64);
    } else {
      ModUnique(r, U64, 0, r);
    }
    s := (r - And(b, mask)) % U64;
  }

  /** `(int64_t)v >> 63`: the sign of `v` spread over the word. */
  method SpreadSign(v: qword) returns (m: qword)
    ensures m == if v >= Pow2(63) then U64 - 1 else 0
  {
    m := SignMask(v);
    SignMaskIs(v);
  }

  /** A word whose high half is zero is its low half. */
  lemma Narrow(u: qword)
    requires Hi(u) == 0
    ensures Lo(u) == u
  {
    ModUnique(u, U32, 0, u);
  }

  /** `__udivdi3`: unsigned 64-bit `/`. */
  method UDivDi3(a: qword, b: qword) returns (q: qword)
    requires b != 0
    ensures q == a / b
  {
    var c;
    q, c := DivModDi4(a, b, false, 0);
  }

  /** `__umoddi3`: unsigned 64-bit `%`. */
  method UModDi3(a: qword, b: qword) returns (r: qword)
    requires b != 0
    ensures r == a % b
  {
    var q;
    q, r := DivModDi4(a, b, true, 0);
  }
}
