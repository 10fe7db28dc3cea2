/** The 64-bit arithmetic runtime of the legacy second stage
    (`gcc_arithmetics64.c`): the helpers a 32-bit compiler calls for 64-bit
    shifts, bit counts and division, built from 32-bit halves and a
    shift-and-subtract division.

    Words are numbers: an unsigned 64-bit value is a `qword`, a signed one
    an `int64`, and the union the source uses to reach the halves is
    `Lo`/`Hi`/`Join` on the word's two's-complement bit pattern. */
module Arith64 {
  import opened Bytes
  import opened LongDivision

  const MIN64: int := -0x8000_0000_0000_0000
  const MAX64: int := 0x7FFF_FFFF_FFFF_FFFF
  type int64 = x: int | MIN64 <= x <= MAX64
  type int32 = x: int | -0x8000_0000 <= x < 0x8000_0000

  /** The two's-complement bit pattern of a signed word, and back. */
  function Bits64(a: int64): qword { a % U64 }
  function Signed64(u: qword): int64 { if u <= MAX64 then u else u - U64 }
  function Bits32(a: int32): dword { a % U32 }
  function Signed32(u: dword): int32 { if u < 0x8000_0000 then u else u - U32 }

  /** The halves of a 64-bit pattern, and the pattern made of two halves. */
  function Lo(u: qword): dword { u % U32 }
  function Hi(u: qword): dword { u / U32 }
  function Join(hi: dword, lo: dword): qword { hi * U32 + lo }

  /** `x << n` on a 32-bit unsigned value: bits pushed past bit 31 are lost. */
  function Shl32(x: dword, n: nat): dword
    requires n < 32
  {
    (x * Pow2(n)) % U32
  }

  /** `x >> n` on a 32-bit unsigned value. */
  function Shr32(x: dword, n: nat): dword
  {
    Pow2Mono(0, n);
    DivLe(x, Pow2(n));
    Shr(x, n)
  }

  /** `x | y` on 32-bit values. */
  function Or32(x: dword, y: dword): dword
  {
    Pow2Words();
    OrBelow(x, y, 32);
    Or(x, y)
  }

  /** `x >> n` on a 32-bit signed value, which the compiler implements as an
      arithmetic shift: the quotient rounded down. */
  function Sar32(x: int32, n: nat): int32
    requires n < 32
  {
    DivToward(x, Pow2(n));
    x / Pow2(n)
  }

  /** The shift count the helpers use: `b &= 63` on a two's-complement
      `int`, which keeps `b` modulo 64. */
  function Amount(b: int): (s: nat)
    ensures s < 64
  {
    b % 64
  }

  lemma Pow2Small()
    ensures Pow2(0) == 1 && Pow2(1) == 2 && Pow2(4) == 16 && Pow2(5) == 32 && Pow2(6) == 64
  {
  }

  lemma Pow2Words()
    ensures Pow2(32) == U32 && Pow2(64) == U64
  {
    Pow2Values();
  }

  // ---------------------------------------------------------------------
  // Shifts

  /** `__ashldi3`: shifts the pattern of `a` left by `b mod 64`, the high
      half taking the bits pushed out of the low half. */
  function Ashl(a: int64, b: int): (r: int64)
  {
    var s := Amount(b);
    var u := Bits64(a);
    if s >= 32 then Signed64(Join(Shl32(Lo(u), s - 32), 0))
    else if s != 0 then Signed64(Join(Or32(Shr32(Lo(u), 32 - s), Shl32(Hi(u), s)), Shl32(Lo(u), s)))
    else a
  }

  /** `__ashrdi3`: shifts `a` right by `b mod 64` with the sign copied in,
      the low half taking the bits shifted out of the high half. */
  function Ashr(a: int64, b: int): (r: int64)
  {
    var s := Amount(b);
    var u := Bits64(a);
    var hi := Signed32(Hi(u));
    if s >= 32 then Signed64(Join(Bits32(Sar32(hi, 31)), Bits32(Sar32(hi, s - 32))))
    else if s != 0 then Signed64(Join(Bits32(Sar32(hi, s)), Or32(Shl32(Hi(u), 32 - s), Shr32(Lo(u), s))))
    else a
  }

  /** `__lshrdi3`: shifts `a` right by `b mod 64` with zeros shifted in. */
  function Lshr(a: qword, b: int): (r: qword)
  {
    var s := Amount(b);
    if s >= 32 then Join(0, Shr32(Hi(a), s - 32))
    else if s != 0 then Join(Shr32(Hi(a), s), Or32(Shl32(Hi(a), 32 - s), Shr32(Lo(a), s)))
    else a
  }

  // Shifting the halves, for a half width `h` (32 in the source)

  /** Left shift by `s >= h`: the low half, shifted by `s - h`, becomes the
      high half. */
  lemma ShlHighHalves(u: nat, h: nat, s: nat)
    requires h <= s < 2 * h
    ensures ((u % Pow2(h)) * Pow2(s - h)) % Pow2(h) * Pow2(h) == (u * Pow2(s)) % Pow2(2 * h)
  {
    var m := 2 * h - s;
    var low := u % Pow2(m);
    assert (u % Pow2(h)) % Pow2(m) == low by {
      Pow2Add(m, s - h);
      ModOfMod(u, Pow2(m), Pow2(s - h));
    }
    assert ((u % Pow2(h)) * Pow2(s - h)) % Pow2(h) == low * Pow2(s - h) by {
      ShlMod(u % Pow2(h), s - h, h);
    }
    assert (u * Pow2(s)) % Pow2(2 * h) == low * Pow2(s) by {
      ShlMod(u, s, 2 * h);
    }
    assert low * Pow2(s) == (low * Pow2(s - h)) * Pow2(h) by {
      Pow2Add(h, s - h);
      MulAssoc(low, Pow2(h), Pow2(s - h), Pow2(s));
    }
  }

  /** Right shift by `s >= h`: the high half, shifted by `s - h`. */
  lemma ShrHighHalves(u: nat, h: nat, s: nat)
    requires h <= s
    ensures u / Pow2(h) / Pow2(s - h) == u / Pow2(s)
  {
    DivDiv(u, Pow2(h), Pow2(s - h));
    Pow2Add(h, s - h);
  }

  /** The pieces of a left shift by `0 < s < h` put back together, on plain
      numbers: `a = 2^s`, `b = 2^(h-s)`, `p = 2^h`, the low half is
      `y * b + z` and `x` is the part of the high half that survives. */
  lemma AssembleShl(o: int, t: int, l: int, m: int, x: int, y: int, z: int, a: int, b: int, p: int)
    requires p == a * b && o == a * x + y && l == z * a && m == (b * y + z) + p * x
    ensures o * p + l == m * a
  {
  }

  /** The high half of a left shift by `0 < s < h`: the surviving low bits
      of the old high half, with the top `s` bits of the low half below. */
  lemma ShlCarry(lo: nat, hi: nat, h: nat, s: nat)
    requires 0 < s < h && lo < Pow2(h)
    ensures Or(Shr(lo, h - s), (hi * Pow2(s)) % Pow2(h)) == Pow2(s) * (hi % Pow2(h - s)) + Shr(lo, h - s)
  {
    var x, y := hi % Pow2(h - s), Shr(lo, h - s);
    DivNonNeg(hi, Pow2(h - s));
    assert (hi * Pow2(s)) % Pow2(h) == Pow2(s) * x by {
      ShlMod(hi, s, h);
      assert x * Pow2(s) == Pow2(s) * x;
    }
    assert y < Pow2(s) by { ShiftedBelow(lo, h, h - s); }
    OrHigh(x, y, s);
  }

  /** The whole of a left shift by `s < h` within `2h` bits, by halves. */
  lemma ShlWhole(u: nat, h: nat, s: nat, m: int)
    requires s < h && m == u % Pow2(h) + Pow2(h) * ((u / Pow2(h)) % Pow2(h - s))
    ensures (u * Pow2(s)) % Pow2(2 * h) == m * Pow2(s)
  {
    ShlMod(u, s, 2 * h);
    Pow2Add(h, h - s);
    ModMul(u, Pow2(h), Pow2(h - s));
  }

  /** Left shift by `0 < s < h`: the high half takes the top `s` bits of
      the low half. */
  lemma ShlLowHalves(u: nat, h: nat, s: nat)
    requires 0 < s < h
    ensures var p, lo, hi := Pow2(h), u % Pow2(h), u / Pow2(h);
      Or(Shr(lo, h - s), (hi * Pow2(s)) % p) * p + (lo * Pow2(s)) % p
        == (u * Pow2(s)) % Pow2(2 * h)
  {
    var p, a, b := Pow2(h), Pow2(s), Pow2(h - s);
    DivNonNeg(u, p);
    var lo, hi := u % p, u / p;
    DivNonNeg(hi, b);
    DivNonNeg(lo, b);
    var x, y, z := hi % b, Shr(lo, h - s), lo % b;
    var o, l, m := Or(y, (hi * a) % p), (lo * a) % p, lo + p * x;
    assert p == a * b by { Pow2Add(s, h - s); }
    assert o == a * x + y by { ShlCarry(lo, hi, h, s); }
    assert l == z * a by { ShlMod(lo, s, h); }
    assert lo == b * y + z by { ShrSplit(lo, h - s); }
    assert (u * a) % Pow2(2 * h) == m * a by { ShlWhole(u, h, s, m); }
    AssembleShl(o, (hi * a) % p, l, m, x, y, z, a, b, p);
  }

  /** The pieces of a right shift by `0 < s < h` put back together, on
      plain numbers: `a = 2^s`, `b = 2^(h-s)`, `p = 2^h`, the high half is
      `k * a + x`. */
  lemma AssembleShr(hi: int, k: int, x: int, y: int, o: int, a: int, b: int, p: int)
    requires p == a * b && hi == a * k + x && o == b * x + y
    ensures k * p + o == hi * b + y
  {
  }

  lemma MulAssoc(x: int, a: int, b: int, p: int)
    requires p == a * b
    ensures x * p == (x * b) * a
  {
  }

  /** Right shift by `0 < s < h` of the number with halves `hi`, `lo`: the
      low half takes the bottom `s` bits of the high half. `hi` may be
      negative (a signed high half); its pattern is `hi % 2^h`. */
  lemma ShrLowHalves(hi: int, lo: nat, h: nat, s: nat)
    requires 0 < s < h && lo < Pow2(h)
    ensures var p := Pow2(h);
      (hi / Pow2(s)) * p + Or(((hi % p) * Pow2(h - s)) % p, Shr(lo, s))
        == (hi * p + lo) / Pow2(s)
  {
    var p, a, b := Pow2(h), Pow2(s), Pow2(h - s);
    DivNonNeg(lo, a);
    var x, y := hi % a, lo / a;
    var o := Or(((hi % p) * b) % p, y);
    assert p == a * b by { Pow2Add(s, h - s); }
    DivNonNeg(hi % p, a);
    var t := ((hi % p) * b) % p;
    assert t == b * x by {
      ShlMod(hi % p, h - s, h);
      ModOfMod(hi, a, b);
      assert x * b == b * x;
    }
    assert y < b by { ShiftedBelow(lo, h, s); }
    assert Or(b * x, y) == b * x + y by { OrLow(x, y, h - s); }
    assert o == Or(b * x, y);
    assert (hi * p + lo) / a == hi * b + y by {
      MulAssoc(hi, a, b, p);
      DivAdd(hi * b, lo, a);
    }
    Split(hi, a);
    AssembleShr(hi, hi / a, x, y, o, a, b, p);
  }

  /** A signed high half and an unsigned low half make the signed word
      `hi * 2^32 + lo`. */
  lemma SignedJoin(hi: int32, lo: dword)
    ensures Signed64(Join(Bits32(hi), lo)) == hi * U32 + lo
  {
    if hi < 0 {
      assert Bits32(hi) == hi + U32;
    }
  }

  /** The halves of a signed word: the high half read as signed. */
  lemma SignedHalves(a: int64)
    ensures a == Signed32(Hi(Bits64(a))) * U32 + Lo(Bits64(a))
    ensures Bits32(Signed32(Hi(Bits64(a)))) == Hi(Bits64(a))
  {
    var u := Bits64(a);
    assert u == Hi(u) * U32 + Lo(u);
    if a < 0 {
      assert u == a + U64;
    }
  }

  /** A signed word keeps its pattern. */
  lemma PatternKept(u: qword)
    ensures Bits64(Signed64(u)) == u
  {
  }

  /** The pattern of `a * 2^s`, taken from the pattern of `a`. */
  lemma PatternShift(a: int64, s: nat)
    ensures (Bits64(a) * Pow2(s)) % U64 == (a * Pow2(s)) % U64
  {
    var k := a / U64;
    assert a == U64 * k + Bits64(a);
    assert a * Pow2(s) == U64 * (k * Pow2(s)) + Bits64(a) * Pow2(s);
    DivAdd(k * Pow2(s), Bits64(a) * Pow2(s), U64);
  }

  /** Dividing by a positive number keeps the sign and moves toward zero,
      or to -1 for a negative number. */
  lemma DivToward(x: int, p: nat)
    requires p > 0
    ensures x >= 0 ==> 0 <= x / p <= x
    ensures x < 0 ==> x <= x / p < 0
  {
    var k := x / p;
    Split(x, p);
    MulSign(p, k);
    MulSign(p, k + 1);
    assert p * (k + 1) == p * k + p;
  }

  /** Multiplying by a positive number moves away from zero. */
  lemma MulSign(p: int, k: int)
    requires p >= 1
    ensures k >= 0 ==> p * k >= k
    ensures k <= 0 ==> p * k <= k
  {
    assert p * k - k == (p - 1) * k;
  }

  /** A number within `m` of zero, divided by `m`, is -1 or 0 by its sign. */
  lemma FloorSmall(v: int, m: int)
    requires 0 < m && -m <= v < m
    ensures v / m == if v < 0 then -1 else 0
  {
    if v < 0 {
      ModUnique(v, m, -1, v + m);
    } else {
      ModUnique(v, m, 0, v);
    }
  }

  /** The sign fill of `__ashrdi3` for counts of 32 and more: the high
      half's sign (`hi >> 31`) is the high half of `hi >> (s - 32)`. */
  lemma SignFill(hi: int32, n: nat)
    requires n < 32
    ensures hi / Pow2(n) / U32 == hi / Pow2(31)
  {
    var p := Pow2(n);
    Pow2Words();
    assert Pow2(31) == 0x8000_0000 by { Pow2Add(31, 1); }
    DivToward(hi, p);
    FloorSmall(hi / p, U32);
    FloorSmall(hi, Pow2(31));
  }

  // The shifts against their meaning

  /** `__lshrdi3` divides by `2^(b mod 64)`. */
  lemma LshrShifts(a: qword, b: int)
    ensures Lshr(a, b) == a / Pow2(Amount(b))
  {
    var s := Amount(b);
    Pow2Words();
    if s >= 32 {
      ShrHighHalves(a, 32, s);
    } else if s != 0 {
      assert Hi(a) % U32 == Hi(a);
      assert Hi(a) * U32 + Lo(a) == a;
      ShrLowHalves(Hi(a), Lo(a), 32, s);
    }
  }

  /** `__ashldi3` multiplies by `2^(b mod 64)` modulo `2^64`. */
  lemma AshlPattern(a: int64, b: int)
    ensures Bits64(Ashl(a, b)) == (a * Pow2(Amount(b))) % U64
  {
    var s := Amount(b);
    var u := Bits64(a);
    PatternShift(a, s);
    if s >= 32 {
      PatternKept(Join(Shl32(Lo(u), s - 32), 0));
      ShlFar(u, s);
    } else if s != 0 {
      PatternKept(Join(Or32(Shr32(Lo(u), 32 - s), Shl32(Hi(u), s)), Shl32(Lo(u), s)));
      ShlNear(u, s);
    } else {
      Pow2Words();
    }
  }

  /** The words `__ashldi3` joins for counts of 32 and more. */
  lemma ShlFar(u: qword, s: nat)
    requires 32 <= s < 64
    ensures Join(Shl32(Lo(u), s - 32), 0) == (u * Pow2(s)) % U64
  {
    Pow2Words();
    ShlHighHalves(u, 32, s);
  }

  /** The words `__ashldi3` joins for counts from 1 to 31. */
  lemma ShlNear(u: qword, s: nat)
    requires 0 < s < 32
    ensures Join(Or32(Shr32(Lo(u), 32 - s), Shl32(Hi(u), s)), Shl32(Lo(u), s)) == (u * Pow2(s)) % U64
  {
    Pow2Words();
    ShlLowHalves(u, 32, s);
  }

  /** A signed word read back from its pattern. */
  lemma SignedOfPattern(a: int64)
    ensures Signed64(Bits64(a)) == a
  {
    if a < 0 {
      assert Bits64(a) == a + U64;
    }
  }

  /** `__ashldi3` is the shifted pattern, read as a signed word. */
  lemma AshlShifts(a: int64, b: int)
    ensures Ashl(a, b) == Signed64((a * Pow2(Amount(b))) % U64)
  {
    AshlPattern(a, b);
    SignedOfPattern(Ashl(a, b));
  }

  /** `__ashrdi3` for counts of 32 and more: the sign fills the high half
      and the high half, shifted, becomes the low half. */
  lemma SarFar(hi: int32, lo: dword, s: nat)
    requires 32 <= s < 64
    ensures Signed64(Join(Bits32(Sar32(hi, 31)), Bits32(Sar32(hi, s - 32)))) == (hi * U32 + lo) / Pow2(s)
  {
    var v := Sar32(hi, s - 32);
    Pow2Words();
    assert Signed64(Join(Bits32(Sar32(hi, 31)), Bits32(v))) == v by {
      SignFill(hi, s - 32);
      Split(v, U32);
      SignedJoin(Sar32(hi, 31), Bits32(v));
    }
    assert (hi * U32 + lo) / U32 == hi by { DivAdd(hi, lo, U32); }
    DivDiv(hi * U32 + lo, U32, Pow2(s - 32));
    Pow2Add(32, s - 32);
  }

  /** `__ashrdi3` for counts from 1 to 31: the high half shifted with its
      sign, the low half taking the high half's bottom bits. */
  lemma SarNear(hi: int32, lo: dword, s: nat)
    requires 0 < s < 32
    ensures Signed64(Join(Bits32(Sar32(hi, s)), Or32(Shl32(Bits32(hi), 32 - s), Shr32(lo, s))))
      == (hi * U32 + lo) / Pow2(s)
  {
    Pow2Words();
    SignedJoin(Sar32(hi, s), Or32(Shl32(Bits32(hi), 32 - s), Shr32(lo, s)));
    ShrLowHalves(hi, lo, 32, s);
  }

  /** `__ashrdi3` divides by `2^(b mod 64)`, rounding down. */
  lemma AshrShifts(a: int64, b: int)
    ensures Ashr(a, b) == a / Pow2(Amount(b))
  {
    var s := Amount(b);
    var u := Bits64(a);
    SignedHalves(a);
    if s >= 32 {
      SarFar(Signed32(Hi(u)), Lo(u), s);
    } else if s != 0 {
      SarNear(Signed32(Hi(u)), Lo(u), s);
    }
  }

  // ---------------------------------------------------------------------
  // Counting zero bits

  /** The binary search of `__clzsi2` and `__clzdi2` on a `w`-bit value:
      each line tests whether the top `2^e` bits are all zero and, when they
      are, counts them and shifts the value left past them; the last line
      counts the top bit. `e` is 5 for 64 bits, 4 for 32. */
  function ClzSearch(v: nat, w: nat, e: nat): (r: nat)
    requires Pow2(e) < w
    decreases e
  {
    if e == 0 then (if v < Pow2(w - 1) then 1 else 0)
    else
      var k := Pow2(e);
      var b := if v < Pow2(w - k) then k else 0;
      b + ClzSearch((v * Pow2(b)) % Pow2(w), w, e - 1)
  }

  /** `__clzdi2` */
  function Clz64(a: qword): nat
  {
    Pow2Values();
    ClzSearch(a, 64, 5)
  }

  /** `__clzsi2` */
  function Clz32(a: dword): nat
  {
    Pow2Values();
    ClzSearch(a, 32, 4)
  }

  /** Bounds on a product with a power of two, divided back. */
  lemma ScaledBounds(v: nat, b: nat, m: nat)
    requires b <= m
    ensures v * Pow2(b) < Pow2(m) <==> v < Pow2(m - b)
    ensures v * Pow2(b) >= Pow2(m) <==> v >= Pow2(m - b)
  {
    Pow2Add(m - b, b);
    if v < Pow2(m - b) {
      MulLe(Pow2(b), v, Pow2(m - b) - 1);
    } else {
      MulLe(Pow2(b), Pow2(m - b), v);
    }
  }

  /** One line of the search: a value whose top `2k` bits are not all zero
      leaves the line with its top `k` bits not all zero, shifted by the
      count of that line. */
  lemma ClzLine(v: nat, w: nat, k: nat)
    requires 2 * k <= w && Pow2(w - 2 * k) <= v < Pow2(w)
    ensures var b := if v < Pow2(w - k) then k else 0;
      (v * Pow2(b)) % Pow2(w) == v * Pow2(b) && Pow2(w - k) <= v * Pow2(b) < Pow2(w)
  {
    if v < Pow2(w - k) {
      ScaledBounds(v, k, w);
      ScaledBounds(v, k, w - k);
      ModUnique(v * Pow2(k), Pow2(w), 0, v * Pow2(k));
    } else {
      assert Pow2(0) == 1;
      ModUnique(v, Pow2(w), 0, v);
    }
  }

  /** `r` zero bits stand above the highest set bit of the `w`-bit `v`. */
  ghost predicate Places(v: nat, w: nat, r: nat)
  {
    r < w && Pow2(w - 1 - r) <= v < Pow2(w - r)
  }

  /** The last line: the top bit decides. */
  lemma ClzLast(v: nat, w: nat)
    requires 2 * Pow2(0) <= w && Pow2(w - 2 * Pow2(0)) <= v < Pow2(w)
    ensures Places(v, w, ClzSearch(v, w, 0))
  {
    assert Pow2(0) == 1;
    if v < Pow2(w - 1) {
      Pow2Succ(w - 2);
    } else {
      Pow2Succ(w - 1);
    }
  }

  /** A count `r'` for `v * 2^b` is a count `b + r'` for `v`. */
  lemma ClzShifted(v: nat, w: nat, b: nat, v': nat, r': nat, r: nat)
    requires v != 0 && v' == v * Pow2(b) && Places(v', w, r') && r == b + r'
    ensures Places(v, w, r)
  {
    assert v * Pow2(b) >= Pow2(b) by { MulLe(Pow2(b), 1, v); }
    assert b < w - r' by {
      if b >= w - r' {
        Pow2Mono(w - r', b);
      }
    }
    ScaledBounds(v, b, w - r');
    ScaledBounds(v, b, w - 1 - r');
  }

  /** The count of a non-zero value whose top `2^(e+1)` bits are not all zero
      places its highest set bit: `2^(w-1-r) <= v < 2^(w-r)`. */
  lemma {:induction false} ClzSearchBounds(v: nat, w: nat, e: nat)
    requires 2 * Pow2(e) <= w && v < Pow2(w) && Pow2(w - 2 * Pow2(e)) <= v
    ensures Places(v, w, ClzSearch(v, w, e))
    decreases e, 1
  {
    if e == 0 {
      ClzLast(v, w);
    } else {
      ClzSearchStep(v, w, e);
    }
  }

  /** The inductive step of `ClzSearchBounds`: one line, then the rest. */
  lemma {:induction false} ClzSearchStep(v: nat, w: nat, e: nat)
    requires 0 < e && 2 * Pow2(e) <= w && v < Pow2(w) && Pow2(w - 2 * Pow2(e)) <= v
    ensures Places(v, w, ClzSearch(v, w, e))
    decreases e, 0
  {
    var k := Pow2(e);
    var b := if v < Pow2(w - k) then k else 0;
    var v' := (v * Pow2(b)) % Pow2(w);
    ClzLine(v, w, k);
    assert 2 * Pow2(e - 1) == k;
    ClzSearchBounds(v', w, e - 1);
    assert v != 0 by { Pow2Mono(0, w - 2 * k); }
    ClzUnfold(v, w, e, b, v');
    ClzShifted(v, w, b, v', ClzSearch(v', w, e - 1), ClzSearch(v, w, e));
  }

  /** One line of the search, unfolded. */
  lemma ClzUnfold(v: nat, w: nat, e: nat, b: nat, v': nat)
    requires 0 < e && Pow2(e) < w
    requires b == (if v < Pow2(w - Pow2(e)) then Pow2(e) else 0) && v' == (v * Pow2(b)) % Pow2(w)
    ensures ClzSearch(v, w, e) == b + ClzSearch(v', w, e - 1)
  {
  }

  /** A zero value counts every line: `2^(e+1) - 1`. */
  lemma {:induction false} ClzSearchZero(w: nat, e: nat)
    requires Pow2(e) < w
    ensures ClzSearch(0, w, e) == Pow2(e + 1) - 1
    decreases e
  {
    if e == 0 {
      assert 0 < Pow2(w - 1);
    } else {
      var k := Pow2(e);
      assert 0 < Pow2(w - k);
      assert 0 * Pow2(k) == 0;
      ModUnique(0, Pow2(w), 0, 0);
      ClzUnfold(0, w, e, k, 0);
      Pow2Succ(e - 1);
      assert Pow2(e - 1) < w;
      ClzSearchZero(w, e - 1);
      Pow2Succ(e);
    }
  }

  /** `__clzdi2` counts the zero bits above the highest set bit, and gives
      63 for zero. */
  lemma Clz64Counts(a: qword)
    ensures a != 0 ==> Clz64(a) < 64 && Pow2(63 - Clz64(a)) <= a < Pow2(64 - Clz64(a))
    ensures a == 0 ==> Clz64(a) == 63
  {
    Pow2Words();
    Pow2Small();
    if a != 0 {
      ClzSearchBounds(a, 64, 5);
    } else {
      ClzSearchZero(64, 5);
    }
  }

  /** `__clzsi2` counts the zero bits above the highest set bit, and gives
      31 for zero. */
  lemma Clz32Counts(a: dword)
    ensures a != 0 ==> Clz32(a) < 32 && Pow2(31 - Clz32(a)) <= a < Pow2(32 - Clz32(a))
    ensures a == 0 ==> Clz32(a) == 31
  {
    Pow2Words();
    Pow2Small();
    if a != 0 {
      ClzSearchBounds(a, 32, 4);
    } else {
      ClzSearchZero(32, 4);
    }
  }

  /** The binary search of `__ctzsi2` and `__ctzdi2`: each line tests whether
      the low `2^e` bits are all zero and, when they are, counts them and
      shifts the value right past them; the last line counts bit 0. */
  function CtzSearch(v: nat, e: nat): (r: nat)
    decreases e
  {
    if e == 0 then (if v % 2 == 0 then 1 else 0)
    else
      var k := Pow2(e);
      var b := if v % Pow2(k) == 0 then k else 0;
      b + CtzSearch(Shr(v, b), e - 1)
  }

  /** `__ctzdi2` */
  function Ctz64(a: qword): nat
  {
    CtzSearch(a, 5)
  }

  /** `__ctzsi2` */
  function Ctz32(a: dword): nat
  {
    CtzSearch(a, 4)
  }

  /** `__ffsdi2`: one more than the count of trailing zeros, or 0 for 0. */
  function Ffs(a: qword): nat
  {
    if a != 0 then Ctz64(a) + 1 else 0
  }

  /** Bit `r` of `v` is its lowest set bit. */
  ghost predicate Lowest(v: nat, r: nat)
  {
    v % Pow2(r) == 0 && Bit(v, r) == 1
  }

  /** The last line: bit 0 decides, and bit 1 is set when bit 0 is not. */
  lemma CtzLast(v: nat)
    requires v % 4 != 0
    ensures Lowest(v, CtzSearch(v, 0))
  {
    Pow2Small();
    assert Pow2(2) == 4;
    ModMul(v, 2, 2);
  }

  /** One line of the search: a value whose low `2k` bits are not all zero
      leaves the line with its low `k` bits not all zero, and the bits
      shifted out were zero. */
  lemma CtzLine(v: nat, k: nat)
    requires v % Pow2(2 * k) != 0
    ensures var b := if v % Pow2(k) == 0 then k else 0;
      Shr(v, b) % Pow2(k) != 0 && v == Pow2(b) * Shr(v, b)
  {
    if v % Pow2(k) == 0 {
      Pow2Add(k, k);
      ModMul(v, Pow2(k), Pow2(k));
      ShrSplit(v, k);
    } else {
      Pow2Small();
      ShrSplit(v, 0);
    }
  }

  /** One line of the search, unfolded. */
  lemma CtzUnfold(v: nat, e: nat, b: nat)
    requires 0 < e && b == (if v % Pow2(Pow2(e)) == 0 then Pow2(e) else 0)
    ensures CtzSearch(v, e) == b + CtzSearch(Shr(v, b), e - 1)
  {
  }

  /** A lowest set bit `r'` of `v / 2^b`, when the bits shifted out are
      zero, is the lowest set bit `b + r'` of `v`. */
  lemma CtzShifted(v: nat, b: nat, v': nat, r': nat, r: nat)
    requires v == Pow2(b) * v' && Lowest(v', r') && r == b + r'
    ensures Lowest(v, r)
  {
    var p, q := Pow2(b), Pow2(r');
    assert p * q == Pow2(r) by { Pow2Add(b, r'); }
    assert v / p == v' && v % p == 0 by { ModUnique(v, p, v', 0); }
    ModMul(v, p, q);
    DivDiv(v, p, q);
  }

  /** The count of a value whose low `2^(e+1)` bits are not all zero is the
      position of its lowest set bit. */
  lemma {:induction false} CtzSearchFinds(v: nat, e: nat)
    requires v % Pow2(2 * Pow2(e)) != 0
    ensures Lowest(v, CtzSearch(v, e))
    decreases e
  {
    if e == 0 {
      Pow2Small();
      CtzLast(v);
    } else {
      var k := Pow2(e);
      var b := if v % Pow2(k) == 0 then k else 0;
      CtzLine(v, k);
      assert 2 * Pow2(e - 1) == k;
      CtzSearchFinds(Shr(v, b), e - 1);
      CtzUnfold(v, e, b);
      CtzShifted(v, b, Shr(v, b), CtzSearch(Shr(v, b), e - 1), CtzSearch(v, e));
    }
  }

  /** A zero value counts every line: `2^(e+1) - 1`. */
  lemma {:induction false} CtzSearchZero(e: nat)
    ensures CtzSearch(0, e) == Pow2(e + 1) - 1
    decreases e
  {
    if e > 0 {
      var k := Pow2(e);
      assert Shr(0, k) == 0;
      assert CtzSearch(0, e) == k + CtzSearch(0, e - 1);
      Pow2Succ(e - 1);
      CtzSearchZero(e - 1);
      Pow2Succ(e);
    }
  }

  /** A set bit lies below the width. */
  lemma BitBelow(a: nat, w: nat, r: nat)
    requires a < Pow2(w) && Bit(a, r) == 1
    ensures r < w
  {
    if r >= w {
      Pow2Mono(w, r);
      ModUnique(a, Pow2(r), 0, a);
    }
  }

  /** `__ctzdi2` counts the zero bits below the lowest set bit, and gives
      63 for zero. */
  lemma Ctz64Counts(a: qword)
    ensures a != 0 ==> Ctz64(a) < 64 && a % Pow2(Ctz64(a)) == 0 && Bit(a, Ctz64(a)) == 1
    ensures a == 0 ==> Ctz64(a) == 63
  {
    Pow2Words();
    Pow2Small();
    if a != 0 {
      ModUnique(a, U64, 0, a);
      CtzSearchFinds(a, 5);
      BitBelow(a, 64, Ctz64(a));
    } else {
      CtzSearchZero(5);
    }
  }

  /** `__ctzsi2` counts the zero bits below the lowest set bit, and gives
      31 for zero. */
  lemma Ctz32Counts(a: dword)
    ensures a != 0 ==> Ctz32(a) < 32 && a % Pow2(Ctz32(a)) == 0 && Bit(a, Ctz32(a)) == 1
    ensures a == 0 ==> Ctz32(a) == 31
  {
    Pow2Words();
    Pow2Small();
    if a != 0 {
      ModUnique(a, U32, 0, a);
      CtzSearchFinds(a, 4);
      BitBelow(a, 32, Ctz32(a));
    } else {
      CtzSearchZero(4);
    }
  }

  /** `__ffsdi2` is 0 exactly for 0, and otherwise the 1-based position of
      the lowest set bit. */
  lemma FfsFinds(a: qword)
    ensures Ffs(a) == 0 <==> a == 0
    ensures a != 0 ==> Ffs(a) <= 64 && a % Pow2(Ffs(a) - 1) == 0 && Bit(a, Ffs(a) - 1) == 1
  {
    Ctz64Counts(a);
  }
}
