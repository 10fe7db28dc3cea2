/** The population counts of the legacy 64-bit arithmetic runtime
    (`__popcountsi2` and `__popcountdi2` of `gcc_arithmetics64.c`): the
    number of set bits of a word, computed without a loop by adding bit
    counts side by side in ever wider fields of the word itself.

    The source works on `uint32_t` and `uint64_t` with wrapping arithmetic,
    so the model works on `bv32` and `bv64`; both return a C `int`. Both are
    proved equal to `Ones`, which counts the bits one at a time. */
module Popcount {
  /** The number of set bits among the low `n` bits of `x`, one bit at a
      time. */
  function Ones(x: bv64, n: nat): (r: nat)
    ensures r <= n
  {
    if n == 0 then 0 else Low(x) + Ones(x >> 1, n - 1)
  }

  /** The lowest bit of `x`, as a number. */
  function Low(x: bv64): nat
  {
    if x & 1 == 1 then 1 else 0
  }

  /** The first three lines of `__popcountsi2`, one function per line: each
      2-bit field, then each 4-bit field, then each byte of the result holds
      the number of set bits of that field of `a`. */
  function FieldSums32(a: bv32): bv32
  {
    Bytes32(Nibbles32(Pairs32(a)))
  }

  /** Each 2-bit field replaced by its number of set bits. */
  function Pairs32(a: bv32): bv32
  {
    a - ((a >> 1) & 0x5555_5555)
  }

  /** Each 4-bit field replaced by the sum of its two 2-bit fields. */
  function Nibbles32(p: bv32): bv32
  {
    ((p >> 2) & 0x3333_3333) + (p & 0x3333_3333)
  }

  /** Each byte replaced by the sum of its two 4-bit fields. */
  function Bytes32(q: bv32): bv32
  {
    (q + (q >> 4)) & 0x0F0F_0F0F
  }

  /** The fourth line of `__popcountsi2`: the upper two byte counts added
      onto the lower two. */
  function Halves32(c: bv32): bv32
  {
    c + (c >> 16)
  }

  /** The last line of `__popcountsi2`: the second byte added onto the
      first, and the sum kept to its low six bits. */
  function Last32(e: bv32): bv32
  {
    (e + (e >> 8)) & 63
  }

  /** `__popcountsi2`. */
  function PopCount32(a: bv32): int
  {
    Last32(Halves32(FieldSums32(a))) as int
  }

  /** The first three lines of `__popcountdi2`, as in `FieldSums32`. */
  function FieldSums64(a: bv64): bv64
  {
    Bytes64(Nibbles64(Pairs64(a)))
  }

  function Pairs64(a: bv64): bv64
  {
    a - ((a >> 1) & 0x5555_5555_5555_5555)
  }

  function Nibbles64(p: bv64): bv64
  {
    ((p >> 2) & 0x3333_3333_3333_3333) + (p & 0x3333_3333_3333_3333)
  }

  function Bytes64(q: bv64): bv64
  {
    (q + (q >> 4)) & 0x0F0F_0F0F_0F0F_0F0F
  }

  /** The fourth line of `__popcountdi2`: the upper four byte counts added
      onto the lower four. */
  function Halves64(c: bv64): bv64
  {
    c + (c >> 32)
  }

  /** The fifth line: bytes 2 and 3 added onto bytes 0 and 1. */
  function Quarters64(d: bv64): bv64
  {
    d + (d >> 16)
  }

  /** The last line: byte 1 added onto byte 0, and the sum kept to its low
      seven bits. */
  function Last64(e: bv64): bv64
  {
    (e + (e >> 8)) & 127
  }

  /** `__popcountdi2`. */
  function PopCount64(a: bv64): int
  {
    Last64(Quarters64(Halves64(FieldSums64(a)))) as int
  }

  // The field sums, on bit patterns

  /** The bits of `a` at even positions added to those at odd positions,
      pair by pair: the sum of the two bits of a pair never leaves it. */
  function BitSums64(a: bv64): bv64
  {
    (a & 0x5555_5555_5555_5555) + ((a >> 1) & 0x5555_5555_5555_5555)
  }

  function BitSums32(a: bv32): bv32
  {
    (a & 0x5555_5555) + ((a >> 1) & 0x5555_5555)
  }

  /** The subtraction of the first line counts the bits of each pair. */
  lemma PairsAdd(a: bv64)
    ensures Pairs64(a) == BitSums64(a)
  {
  }

  lemma PairsAdd32(a: bv32)
    ensures Pairs32(a) == BitSums32(a)
  {
  }

  /** The low byte of the field sums is the sum of the low eight bits. */
  lemma LowByte(a: bv64)
    ensures FieldSums64(a) & 0xFF == (a & 1) + ((a >> 1) & 1) + ((a >> 2) & 1) + ((a >> 3) & 1) + ((a >> 4) & 1) + ((a >> 5) & 1) + ((a >> 6) & 1) + ((a >> 7) & 1)
  {
  }

  /** The field sums never carry from one byte into the next: shifting the
      word by a byte shifts its field sums by a byte. */
  lemma FieldSumsShift(a: bv64)
    ensures FieldSums64(a) >> 8 == FieldSums64(a >> 8)
  {
    PairsNibblesShift(a);
    BytesShift(Pairs64(a));
  }

  lemma PairsNibblesShift(a: bv64)
    ensures Nibbles64(Pairs64(a >> 8)) == Nibbles64(Pairs64(a)) >> 8
  {
    PairsShift(a);
    NibblesShift(Pairs64(a));
  }

  lemma PairsShift(a: bv64)
    ensures Pairs64(a >> 8) == Pairs64(a) >> 8
  {
    PairsAdd(a);
    PairsAdd(a >> 8);
    BitSumsShift(a);
  }

  lemma BitSumsShift(a: bv64)
    ensures BitSums64(a >> 8) == BitSums64(a) >> 8
  {
  }

  lemma NibblesShift(p: bv64)
    ensures Nibbles64(p >> 8) == Nibbles64(p) >> 8
  {
  }

  /** No 4-bit field sum reaches 8, so no byte sum carries. */
  lemma BytesShift(p: bv64)
    ensures Bytes64(Nibbles64(p) >> 8) == Bytes64(Nibbles64(p)) >> 8
  {
  }

  /** Every byte of the field sums is at most 8. */
  lemma FieldSumsBounds(a: bv64)
    ensures Small8(FieldSums64(a))
  {
  }

  lemma FieldSumsSmall32(a: bv32)
    ensures FieldSums32(a) & 0xF0F0_F0F0 == 0
  {
  }

  /** A 32-bit word zero-extended to 64 bits. */
  function Widen(x: bv32): bv64
  {
    x as bv64
  }

  /** On a 32-bit word the two widths compute the same field sums. */
  lemma FieldSumsWiden(a: bv32)
    ensures Widen(FieldSums32(a)) == FieldSums64(Widen(a))
  {
    PairsNibblesWiden(a);
    BytesWiden(Pairs32(a));
  }

  lemma PairsNibblesWiden(a: bv32)
    ensures Widen(Nibbles32(Pairs32(a))) == Nibbles64(Pairs64(Widen(a)))
  {
    PairsWiden(a);
    NibblesWiden(Pairs32(a));
  }

  lemma PairsWiden(a: bv32)
    ensures Widen(Pairs32(a)) == Pairs64(Widen(a))
  {
    PairsAdd32(a);
    PairsAdd(Widen(a));
    BitSumsWiden(a);
  }

  lemma BitSumsWiden(a: bv32)
    ensures Widen(BitSums32(a)) == BitSums64(Widen(a))
  {
  }

  lemma NibblesWiden(p: bv32)
    ensures Widen(Nibbles32(p)) == Nibbles64(Widen(p))
  {
  }

  lemma BytesWiden(p: bv32)
    ensures Widen(Bytes32(Nibbles32(p))) == Bytes64(Widen(Nibbles32(p)))
  {
    BytesWidenBits(p);
  }

  lemma BytesWidenBits(p: bv32)
    ensures Bytes32(Nibbles32(p)) as bv64 == Bytes64(Nibbles32(p) as bv64)
  {
  }

  // The byte counts added up

  /** Every byte of `c` is at most 8. */
  predicate Small8(c: bv64)
  {
    c & 0xFF <= 8 && (c >> 8) & 0xFF <= 8 && (c >> 16) & 0xFF <= 8 && (c >> 24) & 0xFF <= 8 &&
    (c >> 32) & 0xFF <= 8 && (c >> 40) & 0xFF <= 8 && (c >> 48) & 0xFF <= 8 && (c >> 56) & 0xFF <= 8
  }

  /** Each of the low four bytes of `c` is at most 16. */
  predicate Small16(c: bv64)
  {
    c & 0xFF <= 16 && (c >> 8) & 0xFF <= 16 && (c >> 16) & 0xFF <= 16 && (c >> 24) & 0xFF <= 16
  }

  /** Each of the low two bytes of `c` is at most 32. */
  predicate Small32(c: bv64)
  {
    c & 0xFF <= 32 && (c >> 8) & 0xFF <= 32
  }

  /** The eight bytes of `c` as numbers, added. */
  function Lanes8(c: bv64): nat
  {
    Lanes4(c) + ((c >> 32) & 0xFF) as int + ((c >> 40) & 0xFF) as int + ((c >> 48) & 0xFF) as int + ((c >> 56) & 0xFF) as int
  }

  function Lanes4(c: bv64): nat
  {
    Lanes2(c) + ((c >> 16) & 0xFF) as int + ((c >> 24) & 0xFF) as int
  }

  function Lanes2(c: bv64): nat
  {
    (c & 0xFF) as int + ((c >> 8) & 0xFF) as int
  }

  /** The last three lines of `__popcountdi2` add the eight bytes of their
      input, as long as no byte exceeds 8. */
  lemma AddBytes64(c: bv64)
    requires Small8(c)
    ensures Last64(Quarters64(Halves64(c))) as int == Lanes8(c)
  {
    HalvesSum(c);
    AfterHalves(c);
  }

  lemma AfterHalves(c: bv64)
    requires Small8(c)
    ensures Last64(Quarters64(Halves64(c))) as int == Lanes4(Halves64(c))
  {
    HalvesSmall(c);
    AfterQuarters(Halves64(c));
  }

  lemma AfterQuarters(d: bv64)
    requires Small16(d)
    ensures Last64(Quarters64(d)) as int == Lanes4(d)
  {
    QuartersSum(d);
    LastSum(Quarters64(d));
  }

  lemma HalvesSum(c: bv64)
    requires Small8(c)
    ensures Lanes4(Halves64(c)) == Lanes8(c)
  {
    HalvesLanes(c);
    var h := Halves64(c);
    Regroup((c & 0xFF) as int, ((c >> 8) & 0xFF) as int, ((c >> 16) & 0xFF) as int, ((c >> 24) & 0xFF) as int,
      ((c >> 32) & 0xFF) as int, ((c >> 40) & 0xFF) as int, ((c >> 48) & 0xFF) as int, ((c >> 56) & 0xFF) as int,
      (h & 0xFF) as int, ((h >> 8) & 0xFF) as int, ((h >> 16) & 0xFF) as int, ((h >> 24) & 0xFF) as int);
  }

  lemma Regroup(a0: int, a1: int, a2: int, a3: int, a4: int, a5: int, a6: int, a7: int, b0: int, b1: int, b2: int, b3: int)
    requires b0 == a0 + a4 && b1 == a1 + a5 && b2 == a2 + a6 && b3 == a3 + a7
    ensures b0 + b1 + b2 + b3 == a0 + a1 + a2 + a3 + a4 + a5 + a6 + a7
  {
  }

  lemma HalvesLanes(c: bv64)
    requires Small8(c)
    ensures var h := Halves64(c);
      (h & 0xFF) as int == (c & 0xFF) as int + ((c >> 32) & 0xFF) as int &&
      ((h >> 8) & 0xFF) as int == ((c >> 8) & 0xFF) as int + ((c >> 40) & 0xFF) as int &&
      ((h >> 16) & 0xFF) as int == ((c >> 16) & 0xFF) as int + ((c >> 48) & 0xFF) as int &&
      ((h >> 24) & 0xFF) as int == ((c >> 24) & 0xFF) as int + ((c >> 56) & 0xFF) as int
  {
  }

  lemma HalvesSmall(c: bv64)
    requires Small8(c)
    ensures Small16(Halves64(c))
  {
  }

  lemma QuartersSum(d: bv64)
    requires Small16(d)
    ensures Lanes2(Quarters64(d)) == Lanes4(d) && Small32(Quarters64(d))
  {
    QuartersLanes(d);
    QuartersSmall(d);
  }

  lemma QuartersLanes(d: bv64)
    requires Small16(d)
    ensures var q := Quarters64(d);
      (q & 0xFF) as int == (d & 0xFF) as int + ((d >> 16) & 0xFF) as int &&
      ((q >> 8) & 0xFF) as int == ((d >> 8) & 0xFF) as int + ((d >> 24) & 0xFF) as int
  {
  }

  lemma QuartersSmall(d: bv64)
    requires Small16(d)
    ensures Small32(Quarters64(d))
  {
  }

  lemma LastSum(e: bv64)
    requires Small32(e)
    ensures Last64(e) as int == Lanes2(e)
  {
  }

  // Counting bits one at a time

  /** The low eight bits of `x`, each as a number, added. */
  function LowEight(x: bv64): nat
  {
    Low(x) + Low(x >> 1) + Low(x >> 2) + Low(x >> 3) + Low(x >> 4) + Low(x >> 5) + Low(x >> 6) + Low(x >> 7)
  }

  /** Counting `8 + n` bits is counting the low eight, then `n` more above
      them. */
  lemma OnesEight(x: bv64, n: nat)
    ensures Ones(x, 8 + n) == LowEight(x) + Ones(x >> 8, n)
  {
    ShiftSteps(x);
    assert Ones(x, 8 + n) == Low(x) + Ones(x >> 1, 7 + n);
    assert Ones(x >> 1, 7 + n) == Low(x >> 1) + Ones(x >> 2, 6 + n);
    assert Ones(x >> 2, 6 + n) == Low(x >> 2) + Ones(x >> 3, 5 + n);
    assert Ones(x >> 3, 5 + n) == Low(x >> 3) + Ones(x >> 4, 4 + n);
    assert Ones(x >> 4, 4 + n) == Low(x >> 4) + Ones(x >> 5, 3 + n);
    assert Ones(x >> 5, 3 + n) == Low(x >> 5) + Ones(x >> 6, 2 + n);
    assert Ones(x >> 6, 2 + n) == Low(x >> 6) + Ones(x >> 7, 1 + n);
    assert Ones(x >> 7, 1 + n) == Low(x >> 7) + Ones(x >> 8, n);
  }

  /** Shifting by one more bit, seven times over. */
  lemma ShiftSteps(x: bv64)
    ensures (x >> 1) >> 1 == x >> 2 && (x >> 2) >> 1 == x >> 3 && (x >> 3) >> 1 == x >> 4 && (x >> 4) >> 1 == x >> 5
    ensures (x >> 5) >> 1 == x >> 6 && (x >> 6) >> 1 == x >> 7 && (x >> 7) >> 1 == x >> 8
  {
  }

  /** Eight one-bit patterns add up to the number of ones among them. */
  lemma LowsAdd(y: bv64)
    ensures ((y & 1) + ((y >> 1) & 1) + ((y >> 2) & 1) + ((y >> 3) & 1) + ((y >> 4) & 1) + ((y >> 5) & 1) + ((y >> 6) & 1) + ((y >> 7) & 1)) as int == LowEight(y)
  {
  }

  /** The low byte of the field sums, as a number, counts the set bits of
      the low byte of the word. */
  lemma LowByteCount(a: bv64)
    ensures (FieldSums64(a) & 0xFF) as int == LowEight(a)
  {
    LowByte(a);
    LowsAdd(a);
  }

  /** Counting the low byte, then `n` more bits above it. */
  lemma LaneStep(a: bv64, n: nat)
    ensures (FieldSums64(a) & 0xFF) as int + Ones(a >> 8, n) == Ones(a, 8 + n)
  {
    LowByteCount(a);
    OnesEight(a, n);
  }

  /** The bytes of `c`, low byte first, as numbers, added over the low `k`
      bytes. */
  function ByteTotal(c: bv64, k: nat): nat
  {
    if k == 0 then 0 else (c & 0xFF) as int + ByteTotal(c >> 8, k - 1)
  }

  /** The low `k` bytes of the field sums count the set bits of the low `k`
      bytes of the word. */
  lemma {:induction false} LanesCount(a: bv64, k: nat)
    ensures ByteTotal(FieldSums64(a), k) == Ones(a, 8 * k)
  {
    if k > 0 {
      ByteTotalShift(a, k - 1);
      LanesCount(a >> 8, k - 1);
      LaneStep(a, 8 * (k - 1));
    }
  }

  lemma ByteTotalShift(a: bv64, k: nat)
    ensures ByteTotal(FieldSums64(a), k + 1) == (FieldSums64(a) & 0xFF) as int + ByteTotal(FieldSums64(a >> 8), k)
  {
    FieldSumsShift(a);
  }

  lemma ByteTotalLanes(c: bv64)
    ensures ByteTotal(c, 8) == Lanes8(c)
  {
    ByteShifts(c);
    assert ByteTotal(c, 8) == (c & 0xFF) as int + ByteTotal(c >> 8, 7);
    assert ByteTotal(c >> 8, 7) == ((c >> 8) & 0xFF) as int + ByteTotal(c >> 16, 6);
    assert ByteTotal(c >> 16, 6) == ((c >> 16) & 0xFF) as int + ByteTotal(c >> 24, 5);
    assert ByteTotal(c >> 24, 5) == ((c >> 24) & 0xFF) as int + ByteTotal(c >> 32, 4);
    assert ByteTotal(c >> 32, 4) == ((c >> 32) & 0xFF) as int + ByteTotal(c >> 40, 3);
    assert ByteTotal(c >> 40, 3) == ((c >> 40) & 0xFF) as int + ByteTotal(c >> 48, 2);
    assert ByteTotal(c >> 48, 2) == ((c >> 48) & 0xFF) as int + ByteTotal(c >> 56, 1);
    assert ByteTotal(c >> 56, 1) == ((c >> 56) & 0xFF) as int;
  }

  lemma ByteTotalLanes4(c: bv64)
    ensures ByteTotal(c, 4) == Lanes4(c)
  {
    ByteShifts(c);
    assert ByteTotal(c, 4) == (c & 0xFF) as int + ByteTotal(c >> 8, 3);
    assert ByteTotal(c >> 8, 3) == ((c >> 8) & 0xFF) as int + ByteTotal(c >> 16, 2);
    assert ByteTotal(c >> 16, 2) == ((c >> 16) & 0xFF) as int + ByteTotal(c >> 24, 1);
    assert ByteTotal(c >> 24, 1) == ((c >> 24) & 0xFF) as int;
  }

  lemma ByteShifts(c: bv64)
    ensures (c >> 8) >> 8 == c >> 16 && (c >> 16) >> 8 == c >> 24 && (c >> 24) >> 8 == c >> 32
    ensures (c >> 32) >> 8 == c >> 40 && (c >> 40) >> 8 == c >> 48 && (c >> 48) >> 8 == c >> 56
  {
  }

  /** The bytes of the field sums, added, count the set bits of the word. */
  lemma LanesOnes(a: bv64)
    ensures Lanes8(FieldSums64(a)) == Ones(a, 64)
  {
    ByteTotalLanes(FieldSums64(a));
    LanesCount(a, 8);
  }

  /** `__popcountdi2` adds the bytes of its field sums. */
  lemma PopCountLanes(a: bv64)
    ensures PopCount64(a) == Lanes8(FieldSums64(a))
  {
    FieldSumsBounds(a);
    AddBytes64(FieldSums64(a));
  }

  /** `__popcountdi2` returns the number of set bits of its argument. */
  lemma PopCount64Ones(a: bv64)
    ensures PopCount64(a) == Ones(a, 64)
  {
    PopCountLanes(a);
    LanesOnes(a);
  }

  /** On a 32-bit word whose bytes are below 16, the last two lines of
      `__popcountsi2` compute what the last three of `__popcountdi2` compute
      on the word zero-extended. */
  lemma AddWiden(c: bv32)
    requires c & 0xF0F0_F0F0 == 0
    ensures Last32(Halves32(c)) as int == Last64(Quarters64(Halves64(Widen(c)))) as int
  {
    LastWiden(c);
    WidenValue(Last32(Halves32(c)));
  }

  lemma LastWiden(c: bv32)
    requires c & 0xF0F0_F0F0 == 0
    ensures Widen(Last32(Halves32(c))) == Last64(Quarters64(Halves64(Widen(c))))
  {
    HalvesWiden(c);
    LastWidenBits(c);
  }

  /** The upper half of a zero-extended word is zero. */
  lemma HalvesWiden(c: bv32)
    ensures Halves64(Widen(c)) == Widen(c)
  {
  }

  lemma LastWidenBits(c: bv32)
    requires c & 0xF0F0_F0F0 == 0
    ensures Last32(Halves32(c)) as bv64 == Last64(Quarters64(c as bv64))
  {
  }

  lemma WidenValue(x: bv32)
    requires x < 64
    ensures Widen(x) as int == x as int
  {
  }

  /** `__popcountsi2` agrees with `__popcountdi2` on the zero-extended
      word. */
  lemma PopCountWidths(a: bv32)
    ensures PopCount32(a) == PopCount64(Widen(a))
  {
    FieldSumsSmall32(a);
    FieldSumsWiden(a);
    AddWiden(FieldSums32(a));
  }

  /** The upper four bytes of a zero-extended word add nothing. */
  lemma HighLanes(c: bv32)
    ensures Lanes8(Widen(c)) == Lanes4(Widen(c))
  {
  }

  /** The field sums of a zero-extended word, added, count its low 32 bits. */
  lemma LanesOnes32(a: bv32)
    ensures Lanes4(FieldSums64(Widen(a))) == Ones(Widen(a), 32)
  {
    ByteTotalLanes4(FieldSums64(Widen(a)));
    LanesCount(Widen(a), 4);
  }

  /** `__popcountsi2` adds the low four bytes of the 64-bit field sums. */
  lemma PopCount32Lanes(a: bv32)
    ensures PopCount32(a) == Lanes4(FieldSums64(Widen(a)))
  {
    PopCountWidths(a);
    WidenLanes(a);
  }

  lemma WidenLanes(a: bv32)
    ensures PopCount64(Widen(a)) == Lanes4(FieldSums64(Widen(a)))
  {
    PopCountLanes(Widen(a));
    HighFieldSums(a);
  }

  lemma HighFieldSums(a: bv32)
    ensures Lanes8(FieldSums64(Widen(a))) == Lanes4(FieldSums64(Widen(a)))
  {
    FieldSumsWiden(a);
    HighLanes(FieldSums32(a));
  }

  /** `__popcountsi2` returns the number of set bits of its argument. */
  lemma PopCount32Ones(a: bv32)
    ensures PopCount32(a) == Ones(Widen(a), 32)
  {
    PopCount32Lanes(a);
    LanesOnes32(a);
  }
}
