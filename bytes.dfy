/** Machine words and a flat, byte-addressed memory.

    Memory is a sequence of bytes indexed by physical address. A read at an
    address the sequence does not cover yields 0, and a write there is
    dropped; every walk over memory in the bootloader (string scans, archive
    headers, import tables) therefore ends at the top of memory. */
module Bytes {

  type byte = x: int | 0 <= x < 0x100
  type word = x: int | 0 <= x < 0x1_0000
  type dword = x: int | 0 <= x < 0x1_0000_0000
  type qword = x: int | 0 <= x < 0x1_0000_0000_0000_0000

  const U8: nat := 0x100
  const U16: nat := 0x1_0000
  const U32: nat := 0x1_0000_0000
  const U64: nat := 0x1_0000_0000_0000_0000

  /** 2^n */
  function Pow2(n: nat): (r: nat)
    ensures r >= 1
  {
    if n == 0 then 1 else 2 * Pow2(n - 1)
  }

  /** The byte at address `a`; absent memory reads as zero. */
  function At(mem: seq<byte>, a: int): byte
  {
    if 0 <= a < |mem| then mem[a] else 0
  }

  /** Memory after storing `v` at address `a`; a store outside memory is dropped. */
  function Store(mem: seq<byte>, a: int, v: byte): (r: seq<byte>)
    ensures |r| == |mem|
    ensures forall k :: 0 <= k < |mem| ==> r[k] == if k == a then v else mem[k]
  {
    if 0 <= a < |mem| then mem[a := v] else mem
  }

  /** The `n` bytes at `a` */
  function Slice(mem: seq<byte>, a: int, n: nat): (r: seq<byte>)
    ensures |r| == n
    ensures forall k :: 0 <= k < n ==> r[k] == At(mem, a + k)
    decreases n
  {
    if n == 0 then [] else [At(mem, a)] + Slice(mem, a + 1, n - 1)
  }

  /** The little-endian unsigned value of the `n` bytes at `a`. */
  function LE(mem: seq<byte>, a: int, n: nat): (r: nat)
    ensures r < Pow2(8 * n)
    decreases n
  {
    if n == 0 then 0
    else
      assert Pow2(8 * n) == 256 * Pow2(8 * (n - 1)) by { Pow2Bytes(n - 1); }
      At(mem, a) + 256 * LE(mem, a + 1, n - 1)
  }

  function LE16(mem: seq<byte>, a: int): word { assert Pow2(16) == U16 by { Pow2Values(); } LE(mem, a, 2) }
  function LE32(mem: seq<byte>, a: int): dword { assert Pow2(32) == U32 by { Pow2Values(); } LE(mem, a, 4) }
  function LE64(mem: seq<byte>, a: int): qword { assert Pow2(64) == U64 by { Pow2Values(); } LE(mem, a, 8) }

  /** The `n` little-endian bytes of `v` (higher bits are dropped). */
  function Encode(v: nat, n: nat): (r: seq<byte>)
    ensures |r| == n
  {
    if n == 0 then [] else [v % 256] + Encode(v / 256, n - 1)
  }

  /** Memory after writing the bytes `b` from address `a` upwards. */
  function Write(mem: seq<byte>, a: int, b: seq<byte>): (r: seq<byte>)
    ensures |r| == |mem|
    ensures forall k :: 0 <= k < |mem| ==> r[k] == if a <= k < a + |b| then b[k - a] else mem[k]
  {
    seq(|mem|, k requires 0 <= k < |mem| => if a <= k < a + |b| then b[k - a] else mem[k])
  }

  /** `n` zero bytes */
  function Zeros(n: nat): (r: seq<byte>)
    ensures |r| == n && forall k :: 0 <= k < n ==> r[k] == 0
  {
    seq(n, _ => 0)
  }

  /** True when the sequence holds only zeros */
  predicate AllZero(s: seq<byte>)
  {
    forall k :: 0 <= k < |s| ==> s[k] == 0
  }

  lemma Pow2Bytes(n: nat)
    ensures Pow2(8 * (n + 1)) == 256 * Pow2(8 * n)
  {
    var m := 8 * n;
    assert Pow2(m + 8) == 256 * Pow2(m) by {
      assert Pow2(m + 8) == 2 * Pow2(m + 7) == 4 * Pow2(m + 6) == 8 * Pow2(m + 5);
      assert Pow2(m + 5) == 2 * Pow2(m + 4) == 4 * Pow2(m + 3) == 8 * Pow2(m + 2);
      assert Pow2(m + 2) == 2 * Pow2(m + 1) == 4 * Pow2(m);
    }
  }

  lemma Pow2Add(a: nat, b: nat)
    ensures Pow2(a + b) == Pow2(a) * Pow2(b)
  {
    if a > 0 { Pow2Add(a - 1, b); }
  }

  lemma Pow2Values()
    ensures Pow2(8) == U8 && Pow2(16) == U16 && Pow2(32) == U32 && Pow2(64) == U64
  {
    assert Pow2(8) == U8;
    assert Pow2(16) == U16;
    Pow2Add(16, 16);
    Pow2Add(32, 32);
  }

  lemma Pow2Qword()
    ensures Pow2(64) == U64
  {
    Pow2Values();
  }

  /** Reading back what was encoded gives the value modulo 2^(8n). */
  lemma {:induction false} EncodeRoundTrip(mem: seq<byte>, a: nat, v: nat, n: nat)
    requires a + n <= |mem|
    ensures LE(Write(mem, a, Encode(v, n)), a, n) == v % Pow2(8 * n)
    decreases n
  {
    if n > 0 {
      var m := Write(mem, a, Encode(v, n));
      var m' := Write(mem, a + 1, Encode(v / 256, n - 1));
      EncodeRoundTrip(mem, a + 1, v / 256, n - 1);
      assert LE(m, a + 1, n - 1) == LE(m', a + 1, n - 1) by { LEFrame(m, m', a + 1, n - 1); }
      Pow2Bytes(n - 1);
      ModSplit(v, Pow2(8 * (n - 1)));
    }
  }

  lemma ModSplit(v: nat, p: nat)
    requires p > 0
    ensures v % (256 * p) == v % 256 + 256 * ((v / 256) % p)
  {
    var q := v / 256;
    var r := v % 256 + 256 * (q % p);
    assert v == 256 * q + v % 256;
    assert q == p * (q / p) + q % p;
    assert v == (256 * p) * (q / p) + r;
    assert 256 * (q % p) <= 256 * (p - 1);
    ModUnique(v, 256 * p, q / p, r);
  }

  lemma ModUnique(v: int, d: int, k: int, r: int)
    requires d > 0 && v == d * k + r && 0 <= r < d
    ensures v % d == r && v / d == k
  {
    var k', r' := v / d, v % d;
    assert v == d * k' + r';
    assert d * (k - k') == r' - r by { MulSub(d, k, k'); }
    MulBetween(d, k - k');
  }

  lemma MulBetween(d: int, x: int)
    requires d > 0 && -d < d * x < d
    ensures x == 0
  {
    if x >= 1 {
      MulAtLeast(d, x);
    } else if x <= -1 {
      MulAtLeast(d, -x);
    }
  }

  lemma MulSub(d: int, x: int, y: int)
    ensures d * (x - y) == d * x - d * y
  {
  }

  lemma MulAtLeast(d: int, x: int)
    requires d > 0 && x >= 1
    ensures d * x >= d
  {
  }

  /** Bitwise OR of two naturals. */
  function Or(a: nat, b: nat): (r: nat)
    decreases a + b
  {
    if a == 0 then b
    else if b == 0 then a
    else (if a % 2 == 1 || b % 2 == 1 then 1 else 0) + 2 * Or(a / 2, b / 2)
  }

  /** Bitwise AND of two naturals. */
  function And(a: nat, b: nat): (r: nat)
    decreases a + b
  {
    if a == 0 || b == 0 then 0
    else (if a % 2 == 1 && b % 2 == 1 then 1 else 0) + 2 * And(a / 2, b / 2)
  }

  /** Bitwise exclusive OR of two naturals. */
  function Xor(a: nat, b: nat): (r: nat)
    decreases a + b
  {
    if a == 0 then b
    else if b == 0 then a
    else (if a % 2 != b % 2 then 1 else 0) + 2 * Xor(a / 2, b / 2)
  }

  /** XOR with a mask of `k` ones complements a number below 2^k. */
  lemma {:induction false} XorOnes(a: nat, k: nat)
    requires a < Pow2(k)
    ensures Xor(a, Pow2(k) - 1) == Pow2(k) - 1 - a
    decreases k
  {
    if a != 0 {
      assert (Pow2(k) - 1) / 2 == Pow2(k - 1) - 1;
      XorOnes(a / 2, k - 1);
    }
  }

  /** AND with a mask of `k` ones keeps a number below 2^k. */
  lemma {:induction false} AndOnes(a: nat, k: nat)
    requires a < Pow2(k)
    ensures And(a, Pow2(k) - 1) == a
    decreases k
  {
    if a != 0 {
      assert (Pow2(k) - 1) / 2 == Pow2(k - 1) - 1;
      AndOnes(a / 2, k - 1);
    }
  }

  /** The OR of two numbers below 2^k is below 2^k. */
  lemma {:induction false} OrBelow(a: nat, b: nat, k: nat)
    requires a < Pow2(k) && b < Pow2(k)
    ensures Or(a, b) < Pow2(k)
    decreases k
  {
    if a != 0 && b != 0 {
      OrBelow(a / 2, b / 2, k - 1);
    }
  }

  /** Setting bits below the lowest set bit of `Pow2(k) * a` adds them. */
  lemma {:induction false} OrLow(a: nat, t: nat, k: nat)
    requires t < Pow2(k)
    ensures Or(Pow2(k) * a, t) == Pow2(k) * a + t
    decreases k
  {
    if k > 0 && a != 0 && t != 0 {
      var h := Pow2(k - 1) * a;
      assert Pow2(k) * a == 2 * h;
      OrLow(a, t / 2, k - 1);
      assert Or(2 * h, t) == t % 2 + 2 * Or(h, t / 2);
    }
  }

  /** The same with the operands of the OR swapped. */
  lemma {:induction false} OrHigh(a: nat, t: nat, k: nat)
    requires t < Pow2(k)
    ensures Or(t, Pow2(k) * a) == Pow2(k) * a + t
    decreases k
  {
    if k > 0 && a != 0 && t != 0 {
      var h := Pow2(k - 1) * a;
      assert Pow2(k) * a == 2 * h;
      OrHigh(a, t / 2, k - 1);
      assert Or(t, 2 * h) == t % 2 + 2 * Or(t / 2, h);
    }
  }

  /** A little-endian read depends only on the bytes it covers. */
  lemma {:induction false} LEFrame(m1: seq<byte>, m2: seq<byte>, a: int, n: nat)
    requires forall k :: a <= k < a + n ==> At(m1, k) == At(m2, k)
    ensures LE(m1, a, n) == LE(m2, a, n)
    decreases n
  {
    if n > 0 { LEFrame(m1, m2, a + 1, n - 1); }
  }
}

/** An optional value, standing for a pointer that may be NULL. */
module Wrappers {
  datatype Option<T> = None | Some(value: T)
}
