/** The ustar archive reader of the third stage (`ramfs.c`).

    The third stage runs in 32-bit protected mode, so `size_t` and
    pointers are 32 bits wide.

    The archive is a run of 512-byte headers in the ustar layout of the pax
    utility of IEEE Std 1003.1: the file name at offset 0, the size as octal
    text at offset 124, the magic "ustar" at offset 257. Each header is
    followed by the file's data rounded up to whole 512-byte blocks, and the
    archive ends at the first header whose magic does not match. */
module Ramfs {
  import opened Bytes
  import opened Wrappers
  import Strings

  const BLOCK: nat := 512
  const SIZE_OFFSET: nat := 124
  const MAGIC_OFFSET: nat := 257

  /** A `char` of the archive as the signed value C adds to the sum. */
  function SChar(c: byte): (r: int)
    ensures -0x80 <= r < 0x80 && (r - c) % U8 == 0
  {
    if c < 0x80 then c else c - U8
  }

  /** `_str_oct_to_dec` on the characters before the NUL: `ret * 8 + c -
      '0'` per character, in 32-bit `size_t` arithmetic. */
  function Oct(s: seq<byte>): (r: dword)
  {
    if |s| == 0 then 0 else (Oct(s[..|s| - 1]) * 8 + SChar(s[|s| - 1]) - '0' as int) % U32
  }

  /** The same sum in exact arithmetic. */
  function OctValue(s: seq<byte>): int
  {
    if |s| == 0 then 0 else OctValue(s[..|s| - 1]) * 8 + SChar(s[|s| - 1]) - '0' as int
  }

  /** The 32-bit result is the exact sum reduced modulo 2^32. */
  lemma {:induction false} OctWraps(s: seq<byte>)
    ensures Oct(s) == OctValue(s) % U32
  {
    if |s| > 0 {
      var p := s[..|s| - 1];
      OctWraps(p);
      var d := SChar(s[|s| - 1]) - '0' as int;
      ModSplit8(OctValue(p), d);
    }
  }

  /** `(x mod 2^32) * 8 + d` and `x * 8 + d` agree modulo 2^32. */
  lemma ModSplit8(x: int, d: int)
    ensures (x % U32 * 8 + d) % U32 == (x * 8 + d) % U32
  {
    var q := x / U32;
    assert x * 8 + d == x % U32 * 8 + d + U32 * (8 * q);
  }

  /** Every character is an octal digit. */
  predicate OctDigits(s: seq<byte>)
  {
    forall k :: 0 <= k < |s| ==> '0' as int <= s[k] <= '7' as int
  }

  /** 8^n */
  function Pow8(n: nat): (r: nat)
    ensures r >= 1
  {
    if n == 0 then 1 else 8 * Pow8(n - 1)
  }

  /** The positional value of a digit string: the sum of digit * 8^k, the
      last digit having weight 1. */
  function Positional(s: seq<byte>): int
  {
    if |s| == 0 then 0 else (s[0] - '0' as int) * Pow8(|s| - 1) + Positional(s[1..])
  }

  /** Folding the digits from the left gives their positional value, which
      is below 8^|s|. */
  lemma {:induction false} OctPositional(s: seq<byte>)
    requires OctDigits(s)
    ensures OctValue(s) == Positional(s)
    ensures 0 <= OctValue(s) < Pow8(|s|)
  {
    if |s| > 0 {
      var p := s[..|s| - 1];
      OctPositional(p);
      PositionalSnoc(p, s[|s| - 1]);
      assert p + [s[|s| - 1]] == s;
    }
  }

  /** Appending a digit multiplies the positional value by 8 and adds it. */
  lemma {:induction false} PositionalSnoc(p: seq<byte>, c: byte)
    requires OctDigits(p) && '0' as int <= c <= '7' as int
    ensures Positional(p + [c]) == Positional(p) * 8 + (c - '0' as int)
  {
    if |p| > 0 {
      var q := p + [c];
      assert q[0] == p[0] && q[1..] == p[1..] + [c];
      PositionalSnoc(p[1..], c);
      var w := Pow8(|p| - 1);
      assert Pow8(|q| - 1) == 8 * w;
      Shift8(p[0] - '0' as int, w, Positional(p[1..]), c - '0' as int);
    }
  }

  /** The arithmetic step of `PositionalSnoc`. */
  lemma Shift8(d: int, w: int, r: int, e: int)
    ensures d * (8 * w) + (r * 8 + e) == (d * w + r) * 8 + e
  {
  }

  /** A field of octal digits decodes to its positional value modulo
      2^32; with at most 10 digits nothing is lost. The 11 digits a ustar
      size field can hold may encode more than 2^32 - 1, and those high bits
      are dropped. */
  lemma OctDecodes(s: seq<byte>)
    requires OctDigits(s)
    ensures Oct(s) == Positional(s) % U32
    ensures |s| <= 10 ==> Oct(s) == Positional(s)
  {
    OctPositional(s);
    OctWraps(s);
    if |s| <= 10 {
      Pow8Mono(|s|, 10);
      assert Pow8(10) == 0x4000_0000;
      ModUnique(Positional(s), U32, 0, Positional(s));
    }
  }

  /** 8^a <= 8^b for a <= b. */
  lemma {:induction false} Pow8Mono(a: nat, b: nat)
    requires a <= b
    ensures Pow8(a) <= Pow8(b)
    decreases b
  {
    if a < b {
      Pow8Mono(a, b - 1);
    }
  }

  /** C's `/` on `int`: the quotient truncated toward zero. */
  function CDiv(a: int, d: nat): (r: int)
    requires d > 0
    ensures a >= 0 ==> r == a / d
    ensures a < 0 ==> r == -((-a) / d)
  {
    if a >= 0 then a / d else -((-a) / d)
  }

  /** `_align512` as written: the size goes through a cast to a 32-bit
      `int` before it is rounded, and the result is widened back to
      `size_t`. The arithmetic on `int` is taken exactly. */
  function Align512AsWritten(val: dword): (r: dword)
    ensures val == 0 ==> r == 0
  {
    if val == 0 then 0 else (CDiv(Strings.Int32(val) - 1, BLOCK) * BLOCK + BLOCK) % U32
  }

  /** A size of 2^31 + 2 bytes is rounded up to 0x8000_0400, one block
      more than the least multiple of 512 not below it. */
  lemma Align512LargeSize()
    ensures Align512AsWritten(0x8000_0002) == 0x8000_0400
    ensures Align512(0x8000_0002) == 0x8000_0200
  {
    assert Strings.Int32(0x8000_0002) == -0x7FFF_FFFE;
  }

  /** Above 2^31 the cast to `int` makes the size negative, C's division
      then rounds toward zero instead of down, and the result overshoots by
      one block whenever `val - 1` is not a multiple of 512. */
  lemma Align512Overshoots(val: dword)
    requires 0x8000_0000 < val <= U32 - BLOCK && (val - 1) % BLOCK != 0
    ensures Align512AsWritten(val) == (Align512(val) + BLOCK) % U32
  {
    var q := (val - 1) / BLOCK;
    var c := CDiv(Strings.Int32(val) - 1, BLOCK);
    OvershootQuotient(val, q);
    var a := BLOCK * (q + 2);
    OvershootSum(q, c, a);
    assert Align512(val) + BLOCK == a by {
      assert q * BLOCK + BLOCK < U32;
      ModUnique(q * BLOCK + BLOCK, U32, 0, q * BLOCK + BLOCK);
    }
    ModUnique(a - U32, U32, a / U32 - 1, a % U32);
  }

  /** Past 2^31 C's division of the negative `int` rounds up where the
      division of the size rounds down. */
  lemma OvershootQuotient(val: dword, q: nat)
    requires 0x8000_0000 < val && (val - 1) % BLOCK != 0 && q == (val - 1) / BLOCK
    ensures CDiv(Strings.Int32(val) - 1, BLOCK) == q + 1 - 0x80_0000
  {
    var x := val - 1 - U32;
    assert Strings.Int32(val) - 1 == x;
    var r := (val - 1) % BLOCK;
    assert U32 == BLOCK * 0x80_0000;
    assert (-x) == BLOCK * (0x80_0000 - q - 1) + (BLOCK - r);
    ModUnique(-x, BLOCK, 0x80_0000 - q - 1, BLOCK - r);
  }

  /** The rounded `int`, one block further on, is `a` less 2^32. */
  lemma OvershootSum(q: nat, c: int, a: nat)
    requires c == q + 1 - 0x80_0000 && a == BLOCK * (q + 2)
    ensures c * BLOCK + BLOCK == a - U32
  {
  }

  /** `_align512` on `size_t`: 0 stays 0, any other size is rounded up to the
      least multiple of 512 that is not below it. */
  function Align512(val: dword): (r: dword)
    ensures val == 0 ==> r == 0
    ensures val <= U32 - BLOCK ==> r % BLOCK == 0 && val <= r < val + BLOCK
  {
    if val == 0 then 0 else ((val - 1) / BLOCK * BLOCK + BLOCK) % U32
  }

  /** Below 2^31, where the cast keeps the size positive, the two agree. */
  lemma Align512Agrees(val: dword)
    requires val < 0x8000_0000
    ensures Align512AsWritten(val) == Align512(val)
  {
  }

  /** The header at `h` carries the magic "ustar" (the first five bytes,
      as compared by `memcmp`). */
  predicate IsHeader(m: seq<byte>, h: nat)
  {
    At(m, h + MAGIC_OFFSET) == 'u' as int && At(m, h + MAGIC_OFFSET + 1) == 's' as int
    && At(m, h + MAGIC_OFFSET + 2) == 't' as int && At(m, h + MAGIC_OFFSET + 3) == 'a' as int
    && At(m, h + MAGIC_OFFSET + 4) == 'r' as int
  }

  /** The decoded size of the file behind the header at `h`. */
  function FileSize(m: seq<byte>, h: nat): dword
  {
    Oct(Strings.CString(m, h + SIZE_OFFSET))
  }

  /** `_next`: the header after the one at `h`, past its 512 bytes and its
      data rounded up to whole blocks. The sum is 32-bit pointer
      arithmetic and wraps. */
  function Next(m: seq<byte>, h: nat): dword
  {
    (h + BLOCK + Align512(FileSize(m, h))) % U32
  }

  /** The successor of a header below 2^32 lies past its 512 bytes and its
      rounded data, unless the sum reaches 2^32, where it wraps round to
      the same distance below. */
  lemma NextAdvances(m: seq<byte>, h: dword)
    ensures var d := BLOCK + Align512(FileSize(m, h));
      h + d < U32 ==> Next(m, h) == h + d
    ensures var d := BLOCK + Align512(FileSize(m, h));
      h + d >= U32 ==> Next(m, h) == h + d - U32
  {
    var d := BLOCK + Align512(FileSize(m, h));
    assert d <= U32 by {
      assert Align512(FileSize(m, h)) <= U32 - BLOCK by {
        Align512Bound(FileSize(m, h));
      }
    }
    if h + d >= U32 {
      ModUnique(h + d, U32, 1, h + d - U32);
    } else {
      ModUnique(h + d, U32, 0, h + d);
    }
  }

  /** The corrected rounding never exceeds 2^32 - 512. */
  lemma Align512Bound(val: dword)
    ensures Align512(val) <= U32 - BLOCK
  {
    if val != 0 {
      var q := (val - 1) / BLOCK;
      assert q <= 0x7F_FFFF;
      assert q * BLOCK + BLOCK <= U32;
      if q * BLOCK + BLOCK < U32 {
        ModUnique(q * BLOCK + BLOCK, U32, 0, q * BLOCK + BLOCK);
      } else {
        ModUnique(q * BLOCK + BLOCK, U32, 1, 0);
      }
    }
  }

  /** A header whose size rounds up to 2^32 - 512 bytes is its own
      successor: the walk comes back to it for ever. The size field
      "37777776001" (0xFFFF_FC01) is one such. */
  lemma NextSelf(m: seq<byte>, h: dword)
    requires Align512(FileSize(m, h)) == U32 - BLOCK
    ensures Next(m, h) == h
  {
    NextAdvances(m, h);
  }

  /** The size that makes a header its own successor, under the rounding
      as written and the corrected one alike. */
  lemma Align512Wraps()
    ensures Align512(0xFFFF_FC01) == U32 - BLOCK
    ensures Align512AsWritten(0xFFFF_FC01) == U32 - BLOCK
  {
    ModUnique(0xFFFF_FE00, U32, 0, 0xFFFF_FE00);
    assert Strings.Int32(0xFFFF_FC01) == -1023;
    assert CDiv(-1024, BLOCK) == -2;
    ModUnique(0 - BLOCK, U32, -1, U32 - BLOCK);
  }

  /** A header lies below the end of memory: its magic is not zero. */
  lemma HeaderInside(m: seq<byte>, h: nat)
    requires IsHeader(m, h)
    ensures h < |m|
  {
  }

  /** `k` applications of the step `f`, starting from `h`. */
  function Apply(f: nat -> nat, h: nat, k: nat): nat
    decreases k
  {
    if k == 0 then h else Apply(f, f(h), k - 1)
  }

  /** `a + b` steps are `a` steps and then `b` more. */
  lemma {:induction false} ApplyAdd(f: nat -> nat, h: nat, a: nat, b: nat)
    ensures Apply(f, h, a + b) == Apply(f, Apply(f, h, a), b)
    decreases a
  {
    if a > 0 {
      assert a + b - 1 == (a - 1) + b;
      ApplyAdd(f, f(h), a - 1, b);
    }
  }

  /** `_next` on the archive in `m`, as a step function. */
  function Successor(m: seq<byte>): nat -> nat
  {
    x => Next(m, x)
  }

  /** The address `k` steps of `_next` along the chain from `h`. */
  function Iterate(m: seq<byte>, h: nat, k: nat): nat
  {
    Apply(Successor(m), h, k)
  }

  /** No step leaves `h` where it is; one more step is `_next` from `h`. */
  lemma IterateFirst(m: seq<byte>, h: nat, k: nat)
    ensures Iterate(m, h, 0) == h
    ensures Iterate(m, h, k + 1) == Iterate(m, Next(m, h), k)
  {
    assert Successor(m)(h) == Next(m, h);
  }

  /** `a + b` steps are `a` steps and then `b` more. */
  lemma IterateAdd(m: seq<byte>, h: nat, a: nat, b: nat)
    ensures Iterate(m, h, a + b) == Iterate(m, Iterate(m, h, a), b)
  {
    ApplyAdd(Successor(m), h, a, b);
  }

  /** One more step after `k` steps. */
  lemma IterateSnoc(m: seq<byte>, h: nat, k: nat)
    ensures Iterate(m, h, k + 1) == Next(m, Iterate(m, h, k))
  {
    var x := Iterate(m, h, k);
    IterateAdd(m, h, k, 1);
    IterateFirst(m, x, 0);
  }

  /** The headers the loops of `ramfs_init` and `ramfs_file` pass, from `h`
      with room for `fuel` more: they stop at the first address without the
      magic, or when the room runs out. */
  function Walk(m: seq<byte>, h: nat, fuel: nat): seq<nat>
    decreases fuel
  {
    if !IsHeader(m, h) || fuel == 0 then [] else [h] + Walk(m, Next(m, h), fuel - 1)
  }

  /** The first address along the chain from `h` without the magic, or
      `None` when `fuel` headers are passed first. */
  function Stop(m: seq<byte>, h: nat, fuel: nat): Option<nat>
    decreases fuel
  {
    if !IsHeader(m, h) then Some(h) else if fuel == 0 then None else Stop(m, Next(m, h), fuel - 1)
  }

  /** The headers of the archive at `h`, in archive order. Every header lies
      below the end of memory, so a chain that ends passes at most `|m|` of
      them; one that cycles is cut after `|m|`, by then having passed every
      header it will ever reach (`Cycles`). */
  function Headers(m: seq<byte>, h: nat): seq<nat>
  {
    Walk(m, h, |m|)
  }

  /** The end of the archive at `h`: the first address along the chain that
      holds no header, or `None` when the chain never reaches one. */
  function End(m: seq<byte>, h: nat): Option<nat>
  {
    Stop(m, h, |m|)
  }

  /** The walk visits the chain in order: its `i`-th header is `i` steps
      from `h`, and it passes at most `fuel` of them. */
  lemma {:induction false} WalkIterates(m: seq<byte>, h: nat, fuel: nat)
    ensures var hs := Walk(m, h, fuel);
      |hs| <= fuel && forall i :: 0 <= i < |hs| ==> hs[i] == Iterate(m, h, i) && IsHeader(m, hs[i])
    decreases fuel
  {
    if IsHeader(m, h) && fuel > 0 {
      var hs := Walk(m, h, fuel);
      var rest := Walk(m, Next(m, h), fuel - 1);
      WalkIterates(m, Next(m, h), fuel - 1);
      assert hs == [h] + rest;
      forall i | 0 <= i < |hs| ensures hs[i] == Iterate(m, h, i) {
        if i > 0 {
          IterateFirst(m, h, i - 1);
          assert hs[i] == rest[i - 1];
        } else {
          IterateFirst(m, h, 0);
        }
      }
    }
  }

  /** The walk stops early only at an address without the magic, and
      `Stop` finds that address after as many steps as the walk passed
      headers. */
  lemma {:induction false} StopIterates(m: seq<byte>, h: nat, fuel: nat)
    ensures var n := |Walk(m, h, fuel)|;
      (Stop(m, h, fuel).Some? <==> n < fuel || !IsHeader(m, Iterate(m, h, fuel)))
      && (Stop(m, h, fuel).Some? ==>
            Stop(m, h, fuel).value == Iterate(m, h, n) && !IsHeader(m, Iterate(m, h, n)))
    decreases fuel
  {
    IterateFirst(m, h, 0);
    if IsHeader(m, h) && fuel > 0 {
      var rest := Walk(m, Next(m, h), fuel - 1);
      StopIterates(m, Next(m, h), fuel - 1);
      assert |Walk(m, h, fuel)| == |rest| + 1;
      IterateFirst(m, h, fuel - 1);
      IterateFirst(m, h, |rest|);
    }
  }

  /** The headers form a chain from `h`: each carries the magic and the
      next one starts where `_next` says. */
  lemma HeadersChain(m: seq<byte>, h: nat)
    ensures var hs := Headers(m, h);
      (|hs| > 0 <==> IsHeader(m, h)) && (|hs| > 0 ==> hs[0] == h)
      && (forall i :: 0 <= i < |hs| ==> IsHeader(m, hs[i]))
      && (forall i :: 0 <= i < |hs| - 1 ==> hs[i + 1] == Next(m, hs[i]))
  {
    var hs := Headers(m, h);
    WalkIterates(m, h, |m|);
    if IsHeader(m, h) {
      HeaderInside(m, h);
    }
    forall i | 0 <= i < |hs| - 1 ensures hs[i + 1] == Next(m, hs[i]) {
      IterateSnoc(m, h, i);
    }
  }

  /** When the archive ends, it ends right after its last header's data,
      or at `h` when it holds no header. */
  lemma EndAfterLast(m: seq<byte>, h: nat)
    requires End(m, h).Some?
    ensures var hs := Headers(m, h);
      End(m, h).value == (if |hs| == 0 then h else Next(m, hs[|hs| - 1]))
      && !IsHeader(m, End(m, h).value)
  {
    var hs := Headers(m, h);
    WalkIterates(m, h, |m|);
    StopIterates(m, h, |m|);
    if |hs| > 0 {
      IterateSnoc(m, h, |hs| - 1);
    }
  }

  /** When a value repeats after `p` steps from `x`, and the `p` addresses
      from `x` are headers, every address along the chain from `x` is one
      of them. */
  lemma {:induction false} CycleBack(m: seq<byte>, x: nat, p: nat, r: nat) returns (t: nat)
    requires p > 0 && Iterate(m, x, p) == x
    ensures t < p && Iterate(m, x, r) == Iterate(m, x, t)
    decreases r
  {
    if r < p {
      t := r;
    } else {
      IterateAdd(m, x, p, r - p);
      assert r - p + p == r;
      t := CycleBack(m, x, p, r - p);
    }
  }

  /** Pigeonhole: more than `n` values below `n` hold a repetition. */
  lemma {:induction false} Pigeonhole(f: seq<nat>, n: nat) returns (i: nat, j: nat)
    requires |f| > n
    requires forall k :: 0 <= k < |f| ==> f[k] < n
    ensures i < j < |f| && f[i] == f[j]
    decreases n
  {
    var last := |f| - 1;
    if exists k :: 0 <= k < last && f[k] == f[last] {
      i :| 0 <= i < last && f[i] == f[last];
      j := last;
    } else {
      var v := f[last];
      var g := seq(last, k requires 0 <= k < last => if f[k] > v then f[k] - 1 else f[k]);
      assert f[0] < n;
      forall k | 0 <= k < |g| ensures g[k] < n - 1 {
        assert f[k] != v;
      }
      i, j := Pigeonhole(g, n - 1);
      assert f[i] != v && f[j] != v;
    }
  }

  /** When the archive has no end, the chain cycles: some address comes
      back after `p` steps, and the headers passed up to then are every
      header the chain ever reaches. */
  lemma Cycles(m: seq<byte>, h: nat) returns (i: nat, p: nat)
    requires End(m, h).None?
    ensures p > 0 && i + p <= |m| && Iterate(m, Iterate(m, h, i), p) == Iterate(m, h, i)
    ensures forall k :: 0 <= k <= |m| ==> IsHeader(m, Iterate(m, h, k))
  {
    StopNone(m, h, |m|);
    var f := seq(|m| + 1, k requires 0 <= k <= |m| => Iterate(m, h, k));
    forall k | 0 <= k < |f| ensures f[k] < |m| {
      HeaderInside(m, f[k]);
    }
    var j;
    i, j := Pigeonhole(f, |m|);
    p := j - i;
    IterateAdd(m, h, i, p);
  }

  /** Running out of room means every address passed was a header. */
  lemma {:induction false} StopNone(m: seq<byte>, h: nat, fuel: nat)
    requires Stop(m, h, fuel).None?
    ensures forall k :: 0 <= k <= fuel ==> IsHeader(m, Iterate(m, h, k))
    decreases fuel
  {
    if fuel > 0 {
      StopNone(m, Next(m, h), fuel - 1);
      forall k | 0 < k <= fuel ensures IsHeader(m, Iterate(m, h, k)) {
        IterateFirst(m, h, k - 1);
      }
    }
  }

  /** The archive has no end exactly when every address along the chain
      holds the magic: then the loops of `ramfs_init` and `ramfs_file`
      (when nothing matches) never stop. */
  lemma EndNone(m: seq<byte>, h: nat)
    ensures End(m, h).None? <==> forall k :: IsHeader(m, Iterate(m, h, k))
  {
    if End(m, h).None? {
      var i, p := Cycles(m, h);
      var x := Iterate(m, h, i);
      forall k ensures IsHeader(m, Iterate(m, h, k)) {
        if k > i {
          IterateAdd(m, h, i, k - i);
          var t := CycleBack(m, x, p, k - i);
          IterateAdd(m, h, i, t);
        }
      }
    } else {
      StopIterates(m, h, |m|);
      WalkIterates(m, h, |m|);
    }
  }

  /** On a chain without end, every header the walk ever reaches is among
      the `|m|` headers passed. */
  lemma HeadersCover(m: seq<byte>, h: nat, k: nat) returns (t: nat)
    requires End(m, h).None?
    ensures t < |Headers(m, h)| && Headers(m, h)[t] == Iterate(m, h, k)
  {
    WalkIterates(m, h, |m|);
    StopIterates(m, h, |m|);
    var i, p := Cycles(m, h);
    if k < |m| {
      t := k;
    } else {
      var x := Iterate(m, h, i);
      IterateAdd(m, h, i, k - i);
      var r := CycleBack(m, x, p, k - i);
      IterateAdd(m, h, i, r);
      t := i + r;
    }
  }

  /** The header at `h` names a file whose name starts with `name`: the
      `strlen(name)` bytes compared by `memcmp`. */
  predicate Matches(m: seq<byte>, h: nat, name: seq<byte>)
    decreases |name|
  {
    |name| == 0 || (At(m, h) == name[0] && Matches(m, h + 1, name[1..]))
  }

  /** `Matches` is the byte-wise equality `memcmp` tests. */
  lemma {:induction false} MatchesSlice(m: seq<byte>, h: nat, name: seq<byte>)
    ensures Matches(m, h, name) <==> Slice(m, h, |name|) == name
    decreases |name|
  {
    if |name| > 0 {
      MatchesSlice(m, h + 1, name[1..]);
      assert Slice(m, h, |name|) == [At(m, h)] + Slice(m, h + 1, |name| - 1);
      assert name == [name[0]] + name[1..];
    }
  }

  /** The first of `fuel` headers along the chain from `h` whose name
      starts with `name`. */
  function FindIn(m: seq<byte>, h: nat, name: seq<byte>, fuel: nat): Option<nat>
    decreases fuel
  {
    if !IsHeader(m, h) || fuel == 0 then None
    else if Matches(m, h, name) then Some(h)
    else FindIn(m, Next(m, h), name, fuel - 1)
  }

  /** The header of the first file, in archive order, whose name starts
      with `name`. */
  function Find(m: seq<byte>, h: nat, name: seq<byte>): Option<nat>
  {
    FindIn(m, h, name, |m|)
  }

  /** When the search succeeds, its header is the `i`-th passed, it matches,
      and no earlier header does. */
  lemma {:induction false} FindInIndex(m: seq<byte>, h: nat, name: seq<byte>, fuel: nat) returns (i: nat)
    requires FindIn(m, h, name, fuel).Some?
    ensures var hs := Walk(m, h, fuel);
      i < |hs| && hs[i] == FindIn(m, h, name, fuel).value && Matches(m, hs[i], name)
      && forall j :: 0 <= j < i ==> !Matches(m, hs[j], name)
    decreases fuel
  {
    var hs := Walk(m, h, fuel);
    if Matches(m, h, name) {
      i := 0;
    } else {
      var rest := Walk(m, Next(m, h), fuel - 1);
      assert hs == [h] + rest;
      var k := FindInIndex(m, Next(m, h), name, fuel - 1);
      i := k + 1;
      forall j | 0 <= j < i ensures !Matches(m, hs[j], name) {
        if j > 0 {
          assert hs[j] == rest[j - 1];
        }
      }
    }
  }

  /** When the search finds nothing, none of the headers passed matches. */
  lemma {:induction false} FindInNone(m: seq<byte>, h: nat, name: seq<byte>, fuel: nat)
    requires FindIn(m, h, name, fuel).None?
    ensures forall i :: 0 <= i < |Walk(m, h, fuel)| ==> !Matches(m, Walk(m, h, fuel)[i], name)
    decreases fuel
  {
    if IsHeader(m, h) && fuel > 0 {
      var hs := Walk(m, h, fuel);
      var rest := Walk(m, Next(m, h), fuel - 1);
      assert hs == [h] + rest;
      FindInNone(m, Next(m, h), name, fuel - 1);
      forall i | 0 <= i < |hs| ensures !Matches(m, hs[i], name) {
        if i > 0 {
          assert hs[i] == rest[i - 1];
        }
      }
    }
  }

  /** A found header is the `i`-th of the archive, it matches, and no
      earlier header does. */
  lemma FindIndex(m: seq<byte>, h: nat, name: seq<byte>) returns (i: nat)
    requires Find(m, h, name).Some?
    ensures var hs := Headers(m, h);
      i < |hs| && hs[i] == Find(m, h, name).value && Matches(m, hs[i], name)
      && forall j :: 0 <= j < i ==> !Matches(m, hs[j], name)
  {
    i := FindInIndex(m, h, name, |m|);
  }

  /** The search finds nothing exactly when no header of the archive
      matches. On a chain without end that is every header the chain
      reaches (`HeadersCover`), and `ramfs_file` then never returns. */
  lemma FindNone(m: seq<byte>, h: nat, name: seq<byte>)
    ensures var hs := Headers(m, h);
      Find(m, h, name).None? <==> forall i :: 0 <= i < |hs| ==> !Matches(m, hs[i], name)
  {
    if Find(m, h, name).Some? {
      var i := FindIndex(m, h, name);
    } else {
      FindInNone(m, h, name, |m|);
    }
  }

  /** The loop of `ramfs_init`: the first address along the chain from
      `address` without the magic. The model gives up after `|m|` headers,
      which happens exactly when the chain has no end. */
  method WalkToEnd(m: seq<byte>, address: dword) returns (i: dword, ok: bool)
    ensures ok <==> End(m, address).Some?
    ensures ok ==> i == End(m, address).value
  {
    i := address;
    var room: nat := |m|;
    while IsHeader(m, i) && room > 0
      invariant Stop(m, i, room) == End(m, address)
      decreases room
    {
      i := Next(m, i);
      room := room - 1;
    }
    ok := !IsHeader(m, i);
  }

  /** The 32-bit difference of two pointers, added back to the first,
      gives the second. */
  lemma PointerDifference(a: dword, b: dword)
    ensures (a + (b - a) % U32) % U32 == b
  {
    if b < a {
      ModUnique(b - a, U32, -1, b - a + U32);
      ModUnique(a + (b - a + U32), U32, 1, b);
    } else {
      ModUnique(b - a, U32, 0, b - a);
      ModUnique(b, U32, 0, b);
    }
  }

  /** The static context of the reader: the archive's base address and its
      size in bytes, both 32-bit. */
  class Ramfs {
    var addr: dword
    var size: dword

    /** The zero-initialised context. */
    constructor()
      ensures addr == 0 && size == 0
    {
      addr := 0;
      size := 0;
    }

    /** `ramfs_get_end`: the first address after the archive, a 32-bit
        pointer sum. */
    function GetEnd(): dword
      reads this
    {
      (addr + size) % U32
    }

    /** `ramfs_init`: records the base address and walks the headers while
        the magic matches; the size is the distance walked, modulo 2^32.
        When the archive has an end it succeeds with `ramfs_get_end` at
        that end; on a chain without end the C loop never stops, and the
        model gives up after `|m|` headers and returns false. */
    method Init(m: seq<byte>, address: dword) returns (ok: bool)
      modifies this
      ensures addr == address
      ensures ok <==> End(m, address).Some?
      ensures ok ==> GetEnd() == End(m, address).value
    {
      var i;
      i, ok := WalkToEnd(m, address);
      addr := address;
      size := (i - addr) % U32;
      PointerDifference(addr, i);
    }

    /** `ramfs_file`: the data of the first file whose name starts with
        `name`, or 0 (NULL) when there is none. When a file is found and
        the caller passed a size pointer (`hasSize`), the decoded size is
        stored through it; otherwise the pointee keeps `size0`. The data
        address is the 32-bit sum of the header and its 512 bytes. */
    method File(m: seq<byte>, name: seq<byte>, hasSize: bool, size0: nat) returns (p: dword, size1: nat)
      ensures Find(m, addr, name).None? ==> p == 0 && size1 == size0
      ensures Find(m, addr, name).Some? ==>
        p == (Find(m, addr, name).value + BLOCK) % U32
        && size1 == if hasSize then FileSize(m, Find(m, addr, name).value) else size0
    {
      size1 := size0;
      var hdr: nat := addr;
      var room: nat := |m|;
      while IsHeader(m, hdr) && room > 0
        invariant FindIn(m, hdr, name, room) == Find(m, addr, name)
        decreases room
      {
        if Matches(m, hdr, name) {
          if hasSize {
            size1 := FileSize(m, hdr);
          }
          return (hdr + BLOCK) % U32, size1;
        }
        hdr := Next(m, hdr);
        room := room - 1;
      }
      p := 0;
    }
  }
}
