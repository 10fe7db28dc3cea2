/** The freestanding string and buffer primitives of the second stage. */
module Strings {
  import opened Bytes

  /** strlen: the distance from `p` to the first NUL byte at or after it. */
  function StrLen(mem: seq<byte>, p: nat): (n: nat)
    ensures At(mem, p + n) == 0
    ensures forall j :: p <= j < p + n ==> At(mem, j) != 0
    decreases |mem| - p
  {
    if At(mem, p) == 0 then 0 else 1 + StrLen(mem, p + 1)
  }

  /** The first NUL is unique: any `n` with a NUL at p+n and none before is StrLen. */
  lemma {:induction false} StrLenUnique(mem: seq<byte>, p: nat, n: nat)
    requires At(mem, p + n) == 0
    requires forall j :: p <= j < p + n ==> At(mem, j) != 0
    ensures StrLen(mem, p) == n
  {
  }

  /** The characters of the NUL-terminated string at `p`, without the NUL. */
  function CString(mem: seq<byte>, p: nat): (s: seq<byte>)
    ensures |s| == StrLen(mem, p)
    ensures forall k :: 0 <= k < |s| ==> s[k] != 0
  {
    Slice(mem, p, StrLen(mem, p))
  }

  /** The 32-bit two's-complement reading of `x`, as an `int` return value. */
  function Int32(x: int): (r: int)
    ensures -0x8000_0000 <= r < 0x8000_0000
    ensures (r - x) % U32 == 0
  {
    var u := x % U32;
    if u < 0x8000_0000 then u else u - U32
  }

  /** memcmp over the `count` bytes at `lhs` and `rhs`: 0 when they agree,
      otherwise the difference of the two addresses (not of the bytes). */
  function MemCmp(mem: seq<byte>, lhs: nat, rhs: nat, count: nat): (r: int)
    ensures r == if Slice(mem, lhs, count) == Slice(mem, rhs, count) then 0 else Int32(lhs - rhs)
    decreases count
  {
    if count == 0 then 0
    else if At(mem, lhs) != At(mem, rhs) then
      assert Slice(mem, lhs, count)[0] != Slice(mem, rhs, count)[0];
      Int32(lhs - rhs)
    else
      assert Slice(mem, lhs, count) == [At(mem, lhs)] + Slice(mem, lhs + 1, count - 1);
      assert Slice(mem, rhs, count) == [At(mem, rhs)] + Slice(mem, rhs + 1, count - 1);
      assert Slice(mem, lhs, count) == Slice(mem, rhs, count)
        <==> Slice(mem, lhs + 1, count - 1) == Slice(mem, rhs + 1, count - 1) by {
        if Slice(mem, lhs, count) == Slice(mem, rhs, count) {
          assert Slice(mem, lhs, count)[1..] == Slice(mem, rhs, count)[1..];
        }
      }
      assert (lhs + 1) - (rhs + 1) == lhs - rhs;
      MemCmp(mem, lhs + 1, rhs + 1, count - 1)
  }

  /** memcmp is 0 exactly when the two ranges hold the same bytes (for 32-bit addresses). */
  lemma MemCmpZeroIff(mem: seq<byte>, lhs: nat, rhs: nat, count: nat)
    requires lhs < U32 && rhs < U32
    ensures MemCmp(mem, lhs, rhs, count) == 0 <==> Slice(mem, lhs, count) == Slice(mem, rhs, count)
  {
    if Slice(mem, lhs, count) != Slice(mem, rhs, count) {
      assert lhs != rhs;
    }
  }

  /** The `count` bytes at `lhs` and at `rhs` agree, byte by byte. */
  predicate SameBytes(mem: seq<byte>, lhs: int, rhs: int, count: nat)
    decreases count
  {
    count == 0 || (At(mem, lhs) == At(mem, rhs) && SameBytes(mem, lhs + 1, rhs + 1, count - 1))
  }

  lemma {:induction false} SameBytesSlice(mem: seq<byte>, lhs: int, rhs: int, count: nat)
    ensures SameBytes(mem, lhs, rhs, count) <==> Slice(mem, lhs, count) == Slice(mem, rhs, count)
    decreases count
  {
    if count > 0 {
      SameBytesSlice(mem, lhs + 1, rhs + 1, count - 1);
      var l, r := Slice(mem, lhs, count), Slice(mem, rhs, count);
      assert l == [At(mem, lhs)] + Slice(mem, lhs + 1, count - 1);
      assert r == [At(mem, rhs)] + Slice(mem, rhs + 1, count - 1);
      if l == r {
        assert l[1..] == r[1..];
      }
    }
  }

  /** memcmp reports equality exactly when the bytes agree (for 32-bit addresses). */
  lemma MemCmpSame(mem: seq<byte>, lhs: nat, rhs: nat, count: nat)
    requires lhs < U32 && rhs < U32
    ensures MemCmp(mem, lhs, rhs, count) == 0 <==> SameBytes(mem, lhs, rhs, count)
  {
    MemCmpZeroIff(mem, lhs, rhs, count);
    SameBytesSlice(mem, lhs, rhs, count);
  }

  /** Memory after copying `count` bytes from `src` to `dest` one at a time,
      in ascending address order, each read seeing the earlier writes. */
  function Copy(s: seq<byte>, dest: int, src: int, count: nat): (r: seq<byte>)
    ensures |r| == |s|
    decreases count
  {
    if count == 0 then s else Copy(Store(s, dest, At(s, src)), dest + 1, src + 1, count - 1)
  }

  /** memcpy changes no byte outside the destination range. */
  lemma {:induction false} CopyFrame(s: seq<byte>, dest: int, src: int, count: nat, k: int)
    requires 0 <= k < |s| && !(dest <= k < dest + count)
    ensures Copy(s, dest, src, count)[k] == s[k]
    decreases count
  {
    if count > 0 {
      CopyFrame(Store(s, dest, At(s, src)), dest + 1, src + 1, count - 1, k);
    }
  }

  /** For ranges that do not overlap, memcpy writes exactly the source bytes
      over the destination range. */
  lemma CopyDisjoint(s: seq<byte>, dest: int, src: int, count: nat)
    requires dest + count <= src || src + count <= dest
    ensures Copy(s, dest, src, count) == Write(s, dest, Slice(s, src, count))
  {
    var lhs, rhs := Copy(s, dest, src, count), Write(s, dest, Slice(s, src, count));
    forall k | 0 <= k < |s| ensures lhs[k] == rhs[k] {
      CopyAt(s, dest, src, count, k);
    }
  }

  /** Copying to one byte past the source repeats the first source byte
      over the whole destination. */
  lemma {:induction false} CopySmear(s: seq<byte>, src: nat, count: nat, j: nat)
    requires j < count && src + count < |s|
    ensures Copy(s, src + 1, src, count)[src + 1 + j] == s[src]
    decreases count
  {
    var s' := Store(s, src + 1, At(s, src));
    if j == 0 {
      CopyFrame(s', src + 2, src + 1, count - 1, src + 1);
    } else {
      CopySmear(s', src + 1, count - 1, j - 1);
    }
  }

  /** Byte `k` after a copy between disjoint ranges. */
  lemma {:induction false} CopyAt(s: seq<byte>, dest: int, src: int, count: nat, k: nat)
    requires dest + count <= src || src + count <= dest
    requires k < |s|
    ensures Copy(s, dest, src, count)[k] == if dest <= k < dest + count then At(s, src + k - dest) else s[k]
    decreases count
  {
    if count > 0 {
      var s' := Store(s, dest, At(s, src));
      CopyAt(s', dest + 1, src + 1, count - 1, k);
      if dest < k < dest + count {
        assert At(s', src + k - dest) == At(s, src + k - dest);
      }
    }
  }

  /** Bytes written at `src` and then copied to a disjoint `dest` arrive
      there in order. */
  lemma WriteCopyAt(s: seq<byte>, b: seq<byte>, src: nat, dest: nat, j: nat)
    requires j < |b| && src + |b| <= |s| && dest + |b| <= |s|
    requires src + |b| <= dest || dest + |b| <= src
    ensures Copy(Write(s, src, b), dest, src, |b|)[dest + j] == b[j]
  {
    var w := Write(s, src, b);
    CopyAt(w, dest, src, |b|, dest + j);
    assert w[src + j] == b[j];
  }

  /** memcpy: copies `count` bytes from `src` to `dest`, ascending, and returns `dest`. */
  method MemCpy(mem: array<byte>, dest: nat, src: nat, count: nat) returns (r: nat)
    modifies mem
    ensures r == dest
    ensures mem[..] == Copy(old(mem[..]), dest, src, count)
  {
    var i := 0;
    while i < count
      invariant i <= count
      invariant Copy(mem[..], dest + i, src + i, count - i) == Copy(old(mem[..]), dest, src, count)
    {
      var b := if src + i < mem.Length then mem[src + i] else 0;
      if dest + i < mem.Length {
        mem[dest + i] := b;
      }
      i := i + 1;
    }
    r := dest;
  }

  /** `count` copies of the byte `v` */
  function Fill(v: byte, count: nat): (r: seq<byte>)
    ensures |r| == count && forall k :: 0 <= k < count ==> r[k] == v
  {
    seq(count, _ => v)
  }

  /** memset: stores the low byte of `val` into the `count` bytes at `p` and returns `p`. */
  method MemSet(mem: array<byte>, p: nat, val: int, count: nat) returns (r: nat)
    modifies mem
    ensures r == p
    ensures mem[..] == Write(old(mem[..]), p, Fill(val % 256, count))
  {
    var i := 0;
    while i < count
      invariant i <= count
      invariant mem[..] == Write(old(mem[..]), p, Fill(val % 256, i))
    {
      if p + i < mem.Length {
        mem[p + i] := val % 256;
      }
      i := i + 1;
    }
    r := p;
  }
}
