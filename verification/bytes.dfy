/** Machine integers as the kernels use them: unsigned bytes, signed 16-bit
    lanes, Rust's wrapping and truncating operations, and the chunking of a
    row into whole pixels. */
module Bytes {

  /** A `u8`. */
  type byte = x: int | 0 <= x < 0x100

  /** An `i16`. */
  type i16 = x: int | -0x8000 <= x < 0x8000

  /** Bytes per pixel: the const generic `BYTES_PER_PIXEL`. Every kernel
      asserts it is at most 8, and `chunks_exact` rejects 0. */
  type Bpp = n: int | 1 <= n <= 8 witness 1

  /** `u8::wrapping_add`. */
  function WrapAdd(x: byte, y: byte): (r: byte)
    ensures (r - x - y) % 0x100 == 0
  {
    (x + y) % 0x100
  }

  /** `u8::wrapping_sub`. */
  function WrapSub(x: byte, y: byte): (r: byte)
    ensures (r - x + y) % 0x100 == 0
  {
    (x - y) % 0x100
  }

  /** Two's-complement wrap-around into an `i16`, as `+`, `-` and `abs` on
      `i16` behave in a release build. */
  function Wrap16(v: int): (r: i16)
    ensures -0x8000 <= v < 0x8000 ==> r == v
    ensures (r - v) % 0x10000 == 0
  {
    (v + 0x8000) % 0x10000 - 0x8000
  }

  /** `as u8` on a wider integer: keeps the low eight bits. */
  function AsU8(v: int): (r: byte)
    ensures 0 <= v < 0x100 ==> r == v
  {
    v % 0x100
  }

  /** Rust's `/` on signed integers, which rounds toward zero (Dafny's `/`
      is Euclidean). */
  function TruncDiv(v: int, d: int): (q: int)
    requires d > 0
    ensures Abs(q) * d <= Abs(v) < Abs(q) * d + d
    ensures (v >= 0 ==> q >= 0) && (v <= 0 ==> q <= 0)
    ensures v >= 0 ==> q == v / d
  {
    var m := Abs(v) / d;
    DivBounds(Abs(v), d);
    if v >= 0 then m else assert Abs(-m) == m; -m
  }

  /** Euclidean division of a natural number leaves a remainder below
      the divisor. */
  lemma DivBounds(a: nat, d: int)
    requires d > 0
    ensures a / d * d <= a < a / d * d + d
  {
  }

  function Abs(v: int): nat {
    if v < 0 then -v else v
  }

  function Min(x: int, y: int): int {
    if x <= y then x else y
  }

  /** Element `j` of `s`, or 0 past its end: how a zero-initialised
      `[u8; BPP]` or register reads after a shorter copy into it. */
  function Lane(s: seq<byte>, j: int): byte {
    if 0 <= j < |s| then s[j] else 0
  }

  function Zeros(n: nat): (z: seq<byte>)
    ensures |z| == n
    ensures forall j :: 0 <= j < n ==> z[j] == 0
  {
    seq(n, _ => 0)
  }

  /** The number of bytes `chunks_exact(bpp)` hands out from `n` bytes:
      the longest run of whole pixels; fewer than `bpp` bytes are left. */
  function Whole(bpp: Bpp, n: nat): (w: nat)
    ensures w <= n && n - w < bpp
    ensures w % bpp == 0
    decreases n
  {
    if n < bpp then 0 else
      assert (bpp + Whole(bpp, n - bpp)) % bpp == 0 by {
        OnePixelMore(bpp, Whole(bpp, n - bpp));
      }
      bpp + Whole(bpp, n - bpp)
  }

  /** One pixel more than a whole number of pixels is a whole number of
      pixels. */
  lemma OnePixelMore(bpp: Bpp, w: nat)
    requires w % bpp == 0
    ensures (bpp + w) % bpp == 0
  {
    if bpp == 1 {
    } else if bpp == 2 {
    } else if bpp == 3 {
    } else if bpp == 4 {
    } else if bpp == 5 {
    } else if bpp == 6 {
    } else if bpp == 7 {
    }
  }

  /** A row of `k` whole pixels is processed to the end (the case the
      kernels' debug assertions insist on). */
  lemma {:induction false} WholeOfMultiple(bpp: Bpp, k: nat)
    ensures Whole(bpp, k * bpp) == k * bpp
  {
    if k > 0 {
      assert k * bpp - bpp == (k - 1) * bpp;
      WholeOfMultiple(bpp, k - 1);
    }
  }
}
