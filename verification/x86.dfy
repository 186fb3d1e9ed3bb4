/** The 128-bit SSE register and the intrinsics the x86 kernels use, each
    given its meaning per lane (Intel Intrinsics Guide). A register is
    its sixteen bytes in memory order; x86 is little-endian, so 16-bit
    lane `j` is bytes `2j` (low) and `2j + 1` (high). */
module X86 {
  import opened Bytes

  /** An `__m128i`. */
  type M128 = r: seq<byte> | |r| == 16 witness [0, 0, 0, 0, 0, 0, 0, 0, 0, 0, 0, 0, 0, 0, 0, 0]

  /** The all-zero register (`ZEROED`, `core::mem::zeroed()`). */
  const Zeroed: M128 := [0, 0, 0, 0, 0, 0, 0, 0, 0, 0, 0, 0, 0, 0, 0, 0]

  /** Signed 16-bit lane `j`. */
  function Lane16(r: M128, j: int): i16
    requires 0 <= j < 8
  {
    Wrap16(r[2 * j] as int + 0x100 * r[2 * j + 1] as int)
  }

  /** The two bytes of an `i16` in two's complement split low, high
      recombine to it. */
  lemma BytesOfI16(v: i16)
    ensures var u := v % 0x10000;
            u / 0x100 < 0x100 && Wrap16(u % 0x100 + 0x100 * (u / 0x100)) == v
  {
    var u: int := v % 0x10000;
    assert u % 0x100 + 0x100 * (u / 0x100) == u;
    if v >= 0 {
      assert u == v;
    } else {
      assert u == v + 0x10000;
    }
  }

  /** The register whose eight 16-bit lanes are `l`. */
  function FromLanes16(l: seq<i16>): (r: M128)
    requires |l| == 8
    ensures forall j {:trigger Lane16(r, j)} :: 0 <= j < 8 ==> Lane16(r, j) == l[j]
  {
    var r: M128 := seq(16, i requires 0 <= i < 16 =>
      var u: int := l[i / 2] as int % 0x10000;
      BytesOfI16(l[i / 2]);
      if i % 2 == 0 then u % 0x100 else u / 0x100);
    assert forall j :: 0 <= j < 8 ==> Lane16(r, j) == l[j] by {
      forall j | 0 <= j < 8
        ensures Lane16(r, j) == l[j]
      {
        BytesOfI16(l[j]);
        assert (2 * j) / 2 == j && (2 * j + 1) / 2 == j;
      }
    }
    r
  }

  // ------------------------------------------------- loads and stores

  /** `x = ZEROED; x.as_u8s()[..chunk.len()].copy_from_slice(chunk)`: the
      chunk in the low bytes, zero above it. */
  function LoadBytes(chunk: seq<byte>): (r: M128)
    ensures |chunk| <= 16 ==> r[..|chunk|] == chunk
    ensures forall i :: |chunk| <= i < 16 ==> r[i] == 0
  {
    seq(16, i requires 0 <= i < 16 => Lane(chunk, i))
  }

  /** `b = ZEROED; b.as_i16s().iter_mut().zip(chunk).for_each(|(j, k)| *j
      = *k as i16)`: each byte of the chunk zero-extended into its own
      16-bit lane, as many as there are lanes. */
  function LoadWidened(chunk: seq<byte>): (r: M128)
    ensures forall j :: 0 <= j < 8 ==> Lane16(r, j) == Lane(chunk, j)
  {
    FromLanes16(seq(8, j requires 0 <= j < 8 => Lane(chunk, j)))
  }

  /** `chunk.copy_from_slice(&x.as_u8s()[..n])`. */
  function Store(r: M128, n: nat): (s: seq<byte>)
    ensures |s| == n
    ensures n <= 16 ==> s == r[..n]
  {
    seq(n, i requires 0 <= i < n => Lane(r, i))
  }

  // -------------------------------------------------------- intrinsics

  /** `_mm_add_epi8`: sixteen wrapping byte additions. */
  function AddEpi8(x: M128, y: M128): (r: M128)
    ensures forall i :: 0 <= i < 16 ==> (r[i] as int - x[i] as int - y[i] as int) % 0x100 == 0
    ensures forall i :: 0 <= i < 16 ==> r[i] == WrapAdd(x[i], y[i])
  {
    seq(16, i requires 0 <= i < 16 => WrapAdd(x[i], y[i]))
  }

  /** `_mm_add_epi16`: eight wrapping 16-bit additions. */
  function AddEpi16(x: M128, y: M128): (r: M128)
    ensures forall j :: 0 <= j < 8 ==> Lane16(r, j) == Wrap16(Lane16(x, j) + Lane16(y, j))
  {
    var l := seq(8, j requires 0 <= j < 8 => Wrap16(Lane16(x, j) + Lane16(y, j)));
    var r := FromLanes16(l);
    assert forall j :: 0 <= j < 8 ==> Lane16(r, j) == Wrap16(Lane16(x, j) + Lane16(y, j)) by {
      forall j | 0 <= j < 8
        ensures Lane16(r, j) == Wrap16(Lane16(x, j) + Lane16(y, j))
      {
        assert Lane16(r, j) == l[j];
      }
    }
    r
  }

  /** `_mm_sub_epi16`: eight wrapping 16-bit subtractions. */
  function SubEpi16(x: M128, y: M128): (r: M128)
    ensures forall j :: 0 <= j < 8 ==> Lane16(r, j) == Wrap16(Lane16(x, j) - Lane16(y, j))
  {
    var l := seq(8, j requires 0 <= j < 8 => Wrap16(Lane16(x, j) - Lane16(y, j)));
    var r := FromLanes16(l);
    assert forall j :: 0 <= j < 8 ==> Lane16(r, j) == Wrap16(Lane16(x, j) - Lane16(y, j)) by {
      forall j | 0 <= j < 8
        ensures Lane16(r, j) == Wrap16(Lane16(x, j) - Lane16(y, j))
      {
        assert Lane16(r, j) == l[j];
      }
    }
    r
  }

  /** `_mm_srai_epi16`: each lane shifted right arithmetically, the sign
      bit shifted in; a count above 15 leaves only copies of the sign
      bit, which is the shift by 15. An arithmetic shift is division
      rounding toward negative infinity. */
  function SraiEpi16(x: M128, imm8: byte): (r: M128)
    ensures forall j :: 0 <= j < 8 ==> Lane16(r, j) == ShiftRightArith(Lane16(x, j), imm8)
  {
    FromLanes16(seq(8, j requires 0 <= j < 8 => ShiftRightArith(Lane16(x, j), imm8)))
  }

  /** One lane of `_mm_srai_epi16`: a shift by one is the floor of half. */
  function ShiftRightArith(v: i16, count: byte): (r: i16)
    ensures v >= 0 ==> 0 <= r <= v
    ensures v < 0 ==> v <= r < 0
    ensures count == 1 ==> r == v / 2
  {
    Halvings(v, Min(count, 15))
  }

  /** `v` halved `n` times, each time rounding toward negative infinity. */
  function Halvings(v: int, n: nat): (r: int)
    ensures v >= 0 ==> 0 <= r <= v
    ensures v < 0 ==> v <= r < 0
    ensures n == 1 ==> r == v / 2
    decreases n
  {
    if n == 0 then v else Halvings(v / 2, n - 1)
  }

  /** `b` is `v` clamped to the byte range: `v` itself when it fits, 0
      below it and 255 above it. */
  predicate Clamped(v: int, b: byte) {
    && (0 <= v < 0x100 ==> b == v)
    && (v < 0 ==> b == 0)
    && (v >= 0x100 ==> b == 0xFF)
  }

  /** Saturation of a signed 16-bit value to an unsigned byte. */
  function SaturateU8(v: int): (b: byte)
    ensures 0 <= v < 0x100 ==> b == v
    ensures v < 0 ==> b == 0
    ensures v >= 0x100 ==> b == 0xFF
  {
    if v < 0 then 0 else if v > 0xFF then 0xFF else v
  }

  /** `_mm_packus_epi16`: the lanes of `x`, then those of `y`, each
      saturated to an unsigned byte. */
  function PackusEpi16(x: M128, y: M128): (r: M128)
    ensures forall j :: 0 <= j < 8 ==> Clamped(Lane16(x, j), r[j]) && Clamped(Lane16(y, j), r[j + 8])
    ensures forall j :: 0 <= j < 8 ==> r[j] == SaturateU8(Lane16(x, j)) && r[j + 8] == SaturateU8(Lane16(y, j))
  {
    var r: M128 := seq(16, i requires 0 <= i < 16 => if i < 8 then SaturateU8(Lane16(x, i)) else SaturateU8(Lane16(y, i - 8)));
    assert forall j :: 0 <= j < 8 ==> r[j] == SaturateU8(Lane16(x, j)) && r[j + 8] == SaturateU8(Lane16(y, j));
    r
  }

  /** `_mm_unpacklo_epi8`: the low eight bytes of `x` and `y`
      interleaved; with a zero `y` this zero-extends the low eight bytes
      of `x` into 16-bit lanes. */
  function UnpackloEpi8(x: M128, y: M128): (r: M128)
    ensures forall j :: 0 <= j < 8 ==> r[2 * j] == x[j] && r[2 * j + 1] == y[j]
    ensures forall j :: 0 <= j < 8 && y[j] == 0 ==> Lane16(r, j) == x[j]
  {
    var r: M128 := seq(16, i requires 0 <= i < 16 => if i % 2 == 0 then x[i / 2] else y[i / 2]);
    assert forall j :: 0 <= j < 8 ==> r[2 * j] == x[j] && r[2 * j + 1] == y[j] by {
      forall j | 0 <= j < 8
        ensures r[2 * j] == x[j] && r[2 * j + 1] == y[j]
      {
        assert (2 * j) / 2 == j && (2 * j + 1) / 2 == j;
      }
    }
    r
  }

  /** `_mm_abs_epi16` (SSSE3): absolute value of each lane; the magnitude
      of -32768 does not fit and comes back as -32768. */
  function AbsEpi16(x: M128): (r: M128)
    ensures forall j :: 0 <= j < 8 && Lane16(x, j) > -0x8000 ==> Lane16(r, j) == Abs(Lane16(x, j))
  {
    FromLanes16(seq(8, j requires 0 <= j < 8 => Wrap16(Abs(Lane16(x, j)))))
  }

  /** Lane `j` of `m` is a lane mask for `cond`: all ones when it holds,
      all zeros otherwise, as the SSE comparisons produce them. */
  predicate LaneMask(m: M128, j: int, cond: bool)
    requires 0 <= j < 8
  {
    var v := if cond then 0xFF else 0;
    m[2 * j] == v && m[2 * j + 1] == v
  }

  /** The register of eight lane masks, lane `j` for `cond(j)`. */
  function Masks(cond: int -> bool): (r: M128)
    ensures forall j :: 0 <= j < 8 ==> LaneMask(r, j, cond(j))
  {
    var r: M128 := seq(16, i requires 0 <= i < 16 => if cond(i / 2) then 0xFF else 0);
    assert forall j :: 0 <= j < 8 ==> LaneMask(r, j, cond(j)) by {
      forall j | 0 <= j < 8
        ensures LaneMask(r, j, cond(j))
      {
        assert (2 * j) / 2 == j && (2 * j + 1) / 2 == j;
      }
    }
    r
  }

  /** `_mm_cmplt_epi16`: a lane mask for `x < y`, signed. */
  function CmpltEpi16(x: M128, y: M128): (r: M128)
    ensures forall j :: 0 <= j < 8 ==> LaneMask(r, j, Lane16(x, j) < Lane16(y, j))
  {
    var c := j => 0 <= j < 8 && Lane16(x, j) < Lane16(y, j);
    var r := Masks(c);
    assert forall j :: 0 <= j < 8 ==> LaneMask(r, j, Lane16(x, j) < Lane16(y, j)) by {
      forall j | 0 <= j < 8
        ensures LaneMask(r, j, Lane16(x, j) < Lane16(y, j))
      {
        assert LaneMask(r, j, c(j));
      }
    }
    r
  }

  /** `_mm_cmpeq_epi16`: a lane mask for `x == y`. */
  function CmpeqEpi16(x: M128, y: M128): (r: M128)
    ensures forall j :: 0 <= j < 8 ==> LaneMask(r, j, Lane16(x, j) == Lane16(y, j))
  {
    var c := j => 0 <= j < 8 && Lane16(x, j) == Lane16(y, j);
    var r := Masks(c);
    assert forall j :: 0 <= j < 8 ==> LaneMask(r, j, Lane16(x, j) == Lane16(y, j)) by {
      forall j | 0 <= j < 8
        ensures LaneMask(r, j, Lane16(x, j) == Lane16(y, j))
      {
        assert LaneMask(r, j, c(j));
      }
    }
    r
  }

  /** `_mm_or_si128`: bitwise or. */
  function OrSi128(x: M128, y: M128): M128 {
    seq(16, i requires 0 <= i < 16 => ((x[i] as bv8) | (y[i] as bv8)) as int)
  }

  /** `_mm_and_si128`: bitwise and. */
  function AndSi128(x: M128, y: M128): M128 {
    seq(16, i requires 0 <= i < 16 => ((x[i] as bv8) & (y[i] as bv8)) as int)
  }

  /** Or and and of two lane masks are the lane masks of the disjunction
      and the conjunction. */
  lemma MaskLogic(x: M128, y: M128, j: int, c: bool, d: bool)
    requires 0 <= j < 8
    requires LaneMask(x, j, c) && LaneMask(y, j, d)
    ensures LaneMask(OrSi128(x, y), j, c || d)
    ensures LaneMask(AndSi128(x, y), j, c && d)
  {
    var v: bv8 := if c then 0xFF else 0;
    var w: bv8 := if d then 0xFF else 0;
    assert x[2 * j] as bv8 == v && x[2 * j + 1] as bv8 == v;
    assert y[2 * j] as bv8 == w && y[2 * j + 1] as bv8 == w;
  }

  /** `_mm_blendv_epi8` (SSE4.1): byte by byte, the byte of `y` where the
      mask byte has its top bit set, else the byte of `x`. */
  function BlendvEpi8(x: M128, y: M128, mask: M128): M128 {
    seq(16, i requires 0 <= i < 16 => if mask[i] >= 0x80 then y[i] else x[i])
  }

  /** A byte blend under a lane mask selects whole 16-bit lanes. */
  lemma BlendvSelectsLanes(x: M128, y: M128, mask: M128, j: int, cond: bool)
    requires 0 <= j < 8
    requires LaneMask(mask, j, cond)
    ensures Lane16(BlendvEpi8(x, y, mask), j) == if cond then Lane16(y, j) else Lane16(x, j)
  {
  }
}
