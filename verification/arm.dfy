/** The 64-bit NEON register `int8x8_t` and the intrinsics the neon
    kernels use (Arm Neon Intrinsics Reference). A register is its eight
    bytes in memory; the intrinsics read each byte as a signed lane. */
module Arm {
  import opened Bytes

  /** An `int8x8_t`, as its eight raw bytes. */
  type I8x8 = r: seq<byte> | |r| == 8 witness [0, 0, 0, 0, 0, 0, 0, 0]

  /** `core::mem::zeroed()`. */
  const Zeroed: I8x8 := [0, 0, 0, 0, 0, 0, 0, 0]

  /** The byte read as an `i8` (two's complement). */
  function Signed(v: byte): (s: int)
    ensures -0x80 <= s < 0x80
    ensures (s - v) % 0x100 == 0
  {
    if v >= 0x80 then v - 0x100 else v
  }

  /** `x.as_u8s()[..chunk.len()].copy_from_slice(chunk)` into a zeroed
      register. */
  function Load(chunk: seq<byte>): (r: I8x8)
    ensures |chunk| <= 8 ==> r[..|chunk|] == chunk
    ensures forall i :: |chunk| <= i < 8 ==> r[i] == 0
  {
    seq(8, i requires 0 <= i < 8 => Lane(chunk, i))
  }

  /** `chunk.copy_from_slice(&x.as_u8s()[..n])`. */
  function Store(r: I8x8, n: nat): (s: seq<byte>)
    ensures |s| == n
    ensures n <= 8 ==> s == r[..n]
  {
    seq(n, i requires 0 <= i < n => Lane(r, i))
  }

  /** `vadd_s8`: eight wrapping signed additions. Two's complement makes
      that the wrapping unsigned addition of the raw bytes. */
  function VaddS8(x: I8x8, y: I8x8): (r: I8x8)
    ensures forall i :: 0 <= i < 8 ==> r[i] == WrapAdd(x[i], y[i])
  {
    seq(8, i requires 0 <= i < 8 => AsU8(Signed(x[i]) + Signed(y[i])))
  }

  /** `vhadd_s8`: eight signed halving additions, `(x + y) >> 1` computed
      without overflow, the shift rounding toward negative infinity. */
  function VhaddS8(x: I8x8, y: I8x8): (r: I8x8)
    ensures forall i :: 0 <= i < 8 ==> Signed(r[i]) == (Signed(x[i]) + Signed(y[i])) / 2
  {
    seq(8, i requires 0 <= i < 8 => AsU8((Signed(x[i]) + Signed(y[i])) / 2))
  }

  /** `vhadd_u8`: eight unsigned halving additions, `(x + y) >> 1`
      computed without overflow. */
  function VhaddU8(x: I8x8, y: I8x8): (r: I8x8)
    ensures forall i :: 0 <= i < 8 ==> r[i] as int * 2 <= x[i] as int + y[i] as int <= r[i] as int * 2 + 1
  {
    seq(8, i requires 0 <= i < 8 => (x[i] as int + y[i] as int) / 2)
  }

  /** Byte by byte, the signed halving addition is the floor of the
      average of the bytes exactly when both are on the same side of
      128; otherwise it is that average plus 128, modulo 256. */
  lemma SignedHalvingAdd(x: I8x8, y: I8x8, i: int)
    requires 0 <= i < 8
    ensures (x[i] >= 0x80) == (y[i] >= 0x80) ==> VhaddS8(x, y)[i] == (x[i] as int + y[i] as int) / 2
    ensures (x[i] >= 0x80) != (y[i] >= 0x80) ==> VhaddS8(x, y)[i] == WrapAdd((x[i] as int + y[i] as int) / 2, 0x80)
    ensures VhaddS8(x, y)[i] == (x[i] as int + y[i] as int) / 2 <==> (x[i] >= 0x80) == (y[i] >= 0x80)
  {
    var s := (Signed(x[i]) + Signed(y[i])) / 2;
    assert VhaddS8(x, y)[i] == AsU8(s);
    if x[i] >= 0x80 && y[i] >= 0x80 {
      assert s == (x[i] as int + y[i] as int) / 2 - 0x100;
    } else if x[i] >= 0x80 || y[i] >= 0x80 {
      assert s == (x[i] as int + y[i] as int) / 2 - 0x80;
    }
  }
}
