/** The kernels of `src/neon.rs`, on 64-bit NEON registers holding one
    pixel's bytes. Sub and Up are correct; Average uses the signed
    halving add `vhadd_s8`, which reads bytes of 128 and above as
    negative, and so differs from the PNG Average predictor whenever the
    left and upper bytes lie on opposite sides of 128. The corrected
    kernel uses the unsigned `vhadd_u8`. */
module Neon {
  import opened Bytes
  import Png
  import opened Chunks
  import opened Arm
  import Fallbacks

  /** The low `bpp` bytes of the register are the pixel, and the bytes
      above it are zero. */
  ghost predicate HoldsPixel(bpp: Bpp, r: I8x8, pixel: seq<byte>) {
    && (forall j :: 0 <= j < bpp ==> r[j] == Lane(pixel, j))
    && ZeroAbove(bpp, r)
  }

  /** The register's bytes from `bpp` on are zero: loading a chunk into a
      zeroed register leaves them so, and every intrinsic works lane by
      lane, so they stay so. */
  ghost predicate ZeroAbove(bpp: Bpp, r: I8x8) {
    forall j :: bpp <= j < 8 ==> r[j] == 0
  }

  /** Adding a register that is zero above the pixel to a loaded chunk
      gives a register that is zero above the pixel. */
  lemma AddZeroAbove(bpp: Bpp, x: seq<byte>, h: I8x8)
    requires |x| == bpp && ZeroAbove(bpp, h)
    ensures ZeroAbove(bpp, VaddS8(Load(x), h))
  {
  }

  /** Both halving adds of two registers that are zero above the pixel
      are zero above the pixel. */
  lemma HalvingZeroAbove(bpp: Bpp, a: I8x8, b: seq<byte>)
    requires |b| == bpp && ZeroAbove(bpp, a)
    ensures ZeroAbove(bpp, VhaddS8(a, Load(b)))
    ensures ZeroAbove(bpp, VhaddU8(a, Load(b)))
  {
    forall j | bpp <= j < 8
      ensures VhaddS8(a, Load(b))[j] == 0 && VhaddU8(a, Load(b))[j] == 0
    {
      assert a[j] == 0 && Load(b)[j] == 0;
    }
  }

  // ---------------------------------------------------------------- Sub

  /** The closure of `recon_sub`: load, `vadd_s8` the previous pixel,
      store, carry the register. */
  function SubStep(x: seq<byte>, a: I8x8): (seq<byte>, I8x8) {
    var r := VaddS8(Load(x), a);
    (Store(r, |x|), r)
  }

  /** After a chunk the carried register holds the pixel just written,
      and its bytes above the pixel are still zero. */
  lemma SubStepHoldsPixel(bpp: Bpp, x: seq<byte>, a: I8x8, left: seq<byte>)
    requires |x| == bpp && HoldsPixel(bpp, a, left)
    ensures HoldsPixel(bpp, SubStep(x, a).1, SubStep(x, a).0)
  {
    AddZeroAbove(bpp, x, a);
  }

  lemma SubCorrect(bpp: Bpp, filt: seq<byte>)
    ensures RowStepKeepsWidth(bpp, SubStep)
    ensures ReconstructsWholePixels(Png.Sub, bpp, filt, Zeros(|filt|), ForEachChunk(bpp, filt, Zeroed, SubStep))
  {
    CanonicalKeepsWidth(Png.Sub, bpp);
    var related := (r: I8x8, n: Neighbours) => HoldsPixel(bpp, r, n.0);
    forall x, k1, k2 | |x| == bpp && related(k1, k2)
      ensures SubStep(x, k1).0 == Canonical(Png.Sub)(x, Zeros(bpp), k2).0
      ensures related(SubStep(x, k1).1, Canonical(Png.Sub)(x, Zeros(bpp), k2).1)
    {
      var y := CanonicalChunk(Png.Sub, x, Zeros(bpp), k2.0, k2.1);
      forall j | 0 <= j < bpp
        ensures SubStep(x, k1).0[j] == y[j]
      {
        assert HoldsPixel(bpp, k1, k2.0);
      }
      SubStepHoldsPixel(bpp, x, k1, k2.0);
    }
    assert related(Zeroed, (Zeros(bpp), Zeros(bpp)));
    TopRowReconstructsBySimulation(Png.Sub, bpp, filt, Zeroed, SubStep, related);
  }

  /** `neon::recon_sub`. */
  function ReconSub(bpp: Bpp, filt: seq<byte>): (r: seq<byte>)
    ensures ReconstructsWholePixels(Png.Sub, bpp, filt, Zeros(|filt|), r)
  {
    SubCorrect(bpp, filt);
    ForEachChunk(bpp, filt, Zeroed, SubStep)
  }

  lemma ReconSubMatchesFallback(bpp: Bpp, filt: seq<byte>)
    ensures ReconSub(bpp, filt) == Fallbacks.ReconSub(bpp, filt)
  {
    ReconstructsWholePixelsUnique(Png.Sub, bpp, filt, Zeros(|filt|), ReconSub(bpp, filt), Fallbacks.ReconSub(bpp, filt));
  }

  // ----------------------------------------------------------------- Up

  /** `neon::recon_up`: the scalar byte loop of `fallbacks::recon_up`. */
  function ReconUp(filt: seq<byte>, prev: seq<byte>): (r: seq<byte>)
    ensures ReconstructsOverlap(Png.Up, filt, prev, r)
  {
    Fallbacks.ReconUp(filt, prev)
  }

  // ------------------------------------------------- Average, as written

  /** The closure of `recon_average` as written: `vhadd_s8(a, b)` is
      added to the chunk and the result is the next `a`. */
  function AverageStep(x: seq<byte>, b: seq<byte>, a: I8x8): (seq<byte>, I8x8) {
    var half := VhaddS8(a, Load(b));
    var r := VaddS8(Load(x), half);
    (Store(r, |x|), r)
  }

  /** `neon::recon_average` as written. It visits the same whole pixels
      as the other kernels and leaves the rest of the row alone; what it
      puts in them is described by `Arm.SignedHalvingAdd` and
      `AverageDiffers` below. */
  function ReconAverage(bpp: Bpp, filt: seq<byte>, prev: seq<byte>): (r: seq<byte>)
    ensures |r| == |filt|
    ensures var w := Whole(bpp, Min(|filt|, |prev|)); r[w..] == filt[w..]
  {
    ForEachChunkZip(bpp, filt, prev, Zeroed, AverageStep)
  }

  /** Where the kernel as written departs from the PNG Average filter:
      with a zero filtered byte under an upper byte of 128 it produces
      192, not the standard's 64. */
  lemma AverageDiffers()
    ensures ReconAverage(1, [0], [128]) == [192]
    ensures Fallbacks.ReconAverage(1, [0], [128]) == [64]
  {
    var filt: seq<byte>, prev: seq<byte> := [0], [128];
    var step := AverageStep(filt, prev, Zeroed);
    assert VhaddS8(Zeroed, Load(prev))[0] == 192 by {
      SignedHalvingAdd(Zeroed, Load(prev), 0);
    }
    assert step.0 == [192];
    assert ForEachChunkZip(1, filt[1..], prev[1..], step.1, AverageStep) == [];
    assert ReconAverage(1, filt, prev) == step.0 + [];
    var out: seq<byte> := [64];
    assert Png.ByteReconstructed(Png.Average, 1, filt, prev, out, 0);
    WholeRowReconstructs(Png.Average, 1, filt, prev, out, 1);
    ReconstructsWholePixelsUnique(Png.Average, 1, filt, prev, out, Fallbacks.ReconAverage(1, filt, prev));
  }

  /** Every byte is below 128, where reading it as `i8` or as `u8` gives
      the same number. */
  ghost predicate Below128(s: seq<byte>) {
    forall j :: 0 <= j < |s| ==> s[j] < 0x80
  }

  /** The kernel as written, run from a register holding the scalar
      kernel's state, writes the scalar kernel's row whenever the row above
      and the scalar kernel's row (and so every left neighbour) lie below
      128: there the signed and the unsigned halving adds agree. */
  lemma {:induction false} AverageAgreesBelow128(bpp: Bpp, filt: seq<byte>, prev: seq<byte>, k1: I8x8, k2: seq<byte>)
    requires |k2| == bpp && HoldsPixel(bpp, k1, k2) && Below128(k2)
    requires Below128(prev)
    requires Below128(ForEachChunkZip(bpp, filt, prev, k2, Fallbacks.AverageStep))
    ensures ForEachChunkZip(bpp, filt, prev, k1, AverageStep) == ForEachChunkZip(bpp, filt, prev, k2, Fallbacks.AverageStep)
    decreases |filt|
  {
    if |filt| >= bpp && |prev| >= bpp {
      var x, b := filt[..bpp], prev[..bpp];
      var o2 := Fallbacks.AverageStep(x, b, k2);
      ForEachChunkZipUnfold(bpp, filt, prev, k1, AverageStep);
      ForEachChunkZipUnfold(bpp, filt, prev, k2, Fallbacks.AverageStep);
      SplitBelow128(prev, bpp);
      SplitBelow128(o2.0 + ForEachChunkZip(bpp, filt[bpp..], prev[bpp..], o2.1, Fallbacks.AverageStep), bpp);
      assert (o2.0 + ForEachChunkZip(bpp, filt[bpp..], prev[bpp..], o2.1, Fallbacks.AverageStep))[..bpp] == o2.0;
      AverageStepBelow128(bpp, x, b, k1, k2);
      AverageAgreesBelow128(bpp, filt[bpp..], prev[bpp..], AverageStep(x, b, k1).1, o2.1);
    } else {
      assert ForEachChunkZip(bpp, filt, prev, k1, AverageStep) == filt;
      assert ForEachChunkZip(bpp, filt, prev, k2, Fallbacks.AverageStep) == filt;
    }
  }

  /** Both parts of a row below 128 are below 128. */
  lemma SplitBelow128(s: seq<byte>, n: nat)
    requires n <= |s| && Below128(s)
    ensures Below128(s[..n]) && Below128(s[n..])
  {
    assert forall j :: 0 <= j < |s| - n ==> s[n..][j] == s[n + j];
  }

  /** One chunk: below 128 the signed halving add of the register is the
      scalar floor average, and the register carries the written pixel. */
  lemma AverageStepBelow128(bpp: Bpp, x: seq<byte>, b: seq<byte>, k1: I8x8, k2: seq<byte>)
    requires |x| == bpp && |b| == bpp && |k2| == bpp
    requires HoldsPixel(bpp, k1, k2) && Below128(k2) && Below128(b)
    ensures AverageStep(x, b, k1).0 == Fallbacks.AverageStep(x, b, k2).0
    ensures HoldsPixel(bpp, AverageStep(x, b, k1).1, Fallbacks.AverageStep(x, b, k2).1)
  {
    var o1, o2 := AverageStep(x, b, k1), Fallbacks.AverageStep(x, b, k2);
    forall j | 0 <= j < bpp
      ensures o1.0[j] == o2.0[j]
    {
      assert k1[j] == k2[j] < 0x80 && b[j] < 0x80;
      SignedHalvingAdd(k1, Load(b), j);
    }
    assert o1.0 == o2.0;
    HalvingZeroAbove(bpp, k1, b);
    AddZeroAbove(bpp, x, VhaddS8(k1, Load(b)));
  }

  /** `neon::recon_average` as written is the standard's Average
      reconstruction on every row whose bytes above and whose
      reconstructed bytes are all below 128. */
  lemma ReconAverageBelow128(bpp: Bpp, filt: seq<byte>, prev: seq<byte>)
    requires Below128(prev) && Below128(Fallbacks.ReconAverage(bpp, filt, prev))
    ensures ReconAverage(bpp, filt, prev) == Fallbacks.ReconAverage(bpp, filt, prev)
  {
    Fallbacks.AverageStepKeepsWidth(bpp);
    assert HoldsPixel(bpp, Zeroed, Zeros(bpp));
    AverageAgreesBelow128(bpp, filt, prev, Zeroed, Zeros(bpp));
  }

  // -------------------------------------------------- Average, corrected

  /** The closure with the unsigned halving add `vhadd_u8`, which is the
      floor of the average of the two bytes. */
  function AverageStepUnsigned(x: seq<byte>, b: seq<byte>, a: I8x8): (seq<byte>, I8x8) {
    var half := VhaddU8(a, Load(b));
    var r := VaddS8(Load(x), half);
    (Store(r, |x|), r)
  }

  /** After a chunk of the corrected closure the carried register holds
      the pixel just written, and its bytes above the pixel are still
      zero. */
  lemma AverageStepUnsignedHoldsPixel(bpp: Bpp, x: seq<byte>, b: seq<byte>, a: I8x8, left: seq<byte>)
    requires |x| == bpp && |b| == bpp && HoldsPixel(bpp, a, left)
    ensures HoldsPixel(bpp, AverageStepUnsigned(x, b, a).1, AverageStepUnsigned(x, b, a).0)
  {
    HalvingZeroAbove(bpp, a, b);
    AddZeroAbove(bpp, x, VhaddU8(a, Load(b)));
  }

  lemma AverageUnsignedCorrect(bpp: Bpp, filt: seq<byte>, prev: seq<byte>)
    ensures PairStepKeepsWidth(bpp, AverageStepUnsigned)
    ensures ReconstructsWholePixels(Png.Average, bpp, filt, prev, ForEachChunkZip(bpp, filt, prev, Zeroed, AverageStepUnsigned))
  {
    CanonicalKeepsWidth(Png.Average, bpp);
    var related := (r: I8x8, n: Neighbours) => HoldsPixel(bpp, r, n.0);
    forall x, b, k1, k2 | |x| == bpp && |b| == bpp && related(k1, k2)
      ensures AverageStepUnsigned(x, b, k1).0 == Canonical(Png.Average)(x, b, k2).0
      ensures related(AverageStepUnsigned(x, b, k1).1, Canonical(Png.Average)(x, b, k2).1)
    {
      var y := CanonicalChunk(Png.Average, x, b, k2.0, k2.1);
      var half := VhaddU8(k1, Load(b));
      forall j | 0 <= j < bpp
        ensures AverageStepUnsigned(x, b, k1).0[j] == y[j]
      {
        assert HoldsPixel(bpp, k1, k2.0);
        assert half[j] == (Lane(k2.0, j) + b[j]) / 2;
      }
      AverageStepUnsignedHoldsPixel(bpp, x, b, k1, k2.0);
    }
    assert related(Zeroed, (Zeros(bpp), Zeros(bpp)));
    ReconstructsBySimulation(Png.Average, bpp, filt, prev, Zeroed, AverageStepUnsigned, related);
  }

  /** `neon::recon_average` with `vhadd_u8` in place of `vhadd_s8`: the
      PNG Average reconstruction. */
  function ReconAverageUnsigned(bpp: Bpp, filt: seq<byte>, prev: seq<byte>): (r: seq<byte>)
    ensures ReconstructsWholePixels(Png.Average, bpp, filt, prev, r)
  {
    AverageUnsignedCorrect(bpp, filt, prev);
    ForEachChunkZip(bpp, filt, prev, Zeroed, AverageStepUnsigned)
  }

  lemma ReconAverageUnsignedMatchesFallback(bpp: Bpp, filt: seq<byte>, prev: seq<byte>)
    ensures ReconAverageUnsigned(bpp, filt, prev) == Fallbacks.ReconAverage(bpp, filt, prev)
  {
    ReconstructsWholePixelsUnique(Png.Average, bpp, filt, prev,
      ReconAverageUnsigned(bpp, filt, prev), Fallbacks.ReconAverage(bpp, filt, prev));
  }
}
