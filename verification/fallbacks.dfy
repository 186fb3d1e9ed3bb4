/** The scalar kernels of `src/fallbacks.rs`: always available, plain
    wrapping byte arithmetic on `[u8; BPP]` pixels. Each kernel is its
    chunk loop with its closure, and each is proved to reconstruct the
    pixels both rows hold whole exactly as section 9.2 of the PNG standard
    prescribes, leaving any trailing partial pixel untouched. */
module Fallbacks {
  import opened Bytes
  import Png
  import opened Chunks

  // ---------------------------------------------------------------- Sub

  /** The closure of `recon_sub`: `x[j] = x[j].wrapping_add(a[j])`, then
      the chunk is written back and becomes the next `a`. */
  function SubStep(x: seq<byte>, a: seq<byte>): (seq<byte>, seq<byte>) {
    var y := seq(|x|, j requires 0 <= j < |x| => WrapAdd(x[j], Lane(a, j)));
    (y, y)
  }

  lemma SubStepKeepsWidth(bpp: Bpp)
    ensures RowStepKeepsWidth(bpp, SubStep)
  {
  }

  /** `fallbacks::recon_sub`: every byte of the whole pixels gets the
      already reconstructed byte one pixel to its left; the first pixel
      is left as filtered. */
  function ReconSub(bpp: Bpp, filt: seq<byte>): (r: seq<byte>)
    ensures ReconstructsWholePixels(Png.Sub, bpp, filt, Zeros(|filt|), r)
  {
    SubStepKeepsWidth(bpp);
    SubCorrect(bpp, filt);
    ForEachChunk(bpp, filt, Zeros(bpp), SubStep)
  }

  lemma SubCorrect(bpp: Bpp, filt: seq<byte>)
    ensures RowStepKeepsWidth(bpp, SubStep)
    ensures ReconstructsWholePixels(Png.Sub, bpp, filt, Zeros(|filt|), ForEachChunk(bpp, filt, Zeros(bpp), SubStep))
  {
    SubStepKeepsWidth(bpp);
    CanonicalKeepsWidth(Png.Sub, bpp);
    var related := (a: seq<byte>, n: Neighbours) => a == n.0;
    forall x, k1, k2 | |x| == bpp && related(k1, k2)
      ensures SubStep(x, k1).0 == Canonical(Png.Sub)(x, Zeros(bpp), k2).0
      ensures related(SubStep(x, k1).1, Canonical(Png.Sub)(x, Zeros(bpp), k2).1)
    {
      assert SubStep(x, k1).0 == CanonicalChunk(Png.Sub, x, Zeros(bpp), k2.0, k2.1);
    }
    TopRowReconstructsBySimulation(Png.Sub, bpp, filt, Zeros(bpp), SubStep, related);
  }

  // ----------------------------------------------------------------- Up

  /** `fallbacks::recon_up`: a byte-wise wrapping add of the previous row,
      over as many bytes as both rows have (`zip` stops at the shorter);
      it does not look at pixels at all. */
  function ReconUp(filt: seq<byte>, prev: seq<byte>): (r: seq<byte>)
    ensures ReconstructsOverlap(Png.Up, filt, prev, r)
  {
    var r := seq(|filt|, i requires 0 <= i < |filt| => if i < |prev| then WrapAdd(filt[i], prev[i]) else filt[i]);
    var m := Min(|filt|, |prev|);
    assert forall bpp: Bpp :: Png.Reconstructed(Png.Up, bpp, filt[..m], prev[..m], r[..m]) by {
      forall bpp: Bpp, i | 0 <= i < m
        ensures Png.ByteReconstructed(Png.Up, bpp, filt[..m], prev[..m], r[..m], i)
      {
      }
    }
    r
  }

  /** On the top row, whose previous row is all zero, Up changes nothing:
      there is no "top" variant of it. */
  lemma ReconUpTopIsIdentity(filt: seq<byte>)
    ensures ReconUp(filt, Zeros(|filt|)) == filt
  {
  }

  // ------------------------------------------------------------ Average

  /** `((a as i16 + b as i16) / 2) as u8`, with the `i16` addition
      wrapping and the division rounding toward zero as Rust's do: it is
      the exact floor of the average, because the sum is at most 510 and
      its half at most 255. */
  function AverageOf(a: byte, b: byte): (r: byte)
    ensures r == (a + b) / 2
  {
    AsU8(TruncDiv(Wrap16(a + b), 2))
  }

  /** The closure of `recon_average`. */
  function AverageStep(x: seq<byte>, b: seq<byte>, a: seq<byte>): (seq<byte>, seq<byte>) {
    var y := seq(|x|, j requires 0 <= j < |x| => WrapAdd(x[j], AverageOf(Lane(a, j), Lane(b, j))));
    (y, y)
  }

  lemma AverageStepKeepsWidth(bpp: Bpp)
    ensures PairStepKeepsWidth(bpp, AverageStep)
  {
  }

  /** `fallbacks::recon_average`: every byte of the whole pixels gets the
      floor of the average of its reconstructed left neighbour and the
      byte above. */
  function ReconAverage(bpp: Bpp, filt: seq<byte>, prev: seq<byte>): (r: seq<byte>)
    ensures ReconstructsWholePixels(Png.Average, bpp, filt, prev, r)
  {
    AverageStepKeepsWidth(bpp);
    AverageCorrect(bpp, filt, prev);
    ForEachChunkZip(bpp, filt, prev, Zeros(bpp), AverageStep)
  }

  lemma AverageCorrect(bpp: Bpp, filt: seq<byte>, prev: seq<byte>)
    ensures PairStepKeepsWidth(bpp, AverageStep)
    ensures ReconstructsWholePixels(Png.Average, bpp, filt, prev, ForEachChunkZip(bpp, filt, prev, Zeros(bpp), AverageStep))
  {
    AverageStepKeepsWidth(bpp);
    CanonicalKeepsWidth(Png.Average, bpp);
    var related := (a: seq<byte>, n: Neighbours) => a == n.0;
    forall x, b, k1, k2 | |x| == bpp && |b| == bpp && related(k1, k2)
      ensures AverageStep(x, b, k1).0 == Canonical(Png.Average)(x, b, k2).0
      ensures related(AverageStep(x, b, k1).1, Canonical(Png.Average)(x, b, k2).1)
    {
      assert AverageStep(x, b, k1).0 == CanonicalChunk(Png.Average, x, b, k2.0, k2.1);
    }
    ReconstructsBySimulation(Png.Average, bpp, filt, prev, Zeros(bpp), AverageStep, related);
  }

  // -------------------------------------------------------- AverageTop

  /** The closure of `recon_average_top`: `x[j].wrapping_add(a[j] / 2)`. */
  function AverageTopStep(x: seq<byte>, a: seq<byte>): (seq<byte>, seq<byte>) {
    var y := seq(|x|, j requires 0 <= j < |x| => WrapAdd(x[j], Lane(a, j) / 2));
    (y, y)
  }

  lemma AverageTopStepKeepsWidth(bpp: Bpp)
    ensures RowStepKeepsWidth(bpp, AverageTopStep)
  {
  }

  /** `fallbacks::recon_average_top`: Average on the top row, where the
      previous row is all zero. */
  function ReconAverageTop(bpp: Bpp, filt: seq<byte>): (r: seq<byte>)
    ensures ReconstructsWholePixels(Png.Average, bpp, filt, Zeros(|filt|), r)
  {
    AverageTopStepKeepsWidth(bpp);
    AverageTopCorrect(bpp, filt);
    ForEachChunk(bpp, filt, Zeros(bpp), AverageTopStep)
  }

  lemma AverageTopCorrect(bpp: Bpp, filt: seq<byte>)
    ensures RowStepKeepsWidth(bpp, AverageTopStep)
    ensures ReconstructsWholePixels(Png.Average, bpp, filt, Zeros(|filt|), ForEachChunk(bpp, filt, Zeros(bpp), AverageTopStep))
  {
    AverageTopStepKeepsWidth(bpp);
    CanonicalKeepsWidth(Png.Average, bpp);
    var related := (a: seq<byte>, n: Neighbours) => a == n.0;
    forall x, k1, k2 | |x| == bpp && related(k1, k2)
      ensures AverageTopStep(x, k1).0 == Canonical(Png.Average)(x, Zeros(bpp), k2).0
      ensures related(AverageTopStep(x, k1).1, Canonical(Png.Average)(x, Zeros(bpp), k2).1)
    {
      var z := Zeros(bpp);
      forall j | 0 <= j < bpp
        ensures AverageTopStep(x, k1).0[j] == CanonicalChunk(Png.Average, x, z, k2.0, k2.1)[j]
      {
        assert Lane(z, j) == 0;
      }
      assert AverageTopStep(x, k1).0 == CanonicalChunk(Png.Average, x, z, k2.0, k2.1);
    }
    TopRowReconstructsBySimulation(Png.Average, bpp, filt, Zeros(bpp), AverageTopStep, related);
  }

  /** `recon_average_top` is `recon_average` with an all-zero previous row
      of the same length. */
  lemma AverageTopIsAverageOnZeros(bpp: Bpp, filt: seq<byte>)
    ensures ReconAverageTop(bpp, filt) == ReconAverage(bpp, filt, Zeros(|filt|))
  {
    ReconstructsWholePixelsUnique(Png.Average, bpp, filt, Zeros(|filt|),
      ReconAverageTop(bpp, filt), ReconAverage(bpp, filt, Zeros(|filt|)));
  }

  // -------------------------------------------------------------- Paeth

  /** The `i16` quantities of the Paeth closure, each operation wrapping as
      an `i16` does: `p = a + b - c` and the distances `pa`, `pb`, `pc`. */
  function PaethTerms(a: byte, b: byte, c: byte): (t: (i16, i16, i16, i16)) {
    var p := Wrap16(Wrap16(a + b) - c);
    (p, Wrap16(Abs(Wrap16(p - a))), Wrap16(Abs(Wrap16(p - b))), Wrap16(Abs(Wrap16(p - c))))
  }

  /** None of the `i16` operations of the Paeth closure overflows: the
      estimate lies in [-255, 510] and the distances are those of the
      exact arithmetic, at most 510. */
  lemma PaethTermsExact(a: byte, b: byte, c: byte)
    ensures var t := PaethTerms(a, b, c);
      && t.0 == a + b - c && -255 <= t.0 <= 510
      && t.1 == Png.PaethDistance(a, b, c, a) == Abs(b - c) <= 255
      && t.2 == Png.PaethDistance(a, b, c, b) == Abs(a - c) <= 255
      && t.3 == Png.PaethDistance(a, b, c, c) <= 510
  {
  }

  /** The predictor as the closure computes it, in `i16`, with the
      tie-break `pa <= pb && pa <= pc`, then `pb <= pc`. It is the
      predictor of section 9.4. */
  function PaethOf(a: byte, b: byte, c: byte): (r: byte)
    ensures r == Png.PaethPredictor(a, b, c)
  {
    PaethTermsExact(a, b, c);
    var t := PaethTerms(a, b, c);
    if t.1 <= t.2 && t.1 <= t.3 then a
    else if t.2 <= t.3 then b
    else c
  }

  /** The closure of `recon_paeth`: the state is `(a, c)`; after the chunk
      `a = x` and `c = b`, so `c` is always the previous row's previous
      pixel. */
  function PaethStep(x: seq<byte>, b: seq<byte>, ac: Neighbours): (seq<byte>, Neighbours) {
    var y := seq(|x|, j requires 0 <= j < |x| => WrapAdd(x[j], PaethOf(Lane(ac.0, j), Lane(b, j), Lane(ac.1, j))));
    (y, (y, b))
  }

  lemma PaethStepKeepsWidth(bpp: Bpp)
    ensures PairStepKeepsWidth(bpp, PaethStep)
  {
  }

  /** `fallbacks::recon_paeth`: every byte of the whole pixels gets the
      Paeth predictor of its reconstructed left, upper and upper-left
      neighbours. */
  function ReconPaeth(bpp: Bpp, filt: seq<byte>, prev: seq<byte>): (r: seq<byte>)
    ensures ReconstructsWholePixels(Png.Paeth, bpp, filt, prev, r)
  {
    PaethStepKeepsWidth(bpp);
    PaethCorrect(bpp, filt, prev);
    ForEachChunkZip(bpp, filt, prev, (Zeros(bpp), Zeros(bpp)), PaethStep)
  }

  lemma PaethCorrect(bpp: Bpp, filt: seq<byte>, prev: seq<byte>)
    ensures PairStepKeepsWidth(bpp, PaethStep)
    ensures ReconstructsWholePixels(Png.Paeth, bpp, filt, prev, ForEachChunkZip(bpp, filt, prev, (Zeros(bpp), Zeros(bpp)), PaethStep))
  {
    PaethStepKeepsWidth(bpp);
    CanonicalKeepsWidth(Png.Paeth, bpp);
    var related := (s: Neighbours, n: Neighbours) => s == n;
    forall x, b, k1, k2 | |x| == bpp && |b| == bpp && related(k1, k2)
      ensures PaethStep(x, b, k1).0 == Canonical(Png.Paeth)(x, b, k2).0
      ensures related(PaethStep(x, b, k1).1, Canonical(Png.Paeth)(x, b, k2).1)
    {
      assert PaethStep(x, b, k1).0 == CanonicalChunk(Png.Paeth, x, b, k2.0, k2.1);
    }
    ReconstructsBySimulation(Png.Paeth, bpp, filt, prev, (Zeros(bpp), Zeros(bpp)), PaethStep, related);
  }

  /** Over an all-zero previous row the Paeth predictor is always the left
      neighbour, so a Paeth row is reconstructed exactly like a Sub row. */
  lemma PaethOnZerosIsSub(bpp: Bpp, filt: seq<byte>, out: seq<byte>)
    requires |out| == |filt|
    ensures Png.Reconstructed(Png.Paeth, bpp, filt, Zeros(|filt|), out)
        <==> Png.Reconstructed(Png.Sub, bpp, filt, Zeros(|filt|), out)
  {
    var z := Zeros(|filt|);
    forall i | 0 <= i < |out|
      ensures Png.ByteReconstructed(Png.Paeth, bpp, filt, z, out, i)
          <==> Png.ByteReconstructed(Png.Sub, bpp, filt, z, out, i)
    {
      assert Png.Left(z, i, bpp) == 0;
    }
  }

  /** `recon_paeth` on the top row is `recon_sub`. */
  lemma PaethTopIsSub(bpp: Bpp, filt: seq<byte>)
    ensures ReconPaeth(bpp, filt, Zeros(|filt|)) == ReconSub(bpp, filt)
  {
    var z := Zeros(|filt|);
    var r := ReconPaeth(bpp, filt, z);
    var w := Whole(bpp, Min(|filt|, |z|));
    assert z[..w] == Zeros(w);
    PaethOnZerosIsSub(bpp, filt[..w], r[..w]);
    assert ReconstructsWholePixels(Png.Sub, bpp, filt, z, r);
    ReconstructsWholePixelsUnique(Png.Sub, bpp, filt, z, r, ReconSub(bpp, filt));
  }

  /** The documentation of `recon_paeth` says the kernel is a no-op on the
      top row; it is not: the second byte of `[1, 1]` becomes 2. */
  lemma PaethTopIsNotNoOp()
    ensures ReconPaeth(1, [1, 1], [0, 0]) == [1, 2]
  {
    var filt: seq<byte>, z: seq<byte>, out: seq<byte> := [1, 1], [0, 0], [1, 2];
    forall i | 0 <= i < 2
      ensures Png.ByteReconstructed(Png.Paeth, 1, filt, z, out, i)
    {
      if i == 0 {
        assert Png.ByteReconstructed(Png.Paeth, 1, filt, z, out, 0);
      } else {
        assert Png.ByteReconstructed(Png.Paeth, 1, filt, z, out, 1);
      }
    }
    WholeRowReconstructs(Png.Paeth, 1, filt, z, out, 2);
    ReconstructsWholePixelsUnique(Png.Paeth, 1, filt, z, out, ReconPaeth(1, filt, z));
  }
}
