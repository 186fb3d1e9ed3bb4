/** The kernel of `src/sse2.rs`: Sub with the pixel held in an SSE
    register. The same closure appears, unchanged, as `recon_sub_sse2` in
    `src/lib.rs` and as `recon_sub` in `src/sse4_1.rs`; those models reuse
    the step defined here. */
module Sse2 {
  import opened Bytes
  import Png
  import opened Chunks
  import opened X86
  import Fallbacks

  /** The closure: load the chunk into the low bytes of a zeroed register,
      `_mm_add_epi8` the previous pixel's register, store the low bytes
      back, and carry the whole register as the next `a`. */
  function SubStep(x: seq<byte>, a: M128): (seq<byte>, M128) {
    var r := AddEpi8(LoadBytes(x), a);
    (Store(r, |x|), r)
  }

  lemma SubStepKeepsWidth(bpp: Bpp)
    ensures RowStepKeepsWidth(bpp, SubStep)
  {
  }

  /** The register stands for the reconstructed pixel in its low `bpp`
      bytes; the bytes above are never stored, and they stay zero: the
      chunk is loaded into a zeroed register and `_mm_add_epi8` works
      byte by byte. */
  ghost predicate HoldsPixel(bpp: Bpp, r: M128, pixel: seq<byte>) {
    && (forall j :: 0 <= j < bpp ==> r[j] == Lane(pixel, j))
    && (forall j :: bpp <= j < 16 ==> r[j] == 0)
  }

  /** After a chunk the carried register holds the pixel just written,
      and its bytes above the pixel are still zero. */
  lemma SubStepHoldsPixel(bpp: Bpp, x: seq<byte>, a: M128, left: seq<byte>)
    requires |x| == bpp && HoldsPixel(bpp, a, left)
    ensures HoldsPixel(bpp, SubStep(x, a).1, SubStep(x, a).0)
  {
    var r := SubStep(x, a).1;
    forall j | bpp <= j < 16
      ensures r[j] == 0
    {
      assert LoadBytes(x)[j] == 0 && a[j] == 0;
    }
  }

  /** The register closure, from a zeroed register, keeps the promise of
      a Sub kernel. */
  lemma SubCorrect(bpp: Bpp, filt: seq<byte>)
    ensures RowStepKeepsWidth(bpp, SubStep)
    ensures ReconstructsWholePixels(Png.Sub, bpp, filt, Zeros(|filt|), ForEachChunk(bpp, filt, Zeroed, SubStep))
  {
    SubStepKeepsWidth(bpp);
    CanonicalKeepsWidth(Png.Sub, bpp);
    var related := (r: M128, n: Neighbours) => HoldsPixel(bpp, r, n.0);
    forall x, k1, k2 | |x| == bpp && related(k1, k2)
      ensures SubStep(x, k1).0 == Canonical(Png.Sub)(x, Zeros(bpp), k2).0
      ensures related(SubStep(x, k1).1, Canonical(Png.Sub)(x, Zeros(bpp), k2).1)
    {
      var y := CanonicalChunk(Png.Sub, x, Zeros(bpp), k2.0, k2.1);
      forall j | 0 <= j < bpp
        ensures SubStep(x, k1).0[j] == y[j]
      {
        assert HoldsPixel(bpp, k1, k2.0);
      }
      SubStepHoldsPixel(bpp, x, k1, k2.0);
    }
    assert related(Zeroed, (Zeros(bpp), Zeros(bpp)));
    TopRowReconstructsBySimulation(Png.Sub, bpp, filt, Zeroed, SubStep, related);
  }

  /** `sse2::recon_sub`: reconstructs the whole pixels of a Sub row. */
  function ReconSub(bpp: Bpp, filt: seq<byte>): (r: seq<byte>)
    ensures ReconstructsWholePixels(Png.Sub, bpp, filt, Zeros(|filt|), r)
  {
    SubCorrect(bpp, filt);
    ForEachChunk(bpp, filt, Zeroed, SubStep)
  }

  /** The register kernel and the scalar kernel agree on every row. */
  lemma ReconSubMatchesFallback(bpp: Bpp, filt: seq<byte>)
    ensures ReconSub(bpp, filt) == Fallbacks.ReconSub(bpp, filt)
  {
    ReconstructsWholePixelsUnique(Png.Sub, bpp, filt, Zeros(|filt|), ReconSub(bpp, filt), Fallbacks.ReconSub(bpp, filt));
  }
}
