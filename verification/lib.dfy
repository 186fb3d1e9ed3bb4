/** The crate root, `src/lib.rs`: the two Sub kernels it defines itself.
    Its remaining entries (Up, Average, Paeth and the filtering direction)
    are still to do there and have no code. */
module PngFilters {
  import opened Bytes
  import Png
  import opened Chunks
  import X86
  import Fallbacks
  import Sse2

  /** `recon_sub_fallback`: the same closure as `fallbacks::recon_sub`. */
  function ReconSubFallback(bpp: Bpp, filt: seq<byte>): (r: seq<byte>)
    ensures ReconstructsWholePixels(Png.Sub, bpp, filt, Zeros(|filt|), r)
  {
    Fallbacks.SubCorrect(bpp, filt);
    ForEachChunk(bpp, filt, Zeros(bpp), Fallbacks.SubStep)
  }

  /** `recon_sub_sse2`: the register closure of `sse2::recon_sub`. */
  function ReconSubSse2(bpp: Bpp, filt: seq<byte>): (r: seq<byte>)
    ensures ReconstructsWholePixels(Png.Sub, bpp, filt, Zeros(|filt|), r)
  {
    Sse2.SubCorrect(bpp, filt);
    ForEachChunk(bpp, filt, X86.Zeroed, Sse2.SubStep)
  }

  /** The two Sub kernels of the crate root agree on every row. */
  lemma ReconSubSse2MatchesFallback(bpp: Bpp, filt: seq<byte>)
    ensures ReconSubSse2(bpp, filt) == ReconSubFallback(bpp, filt)
  {
    ReconstructsWholePixelsUnique(Png.Sub, bpp, filt, Zeros(|filt|), ReconSubSse2(bpp, filt), ReconSubFallback(bpp, filt));
  }

  /** The crate's exported fallback is the scalar Sub kernel. */
  lemma ReconSubFallbackMatchesFallbacks(bpp: Bpp, filt: seq<byte>)
    ensures ReconSubFallback(bpp, filt) == Fallbacks.ReconSub(bpp, filt)
  {
    ReconstructsWholePixelsUnique(Png.Sub, bpp, filt, Zeros(|filt|), ReconSubFallback(bpp, filt), Fallbacks.ReconSub(bpp, filt));
  }
}
