/** The literal rows of the repository's tests (`tests/all_tests/main.rs`,
    `tests/all_tests.rs`, `tests/all_tests/sse2_tests.rs` and
    `tests/all_tests/neon_tests.rs`), proved for every kernel that
    implements the filter under test: each expected row is shown to be
    the standard's reconstruction, and each kernel's contract then
    leaves it no other result. */
module TestVectors {
  import opened Bytes
  import Png
  import opened Chunks
  import Fallbacks
  import PngFilters
  import Sse2
  import Sse41
  import Neon

  /** The filtered row every test starts from. */
  const Row: seq<byte> := [1, 2, 3, 255, 5, 6, 7, 8]

  /** The previous row of the Up, Average and Paeth tests. */
  const LastRow: seq<byte> := [12, 17, 127, 128, 255, 250, 7, 54]

  /** An eight-byte row is reconstructed when each of its bytes is. */
  lemma EightBytes(f: Png.FilterType, bpp: Bpp, filt: seq<byte>, prev: seq<byte>, out: seq<byte>)
    requires |out| == |filt| == |prev| == 8
    requires Png.ByteReconstructed(f, bpp, filt, prev, out, 0) && Png.ByteReconstructed(f, bpp, filt, prev, out, 1)
    requires Png.ByteReconstructed(f, bpp, filt, prev, out, 2) && Png.ByteReconstructed(f, bpp, filt, prev, out, 3)
    requires Png.ByteReconstructed(f, bpp, filt, prev, out, 4) && Png.ByteReconstructed(f, bpp, filt, prev, out, 5)
    requires Png.ByteReconstructed(f, bpp, filt, prev, out, 6) && Png.ByteReconstructed(f, bpp, filt, prev, out, 7)
    ensures Png.Reconstructed(f, bpp, filt, prev, out)
  {
    forall i | 0 <= i < 8
      ensures Png.ByteReconstructed(f, bpp, filt, prev, out, i)
    {
      if i < 4 {
        if i < 2 { assert i == 0 || i == 1; } else { assert i == 2 || i == 3; }
      } else {
        if i < 6 { assert i == 4 || i == 5; } else { assert i == 6 || i == 7; }
      }
    }
  }

  /** A kernel keeping its promise on rows of whole pixels returns the
      reconstruction. */
  lemma Determined(f: Png.FilterType, bpp: Bpp, k: nat, filt: seq<byte>, prev: seq<byte>, out: seq<byte>, r: seq<byte>)
    requires |filt| == |prev| == k * bpp
    requires Png.Reconstructed(f, bpp, filt, prev, out)
    requires ReconstructsWholePixels(f, bpp, filt, prev, r)
    ensures r == out
  {
    WholeRowReconstructs(f, bpp, filt, prev, out, k);
    ReconstructsWholePixelsUnique(f, bpp, filt, prev, r, out);
  }

  // ---------------------------------------------------------------- Sub

  /** Every Sub kernel of the crate returns `e` on `Row`. */
  lemma SubKernels(bpp: Bpp, k: nat, e: seq<byte>)
    requires |Row| == k * bpp
    requires Png.Reconstructed(Png.Sub, bpp, Row, Zeros(8), e)
    ensures Fallbacks.ReconSub(bpp, Row) == e
    ensures PngFilters.ReconSubFallback(bpp, Row) == e
    ensures PngFilters.ReconSubSse2(bpp, Row) == e
    ensures Sse2.ReconSub(bpp, Row) == e
    ensures Sse41.ReconSub(bpp, Row) == e
    ensures Neon.ReconSub(bpp, Row) == e
  {
    var z := Zeros(8);
    Determined(Png.Sub, bpp, k, Row, z, e, Fallbacks.ReconSub(bpp, Row));
    Determined(Png.Sub, bpp, k, Row, z, e, PngFilters.ReconSubFallback(bpp, Row));
    Determined(Png.Sub, bpp, k, Row, z, e, PngFilters.ReconSubSse2(bpp, Row));
    Determined(Png.Sub, bpp, k, Row, z, e, Sse2.ReconSub(bpp, Row));
    Determined(Png.Sub, bpp, k, Row, z, e, Sse41.ReconSub(bpp, Row));
    Determined(Png.Sub, bpp, k, Row, z, e, Neon.ReconSub(bpp, Row));
  }

  /** The expected row of `test_recon_sub_fallback`, 1 byte per pixel, is the standard's
      reconstruction. */
  lemma SubStandardBpp1()
    ensures Png.Reconstructed(Png.Sub, 1, Row, Zeros(8), [1, 3, 6, 5, 10, 16, 23, 31])
  {
    EightBytes(Png.Sub, 1, Row, Zeros(8), [1, 3, 6, 5, 10, 16, 23, 31]);
  }

  /** `test_recon_sub_fallback`, `test_recon_sub_sse2`, `test_recon_sub_neon`, 1 byte per pixel. */
  lemma SubVectorBpp1()
    ensures Fallbacks.ReconSub(1, Row) == [1, 3, 6, 5, 10, 16, 23, 31]
    ensures PngFilters.ReconSubFallback(1, Row) == [1, 3, 6, 5, 10, 16, 23, 31]
    ensures PngFilters.ReconSubSse2(1, Row) == [1, 3, 6, 5, 10, 16, 23, 31]
    ensures Sse2.ReconSub(1, Row) == [1, 3, 6, 5, 10, 16, 23, 31]
    ensures Sse41.ReconSub(1, Row) == [1, 3, 6, 5, 10, 16, 23, 31]
    ensures Neon.ReconSub(1, Row) == [1, 3, 6, 5, 10, 16, 23, 31]
  {
    SubStandardBpp1();
    SubKernels(1, 8, [1, 3, 6, 5, 10, 16, 23, 31]);
  }

  /** The expected row of `test_recon_sub_fallback`, 2 bytes per pixel, is the standard's
      reconstruction. */
  lemma SubStandardBpp2()
    ensures Png.Reconstructed(Png.Sub, 2, Row, Zeros(8), [1, 2, 4, 1, 9, 7, 16, 15])
  {
    EightBytes(Png.Sub, 2, Row, Zeros(8), [1, 2, 4, 1, 9, 7, 16, 15]);
  }

  /** `test_recon_sub_fallback`, `test_recon_sub_sse2`, `test_recon_sub_neon`, 2 bytes per pixel. */
  lemma SubVectorBpp2()
    ensures Fallbacks.ReconSub(2, Row) == [1, 2, 4, 1, 9, 7, 16, 15]
    ensures PngFilters.ReconSubFallback(2, Row) == [1, 2, 4, 1, 9, 7, 16, 15]
    ensures PngFilters.ReconSubSse2(2, Row) == [1, 2, 4, 1, 9, 7, 16, 15]
    ensures Sse2.ReconSub(2, Row) == [1, 2, 4, 1, 9, 7, 16, 15]
    ensures Sse41.ReconSub(2, Row) == [1, 2, 4, 1, 9, 7, 16, 15]
    ensures Neon.ReconSub(2, Row) == [1, 2, 4, 1, 9, 7, 16, 15]
  {
    SubStandardBpp2();
    SubKernels(2, 4, [1, 2, 4, 1, 9, 7, 16, 15]);
  }

  /** The expected row of `test_recon_sub_fallback`, 4 bytes per pixel, is the standard's
      reconstruction. */
  lemma SubStandardBpp4()
    ensures Png.Reconstructed(Png.Sub, 4, Row, Zeros(8), [1, 2, 3, 255, 6, 8, 10, 7])
  {
    EightBytes(Png.Sub, 4, Row, Zeros(8), [1, 2, 3, 255, 6, 8, 10, 7]);
  }

  /** `test_recon_sub_fallback`, `test_recon_sub_sse2`, `test_recon_sub_neon`, 4 bytes per pixel. */
  lemma SubVectorBpp4()
    ensures Fallbacks.ReconSub(4, Row) == [1, 2, 3, 255, 6, 8, 10, 7]
    ensures PngFilters.ReconSubFallback(4, Row) == [1, 2, 3, 255, 6, 8, 10, 7]
    ensures PngFilters.ReconSubSse2(4, Row) == [1, 2, 3, 255, 6, 8, 10, 7]
    ensures Sse2.ReconSub(4, Row) == [1, 2, 3, 255, 6, 8, 10, 7]
    ensures Sse41.ReconSub(4, Row) == [1, 2, 3, 255, 6, 8, 10, 7]
    ensures Neon.ReconSub(4, Row) == [1, 2, 3, 255, 6, 8, 10, 7]
  {
    SubStandardBpp4();
    SubKernels(4, 2, [1, 2, 3, 255, 6, 8, 10, 7]);
  }

  // ----------------------------------------------------------------- Up

  /** `test_recon_up_fallback`, for the three Up kernels. */
  lemma UpVector()
    ensures Fallbacks.ReconUp(Row, LastRow) == [13, 19, 130, 127, 4, 0, 14, 62]
    ensures Sse41.ReconUp(Row, LastRow) == [13, 19, 130, 127, 4, 0, 14, 62]
    ensures Neon.ReconUp(Row, LastRow) == [13, 19, 130, 127, 4, 0, 14, 62]
  {
    var e: seq<byte> := [13, 19, 130, 127, 4, 0, 14, 62];
    var r := Fallbacks.ReconUp(Row, LastRow);
    assert Row[..8] == Row && LastRow[..8] == LastRow && r[..8] == r;
    assert Png.Reconstructed(Png.Up, 1, Row, LastRow, r);
    EightBytes(Png.Up, 1, Row, LastRow, e);
    Png.ReconstructedUnique(Png.Up, 1, Row, LastRow, r, e);
  }

  // ------------------------------------------------------------ Average

  /** Every kernel that reconstructs Average rows returns `e` on `Row`
      under `LastRow`. */
  lemma AverageKernels(bpp: Bpp, k: nat, e: seq<byte>)
    requires |Row| == k * bpp
    requires Png.Reconstructed(Png.Average, bpp, Row, LastRow, e)
    ensures Fallbacks.ReconAverage(bpp, Row, LastRow) == e
    ensures Sse41.ReconAverage(bpp, Row, LastRow) == e
    ensures Neon.ReconAverageUnsigned(bpp, Row, LastRow) == e
  {
    Determined(Png.Average, bpp, k, Row, LastRow, e, Fallbacks.ReconAverage(bpp, Row, LastRow));
    Determined(Png.Average, bpp, k, Row, LastRow, e, Sse41.ReconAverage(bpp, Row, LastRow));
    Determined(Png.Average, bpp, k, Row, LastRow, e, Neon.ReconAverageUnsigned(bpp, Row, LastRow));
  }

  /** The expected row of `test_recon_average_fallback`, 1 byte per pixel, is the standard's
      reconstruction. */
  lemma AverageStandardBpp1()
    ensures Png.Reconstructed(Png.Average, 1, Row, LastRow, [7, 14, 73, 99, 182, 222, 121, 95])
  {
    EightBytes(Png.Average, 1, Row, LastRow, [7, 14, 73, 99, 182, 222, 121, 95]);
  }

  /** `test_recon_average_fallback`, 1 byte per pixel. */
  lemma AverageVectorBpp1()
    ensures Fallbacks.ReconAverage(1, Row, LastRow) == [7, 14, 73, 99, 182, 222, 121, 95]
    ensures Sse41.ReconAverage(1, Row, LastRow) == [7, 14, 73, 99, 182, 222, 121, 95]
    ensures Neon.ReconAverageUnsigned(1, Row, LastRow) == [7, 14, 73, 99, 182, 222, 121, 95]
  {
    AverageStandardBpp1();
    AverageKernels(1, 8, [7, 14, 73, 99, 182, 222, 121, 95]);
  }

  /** The expected row of `test_recon_average_fallback`, 2 bytes per pixel, is the standard's
      reconstruction. */
  lemma AverageStandardBpp2()
    ensures Png.Reconstructed(Png.Average, 2, Row, LastRow, [7, 10, 70, 68, 167, 165, 94, 117])
  {
    EightBytes(Png.Average, 2, Row, LastRow, [7, 10, 70, 68, 167, 165, 94, 117]);
  }

  /** `test_recon_average_fallback`, 2 bytes per pixel. */
  lemma AverageVectorBpp2()
    ensures Fallbacks.ReconAverage(2, Row, LastRow) == [7, 10, 70, 68, 167, 165, 94, 117]
    ensures Sse41.ReconAverage(2, Row, LastRow) == [7, 10, 70, 68, 167, 165, 94, 117]
    ensures Neon.ReconAverageUnsigned(2, Row, LastRow) == [7, 10, 70, 68, 167, 165, 94, 117]
  {
    AverageStandardBpp2();
    AverageKernels(2, 4, [7, 10, 70, 68, 167, 165, 94, 117]);
  }

  /** The expected row of `test_recon_average_fallback`, 4 bytes per pixel, is the standard's
      reconstruction. */
  lemma AverageStandardBpp4()
    ensures Png.Reconstructed(Png.Average, 4, Row, LastRow, [7, 10, 66, 63, 136, 136, 43, 66])
  {
    EightBytes(Png.Average, 4, Row, LastRow, [7, 10, 66, 63, 136, 136, 43, 66]);
  }

  /** `test_recon_average_fallback`, 4 bytes per pixel. */
  lemma AverageVectorBpp4()
    ensures Fallbacks.ReconAverage(4, Row, LastRow) == [7, 10, 66, 63, 136, 136, 43, 66]
    ensures Sse41.ReconAverage(4, Row, LastRow) == [7, 10, 66, 63, 136, 136, 43, 66]
    ensures Neon.ReconAverageUnsigned(4, Row, LastRow) == [7, 10, 66, 63, 136, 136, 43, 66]
  {
    AverageStandardBpp4();
    AverageKernels(4, 2, [7, 10, 66, 63, 136, 136, 43, 66]);
  }

  // -------------------------------------------------------- AverageTop

  lemma AverageTopKernels(bpp: Bpp, k: nat, e: seq<byte>)
    requires |Row| == k * bpp
    requires Png.Reconstructed(Png.Average, bpp, Row, Zeros(8), e)
    ensures Fallbacks.ReconAverageTop(bpp, Row) == e
    ensures Sse41.ReconAverageTop(bpp, Row) == e
  {
    var z := Zeros(8);
    Determined(Png.Average, bpp, k, Row, z, e, Fallbacks.ReconAverageTop(bpp, Row));
    Determined(Png.Average, bpp, k, Row, z, e, Sse41.ReconAverageTop(bpp, Row));
  }

  /** The expected row of `test_recon_average_top_fallback`, 1 byte per pixel, is the standard's
      reconstruction. */
  lemma AverageTopStandardBpp1()
    ensures Png.Reconstructed(Png.Average, 1, Row, Zeros(8), [1, 2, 4, 1, 5, 8, 11, 13])
  {
    EightBytes(Png.Average, 1, Row, Zeros(8), [1, 2, 4, 1, 5, 8, 11, 13]);
  }

  /** `test_recon_average_top_fallback`, 1 byte per pixel. */
  lemma AverageTopVectorBpp1()
    ensures Fallbacks.ReconAverageTop(1, Row) == [1, 2, 4, 1, 5, 8, 11, 13]
    ensures Sse41.ReconAverageTop(1, Row) == [1, 2, 4, 1, 5, 8, 11, 13]
  {
    AverageTopStandardBpp1();
    AverageTopKernels(1, 8, [1, 2, 4, 1, 5, 8, 11, 13]);
  }

  /** The expected row of `test_recon_average_top_fallback`, 2 bytes per pixel, is the standard's
      reconstruction. */
  lemma AverageTopStandardBpp2()
    ensures Png.Reconstructed(Png.Average, 2, Row, Zeros(8), [1, 2, 3, 0, 6, 6, 10, 11])
  {
    EightBytes(Png.Average, 2, Row, Zeros(8), [1, 2, 3, 0, 6, 6, 10, 11]);
  }

  /** `test_recon_average_top_fallback`, 2 bytes per pixel. */
  lemma AverageTopVectorBpp2()
    ensures Fallbacks.ReconAverageTop(2, Row) == [1, 2, 3, 0, 6, 6, 10, 11]
    ensures Sse41.ReconAverageTop(2, Row) == [1, 2, 3, 0, 6, 6, 10, 11]
  {
    AverageTopStandardBpp2();
    AverageTopKernels(2, 4, [1, 2, 3, 0, 6, 6, 10, 11]);
  }

  /** The expected row of `test_recon_average_top_fallback`, 4 bytes per pixel, is the standard's
      reconstruction. */
  lemma AverageTopStandardBpp4()
    ensures Png.Reconstructed(Png.Average, 4, Row, Zeros(8), [1, 2, 3, 255, 5, 7, 8, 135])
  {
    EightBytes(Png.Average, 4, Row, Zeros(8), [1, 2, 3, 255, 5, 7, 8, 135]);
  }

  /** `test_recon_average_top_fallback`, 4 bytes per pixel. */
  lemma AverageTopVectorBpp4()
    ensures Fallbacks.ReconAverageTop(4, Row) == [1, 2, 3, 255, 5, 7, 8, 135]
    ensures Sse41.ReconAverageTop(4, Row) == [1, 2, 3, 255, 5, 7, 8, 135]
  {
    AverageTopStandardBpp4();
    AverageTopKernels(4, 2, [1, 2, 3, 255, 5, 7, 8, 135]);
  }

  // -------------------------------------------------------------- Paeth

  lemma PaethKernels(bpp: Bpp, k: nat, e: seq<byte>)
    requires |Row| == k * bpp
    requires Png.Reconstructed(Png.Paeth, bpp, Row, LastRow, e)
    ensures Fallbacks.ReconPaeth(bpp, Row, LastRow) == e
    ensures Sse41.ReconPaeth(bpp, Row, LastRow) == e
  {
    Determined(Png.Paeth, bpp, k, Row, LastRow, e, Fallbacks.ReconPaeth(bpp, Row, LastRow));
    Determined(Png.Paeth, bpp, k, Row, LastRow, e, Sse41.ReconPaeth(bpp, Row, LastRow));
  }

  /** The expected row of `test_recon_paeth_fallback`, 1 byte per pixel, is the standard's
      reconstruction. */
  lemma PaethStandardBpp1()
    ensures Png.Reconstructed(Png.Paeth, 1, Row, LastRow, [13, 19, 130, 129, 4, 10, 14, 62])
  {
    EightBytes(Png.Paeth, 1, Row, LastRow, [13, 19, 130, 129, 4, 10, 14, 62]);
  }

  /** `test_recon_paeth_fallback`, 1 byte per pixel. */
  lemma PaethVectorBpp1()
    ensures Fallbacks.ReconPaeth(1, Row, LastRow) == [13, 19, 130, 129, 4, 10, 14, 62]
    ensures Sse41.ReconPaeth(1, Row, LastRow) == [13, 19, 130, 129, 4, 10, 14, 62]
  {
    PaethStandardBpp1();
    PaethKernels(1, 8, [13, 19, 130, 129, 4, 10, 14, 62]);
  }

  /** The expected row of `test_recon_paeth_fallback`, 2 bytes per pixel, is the standard's
      reconstruction. */
  lemma PaethStandardBpp2()
    ensures Png.Reconstructed(Png.Paeth, 2, Row, LastRow, [13, 19, 130, 127, 4, 0, 11, 8])
  {
    EightBytes(Png.Paeth, 2, Row, LastRow, [13, 19, 130, 127, 4, 0, 11, 8]);
  }

  /** `test_recon_paeth_fallback`, 2 bytes per pixel. */
  lemma PaethVectorBpp2()
    ensures Fallbacks.ReconPaeth(2, Row, LastRow) == [13, 19, 130, 127, 4, 0, 11, 8]
    ensures Sse41.ReconPaeth(2, Row, LastRow) == [13, 19, 130, 127, 4, 0, 11, 8]
  {
    PaethStandardBpp2();
    PaethKernels(2, 4, [13, 19, 130, 127, 4, 0, 11, 8]);
  }

  /** The expected row of `test_recon_paeth_fallback`, 4 bytes per pixel, is the standard's
      reconstruction. */
  lemma PaethStandardBpp4()
    ensures Png.Reconstructed(Png.Paeth, 4, Row, LastRow, [13, 19, 130, 127, 4, 0, 14, 62])
  {
    EightBytes(Png.Paeth, 4, Row, LastRow, [13, 19, 130, 127, 4, 0, 14, 62]);
  }

  /** `test_recon_paeth_fallback`, 4 bytes per pixel. */
  lemma PaethVectorBpp4()
    ensures Fallbacks.ReconPaeth(4, Row, LastRow) == [13, 19, 130, 127, 4, 0, 14, 62]
    ensures Sse41.ReconPaeth(4, Row, LastRow) == [13, 19, 130, 127, 4, 0, 14, 62]
  {
    PaethStandardBpp4();
    PaethKernels(4, 2, [13, 19, 130, 127, 4, 0, 14, 62]);
  }
}
