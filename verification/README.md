# png_filters, modelled in Dafny

`png_filters` is a Rust crate that reconstructs PNG scanlines: it undoes the
four byte-changing filter types of filter method 0 of the PNG standard (Sub,
Up, Average, Paeth, plus AverageTop, the Average kernel for an image's top row)
in place on a row of bytes, one pixel of `BYTES_PER_PIXEL` (1 to 8) bytes at a
time. Each filter has a scalar kernel (`src/fallbacks.rs`, and the
`recon_sub_fallback` of `src/lib.rs`). Some also have SIMD kernels: SSE2 (`src/sse2.rs`,
`recon_sub_sse2` in `src/lib.rs`), SSE4.1 (`src/sse4_1.rs`) and NEON
(`src/neon.rs`).

This project models every one of those kernels as a pure Dafny function over
`seq<byte>`:

- `Bytes` — machine integers (`u8`, `i16`), Rust's wrapping and truncating
  operators written out, and `Whole`, the number of bytes
  `chunks_exact` hands out.
- `Png` — the reference. Section 9.2 of the PNG specification is stated byte by
  byte (`Png.Reconstructed`), with the Paeth predictor of section 9.4 and the
  filtering direction it inverts.
- `Chunks` — one generic model of
  `row.chunks_exact_mut(bpp)[.zip(prev.chunks_exact(bpp))].for_each(closure)`
  with a carried state. It also holds the two facts every kernel proof is
  built from:
  - a closure that simulates another yields the same row;
  - the closure that applies the standard to one pixel reconstructs the row.
- `Fallbacks`, `PngFilters` (the crate root), `Sse2`, `Sse41`, `Neon` — the
  kernels, each as its chunk loop and its closure.
- `X86`, `Arm` — the SSE and NEON intrinsics the kernels call. Each has a
  lane-wise meaning: a register is its bytes, and 16-bit lanes are read little-endian.
- `TestVectors` — the literal rows of the repository's tests. Each is shown to be
  the standard's reconstruction and the result of every kernel of that filter
  that keeps the standard (for NEON Average, the corrected kernel).

Every kernel is proved to reconstruct the bytes of the pixels that both rows
hold whole, as the standard prescribes, and to leave any trailing partial pixel
unchanged. That is what `chunks_exact` does in a release build. Because that
promise determines the row (`Chunks.ReconstructsWholePixelsUnique`), every
SIMD kernel is equal to its scalar kernel on every input.

There is one exception: `neon::recon_average` as written. It uses the signed
halving add `vhadd_s8`, and its output differs from the standard's (see
Findings). The model keeps the kernel as written, exhibits the difference, and
proves the kernel with `vhadd_u8` in its place correct.

The code and its documentation disagree on one point. The comment on
`fallbacks::recon_paeth` (src/fallbacks.rs:89-91) says the kernel is a no-op on
the top row. It is not: over an all-zero previous row the Paeth predictor is
always the left neighbour, so the kernel behaves exactly as Sub. The model
follows the code (`Fallbacks.PaethTopIsSub`) and refutes the comment on a
concrete row (`Fallbacks.PaethTopIsNotNoOp`).

The assertions that the row length is a multiple of the pixel size, and that
both rows have equal length, are `debug_assert`s. So they are not
preconditions here: the model follows the release build, where `chunks_exact`
and `zip` stop at the shorter whole-pixel prefix. `Bytes.WholeOfMultiple` and
`Chunks.WholeRowReconstructs` state what happens in the case the debug
assertions insist on: the whole row is reconstructed.

## Model

| member | source | states |
|---|---|---|
| Bytes.Whole | src/fallbacks.rs:16 | `chunks_exact` hands out a whole number of pixels, a multiple of the pixel size, and leaves fewer than one pixel's bytes behind |
| Bytes.WholeOfMultiple | src/fallbacks.rs:13 | a row whose length is a multiple of the pixel size is handed out by `chunks_exact` to its last byte |
| Bytes.WrapAdd | src/fallbacks.rs:18 | `u8::wrapping_add` gives the byte congruent to the sum modulo 256 |
| Bytes.TruncDiv | src/fallbacks.rs:63 | the signed `/` of the Average kernel rounds toward zero: the quotient has the dividend's sign and the largest magnitude whose multiple does not exceed it |
| Png.PaethPredictorNearest | src/fallbacks.rs:113-123 | the Paeth predictor is the neighbour nearest to the estimate `a + b - c`, ties going to `a` and then to `b` |
| Png.ReconstructedUnique | src/lib.rs:7-26 | a filtered row has at most one reconstruction under a given filter type, pixel size and previous row |
| Png.ReconstructionInvertsFilter | src/lib.rs:7-26 | reconstruction undoes filtering: a row reconstructs the filtered form of `raw` if and only if it is `raw` |
| Chunks.ForEachChunk | src/fallbacks.rs:16-21 | the chunk loop keeps the row's length and leaves the bytes after the last whole pixel unchanged |
| Chunks.ForEachChunkZip | src/fallbacks.rs:56-68 | the zipped chunk loop keeps the row's length and leaves every byte after the pixels both rows hold whole unchanged |
| Chunks.Simulation | src/fallbacks.rs:56-68 | two zipped chunk loops whose closures agree chunk by chunk, from related states, produce the same row |
| Chunks.RowSimulation | src/fallbacks.rs:16-21 | the same for single-row chunk loops |
| Chunks.TopRowSimulation | src/fallbacks.rs:74-85 | a single-row loop whose closure agrees with a two-row closure fed a zero pixel above equals the two-row loop over an all-zero previous row |
| Chunks.ReconstructsWholePixelsUnique | src/fallbacks.rs:16-21 | a row that reconstructs the whole pixels and keeps the trailing bytes is unique, so two kernels keeping that promise agree |
| Chunks.WholeRowReconstructs | src/fallbacks.rs:13-14 | when both rows are whole pixels, keeping the kernel promise is exactly being the standard's reconstruction of the whole row |
| Chunks.CanonicalExtends | src/fallbacks.rs:56-68 | from any reconstructed prefix, the per-pixel standard closure extends it to a reconstruction of every whole pixel and keeps the rest |
| Chunks.CanonicalReconstructs | src/lib.rs:11-26 | the chunk loop whose closure applies the standard to one pixel, carrying the left and upper-left pixels, keeps the kernel promise |
| Chunks.ReconstructsBySimulation | src/fallbacks.rs:56-68 | any two-row kernel whose closure simulates the standard closure keeps the kernel promise |
| Chunks.TopRowReconstructsBySimulation | src/fallbacks.rs:16-21 | any single-row kernel whose closure simulates the standard closure over a zero row keeps the top-row kernel promise |
| Fallbacks.ReconSub | src/fallbacks.rs:11-22 | `recon_sub` reconstructs every whole pixel of a Sub row from the byte one pixel to its left and leaves a trailing partial pixel as it is |
| Fallbacks.SubCorrect | src/fallbacks.rs:15-21 | the closure `x += a; a = x` started from a zero pixel keeps the Sub promise |
| Fallbacks.ReconUp | src/fallbacks.rs:36-40 | `recon_up` reconstructs, for every pixel size, each byte both rows have by adding the byte above, and leaves the rest of the row |
| Fallbacks.ReconUpTopIsIdentity | src/fallbacks.rs:29-30 | on the top row, whose previous row is zero, Up changes nothing |
| Fallbacks.AverageOf | src/fallbacks.rs:63 | `((a as i16 + b as i16) / 2) as u8` is the exact floor of the average of the two bytes |
| Fallbacks.ReconAverage | src/fallbacks.rs:50-69 | `recon_average` reconstructs every whole pixel both rows hold with the floor of the average of left and upper bytes |
| Fallbacks.AverageCorrect | src/fallbacks.rs:59-68 | the closure, started from a zero pixel, keeps the Average promise |
| Fallbacks.ReconAverageTop | src/fallbacks.rs:74-85 | `recon_average_top` (`x += a / 2`) reconstructs the whole pixels of an Average row over an all-zero previous row |
| Fallbacks.AverageTopCorrect | src/fallbacks.rs:79-84 | its closure keeps the top-row Average promise |
| Fallbacks.AverageTopIsAverageOnZeros | src/fallbacks.rs:71 | `recon_average_top` equals `recon_average` given an all-zero previous row |
| Fallbacks.PaethTermsExact | src/fallbacks.rs:113-116 | none of the `i16` operations computing `p`, `pa`, `pb`, `pc` overflows, and the distances are those of exact arithmetic |
| Fallbacks.PaethOf | src/fallbacks.rs:113-123 | the closure's `i16` selection equals the standard's Paeth predictor |
| Fallbacks.ReconPaeth | src/fallbacks.rs:99-128 | `recon_paeth` reconstructs every whole pixel both rows hold with the Paeth predictor of left, upper and upper-left bytes |
| Fallbacks.PaethCorrect | src/fallbacks.rs:109-128 | the closure carrying `a = x` and `c = b` keeps the Paeth promise |
| Fallbacks.PaethOnZerosIsSub | src/fallbacks.rs:89-91 | over an all-zero previous row a row is a Paeth reconstruction if and only if it is a Sub reconstruction |
| Fallbacks.PaethTopIsSub | src/fallbacks.rs:89-91 | on the top row `recon_paeth` equals `recon_sub`, not the identity its documentation claims |
| Fallbacks.PaethTopIsNotNoOp | src/fallbacks.rs:89-91 | on the top row `[1, 1]` with one byte per pixel `recon_paeth` gives `[1, 2]`, so it is not a no-op |
| PngFilters.ReconSubFallback | src/lib.rs:49-60 | `recon_sub_fallback` keeps the Sub promise |
| PngFilters.ReconSubSse2 | src/lib.rs:65-77 | `recon_sub_sse2` keeps the Sub promise |
| PngFilters.ReconSubSse2MatchesFallback | src/lib.rs:62 | `recon_sub_sse2` is byte for byte `recon_sub_fallback` on every row and pixel size |
| PngFilters.ReconSubFallbackMatchesFallbacks | src/lib.rs:49-60 | `recon_sub_fallback` is byte for byte `fallbacks::recon_sub` on every row and pixel size |
| X86.AddEpi8 | src/sse2.rs:30 | `_mm_add_epi8` adds each pair of bytes modulo 256: every result byte is congruent to the sum of the two input bytes |
| X86.LoadWidened | src/sse4_1.rs:98 | widening a chunk into a zeroed register puts byte `j` in 16-bit lane `j`, and zero past the chunk |
| X86.AddEpi16 | src/sse4_1.rs:100 | `_mm_add_epi16` adds each pair of 16-bit lanes with wrap-around |
| X86.SubEpi16 | src/sse4_1.rs:162-165 | `_mm_sub_epi16` subtracts each pair of 16-bit lanes with wrap-around |
| X86.SraiEpi16 | src/sse4_1.rs:100 | `_mm_srai_epi16` shifts each lane right arithmetically |
| X86.ShiftRightArith | src/sse4_1.rs:129 | an arithmetic shift right by one is the floor of half, and keeps the sign |
| X86.PackusEpi16 | src/sse4_1.rs:101 | `_mm_packus_epi16` clamps each 16-bit lane of both registers to a byte: a lane in [0, 256) is kept, a negative one becomes 0, a larger one 255 |
| X86.UnpackloEpi8 | src/sse4_1.rs:105 | interleaving the low bytes with zero bytes widens byte `j` into 16-bit lane `j` |
| X86.AbsEpi16 | src/sse4_1.rs:163-165 | `_mm_abs_epi16` is the absolute value of every lane other than -32768 |
| X86.CmpltEpi16 | src/sse4_1.rs:29 | `_mm_cmplt_epi16` is a lane mask for the signed `<` |
| X86.CmpeqEpi16 | src/sse4_1.rs:30 | `_mm_cmpeq_epi16` is a lane mask for `==` |
| X86.MaskLogic | src/sse4_1.rs:168 | the bitwise or and the bitwise and of two lane masks are the masks of the disjunction and the conjunction |
| X86.BlendvSelectsLanes | src/sse4_1.rs:170-171 | `_mm_blendv_epi8` under a lane mask selects whole 16-bit lanes |
| Sse2.SubStepHoldsPixel | src/sse2.rs:28-32 | after each chunk the carried register `a` holds the pixel just written in its low `bpp` bytes, and its bytes from `bpp` on stay zero |
| Sse2.SubCorrect | src/sse2.rs:22-34 | the register closure (load, `_mm_add_epi8`, store, carry the register) keeps the Sub promise |
| Sse2.ReconSub | src/sse2.rs:22-34 | `sse2::recon_sub` keeps the Sub promise |
| Sse2.ReconSubMatchesFallback | src/sse2.rs:17 | `sse2::recon_sub` equals the scalar Sub kernel on every row and pixel size |
| Sse41.I16LeSse2 | src/sse4_1.rs:28-32 | the or of the `<` and `==` masks is a lane mask for the signed `<=` |
| Sse41.ReconSub | src/sse4_1.rs:40-52 | `sse4_1::recon_sub` keeps the Sub promise |
| Sse41.ReconSubMatchesFallback | src/sse4_1.rs:34-35 | `sse4_1::recon_sub` equals the scalar Sub kernel |
| Sse41.ReconUp | src/sse4_1.rs:66-70 | `sse4_1::recon_up` reconstructs every byte both rows have, for every pixel size |
| Sse41.WidenedStore | src/sse4_1.rs:104-105 | widening the register after its low bytes are stored gives back the stored bytes, one per lane |
| Sse41.AverageLane | src/sse4_1.rs:95-105 | in each lane the 16-bit average of the left lane and the widened byte above is added to the filtered byte, and the next left lane is that byte |
| Sse41.AverageZeroLane | src/sse4_1.rs:95-105 | a 16-bit lane at or past the pixel size, zero in `a`, is zero again in the next `a` |
| Sse41.AverageStepLanes | src/sse4_1.rs:94-106 | one chunk of the register closure is the standard's Average pixel, and the register carries it in its low lanes with the lanes above zero |
| Sse41.AverageCorrect | src/sse4_1.rs:90-106 | the register closure keeps the Average promise |
| Sse41.ReconAverage | src/sse4_1.rs:78-107 | `sse4_1::recon_average` keeps the Average promise |
| Sse41.ReconAverageMatchesFallback | src/sse4_1.rs:72-73 | `sse4_1::recon_average` equals the scalar Average kernel |
| Sse41.AverageTopLane | src/sse4_1.rs:128-134 | in each lane half the left lane, packed to a byte, is added to the filtered byte |
| Sse41.AverageTopZeroLane | src/sse4_1.rs:126-134 | a 16-bit lane at or past the pixel size, zero in `a`, is zero again in the next `a` |
| Sse41.AverageTopStepLanes | src/sse4_1.rs:125-135 | one chunk of the top-row closure is the standard's Average pixel over a zero pixel above, carried in the low lanes with the lanes above zero |
| Sse41.AverageTopCorrect | src/sse4_1.rs:124-135 | the register closure keeps the top-row Average promise |
| Sse41.ReconAverageTop | src/sse4_1.rs:115-136 | `sse4_1::recon_average_top` keeps the top-row Average promise |
| Sse41.ReconAverageTopMatchesFallback | src/sse4_1.rs:109-110 | `sse4_1::recon_average_top` equals the scalar AverageTop kernel |
| Sse41.PaethSelectLane | src/sse4_1.rs:166-171 | the two blends pick lane `a` when `pa <= pb` and `pa <= pc`, else `b` when `pb <= pc`, else `c` |
| Sse41.EstimateLane | src/sse4_1.rs:162 | the 16-bit estimate `a + b - c` of byte lanes does not overflow |
| Sse41.DistanceLane | src/sse4_1.rs:163-165 | the 16-bit distance of the estimate from a byte lane is the exact distance |
| Sse41.DistancesLane | src/sse4_1.rs:162-165 | the three lane distances are the standard's Paeth distances |
| Sse41.SelectionIsPaeth | src/sse4_1.rs:166-171 | the blend's selection applied to the standard's distances is the Paeth predictor |
| Sse41.PaethLane | src/sse4_1.rs:162-172 | where the three lanes hold bytes, the lane computation is the Paeth predictor of those bytes |
| Sse41.PaethStepLane | src/sse4_1.rs:157-177 | in each lane the predictor is added to the filtered byte, and the next `a` and `c` lanes hold the new byte and the byte above |
| Sse41.PaethZeroLane | src/sse4_1.rs:157-177 | a 16-bit lane at or past the pixel size, zero in `a` and `c`, is zero again in both next registers |
| Sse41.PaethStepLanes | src/sse4_1.rs:156-178 | one chunk of the register closure is the standard's Paeth pixel, and the registers carry the pixel and the pixel above in their low lanes with the lanes above zero |
| Sse41.PaethCorrect | src/sse4_1.rs:151-178 | the register closure keeps the Paeth promise |
| Sse41.ReconPaeth | src/sse4_1.rs:144-179 | `sse4_1::recon_paeth` keeps the Paeth promise |
| Sse41.ReconPaethMatchesFallback | src/sse4_1.rs:138-139 | `sse4_1::recon_paeth` equals the scalar Paeth kernel |
| Arm.Signed | src/neon.rs:29 | reading a byte as `i8` gives a value in [-128, 128) congruent to it modulo 256 |
| Arm.VaddS8 | src/neon.rs:29 | `vadd_s8`, the wrapping signed addition of lanes, is the wrapping unsigned addition of their bytes |
| Arm.VhaddS8 | src/neon.rs:75 | `vhadd_s8` is the floor of half the sum of each pair of signed lanes |
| Arm.VhaddU8 | src/neon.rs:75 | `vhadd_u8` is the floor of half the sum of each pair of unsigned lanes |
| Arm.SignedHalvingAdd | src/neon.rs:75 | per byte, `vhadd_s8` is the floor of the unsigned average if and only if both bytes are on the same side of 128, and that average plus 128 otherwise |
| Neon.AddZeroAbove | src/neon.rs:27-29 | `vadd_s8` of a loaded chunk and a register zero from byte `bpp` on is zero from byte `bpp` on |
| Neon.HalvingZeroAbove | src/neon.rs:72-75 | both halving adds of two registers zero from byte `bpp` on are zero from byte `bpp` on |
| Neon.SubStepHoldsPixel | src/neon.rs:27-31 | after each chunk the carried register holds the pixel just written, and its bytes from `bpp` on stay zero |
| Neon.SubCorrect | src/neon.rs:21-33 | the register closure of `neon::recon_sub` keeps the Sub promise |
| Neon.ReconSub | src/neon.rs:21-33 | `neon::recon_sub` keeps the Sub promise |
| Neon.ReconSubMatchesFallback | src/neon.rs:15-16 | `neon::recon_sub` equals the scalar Sub kernel |
| Neon.ReconUp | src/neon.rs:41-45 | `neon::recon_up` reconstructs every byte both rows have, for every pixel size |
| Neon.ReconAverage | src/neon.rs:53-81 | `neon::recon_average` as written keeps the row's length and the bytes after the whole pixels |
| Neon.AverageDiffers | src/neon.rs:75 | on filtered `[0]` under `[128]`, one byte per pixel, `neon::recon_average` gives `[192]` where the scalar kernel gives the standard's `[64]` |
| Neon.AverageAgreesBelow128 | src/neon.rs:69-80 | chunk by chunk, while the row above and the reconstructed bytes stay below 128 the closure as written writes what the scalar Average closure writes |
| Neon.ReconAverageBelow128 | src/neon.rs:53-81 | `neon::recon_average` as written equals the scalar Average kernel on every row whose bytes above and whose reconstructed bytes are below 128 |
| Neon.AverageStepUnsignedHoldsPixel | src/neon.rs:70-79 | after each chunk of the corrected closure the carried register holds the pixel just written, and its bytes from `bpp` on stay zero |
| Neon.AverageUnsignedCorrect | src/neon.rs:69-80 | the closure with `vhadd_u8` in place of `vhadd_s8` keeps the Average promise |
| Neon.ReconAverageUnsigned | src/neon.rs:53-81 | `neon::recon_average` with `vhadd_u8` keeps the Average promise |
| Neon.ReconAverageUnsignedMatchesFallback | src/neon.rs:47-48 | the corrected kernel equals the scalar Average kernel, as its documentation promises |
| TestVectors.SubStandardBpp1 | tests/all_tests/main.rs:6-8 | the expected Sub row for 1 byte per pixel is the standard's reconstruction |
| TestVectors.SubVectorBpp1 | tests/all_tests/main.rs:6-9 | every Sub kernel turns `[1, 2, 3, 255, 5, 6, 7, 8]` into `[1, 3, 6, 5, 10, 16, 23, 31]` at 1 byte per pixel |
| TestVectors.SubStandardBpp2 | tests/all_tests/main.rs:11-13 | the expected Sub row for 2 bytes per pixel is the standard's reconstruction |
| TestVectors.SubVectorBpp2 | tests/all_tests/main.rs:11-14 | every Sub kernel gives `[1, 2, 4, 1, 9, 7, 16, 15]` at 2 bytes per pixel |
| TestVectors.SubStandardBpp4 | tests/all_tests/main.rs:16-18 | the expected Sub row for 4 bytes per pixel is the standard's reconstruction |
| TestVectors.SubVectorBpp4 | tests/all_tests/main.rs:16-19 | every Sub kernel gives `[1, 2, 3, 255, 6, 8, 10, 7]` at 4 bytes per pixel |
| TestVectors.UpVector | tests/all_tests/main.rs:24-29 | every Up kernel gives `[13, 19, 130, 127, 4, 0, 14, 62]` under the test's previous row |
| TestVectors.AverageStandardBpp1 | tests/all_tests/main.rs:36-38 | the expected Average row for 1 byte per pixel is the standard's reconstruction |
| TestVectors.AverageVectorBpp1 | tests/all_tests/main.rs:36-39 | the scalar, SSE4.1 and corrected NEON Average kernels give `[7, 14, 73, 99, 182, 222, 121, 95]` |
| TestVectors.AverageStandardBpp2 | tests/all_tests/main.rs:41-43 | the expected Average row for 2 bytes per pixel is the standard's reconstruction |
| TestVectors.AverageVectorBpp2 | tests/all_tests/main.rs:41-44 | those kernels give `[7, 10, 70, 68, 167, 165, 94, 117]` |
| TestVectors.AverageStandardBpp4 | tests/all_tests/main.rs:46-48 | the expected Average row for 4 bytes per pixel is the standard's reconstruction |
| TestVectors.AverageVectorBpp4 | tests/all_tests/main.rs:46-49 | those kernels give `[7, 10, 66, 63, 136, 136, 43, 66]` |
| TestVectors.AverageTopStandardBpp1 | tests/all_tests/main.rs:54-56 | the expected AverageTop row for 1 byte per pixel is the standard's reconstruction over a zero row |
| TestVectors.AverageTopVectorBpp1 | tests/all_tests/main.rs:54-57 | the scalar and SSE4.1 AverageTop kernels give `[1, 2, 4, 1, 5, 8, 11, 13]` |
| TestVectors.AverageTopStandardBpp2 | tests/all_tests/main.rs:59-61 | the expected AverageTop row for 2 bytes per pixel is the standard's reconstruction |
| TestVectors.AverageTopVectorBpp2 | tests/all_tests/main.rs:59-62 | those kernels give `[1, 2, 3, 0, 6, 6, 10, 11]` |
| TestVectors.AverageTopStandardBpp4 | tests/all_tests/main.rs:64-66 | the expected AverageTop row for 4 bytes per pixel is the standard's reconstruction |
| TestVectors.AverageTopVectorBpp4 | tests/all_tests/main.rs:64-67 | those kernels give `[1, 2, 3, 255, 5, 7, 8, 135]` |
| TestVectors.PaethStandardBpp1 | tests/all_tests/main.rs:74-76 | the expected Paeth row for 1 byte per pixel is the standard's reconstruction |
| TestVectors.PaethVectorBpp1 | tests/all_tests/main.rs:74-77 | the scalar and SSE4.1 Paeth kernels give `[13, 19, 130, 129, 4, 10, 14, 62]` |
| TestVectors.PaethStandardBpp2 | tests/all_tests/main.rs:79-81 | the expected Paeth row for 2 bytes per pixel is the standard's reconstruction |
| TestVectors.PaethVectorBpp2 | tests/all_tests/main.rs:79-82 | those kernels give `[13, 19, 130, 127, 4, 0, 11, 8]` |
| TestVectors.PaethStandardBpp4 | tests/all_tests/main.rs:84-86 | the expected Paeth row for 4 bytes per pixel is the standard's reconstruction |
| TestVectors.PaethVectorBpp4 | tests/all_tests/main.rs:84-87 | those kernels give `[13, 19, 130, 127, 4, 0, 14, 62]` |

The Sub rows of `tests/all_tests.rs` (lines 3-19), `tests/all_tests/sse2_tests.rs`
(lines 5-25) and `tests/all_tests/neon_tests.rs` (lines 5-25) are the same three
vectors. They are covered by `TestVectors.SubVectorBpp1`, `SubVectorBpp2` and
`SubVectorBpp4`, whose contracts name every Sub kernel.

## Left out

- Mutation in place: every kernel takes `&mut [u8]` and returns nothing. Here
  it is a function from the filtered row (and the previous row) to the
  reconstructed row.
- `unsafe`, `#[target_feature]`, `#[cfg(target_arch)]` and the runtime feature
  detection of the tests are left out. A kernel's model is its result on the
  machine that has the feature.
- `assert!(BYTES_PER_PIXEL <= 8)` panics for larger pixels, and
  `chunks_exact(0)` panics for a zero pixel size. The model gives the pixel
  size the type `Bytes.Bpp` (1 to 8), so the panicking calls are outside its
  domain rather than modelled as an error result.
- The `debug_assert_eq!` checks on row lengths are left out. Debug-build
  panics are not modelled; the release behaviour (truncation to whole pixels,
  trailing bytes untouched) is.
- The TODO lines of src/lib.rs (79-87) have no code. The crate has no
  filtering direction either; `Png.Filter` states the standard's filtering
  only so that reconstruction can be shown to invert it.
- The crate also exports a whole-image driver, `unfilter_lines`, which
  benches/the_bench.rs imports (line 7) and calls on every line of an image
  (lines 23-115). Its source is not part of this model, so the driver is left
  out; the model covers the per-row kernels it would dispatch to.
- The tests call `recon_up_fallback`, `recon_average_fallback`,
  `recon_average_top_fallback` and `recon_paeth_fallback`. src/lib.rs does not
  define them, so the vectors are proved for the `fallbacks::` kernels and
  their SIMD counterparts.
- benches/the_bench.rs measures speed and is not modelled.
- The register helpers `m128i_as_mut_slice`, `m128i_as_mut_u8s`,
  `m128i_as_mut_i16s` and `int8x8_t_as_mut_slice` reinterpret a register as
  bytes or as 16-bit lanes. They are modelled by the registers' definition as
  byte sequences (`X86.M128`, `Arm.I8x8`), with little-endian lanes
  (`X86.Lane16`).
- Neon.ReconAverage: its contract states only that the row keeps its length
  and the bytes after the whole pixels; it does not promise the Average
  reconstruction, because the kernel as written does not keep it. Its output
  differs from the standard's whenever a left byte and the byte above lie on
  opposite sides of 128 (`Neon.AverageDiffers` gives one such row), and it
  equals the scalar kernel whenever the row above and the reconstructed row
  are below 128 (`Neon.ReconAverageBelow128`).

## Findings

| source | as written | input that shows it | evidently intended | confidence | as-written member | corrected member |
|---|---|---|---|---|---|---|
| src/neon.rs:75 | `vhadd_s8(a, b)` halves the sum of the bytes read as signed `i8`. A byte of 128 or more counts as negative, so whenever `a` and `b` lie on opposite sides of 128 the "average" is off by 128. | one byte per pixel, filtered row `[0]`, previous row `[128]`: the kernel writes 192; the Average filter (and `fallbacks::recon_average`) gives 64 | the unsigned halving add `vhadd_u8(a, b)`, which is `floor((a + b) / 2)` on bytes, the floor of the average that the kernel's comment at line 60 names | not executed | Neon.AverageDiffers | Neon.ReconAverageUnsigned |
