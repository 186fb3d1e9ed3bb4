/** The kernels of `src/sse4_1.rs`. Average and Paeth carry their pixels
    zero-extended into the eight 16-bit lanes of a register, so the sums
    `a + b` and `a + b - c` never overflow; `_mm_packus_epi16` narrows the
    predictor back to bytes. Byte `j` of a pixel only ever meets lane `j`
    of the other registers, so each kernel is proved one lane at a time. */
module Sse41 {
  import opened Bytes
  import Png
  import opened Chunks
  import opened X86
  import Fallbacks
  import Sse2

  /** `i16_le_sse2`: SSE has no 16-bit "less or equal", so it is the or
      of "less than" and "equal"; the result is the lane mask of `<=`. */
  function I16LeSse2(a: M128, b: M128): (r: M128)
    ensures forall j :: 0 <= j < 8 ==> LaneMask(r, j, Lane16(a, j) <= Lane16(b, j))
  {
    var lt, eq := CmpltEpi16(a, b), CmpeqEpi16(a, b);
    var r := OrSi128(lt, eq);
    assert forall j :: 0 <= j < 8 ==> LaneMask(r, j, Lane16(a, j) <= Lane16(b, j)) by {
      forall j | 0 <= j < 8
        ensures LaneMask(r, j, Lane16(a, j) <= Lane16(b, j))
      {
        MaskLogic(lt, eq, j, Lane16(a, j) < Lane16(b, j), Lane16(a, j) == Lane16(b, j));
      }
    }
    r
  }

  /** The low `bpp` 16-bit lanes of the register hold the pixel, one
      byte per lane, and the lanes above it are zero. */
  ghost predicate HoldsLanes(bpp: Bpp, r: M128, pixel: seq<byte>) {
    && (forall j :: 0 <= j < bpp ==> Lane16(r, j) == Lane(pixel, j))
    && (forall j :: bpp <= j < 8 ==> Lane16(r, j) == 0)
  }

  /** Widening the stored register again gives the stored bytes, one per
      lane. */
  lemma WidenedStore(sum: M128, n: nat, j: int)
    requires 0 <= j < n <= 8
    ensures Lane16(UnpackloEpi8(sum, Zeroed), j) == Store(sum, n)[j]
  {
    assert Zeroed[j] == 0;
  }

  // ---------------------------------------------------------------- Sub

  /** `sse4_1::recon_sub`: the closure of `sse2::recon_sub`, started from
      `ZEROED`. */
  function ReconSub(bpp: Bpp, filt: seq<byte>): (r: seq<byte>)
    ensures ReconstructsWholePixels(Png.Sub, bpp, filt, Zeros(|filt|), r)
  {
    Sse2.SubCorrect(bpp, filt);
    ForEachChunk(bpp, filt, Zeroed, Sse2.SubStep)
  }

  lemma ReconSubMatchesFallback(bpp: Bpp, filt: seq<byte>)
    ensures ReconSub(bpp, filt) == Fallbacks.ReconSub(bpp, filt)
  {
    ReconstructsWholePixelsUnique(Png.Sub, bpp, filt, Zeros(|filt|), ReconSub(bpp, filt), Fallbacks.ReconSub(bpp, filt));
  }

  // ----------------------------------------------------------------- Up

  /** `sse4_1::recon_up`: the scalar byte loop of `fallbacks::recon_up`,
      left to the compiler to vectorise. */
  function ReconUp(filt: seq<byte>, prev: seq<byte>): (r: seq<byte>)
    ensures ReconstructsOverlap(Png.Up, filt, prev, r)
  {
    Fallbacks.ReconUp(filt, prev)
  }

  // ------------------------------------------------------------ Average

  /** The closure of `recon_average`: the pixel above widened into lanes,
      `(a + b) >> 1` in 16 bits, packed to bytes and added to the chunk;
      the result, widened again, is the next `a`. */
  function AverageStep(x: seq<byte>, b: seq<byte>, a: M128): (seq<byte>, M128) {
    var xr := LoadBytes(x);
    var br := LoadWidened(b);
    var average := SraiEpi16(AddEpi16(a, br), 1);
    var sum := AddEpi8(xr, PackusEpi16(average, Zeroed));
    (Store(sum, |x|), UnpackloEpi8(sum, Zeroed))
  }

  lemma AverageStepKeepsWidth(bpp: Bpp)
    ensures PairStepKeepsWidth(bpp, AverageStep)
  {
  }

  /** Lane `j` of the closure: the average is computed in 16 bits
      without overflow and packs back unchanged, and the carried register
      holds the byte produced. */
  lemma AverageLane(x: seq<byte>, b: seq<byte>, a: M128, j: int)
    requires 0 <= j < |x| <= 8 && |b| == |x|
    requires 0 <= Lane16(a, j) < 0x100
    ensures AverageStep(x, b, a).0[j] == WrapAdd(x[j], (Lane16(a, j) + b[j]) / 2)
    ensures Lane16(AverageStep(x, b, a).1, j) == AverageStep(x, b, a).0[j]
  {
    var xr := LoadBytes(x);
    var br := LoadWidened(b);
    var added := AddEpi16(a, br);
    var average := SraiEpi16(added, 1);
    var packed := PackusEpi16(average, Zeroed);
    var sum := AddEpi8(xr, packed);
    assert Lane16(br, j) == b[j];
    assert Lane16(added, j) == Lane16(a, j) + b[j];
    assert Lane16(average, j) == (Lane16(a, j) + b[j]) / 2;
    assert packed[j] == (Lane16(a, j) + b[j]) / 2;
    assert xr[j] == x[j];
    WidenedStore(sum, |x|, j);
  }

  /** A lane past the chunk, zero in `a`, stays zero in the carried
      register. */
  lemma AverageZeroLane(x: seq<byte>, b: seq<byte>, a: M128, j: int)
    requires |x| <= j < 8 && |b| == |x|
    requires Lane16(a, j) == 0
    ensures Lane16(AverageStep(x, b, a).1, j) == 0
  {
    var xr := LoadBytes(x);
    var br := LoadWidened(b);
    var added := AddEpi16(a, br);
    var average := SraiEpi16(added, 1);
    var packed := PackusEpi16(average, Zeroed);
    var sum := AddEpi8(xr, packed);
    assert Lane16(br, j) == 0;
    assert Lane16(added, j) == 0;
    assert Lane16(average, j) == 0;
    assert packed[j] == 0;
    assert xr[j] == 0;
    ZeroLaneStore(sum, j);
  }

  /** A byte that is zero, widened with zeros, is a zero lane. */
  lemma ZeroLaneStore(sum: M128, j: int)
    requires 0 <= j < 8 && sum[j] == 0
    ensures Lane16(UnpackloEpi8(sum, Zeroed), j) == 0
  {
    assert Zeroed[j] == 0;
  }

  /** One chunk of the register closure is one chunk of the standard's
      Average reconstruction, and its carried register holds the pixel
      it produced. */
  lemma AverageStepLanes(bpp: Bpp, x: seq<byte>, b: seq<byte>, a: M128, left: seq<byte>, c: seq<byte>)
    requires |x| == bpp && |b| == bpp
    requires HoldsLanes(bpp, a, left)
    ensures AverageStep(x, b, a).0 == CanonicalChunk(Png.Average, x, b, left, c)
    ensures HoldsLanes(bpp, AverageStep(x, b, a).1, AverageStep(x, b, a).0)
  {
    var out := AverageStep(x, b, a);
    forall j | 0 <= j < bpp
      ensures out.0[j] == WrapAdd(x[j], Png.Predictor(Png.Average, Lane(left, j), Lane(b, j), Lane(c, j)))
      ensures Lane16(out.1, j) == Lane(out.0, j)
    {
      assert Lane16(a, j) == Lane(left, j);
      AverageLane(x, b, a, j);
    }
    forall j | bpp <= j < 8
      ensures Lane16(out.1, j) == 0
    {
      AverageZeroLane(x, b, a, j);
    }
    CanonicalChunkByBytes(Png.Average, x, b, left, c, out.0);
  }

  lemma AverageCorrect(bpp: Bpp, filt: seq<byte>, prev: seq<byte>)
    ensures PairStepKeepsWidth(bpp, AverageStep)
    ensures ReconstructsWholePixels(Png.Average, bpp, filt, prev, ForEachChunkZip(bpp, filt, prev, Zeroed, AverageStep))
  {
    AverageStepKeepsWidth(bpp);
    var related := (r: M128, n: Neighbours) => HoldsLanes(bpp, r, n.0);
    forall x, b, k1, k2 | |x| == bpp && |b| == bpp && related(k1, k2)
      ensures AverageStep(x, b, k1).0 == Canonical(Png.Average)(x, b, k2).0
      ensures related(AverageStep(x, b, k1).1, Canonical(Png.Average)(x, b, k2).1)
    {
      AverageStepLanes(bpp, x, b, k1, k2.0, k2.1);
    }
    assert related(Zeroed, (Zeros(bpp), Zeros(bpp)));
    ReconstructsBySimulation(Png.Average, bpp, filt, prev, Zeroed, AverageStep, related);
  }

  /** `sse4_1::recon_average`. */
  function ReconAverage(bpp: Bpp, filt: seq<byte>, prev: seq<byte>): (r: seq<byte>)
    ensures ReconstructsWholePixels(Png.Average, bpp, filt, prev, r)
  {
    AverageCorrect(bpp, filt, prev);
    ForEachChunkZip(bpp, filt, prev, Zeroed, AverageStep)
  }

  lemma ReconAverageMatchesFallback(bpp: Bpp, filt: seq<byte>, prev: seq<byte>)
    ensures ReconAverage(bpp, filt, prev) == Fallbacks.ReconAverage(bpp, filt, prev)
  {
    ReconstructsWholePixelsUnique(Png.Average, bpp, filt, prev, ReconAverage(bpp, filt, prev), Fallbacks.ReconAverage(bpp, filt, prev));
  }

  // -------------------------------------------------------- AverageTop

  /** The closure of `recon_average_top`: `a >> 1` packed to bytes. */
  function AverageTopStep(x: seq<byte>, a: M128): (seq<byte>, M128) {
    var xr := LoadBytes(x);
    var half := SraiEpi16(a, 1);
    var sum := AddEpi8(xr, PackusEpi16(half, Zeroed));
    (Store(sum, |x|), UnpackloEpi8(sum, Zeroed))
  }

  lemma AverageTopStepKeepsWidth(bpp: Bpp)
    ensures RowStepKeepsWidth(bpp, AverageTopStep)
  {
  }

  lemma AverageTopLane(x: seq<byte>, a: M128, j: int)
    requires 0 <= j < |x| <= 8
    requires 0 <= Lane16(a, j) < 0x100
    ensures AverageTopStep(x, a).0[j] == WrapAdd(x[j], Lane16(a, j) / 2)
    ensures Lane16(AverageTopStep(x, a).1, j) == AverageTopStep(x, a).0[j]
  {
    var xr := LoadBytes(x);
    var half := SraiEpi16(a, 1);
    var packed := PackusEpi16(half, Zeroed);
    assert Lane16(half, j) == Lane16(a, j) / 2;
    assert packed[j] == Lane16(a, j) / 2;
    assert xr[j] == x[j];
    WidenedStore(AddEpi8(xr, packed), |x|, j);
  }

  lemma AverageTopZeroLane(x: seq<byte>, a: M128, j: int)
    requires |x| <= j < 8
    requires Lane16(a, j) == 0
    ensures Lane16(AverageTopStep(x, a).1, j) == 0
  {
    var xr := LoadBytes(x);
    var half := SraiEpi16(a, 1);
    var packed := PackusEpi16(half, Zeroed);
    var sum := AddEpi8(xr, packed);
    assert Lane16(half, j) == 0;
    assert packed[j] == 0;
    assert xr[j] == 0;
    ZeroLaneStore(sum, j);
  }

  lemma AverageTopStepLanes(bpp: Bpp, x: seq<byte>, a: M128, left: seq<byte>, c: seq<byte>)
    requires |x| == bpp
    requires HoldsLanes(bpp, a, left)
    ensures AverageTopStep(x, a).0 == CanonicalChunk(Png.Average, x, Zeros(bpp), left, c)
    ensures HoldsLanes(bpp, AverageTopStep(x, a).1, AverageTopStep(x, a).0)
  {
    var out := AverageTopStep(x, a);
    forall j | 0 <= j < bpp
      ensures out.0[j] == WrapAdd(x[j], Png.Predictor(Png.Average, Lane(left, j), Lane(Zeros(bpp), j), Lane(c, j)))
      ensures Lane16(out.1, j) == Lane(out.0, j)
    {
      assert Lane16(a, j) == Lane(left, j);
      assert Lane(Zeros(bpp), j) == 0;
      AverageTopLane(x, a, j);
    }
    forall j | bpp <= j < 8
      ensures Lane16(out.1, j) == 0
    {
      AverageTopZeroLane(x, a, j);
    }
    CanonicalChunkByBytes(Png.Average, x, Zeros(bpp), left, c, out.0);
  }

  lemma AverageTopCorrect(bpp: Bpp, filt: seq<byte>)
    ensures RowStepKeepsWidth(bpp, AverageTopStep)
    ensures ReconstructsWholePixels(Png.Average, bpp, filt, Zeros(|filt|), ForEachChunk(bpp, filt, Zeroed, AverageTopStep))
  {
    AverageTopStepKeepsWidth(bpp);
    var related := (r: M128, n: Neighbours) => HoldsLanes(bpp, r, n.0);
    forall x, k1, k2 | |x| == bpp && related(k1, k2)
      ensures AverageTopStep(x, k1).0 == Canonical(Png.Average)(x, Zeros(bpp), k2).0
      ensures related(AverageTopStep(x, k1).1, Canonical(Png.Average)(x, Zeros(bpp), k2).1)
    {
      AverageTopStepLanes(bpp, x, k1, k2.0, k2.1);
    }
    assert related(Zeroed, (Zeros(bpp), Zeros(bpp)));
    TopRowReconstructsBySimulation(Png.Average, bpp, filt, Zeroed, AverageTopStep, related);
  }

  /** `sse4_1::recon_average_top`. */
  function ReconAverageTop(bpp: Bpp, filt: seq<byte>): (r: seq<byte>)
    ensures ReconstructsWholePixels(Png.Average, bpp, filt, Zeros(|filt|), r)
  {
    AverageTopCorrect(bpp, filt);
    ForEachChunk(bpp, filt, Zeroed, AverageTopStep)
  }

  lemma ReconAverageTopMatchesFallback(bpp: Bpp, filt: seq<byte>)
    ensures ReconAverageTop(bpp, filt) == Fallbacks.ReconAverageTop(bpp, filt)
  {
    ReconstructsWholePixelsUnique(Png.Average, bpp, filt, Zeros(|filt|), ReconAverageTop(bpp, filt), Fallbacks.ReconAverageTop(bpp, filt));
  }

  // -------------------------------------------------------------- Paeth

  /** The Paeth predictor of every lane: the estimate and the three
      distances in 16 bits, then the selection. */
  function PaethLanes(a: M128, b: M128, c: M128): M128 {
    var p := SubEpi16(AddEpi16(a, b), c);
    var pa := AbsEpi16(SubEpi16(p, a));
    var pb := AbsEpi16(SubEpi16(p, b));
    var pc := AbsEpi16(SubEpi16(p, c));
    PaethSelect(a, b, c, pa, pb, pc)
  }

  /** The selection, as two byte blends under the `<=` lane masks: `c`
      or `b` by `pb <= pc`, then that or `a` by `pa <= pb && pa <= pc`. */
  function PaethSelect(a: M128, b: M128, c: M128, pa: M128, pb: M128, pc: M128): M128 {
    var paLePbAndPaLePc := AndSi128(I16LeSse2(pa, pb), I16LeSse2(pa, pc));
    var pickBOrC := BlendvEpi8(c, b, I16LeSse2(pb, pc));
    BlendvEpi8(pickBOrC, a, paLePbAndPaLePc)
  }

  /** The blends pick whole lanes, with the tie-break of the scalar code. */
  lemma PaethSelectLane(a: M128, b: M128, c: M128, pa: M128, pb: M128, pc: M128, j: int)
    requires 0 <= j < 8
    ensures Lane16(PaethSelect(a, b, c, pa, pb, pc), j) ==
      if Lane16(pa, j) <= Lane16(pb, j) && Lane16(pa, j) <= Lane16(pc, j) then Lane16(a, j)
      else if Lane16(pb, j) <= Lane16(pc, j) then Lane16(b, j)
      else Lane16(c, j)
  {
    var leAB, leAC, leBC := I16LeSse2(pa, pb), I16LeSse2(pa, pc), I16LeSse2(pb, pc);
    var vpa, vpb, vpc := Lane16(pa, j), Lane16(pb, j), Lane16(pc, j);
    MaskLogic(leAB, leAC, j, vpa <= vpb, vpa <= vpc);
    var both := AndSi128(leAB, leAC);
    var pickBOrC := BlendvEpi8(c, b, leBC);
    BlendvSelectsLanes(c, b, leBC, j, vpb <= vpc);
    BlendvSelectsLanes(pickBOrC, a, both, j, vpa <= vpb && vpa <= vpc);
  }

  /** The estimate `a + b - c` of byte lanes does not overflow. */
  lemma EstimateLane(a: M128, b: M128, c: M128, j: int)
    requires 0 <= j < 8
    requires 0 <= Lane16(a, j) < 0x100 && 0 <= Lane16(b, j) < 0x100 && 0 <= Lane16(c, j) < 0x100
    ensures Lane16(SubEpi16(AddEpi16(a, b), c), j) == Lane16(a, j) + Lane16(b, j) - Lane16(c, j)
  {
    assert Lane16(AddEpi16(a, b), j) == Lane16(a, j) + Lane16(b, j);
  }

  /** A distance `|p - q|` of an estimate and a byte lane does not
      overflow. */
  lemma DistanceLane(p: M128, q: M128, j: int)
    requires 0 <= j < 8
    requires -0xFF <= Lane16(p, j) <= 0x1FE && 0 <= Lane16(q, j) < 0x100
    ensures Lane16(AbsEpi16(SubEpi16(p, q)), j) == Abs(Lane16(p, j) - Lane16(q, j))
  {
    assert Lane16(SubEpi16(p, q), j) == Lane16(p, j) - Lane16(q, j);
  }

  /** The three lane distances of `PaethLanes` are those of the
      standard. */
  lemma DistancesLane(a: M128, b: M128, c: M128, j: int)
    requires 0 <= j < 8
    requires 0 <= Lane16(a, j) < 0x100 && 0 <= Lane16(b, j) < 0x100 && 0 <= Lane16(c, j) < 0x100
    ensures
      var va, vb, vc: byte := Lane16(a, j), Lane16(b, j), Lane16(c, j);
      var p := SubEpi16(AddEpi16(a, b), c);
      && Lane16(AbsEpi16(SubEpi16(p, a)), j) == Png.PaethDistance(va, vb, vc, va)
      && Lane16(AbsEpi16(SubEpi16(p, b)), j) == Png.PaethDistance(va, vb, vc, vb)
      && Lane16(AbsEpi16(SubEpi16(p, c)), j) == Png.PaethDistance(va, vb, vc, vc)
  {
    var p := SubEpi16(AddEpi16(a, b), c);
    EstimateLane(a, b, c, j);
    DistanceLane(p, a, j);
    DistanceLane(p, b, j);
    DistanceLane(p, c, j);
  }

  /** The selection of `PaethSelect`, applied to the standard's
      distances, is the Paeth predictor. */
  lemma SelectionIsPaeth(va: byte, vb: byte, vc: byte, da: int, db: int, dc: int)
    requires da == Png.PaethDistance(va, vb, vc, va)
    requires db == Png.PaethDistance(va, vb, vc, vb)
    requires dc == Png.PaethDistance(va, vb, vc, vc)
    ensures (if da <= db && da <= dc then va else if db <= dc then vb else vc) == Png.PaethPredictor(va, vb, vc)
  {
  }

  /** Where the three lanes hold bytes, the lane computation is the
      Paeth predictor. */
  lemma PaethLane(a: M128, b: M128, c: M128, j: int, va: byte, vb: byte, vc: byte)
    requires 0 <= j < 8
    requires Lane16(a, j) == va && Lane16(b, j) == vb && Lane16(c, j) == vc
    ensures Lane16(PaethLanes(a, b, c), j) == Png.PaethPredictor(va, vb, vc)
  {
    var p := SubEpi16(AddEpi16(a, b), c);
    var pa, pb, pc := AbsEpi16(SubEpi16(p, a)), AbsEpi16(SubEpi16(p, b)), AbsEpi16(SubEpi16(p, c));
    var da, db, dc := Lane16(pa, j), Lane16(pb, j), Lane16(pc, j);
    assert Lane16(PaethLanes(a, b, c), j) == if da <= db && da <= dc then va else if db <= dc then vb else vc by {
      PaethSelectLane(a, b, c, pa, pb, pc, j);
    }
    assert da == Png.PaethDistance(va, vb, vc, va) && db == Png.PaethDistance(va, vb, vc, vb)
        && dc == Png.PaethDistance(va, vb, vc, vc) by {
      DistancesLane(a, b, c, j);
    }
    SelectionIsPaeth(va, vb, vc, da, db, dc);
  }

  /** The closure of `recon_paeth`: the state is the registers of `a` and
      `c`; after the chunk, `a` is the new pixel widened and `c` is `b`. */
  function PaethStep(x: seq<byte>, b: seq<byte>, ac: (M128, M128)): (seq<byte>, (M128, M128)) {
    var xr := LoadBytes(x);
    var br := LoadWidened(b);
    var paeth := PackusEpi16(PaethLanes(ac.0, br, ac.1), Zeroed);
    var sum := AddEpi8(xr, paeth);
    (Store(sum, |x|), (UnpackloEpi8(sum, Zeroed), br))
  }

  lemma PaethStepKeepsWidth(bpp: Bpp)
    ensures PairStepKeepsWidth(bpp, PaethStep)
  {
  }

  /** Lane `j` of the closure: the predictor of the three byte lanes is
      added to the chunk's byte, and the carried registers hold the byte
      produced and the byte above. */
  lemma PaethStepLane(x: seq<byte>, b: seq<byte>, ac: (M128, M128), j: int)
    requires 0 <= j < |x| <= 8 && |b| == |x|
    requires 0 <= Lane16(ac.0, j) < 0x100 && 0 <= Lane16(ac.1, j) < 0x100
    ensures PaethStep(x, b, ac).0[j] == WrapAdd(x[j], Png.PaethPredictor(Lane16(ac.0, j), b[j], Lane16(ac.1, j)))
    ensures Lane16(PaethStep(x, b, ac).1.0, j) == PaethStep(x, b, ac).0[j]
    ensures Lane16(PaethStep(x, b, ac).1.1, j) == b[j]
  {
    var xr := LoadBytes(x);
    var br := LoadWidened(b);
    var lanes := PaethLanes(ac.0, br, ac.1);
    var paeth := PackusEpi16(lanes, Zeroed);
    var sum := AddEpi8(xr, paeth);
    assert Lane16(br, j) == b[j];
    assert paeth[j] == Png.PaethPredictor(Lane16(ac.0, j), b[j], Lane16(ac.1, j)) by {
      PaethLane(ac.0, br, ac.1, j, Lane16(ac.0, j), b[j], Lane16(ac.1, j));
    }
    assert xr[j] == x[j];
    WidenedStore(sum, |x|, j);
  }

  /** A lane past the chunk, zero in both carried registers, stays zero
      in both. */
  lemma PaethZeroLane(x: seq<byte>, b: seq<byte>, ac: (M128, M128), j: int)
    requires |x| <= j < 8 && |b| == |x|
    requires Lane16(ac.0, j) == 0 && Lane16(ac.1, j) == 0
    ensures Lane16(PaethStep(x, b, ac).1.0, j) == 0
    ensures Lane16(PaethStep(x, b, ac).1.1, j) == 0
  {
    var xr := LoadBytes(x);
    var br := LoadWidened(b);
    var paeth := PackusEpi16(PaethLanes(ac.0, br, ac.1), Zeroed);
    assert Lane16(br, j) == 0;
    assert paeth[j] == 0 by {
      PaethLane(ac.0, br, ac.1, j, 0, 0, 0);
    }
    assert xr[j] == 0;
    ZeroLaneStore(AddEpi8(xr, paeth), j);
  }

  lemma PaethStepLanes(bpp: Bpp, x: seq<byte>, b: seq<byte>, ac: (M128, M128), n: Neighbours)
    requires |x| == bpp && |b| == bpp
    requires HoldsLanes(bpp, ac.0, n.0) && HoldsLanes(bpp, ac.1, n.1)
    ensures PaethStep(x, b, ac).0 == CanonicalChunk(Png.Paeth, x, b, n.0, n.1)
    ensures HoldsLanes(bpp, PaethStep(x, b, ac).1.0, PaethStep(x, b, ac).0)
    ensures HoldsLanes(bpp, PaethStep(x, b, ac).1.1, b)
  {
    var out := PaethStep(x, b, ac);
    forall j | 0 <= j < bpp
      ensures out.0[j] == WrapAdd(x[j], Png.Predictor(Png.Paeth, Lane(n.0, j), Lane(b, j), Lane(n.1, j)))
      ensures Lane16(out.1.0, j) == Lane(out.0, j) && Lane16(out.1.1, j) == Lane(b, j)
    {
      assert Lane16(ac.0, j) == Lane(n.0, j) && Lane16(ac.1, j) == Lane(n.1, j);
      PaethStepLane(x, b, ac, j);
    }
    forall j | bpp <= j < 8
      ensures Lane16(out.1.0, j) == 0 && Lane16(out.1.1, j) == 0
    {
      PaethZeroLane(x, b, ac, j);
    }
    CanonicalChunkByBytes(Png.Paeth, x, b, n.0, n.1, out.0);
  }

  lemma PaethCorrect(bpp: Bpp, filt: seq<byte>, prev: seq<byte>)
    ensures PairStepKeepsWidth(bpp, PaethStep)
    ensures ReconstructsWholePixels(Png.Paeth, bpp, filt, prev, ForEachChunkZip(bpp, filt, prev, (Zeroed, Zeroed), PaethStep))
  {
    PaethStepKeepsWidth(bpp);
    var related := (s: (M128, M128), n: Neighbours) => HoldsLanes(bpp, s.0, n.0) && HoldsLanes(bpp, s.1, n.1);
    forall x, b, k1, k2 | |x| == bpp && |b| == bpp && related(k1, k2)
      ensures PaethStep(x, b, k1).0 == Canonical(Png.Paeth)(x, b, k2).0
      ensures related(PaethStep(x, b, k1).1, Canonical(Png.Paeth)(x, b, k2).1)
    {
      PaethStepLanes(bpp, x, b, k1, k2);
    }
    assert related((Zeroed, Zeroed), (Zeros(bpp), Zeros(bpp)));
    ReconstructsBySimulation(Png.Paeth, bpp, filt, prev, (Zeroed, Zeroed), PaethStep, related);
  }

  /** `sse4_1::recon_paeth`. */
  function ReconPaeth(bpp: Bpp, filt: seq<byte>, prev: seq<byte>): (r: seq<byte>)
    ensures ReconstructsWholePixels(Png.Paeth, bpp, filt, prev, r)
  {
    PaethCorrect(bpp, filt, prev);
    ForEachChunkZip(bpp, filt, prev, (Zeroed, Zeroed), PaethStep)
  }

  lemma ReconPaethMatchesFallback(bpp: Bpp, filt: seq<byte>, prev: seq<byte>)
    ensures ReconPaeth(bpp, filt, prev) == Fallbacks.ReconPaeth(bpp, filt, prev)
  {
    ReconstructsWholePixelsUnique(Png.Paeth, bpp, filt, prev, ReconPaeth(bpp, filt, prev), Fallbacks.ReconPaeth(bpp, filt, prev));
  }
}
