/** Every kernel walks its row one pixel (`BPP` bytes) at a time with
    `chunks_exact_mut(BPP)`, zipped for the two-row filters with
    `previous_row.chunks_exact(BPP)`, and runs a closure that rewrites the
    chunk and updates some carried state (the previous pixel, in an array
    or a register). This module models that iteration once, generically in
    the closure and its state, and proves the two facts every kernel is
    built from: two closures that agree step by step give the same row,
    and the closure that applies section 9.2 of the PNG standard to one
    pixel gives the standard's reconstruction. */
module Chunks {
  import opened Bytes
  import Png

  /** A closure over one row: filtered chunk and state in, reconstructed
      chunk and next state out. */
  type RowStep<!C> = (seq<byte>, C) -> (seq<byte>, C)

  /** A closure over two rows: filtered chunk, chunk of the previous row
      and state in, reconstructed chunk and next state out. */
  type PairStep<!C> = (seq<byte>, seq<byte>, C) -> (seq<byte>, C)

  /** A step writes back a chunk as wide as the one it read, as
      `copy_from_slice` demands. */
  ghost predicate RowStepKeepsWidth<C(!new)>(bpp: Bpp, step: RowStep<C>) {
    forall x, k :: |x| == bpp ==> |step(x, k).0| == bpp
  }

  ghost predicate PairStepKeepsWidth<C(!new)>(bpp: Bpp, step: PairStep<C>) {
    forall x, b, k :: |x| == bpp && |b| == bpp ==> |step(x, b, k).0| == bpp
  }

  /** `row.chunks_exact_mut(bpp).for_each(step)`, starting from state
      `carry`: the whole pixels are rewritten left to right and a trailing
      partial pixel is left as it is. */
  function ForEachChunk<C(!new)>(bpp: Bpp, row: seq<byte>, carry: C, step: RowStep<C>): (r: seq<byte>)
    requires RowStepKeepsWidth(bpp, step)
    ensures |r| == |row|
    ensures r[Whole(bpp, |row|)..] == row[Whole(bpp, |row|)..]
    decreases |row|
  {
    if |row| < bpp then row
    else
      var out := step(row[..bpp], carry);
      var rest := ForEachChunk(bpp, row[bpp..], out.1, step);
      TailKept(out.0, rest, row, Whole(bpp, |row| - bpp));
      out.0 + rest
  }

  /** `row.chunks_exact_mut(bpp).zip(prev.chunks_exact(bpp)).for_each(step)`:
      as many pixels are rewritten as both rows hold whole, and every byte
      after them is left as it is. */
  function ForEachChunkZip<C(!new)>(bpp: Bpp, row: seq<byte>, prev: seq<byte>, carry: C, step: PairStep<C>): (r: seq<byte>)
    requires PairStepKeepsWidth(bpp, step)
    ensures |r| == |row|
    ensures r[Whole(bpp, Min(|row|, |prev|))..] == row[Whole(bpp, Min(|row|, |prev|))..]
    decreases |row|
  {
    if |row| < bpp || |prev| < bpp then row
    else
      var out := step(row[..bpp], prev[..bpp], carry);
      var rest := ForEachChunkZip(bpp, row[bpp..], prev[bpp..], out.1, step);
      ZipTailKept(bpp, row, prev, out.0, rest);
      out.0 + rest
  }

  /** A rewritten first chunk followed by a rest that keeps the bytes of
      the row after `k` keeps the bytes after `|y| + k`. */
  lemma TailKept(y: seq<byte>, rest: seq<byte>, row: seq<byte>, k: nat)
    requires |y| <= |row| && |rest| == |row| - |y| && k <= |rest|
    requires rest[k..] == row[|y|..][k..]
    ensures (y + rest)[|y| + k..] == row[|y| + k..]
  {
    assert (y + rest)[|y| + k..] == rest[k..];
    assert row[|y|..][k..] == row[|y| + k..];
  }

  /** The step case of `ForEachChunkZip`'s tail: a rewritten first pixel
      followed by a rest that keeps the bytes after its own whole pixels
      keeps the bytes after the row's whole pixels. */
  lemma ZipTailKept(bpp: Bpp, row: seq<byte>, prev: seq<byte>, y: seq<byte>, rest: seq<byte>)
    requires |row| >= bpp && |prev| >= bpp && |y| == bpp && |rest| == |row| - bpp
    requires var k := Whole(bpp, Min(|row| - bpp, |prev| - bpp)); rest[k..] == row[bpp..][k..]
    ensures var w := Whole(bpp, Min(|row|, |prev|)); (y + rest)[w..] == row[w..]
  {
    assert Min(|row| - bpp, |prev| - bpp) == Min(|row|, |prev|) - bpp;
    TailKept(y, rest, row, Whole(bpp, Min(|row| - bpp, |prev| - bpp)));
  }

  /** `s1` simulates `s2` under the relation `related` between their
      states: from related states and the same chunks they write the same
      bytes and reach related states again. */
  ghost predicate Simulates<C1(!new), C2(!new)>(bpp: Bpp, s1: PairStep<C1>, s2: PairStep<C2>, related: (C1, C2) -> bool) {
    forall x, b, k1, k2 ::
      |x| == bpp && |b| == bpp && related(k1, k2) ==>
        s1(x, b, k1).0 == s2(x, b, k2).0 && related(s1(x, b, k1).1, s2(x, b, k2).1)
  }

  /** Two kernels whose closures simulate each other from related initial
      states produce the same row, for every pair of rows. */
  lemma {:induction false} Simulation<C1(!new), C2(!new)>(bpp: Bpp, row: seq<byte>, prev: seq<byte>, k1: C1, k2: C2,
                                             s1: PairStep<C1>, s2: PairStep<C2>, related: (C1, C2) -> bool)
    requires PairStepKeepsWidth(bpp, s1) && PairStepKeepsWidth(bpp, s2)
    requires Simulates(bpp, s1, s2, related)
    requires related(k1, k2)
    ensures ForEachChunkZip(bpp, row, prev, k1, s1) == ForEachChunkZip(bpp, row, prev, k2, s2)
    decreases |row|
  {
    if |row| >= bpp && |prev| >= bpp {
      var o1 := s1(row[..bpp], prev[..bpp], k1);
      var o2 := s2(row[..bpp], prev[..bpp], k2);
      assert o1.0 == o2.0 && related(o1.1, o2.1);
      Simulation(bpp, row[bpp..], prev[bpp..], o1.1, o2.1, s1, s2, related);
    } else {
      assert ForEachChunkZip(bpp, row, prev, k1, s1) == row == ForEachChunkZip(bpp, row, prev, k2, s2);
    }
  }

  /** One-row closures: `s1` simulates `s2` under `related`. */
  ghost predicate RowSimulates<C1(!new), C2(!new)>(bpp: Bpp, s1: RowStep<C1>, s2: RowStep<C2>, related: (C1, C2) -> bool) {
    forall x, k1, k2 ::
      |x| == bpp && related(k1, k2) ==>
        s1(x, k1).0 == s2(x, k2).0 && related(s1(x, k1).1, s2(x, k2).1)
  }

  lemma {:induction false} RowSimulation<C1(!new), C2(!new)>(bpp: Bpp, row: seq<byte>, k1: C1, k2: C2,
                                                           s1: RowStep<C1>, s2: RowStep<C2>, related: (C1, C2) -> bool)
    requires RowStepKeepsWidth(bpp, s1) && RowStepKeepsWidth(bpp, s2)
    requires RowSimulates(bpp, s1, s2, related)
    requires related(k1, k2)
    ensures ForEachChunk(bpp, row, k1, s1) == ForEachChunk(bpp, row, k2, s2)
    decreases |row|
  {
    if |row| >= bpp {
      var o1 := s1(row[..bpp], k1);
      var o2 := s2(row[..bpp], k2);
      assert o1.0 == o2.0 && related(o1.1, o2.1);
      RowSimulation(bpp, row[bpp..], o1.1, o2.1, s1, s2, related);
    } else {
      assert ForEachChunk(bpp, row, k1, s1) == row == ForEachChunk(bpp, row, k2, s2);
    }
  }

  /** A one-row closure `s1` simulates a two-row closure `s2` that is
      shown an all-zero pixel above: the top row of an image. */
  ghost predicate TopRowSimulates<C1(!new), C2(!new)>(bpp: Bpp, s1: RowStep<C1>, s2: PairStep<C2>, related: (C1, C2) -> bool) {
    forall x, k1, k2 ::
      |x| == bpp && related(k1, k2) ==>
        s1(x, k1).0 == s2(x, Zeros(bpp), k2).0 && related(s1(x, k1).1, s2(x, Zeros(bpp), k2).1)
  }

  /** The first pixel of a row of at least one pixel, then the rest. */
  lemma ForEachChunkUnfold<C(!new)>(bpp: Bpp, row: seq<byte>, carry: C, step: RowStep<C>)
    requires RowStepKeepsWidth(bpp, step)
    requires |row| >= bpp
    ensures ForEachChunk(bpp, row, carry, step)
            == step(row[..bpp], carry).0 + ForEachChunk(bpp, row[bpp..], step(row[..bpp], carry).1, step)
  {
  }

  lemma ForEachChunkZipUnfold<C(!new)>(bpp: Bpp, row: seq<byte>, prev: seq<byte>, carry: C, step: PairStep<C>)
    requires PairStepKeepsWidth(bpp, step)
    requires |row| >= bpp && |prev| >= bpp
    ensures ForEachChunkZip(bpp, row, prev, carry, step)
            == step(row[..bpp], prev[..bpp], carry).0
               + ForEachChunkZip(bpp, row[bpp..], prev[bpp..], step(row[..bpp], prev[..bpp], carry).1, step)
  {
  }

  lemma ZerosSplit(n: nat, m: nat)
    requires m <= n
    ensures Zeros(n)[..m] == Zeros(m) && Zeros(n)[m..] == Zeros(n - m)
  {
  }

  /** A one-row kernel agrees with a two-row kernel run over an all-zero
      previous row. */
  lemma {:induction false} TopRowSimulation<C1(!new), C2(!new)>(bpp: Bpp, row: seq<byte>, k1: C1, k2: C2,
                                                              s1: RowStep<C1>, s2: PairStep<C2>, related: (C1, C2) -> bool)
    requires RowStepKeepsWidth(bpp, s1) && PairStepKeepsWidth(bpp, s2)
    requires TopRowSimulates(bpp, s1, s2, related)
    requires related(k1, k2)
    ensures ForEachChunk(bpp, row, k1, s1) == ForEachChunkZip(bpp, row, Zeros(|row|), k2, s2)
    decreases |row|
  {
    if |row| >= bpp {
      var zs := Zeros(|row|);
      assert zs[..bpp] == Zeros(bpp) && zs[bpp..] == Zeros(|row| - bpp) by {
        ZerosSplit(|row|, bpp);
      }
      var o1 := s1(row[..bpp], k1);
      var o2 := s2(row[..bpp], Zeros(bpp), k2);
      assert o1.0 == o2.0 && related(o1.1, o2.1) by {
        assert |row[..bpp]| == bpp;
      }
      assert ForEachChunk(bpp, row, k1, s1) == o1.0 + ForEachChunk(bpp, row[bpp..], o1.1, s1) by {
        ForEachChunkUnfold(bpp, row, k1, s1);
      }
      assert ForEachChunkZip(bpp, row, zs, k2, s2) == o2.0 + ForEachChunkZip(bpp, row[bpp..], zs[bpp..], o2.1, s2) by {
        ForEachChunkZipUnfold(bpp, row, zs, k2, s2);
      }
      assert Zeros(|row[bpp..]|) == zs[bpp..];
      TopRowSimulation(bpp, row[bpp..], o1.1, o2.1, s1, s2, related);
    } else {
      assert ForEachChunk(bpp, row, k1, s1) == row;
      assert ForEachChunkZip(bpp, row, Zeros(|row|), k2, s2) == row;
    }
  }

  /** The state the standard needs between pixels: the reconstructed
      previous pixel `a` and the previous row's previous pixel `c`. */
  type Neighbours = (seq<byte>, seq<byte>)

  /** Section 9.2 applied to one pixel: each byte gets the predictor of
      the same byte of the carried left pixel, the pixel above, and the
      carried upper-left pixel. */
  function CanonicalChunk(f: Png.FilterType, x: seq<byte>, b: seq<byte>, a: seq<byte>, c: seq<byte>): (y: seq<byte>)
    ensures |y| == |x|
  {
    seq(|x|, j requires 0 <= j < |x| => WrapAdd(x[j], Png.Predictor(f, Lane(a, j), Lane(b, j), Lane(c, j))))
  }

  /** A chunk whose every byte is the predictor's sum is the canonical
      chunk. */
  lemma CanonicalChunkByBytes(f: Png.FilterType, x: seq<byte>, b: seq<byte>, a: seq<byte>, c: seq<byte>, y: seq<byte>)
    requires |y| == |x|
    requires forall j :: 0 <= j < |x| ==> y[j] == WrapAdd(x[j], Png.Predictor(f, Lane(a, j), Lane(b, j), Lane(c, j)))
    ensures y == CanonicalChunk(f, x, b, a, c)
  {
  }

  /** The closure that reconstructs one pixel by the standard and carries
      it, with the pixel above, to the next pixel. */
  function Canonical(f: Png.FilterType): PairStep<Neighbours> {
    (x, b, ac: Neighbours) =>
      var y := CanonicalChunk(f, x, b, ac.0, ac.1);
      (y, (y, b))
  }

  lemma CanonicalKeepsWidth(f: Png.FilterType, bpp: Bpp)
    ensures PairStepKeepsWidth(bpp, Canonical(f))
  {
    forall x, b, k | |x| == bpp && |b| == bpp
      ensures |Canonical(f)(x, b, k).0| == bpp
    {
    }
  }

  /** The last pixel of `s`, or a zero pixel while `s` holds none. */
  function LastPixel(s: seq<byte>, bpp: Bpp): (p: seq<byte>)
    ensures |p| == bpp
  {
    if |s| >= bpp then s[|s| - bpp..] else Zeros(bpp)
  }

  /** What a kernel promises about one row: the bytes of the pixels
      both rows hold whole are the standard's reconstruction, and every
      byte after them is left as it was. */
  ghost predicate ReconstructsWholePixels(f: Png.FilterType, bpp: Bpp, filt: seq<byte>, prev: seq<byte>, r: seq<byte>) {
    var w := Whole(bpp, Min(|filt|, |prev|));
    && |r| == |filt|
    && Png.Reconstructed(f, bpp, filt[..w], prev[..w], r[..w])
    && r[w..] == filt[w..]
  }

  /** The promise of the Up kernel, which works byte by byte and so for
      every pixel size at once: the bytes both rows have are the
      standard's reconstruction, and the rest of the row is left as it was. */
  ghost predicate ReconstructsOverlap(f: Png.FilterType, filt: seq<byte>, prev: seq<byte>, r: seq<byte>) {
    var m := Min(|filt|, |prev|);
    && |r| == |filt|
    && (forall bpp: Bpp :: Png.Reconstructed(f, bpp, filt[..m], prev[..m], r[..m]))
    && r[m..] == filt[m..]
  }

  /** The promise above determines the row. */
  lemma ReconstructsWholePixelsUnique(f: Png.FilterType, bpp: Bpp, filt: seq<byte>, prev: seq<byte>,
                                      r1: seq<byte>, r2: seq<byte>)
    requires ReconstructsWholePixels(f, bpp, filt, prev, r1)
    requires ReconstructsWholePixels(f, bpp, filt, prev, r2)
    ensures r1 == r2
  {
    var w := Whole(bpp, Min(|filt|, |prev|));
    Png.ReconstructedUnique(f, bpp, filt[..w], prev[..w], r1[..w], r2[..w]);
    assert r1 == r1[..w] + r1[w..] && r2 == r2[..w] + r2[w..];
  }

  /** When both rows hold `k` whole pixels, the promise is the standard's
      reconstruction of the whole row. */
  lemma WholeRowReconstructs(f: Png.FilterType, bpp: Bpp, filt: seq<byte>, prev: seq<byte>, r: seq<byte>, k: nat)
    requires |filt| == |prev| == k * bpp
    ensures ReconstructsWholePixels(f, bpp, filt, prev, r) <==> Png.Reconstructed(f, bpp, filt, prev, r)
  {
    WholeOfMultiple(bpp, k);
    assert filt[..k * bpp] == filt && prev[..k * bpp] == prev;
    if |r| == |filt| {
      assert r[..k * bpp] == r;
    }
  }

  /** One pixel of the canonical loop: if `done` reconstructs the first
      `m` bytes, the canonical chunk computed from the last pixels of
      `done` and of the previous row reconstructs the next `bpp` bytes. */
  lemma CanonicalStep(f: Png.FilterType, bpp: Bpp, filt: seq<byte>, prev: seq<byte>, done: seq<byte>)
    requires |done| + bpp <= |filt| && |done| + bpp <= |prev|
    requires |done| == 0 || |done| >= bpp
    requires Png.Reconstructed(f, bpp, filt[..|done|], prev[..|done|], done)
    ensures
      var m := |done|;
      var y := CanonicalChunk(f, filt[m..m + bpp], prev[m..m + bpp], LastPixel(done, bpp), LastPixel(prev[..m], bpp));
      Png.Reconstructed(f, bpp, filt[..m + bpp], prev[..m + bpp], done + y)
  {
    var m := |done|;
    var m' := m + bpp;
    var x, b := filt[m..m'], prev[m..m'];
    var a, c := LastPixel(done, bpp), LastPixel(prev[..m], bpp);
    var y := CanonicalChunk(f, x, b, a, c);
    var out, row, up := done + y, filt[..m'], prev[..m'];
    forall i | 0 <= i < m'
      ensures Png.ByteReconstructed(f, bpp, row, up, out, i)
    {
      if i < m {
        KeptByte(f, bpp, filt, prev, done, y, i);
      } else {
        NewByte(f, bpp, filt, prev, done, i);
      }
    }
  }

  /** A byte of `done` stays reconstructed when a pixel is appended. */
  lemma KeptByte(f: Png.FilterType, bpp: Bpp, filt: seq<byte>, prev: seq<byte>, done: seq<byte>, y: seq<byte>, i: int)
    requires |done| + |y| <= |filt| && |done| + |y| <= |prev|
    requires 0 <= i < |done|
    requires Png.Reconstructed(f, bpp, filt[..|done|], prev[..|done|], done)
    ensures Png.ByteReconstructed(f, bpp, filt[..|done| + |y|], prev[..|done| + |y|], done + y, i)
  {
    var m, n := |done|, |done| + |y|;
    assert Png.ByteReconstructed(f, bpp, filt[..m], prev[..m], done, i);
    assert (done + y)[i] == done[i] && filt[..n][i] == filt[..m][i] && prev[..n][i] == prev[..m][i];
    assert Png.Left(done + y, i, bpp) == Png.Left(done, i, bpp);
    assert Png.Left(prev[..n], i, bpp) == Png.Left(prev[..m], i, bpp);
  }

  /** A byte of the appended canonical pixel is reconstructed. */
  lemma NewByte(f: Png.FilterType, bpp: Bpp, filt: seq<byte>, prev: seq<byte>, done: seq<byte>, i: int)
    requires |done| + bpp <= |filt| && |done| + bpp <= |prev|
    requires |done| == 0 || |done| >= bpp
    requires |done| <= i < |done| + bpp
    ensures
      var m := |done|;
      var y := CanonicalChunk(f, filt[m..m + bpp], prev[m..m + bpp], LastPixel(done, bpp), LastPixel(prev[..m], bpp));
      Png.ByteReconstructed(f, bpp, filt[..m + bpp], prev[..m + bpp], done + y, i)
  {
    var m := |done|;
    var m' := m + bpp;
    var x, b := filt[m..m'], prev[m..m'];
    var a, c := LastPixel(done, bpp), LastPixel(prev[..m], bpp);
    var y := CanonicalChunk(f, x, b, a, c);
    var out, row, up := done + y, filt[..m'], prev[..m'];
    var j := i - m;
    assert out[i] == y[j] && row[i] == x[j] && up[i] == b[j] == Lane(b, j);
    if m == 0 {
      assert Png.Left(out, i, bpp) == 0 == Lane(a, j);
      assert Png.Left(up, i, bpp) == 0 == Lane(c, j);
    } else {
      assert Png.Left(out, i, bpp) == done[m - bpp + j] == Lane(a, j);
      assert Png.Left(up, i, bpp) == prev[m - bpp + j] == Lane(c, j);
    }
  }

  lemma AppendAssoc(a: seq<byte>, b: seq<byte>, c: seq<byte>)
    ensures a + (b + c) == (a + b) + c
  {
  }

  /** `done` followed by the canonical loop over the rest of the row,
      started from the last pixels of `done` and of the previous row. */
  ghost function Continue(f: Png.FilterType, bpp: Bpp, filt: seq<byte>, prev: seq<byte>, done: seq<byte>): (r: seq<byte>)
    requires |done| <= |filt| && |done| <= |prev|
    ensures |r| == |filt|
  {
    var m := |done|;
    CanonicalKeepsWidth(f, bpp);
    done + ForEachChunkZip(bpp, filt[m..], prev[m..], (LastPixel(done, bpp), LastPixel(prev[..m], bpp)), Canonical(f))
  }

  /** How far the loop gets from byte `m`: to the end of the last pixel
      both rows hold whole. */
  function Reach(bpp: Bpp, filt: seq<byte>, prev: seq<byte>, m: nat): (w: nat)
    requires m <= |filt| && m <= |prev|
    ensures m <= w <= |filt| && w <= |prev|
  {
    m + Whole(bpp, Min(|filt| - m, |prev| - m))
  }

  /** The pixel after `done`, as the canonical loop computes it. */
  function NextPixel(f: Png.FilterType, bpp: Bpp, filt: seq<byte>, prev: seq<byte>, done: seq<byte>): (y: seq<byte>)
    requires |done| + bpp <= |filt| && |done| + bpp <= |prev|
    ensures |y| == bpp
  {
    var m := |done|;
    CanonicalChunk(f, filt[m..m + bpp], prev[m..m + bpp], LastPixel(done, bpp), LastPixel(prev[..m], bpp))
  }

  /** The canonical closure, run on the pixel after `done`, writes
      `NextPixel` and carries the last pixels of the longer prefixes. */
  lemma CanonicalNextPixel(f: Png.FilterType, bpp: Bpp, filt: seq<byte>, prev: seq<byte>, done: seq<byte>)
    requires |done| + bpp <= |filt| && |done| + bpp <= |prev|
    ensures
      var m, y := |done|, NextPixel(f, bpp, filt, prev, done);
      Canonical(f)(filt[m..][..bpp], prev[m..][..bpp], (LastPixel(done, bpp), LastPixel(prev[..m], bpp)))
      == (y, (LastPixel(done + y, bpp), LastPixel(prev[..m + bpp], bpp)))
  {
    var m, y := |done|, NextPixel(f, bpp, filt, prev, done);
    assert filt[m..][..bpp] == filt[m..m + bpp] && prev[m..][..bpp] == prev[m..m + bpp];
    assert (done + y)[|done + y| - bpp..] == y;
    assert prev[..m + bpp][m..] == prev[m..m + bpp];
  }

  lemma ContinueStep(f: Png.FilterType, bpp: Bpp, filt: seq<byte>, prev: seq<byte>, done: seq<byte>)
    requires |done| + bpp <= |filt| && |done| + bpp <= |prev|
    ensures Continue(f, bpp, filt, prev, done) == Continue(f, bpp, filt, prev, done + NextPixel(f, bpp, filt, prev, done))
  {
    CanonicalKeepsWidth(f, bpp);
    var m := |done|;
    var m' := m + bpp;
    var row, up := filt[m..], prev[m..];
    var carry := (LastPixel(done, bpp), LastPixel(prev[..m], bpp));
    var y := NextPixel(f, bpp, filt, prev, done);
    var done' := done + y;
    var carry' := (LastPixel(done', bpp), LastPixel(prev[..m'], bpp));
    var rest := ForEachChunkZip(bpp, row, up, carry, Canonical(f));
    var rest' := ForEachChunkZip(bpp, filt[m'..], prev[m'..], carry', Canonical(f));
    assert Canonical(f)(row[..bpp], up[..bpp], carry) == (y, carry') by {
      CanonicalNextPixel(f, bpp, filt, prev, done);
    }
    assert rest == y + rest' by {
      ForEachChunkZipUnfold(bpp, row, up, carry, Canonical(f));
      assert filt[m'..] == row[bpp..] && prev[m'..] == up[bpp..];
    }
    assert Continue(f, bpp, filt, prev, done) == done + rest;
    assert Continue(f, bpp, filt, prev, done') == done' + rest' by {
      assert |done'| == m';
    }
    AppendAssoc(done, y, rest');
  }

  lemma ReachStep(bpp: Bpp, filt: seq<byte>, prev: seq<byte>, m: nat)
    requires m + bpp <= |filt| && m + bpp <= |prev|
    ensures Reach(bpp, filt, prev, m) == Reach(bpp, filt, prev, m + bpp)
  {
    var n := Min(|filt| - m, |prev| - m);
    assert Min(|filt| - (m + bpp), |prev| - (m + bpp)) == n - bpp;
  }

  /** With less than a pixel left in either row, the loop stops. */
  lemma ContinueDone(f: Png.FilterType, bpp: Bpp, filt: seq<byte>, prev: seq<byte>, done: seq<byte>)
    requires |done| <= |filt| && |done| <= |prev|
    requires |filt| - |done| < bpp || |prev| - |done| < bpp
    ensures Reach(bpp, filt, prev, |done|) == |done|
    ensures Continue(f, bpp, filt, prev, done)[..|done|] == done
  {
    CanonicalKeepsWidth(f, bpp);
    var m := |done|;
    var rest := ForEachChunkZip(bpp, filt[m..], prev[m..], (LastPixel(done, bpp), LastPixel(prev[..m], bpp)), Canonical(f));
    assert Continue(f, bpp, filt, prev, done) == done + rest;
    assert Whole(bpp, Min(|filt| - m, |prev| - m)) == 0;
    assert (done + rest)[..m] == done;
  }

  /** The rest of the row: if `done` reconstructs the first `|done|` bytes
      (a whole number of pixels), the canonical loop over the remaining
      bytes completes the reconstruction. */
  lemma {:induction false} CanonicalExtends(f: Png.FilterType, bpp: Bpp, filt: seq<byte>, prev: seq<byte>, done: seq<byte>)
    requires |done| <= |filt| && |done| <= |prev|
    requires |done| == 0 || |done| >= bpp
    requires Png.Reconstructed(f, bpp, filt[..|done|], prev[..|done|], done)
    ensures
      var w := Reach(bpp, filt, prev, |done|);
      Png.Reconstructed(f, bpp, filt[..w], prev[..w], Continue(f, bpp, filt, prev, done)[..w])
    decreases |filt| - |done|
  {
    var m := |done|;
    if |filt| - m < bpp || |prev| - m < bpp {
      ContinueDone(f, bpp, filt, prev, done);
    } else {
      var done' := done + NextPixel(f, bpp, filt, prev, done);
      assert |done'| == m + bpp;
      assert Png.Reconstructed(f, bpp, filt[..|done'|], prev[..|done'|], done') by {
        CanonicalStep(f, bpp, filt, prev, done);
      }
      assert Reach(bpp, filt, prev, m) == Reach(bpp, filt, prev, |done'|) by {
        ReachStep(bpp, filt, prev, m);
      }
      assert Continue(f, bpp, filt, prev, done) == Continue(f, bpp, filt, prev, done') by {
        ContinueStep(f, bpp, filt, prev, done);
      }
      CanonicalExtends(f, bpp, filt, prev, done');
    }
  }

  /** The canonical loop, started from zero pixels, meets the promise of
      a kernel for filter `f`. */
  lemma CanonicalReconstructs(f: Png.FilterType, bpp: Bpp, filt: seq<byte>, prev: seq<byte>)
    ensures PairStepKeepsWidth(bpp, Canonical(f))
    ensures ReconstructsWholePixels(f, bpp, filt, prev,
              ForEachChunkZip(bpp, filt, prev, (Zeros(bpp), Zeros(bpp)), Canonical(f)))
  {
    CanonicalKeepsWidth(f, bpp);
    assert Png.Reconstructed(f, bpp, filt[..0], prev[..0], []);
    assert filt[0..] == filt && prev[0..] == prev;
    CanonicalExtends(f, bpp, filt, prev, []);
    assert Continue(f, bpp, filt, prev, []) == ForEachChunkZip(bpp, filt, prev, (Zeros(bpp), Zeros(bpp)), Canonical(f));
  }

  /** A two-row kernel whose closure simulates the canonical one from
      zero pixels keeps the promise of a kernel for `f`. */
  lemma ReconstructsBySimulation<C(!new)>(f: Png.FilterType, bpp: Bpp, filt: seq<byte>, prev: seq<byte>,
                                          k: C, step: PairStep<C>, related: (C, Neighbours) -> bool)
    requires PairStepKeepsWidth(bpp, step)
    requires Simulates(bpp, step, Canonical(f), related)
    requires related(k, (Zeros(bpp), Zeros(bpp)))
    ensures ReconstructsWholePixels(f, bpp, filt, prev, ForEachChunkZip(bpp, filt, prev, k, step))
  {
    CanonicalReconstructs(f, bpp, filt, prev);
    Simulation(bpp, filt, prev, k, (Zeros(bpp), Zeros(bpp)), step, Canonical(f), related);
  }

  /** A one-row kernel whose closure simulates the canonical one over a
      zero pixel above keeps the promise of a kernel for `f` on the top
      row of an image. */
  lemma TopRowReconstructsBySimulation<C(!new)>(f: Png.FilterType, bpp: Bpp, filt: seq<byte>,
                                                k: C, step: RowStep<C>, related: (C, Neighbours) -> bool)
    requires RowStepKeepsWidth(bpp, step)
    requires TopRowSimulates(bpp, step, Canonical(f), related)
    requires related(k, (Zeros(bpp), Zeros(bpp)))
    ensures ReconstructsWholePixels(f, bpp, filt, Zeros(|filt|), ForEachChunk(bpp, filt, k, step))
  {
    CanonicalReconstructs(f, bpp, filt, Zeros(|filt|));
    TopRowSimulation(bpp, filt, k, (Zeros(bpp), Zeros(bpp)), step, Canonical(f), related);
  }
}
