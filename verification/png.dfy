/** Filter method 0 of the PNG standard (W3C PNG specification, section
    9.2 "Filter types for filter method 0", and section 9.4 for the Paeth
    predictor), stated byte by byte. This is the reference every kernel of
    the library is measured against. */
module Png {
  import opened Bytes

  /** The four filter types that change bytes (type 0, None, leaves a row
      as it is and has no kernel). */
  datatype FilterType = Sub | Up | Average | Paeth

  /** Distance of a candidate `v` from the Paeth estimate `a + b - c`. */
  function PaethDistance(a: byte, b: byte, c: byte, v: byte): nat {
    Abs(a + b - c - v)
  }

  /** The Paeth predictor of section 9.4, computed as the standard's
      pseudocode does: one of the three neighbours. */
  function PaethPredictor(a: byte, b: byte, c: byte): (r: byte)
    ensures r == a || r == b || r == c
  {
    var p := a + b - c;
    var pa := Abs(p - a);
    var pb := Abs(p - b);
    var pc := Abs(p - c);
    if pa <= pb && pa <= pc then a
    else if pb <= pc then b
    else c
  }

  /** What the pseudocode means: the predictor is the neighbour nearest
      to the estimate `a + b - c`, ties going to `a`, then to `b`. */
  lemma PaethPredictorNearest(a: byte, b: byte, c: byte)
    ensures var r := PaethPredictor(a, b, c);
      && PaethDistance(a, b, c, r) <= PaethDistance(a, b, c, a)
      && PaethDistance(a, b, c, r) <= PaethDistance(a, b, c, b)
      && PaethDistance(a, b, c, r) <= PaethDistance(a, b, c, c)
      && (PaethDistance(a, b, c, a) == PaethDistance(a, b, c, r) ==> r == a)
      && (PaethDistance(a, b, c, b) == PaethDistance(a, b, c, r) && r != a ==> r == b)
  {
  }

  /** The value added back to a filtered byte, from the reconstructed
      left neighbour `a`, the byte above `b` and the byte above-left `c`. */
  function Predictor(f: FilterType, a: byte, b: byte, c: byte): byte {
    match f
    case Sub => a
    case Up => b
    case Average => (a + b) / 2
    case Paeth => PaethPredictor(a, b, c)
  }

  /** The byte one pixel to the left of position `i` of `s`, or 0 when
      position `i` is in the first pixel. */
  function Left(s: seq<byte>, i: int, bpp: Bpp): byte {
    Lane(s, i - bpp)
  }

  /** Byte `i` of `out` is byte `i` of the filtered row `filt` plus the
      predictor of its reconstructed left neighbour (taken from `out`
      itself), the byte above and the byte above-left (taken from the
      previous row `prev`), modulo 256. */
  ghost predicate ByteReconstructed(f: FilterType, bpp: Bpp, filt: seq<byte>, prev: seq<byte>, out: seq<byte>, i: int)
    requires 0 <= i < |out| == |filt| == |prev|
  {
    out[i] == WrapAdd(filt[i], Predictor(f, Left(out, i, bpp), prev[i], Left(prev, i, bpp)))
  }

  /** `out` is the reconstruction of the filtered row `filt` under filter
      `f`, given the reconstructed previous row `prev` (all zero for the
      first row of an image). Each byte depends on bytes reconstructed
      before it. */
  ghost predicate Reconstructed(f: FilterType, bpp: Bpp, filt: seq<byte>, prev: seq<byte>, out: seq<byte>) {
    && |out| == |filt| == |prev|
    && forall i :: 0 <= i < |out| ==> ByteReconstructed(f, bpp, filt, prev, out, i)
  }

  /** A filtered row has at most one reconstruction. */
  lemma {:induction false} ReconstructedUnique(f: FilterType, bpp: Bpp, filt: seq<byte>, prev: seq<byte>,
                                               out1: seq<byte>, out2: seq<byte>)
    requires Reconstructed(f, bpp, filt, prev, out1)
    requires Reconstructed(f, bpp, filt, prev, out2)
    ensures out1 == out2
  {
    forall n | 0 <= n <= |out1|
      ensures out1[..n] == out2[..n]
    {
      PrefixesAgree(f, bpp, filt, prev, out1, out2, n);
    }
    assert out1 == out1[..|out1|] && out2 == out2[..|out2|];
  }

  lemma {:induction false} PrefixesAgree(f: FilterType, bpp: Bpp, filt: seq<byte>, prev: seq<byte>,
                                         out1: seq<byte>, out2: seq<byte>, n: nat)
    requires Reconstructed(f, bpp, filt, prev, out1)
    requires Reconstructed(f, bpp, filt, prev, out2)
    requires n <= |out1|
    ensures out1[..n] == out2[..n]
  {
    if n > 0 {
      var i := n - 1;
      PrefixesAgree(f, bpp, filt, prev, out1, out2, i);
      assert Left(out1, i, bpp) == Left(out2, i, bpp) by {
        if i - bpp >= 0 {
          assert out1[..i][i - bpp] == out2[..i][i - bpp];
        }
      }
      assert ByteReconstructed(f, bpp, filt, prev, out1, i) && ByteReconstructed(f, bpp, filt, prev, out2, i);
      assert out1[i] == out2[i];
      assert out1[..n] == out1[..i] + [out1[i]];
      assert out2[..n] == out2[..i] + [out2[i]];
    }
  }

  /** The filtering direction of section 9.2: each raw byte minus the
      predictor of its raw neighbours, modulo 256. The library does not
      implement it; it is the inverse the kernels are undoing. */
  function Filter(f: FilterType, bpp: Bpp, raw: seq<byte>, prev: seq<byte>): (filt: seq<byte>)
    requires |prev| == |raw|
    ensures |filt| == |raw|
  {
    seq(|raw|, i requires 0 <= i < |raw| =>
      WrapSub(raw[i], Predictor(f, Left(raw, i, bpp), prev[i], Left(prev, i, bpp))))
  }

  lemma AddUndoesSub(x: byte, p: byte)
    ensures WrapAdd(WrapSub(x, p), p) == x
  {
  }

  /** Reconstruction undoes filtering, and nothing else reconstructs a
      filtered row: `out` reconstructs `Filter(raw)` exactly when it is `raw`. */
  lemma ReconstructionInvertsFilter(f: FilterType, bpp: Bpp, raw: seq<byte>, prev: seq<byte>, out: seq<byte>)
    requires |prev| == |raw|
    ensures Reconstructed(f, bpp, Filter(f, bpp, raw, prev), prev, out) <==> out == raw
  {
    var filt := Filter(f, bpp, raw, prev);
    forall i | 0 <= i < |raw|
      ensures ByteReconstructed(f, bpp, filt, prev, raw, i)
    {
      AddUndoesSub(raw[i], Predictor(f, Left(raw, i, bpp), prev[i], Left(prev, i, bpp)));
    }
    assert Reconstructed(f, bpp, filt, prev, raw);
    if Reconstructed(f, bpp, filt, prev, out) {
      ReconstructedUnique(f, bpp, filt, prev, out, raw);
    }
  }
}
