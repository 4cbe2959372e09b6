/**
 * What Floyd-Steinberg output is, said of the output alone: every pixel's ink is the nearest to its source colour plus
 * the weighted errors of the four neighbours before it. The raster walk produces that output, and there is no other.
 */
module DitherLaw {
  import opened Arith
  import opened Bytes
  import opened Ink
  import opened Quantize
  import opened Dither
  import opened DitherTheorems

  // ---- The law

  function Shade(p: Color, c: Channel): byte {
    match c
    case Red => p.r
    case Green => p.g
    case Blue => p.b
  }

  /** The colour of the ink emitted at a pixel. */
  function Emitted(out: seq<byte>, i: nat): Color
    requires i < |out|
  {
    PaletteColor(if out[i] < INKS then out[i] else 1)
  }

  /** What one channel of a pixel stands at when its turn comes: its source and what its four earlier neighbours owe. */
  ghost function Value(src: Canvas, out: seq<byte>, c: Channel, x: int, y: int): real
    requires src.Valid() && |out| == |src.px| && Inside(src.w, src.h, x, y)
    decreases y, x, 1
  {
    Shade(src.px[At(src.w, src.h, x, y)], c) as real
    + Owed(src, out, c, x - 1, y) * 7.0 / 16.0
    + Owed(src, out, c, x - 1, y - 1) * 1.0 / 16.0
    + Owed(src, out, c, x, y - 1) * 5.0 / 16.0
    + Owed(src, out, c, x + 1, y - 1) * 3.0 / 16.0
  }

  /** The error of the ink emitted at a pixel; none outside the image. */
  ghost function Owed(src: Canvas, out: seq<byte>, c: Channel, x: int, y: int): real
    requires src.Valid() && |out| == |src.px|
    decreases y, x, 2
  {
    if Inside(src.w, src.h, x, y)
    then Value(src, out, c, x, y) - Shade(Emitted(out, At(src.w, src.h, x, y)), c) as real
    else 0.0
  }

  /** b is the byte a real value is cut to: the greatest not above it, or 0 below zero. */
  ghost predicate IsCut(v: real, b: byte) {
    if v < 0.0 then b == 0 else b as real <= v && (b < 255 ==> v < b as real + 1.0)
  }

  ghost predicate AreCut(r: real, g: real, b: real, p: Color) { IsCut(r, p.r) && IsCut(g, p.g) && IsCut(b, p.b) }

  /** The ink at (x, y) is the nearest to the values there, cut to bytes. */
  ghost predicate IsRightAt(src: Canvas, out: seq<byte>, x: nat, y: nat)
    requires src.Valid() && |out| == |src.px| && x < src.w && y < src.h
  {
    var r, g, b := Value(src, out, Red, x, y), Value(src, out, Green, x, y), Value(src, out, Blue, x, y);
    forall p: Color :: AreCut(r, g, b, p) ==> IsNearestInk(p, out[At(src.w, src.h, x, y)])
  }

  ghost predicate IsDithered(src: Canvas, out: seq<byte>)
    requires src.Valid()
  {
    |out| == |src.px| && forall x: nat, y: nat :: x < src.w && y < src.h ==> IsRightAt(src, out, x, y)
  }

  // ---- One pixel

  /** The clamp is that cut, and nothing else is. */
  lemma ClampIsCut(v: real, b: byte)
    ensures IsCut(v, b) <==> b == Clamp(v)
  {
  }

  lemma InkForIsNearest(v: Fc, k: nat)
    ensures (forall p: Color :: AreCut(v.r, v.g, v.b, p) ==> IsNearestInk(p, k)) <==> k == InkFor(v)
  {
    hide *;
    var q := Color(Clamp(v.r), Clamp(v.g), Clamp(v.b));
    InkForUnfold(v);
    forall p: Color ensures AreCut(v.r, v.g, v.b, p) <==> p == q {
      AreCutIsClamp(v, p);
    }
    NearestIndexIsNearest(q, k);
    assert AreCut(v.r, v.g, v.b, q);
  }

  lemma InkForUnfold(v: Fc)
    ensures InkFor(v) == NearestIndex(Color(Clamp(v.r), Clamp(v.g), Clamp(v.b)))
  {
    hide NearestIndex, Clamp;
  }

  lemma AreCutIsClamp(v: Fc, p: Color)
    ensures AreCut(v.r, v.g, v.b, p) <==> p == Color(Clamp(v.r), Clamp(v.g), Clamp(v.b))
  {
    ClampIsCut(v.r, p.r);
    ClampIsCut(v.g, p.g);
    ClampIsCut(v.b, p.b);
    hide IsCut, Clamp;
  }

  // ---- What has been received so far

  /** Pixel (qx, qy) comes before raster position (x, y). */
  predicate Before(qx: int, qy: int, x: int, y: int) { qy < y || (qy == y && qx < x) }

  /** A weighted error, once the pixel that owes it has been processed. */
  ghost function Paid(src: Canvas, out: seq<byte>, c: Channel, qx: int, qy: int, k: real, x: int, y: int): real
    requires src.Valid() && |out| == |src.px|
  {
    if Before(qx, qy, x, y) then Owed(src, out, c, qx, qy) * k / 16.0 else 0.0
  }

  /** What pixel (i, j) stands at when the walk has reached (x, y). */
  ghost function Received(src: Canvas, out: seq<byte>, c: Channel, i: nat, j: nat, x: int, y: int): real
    requires src.Valid() && |out| == |src.px| && i < src.w && j < src.h
  {
    Shade(src.px[At(src.w, src.h, i, j)], c) as real
    + Paid(src, out, c, i - 1, j, 7.0, x, y) + Paid(src, out, c, i - 1, j - 1, 1.0, x, y)
    + Paid(src, out, c, i, j - 1, 5.0, x, y) + Paid(src, out, c, i + 1, j - 1, 3.0, x, y)
  }

  /** When its turn comes everything has been received. */
  lemma ReceivedAll(src: Canvas, out: seq<byte>, c: Channel, x: nat, y: nat)
    requires src.Valid() && |out| == |src.px| && x < src.w && y < src.h
    ensures Received(src, out, c, x, y, x, y) == Value(src, out, c, x, y)
  {
    hide Owed;
  }

  /** The share of (x, y)'s error that goes to (i, j). */
  function Weight(x: int, y: int, i: int, j: int): real {
    if j == y && i == x + 1 then 7.0
    else if j == y + 1 && i == x - 1 then 3.0
    else if j == y + 1 && i == x then 5.0
    else if j == y + 1 && i == x + 1 then 1.0
    else 0.0
  }

  lemma ReceivedOneMore(src: Canvas, out: seq<byte>, c: Channel, i: nat, j: nat, x: nat, y: nat)
    requires src.Valid() && |out| == |src.px| && i < src.w && j < src.h && x < src.w && y < src.h
    ensures Received(src, out, c, i, j, x + 1, y)
         == Received(src, out, c, i, j, x, y) + Owed(src, out, c, x, y) * Weight(x, y, i, j) / 16.0
  {
    hide Owed;
  }

  lemma AtIsInjective(w: nat, h: nat, x: nat, y: nat, i: nat, j: nat)
    requires x < w && y < h && i < w && j < h
    ensures At(w, h, x, y) == At(w, h, i, j) <==> x == i && y == j
    ensures At(w, h, x, y) < At(w, h, i, j) <==> Before(x, y, i, j)
  {
    if y < j {
      RowInRaster(w, j, y);
    } else if j < y {
      RowInRaster(w, y, j);
    }
  }

  lemma SpreadAt(buf: seq<Fc>, w: nat, h: nat, x: int, y: int, share: Fc, i: nat, j: nat)
    requires |buf| == w * h && i < w && j < h
    ensures var r, k := Spread(buf, w, h, x, y, share), At(w, h, i, j);
            r[k] == if x == i && y == j then Add(buf[k], share) else buf[k]
  {
    if Inside(w, h, x, y) {
      AtIsInjective(w, h, x, y, i, j);
    }
  }

  lemma SpreadAllAt(buf: seq<Fc>, w: nat, h: nat, x: nat, y: nat, e: Fc, i: nat, j: nat, c: Channel)
    requires |buf| == w * h && i < w && j < h
    ensures var r, k := SpreadAll(buf, w, h, x, y, e), At(w, h, i, j);
            Part(c, r[k]) == Part(c, buf[k]) + Part(c, e) * Weight(x, y, i, j) / 16.0
  {
    hide Spread;
    var b1 := Spread(buf, w, h, x + 1, y, Share(e, 7.0));
    var b2 := Spread(b1, w, h, x - 1, y + 1, Share(e, 3.0));
    var b3 := Spread(b2, w, h, x, y + 1, Share(e, 5.0));
    SpreadAt(buf, w, h, x + 1, y, Share(e, 7.0), i, j);
    SpreadAt(b1, w, h, x - 1, y + 1, Share(e, 3.0), i, j);
    SpreadAt(b2, w, h, x, y + 1, Share(e, 5.0), i, j);
    SpreadAt(b3, w, h, x + 1, y + 1, Share(e, 1.0), i, j);
  }

  // ---- The walk

  /** At (x, y) every pixel still to come stands at what it has received. */
  ghost predicate Stands(s: Raster, src: Canvas, out: seq<byte>, x: int, y: int)
    requires src.Valid() && |out| == |src.px| && Fits(s, src.w, src.h)
  {
    forall i: nat, j: nat, c :: i < src.w && j < src.h && !Before(i, j, x, y) ==>
      Part(c, s.buf[At(src.w, src.h, i, j)]) == Received(src, out, c, i, j, x, y)
  }

  lemma StandsAtStart(src: Canvas, out: seq<byte>)
    requires src.Valid() && |out| == |src.px|
    ensures Stands(Start(src), src, out, 0, 0)
  {
    hide Value;
  }

  /** One pixel: the ink it gets is right, and the pixels still to come stand at what they have then received. */
  lemma StepStands(s: Raster, src: Canvas, out: seq<byte>, x: nat, y: nat)
    requires src.Valid() && |out| == |src.px| && Fits(s, src.w, src.h) && x < src.w && y < src.h
    requires Stands(s, src, out, x, y)
    ensures Step(s, src.w, src.h, x, y).pix[At(src.w, src.h, x, y)] == out[At(src.w, src.h, x, y)]
            <==> IsRightAt(src, out, x, y)
    ensures Step(s, src.w, src.h, x, y).pix[At(src.w, src.h, x, y)] == out[At(src.w, src.h, x, y)] ==>
              Stands(Step(s, src.w, src.h, x, y), src, out, x + 1, y)
  {
    var k := At(src.w, src.h, x, y);
    var v := s.buf[k];
    forall c ensures Part(c, v) == Value(src, out, c, x, y) {
      ReceivedAll(src, out, c, x, y);
    }
    RightIsInkFor(src, out, x, y, v);
    if InkFor(v) == out[k] {
      ResidueIsOwed(src, out, x, y, v);
      hide Value, Owed, Received, Residue, SpreadAll;
      forall i: nat, j: nat, c | i < src.w && j < src.h && !Before(i, j, x + 1, y)
        ensures Part(c, Step(s, src.w, src.h, x, y).buf[At(src.w, src.h, i, j)])
             == Received(src, out, c, i, j, x + 1, y)
      {
        SpreadAllAt(s.buf, src.w, src.h, x, y, Residue(v), i, j, c);
        ReceivedOneMore(src, out, c, i, j, x, y);
      }
    }
  }

  lemma RightIsInkFor(src: Canvas, out: seq<byte>, x: nat, y: nat, v: Fc)
    requires src.Valid() && |out| == |src.px| && x < src.w && y < src.h
    requires forall c :: Part(c, v) == Value(src, out, c, x, y)
    ensures IsRightAt(src, out, x, y) <==> InkFor(v) == out[At(src.w, src.h, x, y)]
  {
    InkForIsNearest(v, out[At(src.w, src.h, x, y)]);
    assert Part(Red, v) == Value(src, out, Red, x, y) && Part(Green, v) == Value(src, out, Green, x, y);
    assert Part(Blue, v) == Value(src, out, Blue, x, y);
    hide Value, AreCut, InkFor, IsNearestInk;
  }

  lemma ResidueIsOwed(src: Canvas, out: seq<byte>, x: nat, y: nat, v: Fc)
    requires src.Valid() && |out| == |src.px| && x < src.w && y < src.h
    requires forall c :: Part(c, v) == Value(src, out, c, x, y)
    requires InkFor(v) == out[At(src.w, src.h, x, y)]
    ensures forall c :: Part(c, Residue(v)) == Owed(src, out, c, x, y)
  {
    hide Value, InkFor, PaletteColor;
    forall c ensures Part(c, Residue(v)) == Owed(src, out, c, x, y) {
      assert Part(c, v) == Value(src, out, c, x, y);
    }
  }

  // ---- The whole image

  ghost predicate RightBefore(src: Canvas, out: seq<byte>, x: nat, y: nat)
    requires src.Valid() && |out| == |src.px|
  {
    forall i: nat, j: nat :: i < src.w && j < src.h && Before(i, j, x, y) ==> IsRightAt(src, out, i, j)
  }

  ghost predicate Agrees(s: Raster, out: seq<byte>, n: nat) {
    n <= |s.pix| == |out| && forall k :: 0 <= k < n ==> s.pix[k] == out[k]
  }

  /** So far out is right exactly if it is what the walk emitted, and then the rest stands as it should. */
  ghost predicate Tells(s: Raster, src: Canvas, out: seq<byte>, x: nat, y: nat)
    requires src.Valid() && |out| == |src.px| && Fits(s, src.w, src.h)
    requires (x <= src.w && y < src.h) || (x == 0 && y == src.h)
  {
    && (RightBefore(src, out, x, y) <==> Agrees(s, out, Passed(src.w, src.h, x, y)))
    && (RightBefore(src, out, x, y) ==> Stands(s, src, out, x, y))
  }

  lemma RightBeforeNext(src: Canvas, out: seq<byte>, x: nat, y: nat)
    requires src.Valid() && |out| == |src.px| && x < src.w && y < src.h
    ensures RightBefore(src, out, x + 1, y) <==> RightBefore(src, out, x, y) && IsRightAt(src, out, x, y)
  {
    hide IsRightAt;
    assert Before(x, y, x + 1, y);
    forall i: nat, j: nat | i < src.w && j < src.h
      ensures Before(i, j, x + 1, y) <==> Before(i, j, x, y) || (i == x && j == y)
    {
    }
  }

  lemma StepTells(s: Raster, src: Canvas, out: seq<byte>, x: nat, y: nat)
    requires src.Valid() && |out| == |src.px| && Fits(s, src.w, src.h) && x < src.w && y < src.h
    requires Tells(s, src, out, x, y)
    ensures Tells(Step(s, src.w, src.h, x, y), src, out, x + 1, y)
  {
    RightBeforeNext(src, out, x, y);
    if RightBefore(src, out, x, y) {
      StepStands(s, src, out, x, y);
    }
    StepKeepsPix(s, src.w, src.h, x, y);
    hide Step, Stands, RightBefore, IsRightAt;
  }

  lemma StepKeepsPix(s: Raster, w: nat, h: nat, x: nat, y: nat)
    requires Fits(s, w, h) && x < w && y < h
    ensures forall k :: 0 <= k < At(w, h, x, y) ==> Step(s, w, h, x, y).pix[k] == s.pix[k]
  {
  }

  lemma {:induction false} RowTells(s: Raster, src: Canvas, out: seq<byte>, x: nat, y: nat)
    requires src.Valid() && |out| == |src.px| && Fits(s, src.w, src.h) && x <= src.w && y < src.h
    requires Tells(s, src, out, 0, y)
    ensures Tells(Row(s, src.w, src.h, x, y), src, out, x, y)
    decreases x
  {
    hide Step, Tells;
    if x > 0 {
      RowTells(s, src, out, x - 1, y);
      StepTells(Row(s, src.w, src.h, x - 1, y), src, out, x - 1, y);
    }
  }

  /** The end of one row is the start of the next. */
  lemma NextRowTells(s: Raster, src: Canvas, out: seq<byte>, y: nat)
    requires src.Valid() && |out| == |src.px| && Fits(s, src.w, src.h) && y < src.h
    requires Tells(s, src, out, src.w, y)
    ensures Tells(s, src, out, 0, y + 1)
  {
    NextRow(src.w, src.h, y);
    forall i: nat, j: nat | i < src.w && j < src.h
      ensures Before(i, j, src.w, y) <==> Before(i, j, 0, y + 1)
    {
    }
    assert RightBefore(src, out, src.w, y) <==> RightBefore(src, out, 0, y + 1) by {
      hide IsRightAt;
    }
    forall i: nat, j: nat, c | i < src.w && j < src.h
      ensures Received(src, out, c, i, j, src.w, y) == Received(src, out, c, i, j, 0, y + 1)
    {
      NextRowReceived(src, out, c, i, j, y);
    }
    hide Received, RightBefore, Passed;
  }

  lemma NextRowReceived(src: Canvas, out: seq<byte>, c: Channel, i: nat, j: nat, y: nat)
    requires src.Valid() && |out| == |src.px| && i < src.w && j < src.h && y < src.h
    ensures Received(src, out, c, i, j, src.w, y) == Received(src, out, c, i, j, 0, y + 1)
  {
    PaidAtRowEnd(src, out, c, i - 1, j, 7.0, y);
    PaidAtRowEnd(src, out, c, i - 1, j - 1, 1.0, y);
    PaidAtRowEnd(src, out, c, i, j - 1, 5.0, y);
    PaidAtRowEnd(src, out, c, i + 1, j - 1, 3.0, y);
    hide Paid;
  }

  lemma PaidAtRowEnd(src: Canvas, out: seq<byte>, c: Channel, qx: int, qy: int, k: real, y: nat)
    requires src.Valid() && |out| == |src.px|
    ensures Paid(src, out, c, qx, qy, k, src.w, y) == Paid(src, out, c, qx, qy, k, 0, y + 1)
  {
    hide Value;
  }

  lemma {:induction false} RowsTell(src: Canvas, out: seq<byte>, y: nat)
    requires src.Valid() && |out| == |src.px| && y <= src.h
    ensures Tells(Rows(Start(src), src.w, src.h, y), src, out, 0, y)
  {
    hide *;
    RowsUnfold(src, y);
    if y == 0 {
      TellsAtStart(src, out);
    } else {
      RowsTell(src, out, y - 1);
      WholeRowTells(Rows(Start(src), src.w, src.h, y - 1), src, out, y - 1);
    }
  }

  lemma WholeRowTells(s: Raster, src: Canvas, out: seq<byte>, y: nat)
    requires src.Valid() && |out| == |src.px| && Fits(s, src.w, src.h) && y < src.h
    requires Tells(s, src, out, 0, y)
    ensures Tells(Row(s, src.w, src.h, src.w, y), src, out, 0, y + 1)
  {
    hide *;
    RowTells(s, src, out, src.w, y);
    NextRowTells(Row(s, src.w, src.h, src.w, y), src, out, y);
  }

  lemma TellsAtStart(src: Canvas, out: seq<byte>)
    requires src.Valid() && |out| == |src.px|
    ensures Tells(Start(src), src, out, 0, 0)
  {
    StandsAtStart(src, out);
    hide Stands, IsRightAt, Start;
  }

  lemma RowsUnfold(src: Canvas, y: nat)
    requires src.Valid() && y <= src.h
    ensures y == 0 ==> Rows(Start(src), src.w, src.h, y) == Start(src)
    ensures y > 0 ==>
              Rows(Start(src), src.w, src.h, y)
              == Row(Rows(Start(src), src.w, src.h, y - 1), src.w, src.h, src.w, y - 1)
  {
  }

  /**
   * The walk emits exactly the output the law describes: at every pixel the nearest ink to source plus what is owed.
   */
  lemma DitherIsExact(src: Canvas, out: seq<byte>)
    requires src.Valid()
    ensures IsDithered(src, out) <==> out == Rows(Start(src), src.w, src.h, src.h).pix
  {
    var s := Rows(Start(src), src.w, src.h, src.h);
    if |out| == |src.px| {
      RowsTell(src, out, src.h);
      assert Passed(src.w, src.h, 0, src.h) == src.w * src.h;
      AllBefore(src, out);
      hide Rows, Start, Stands, RightBefore, IsDithered;
      assert Agrees(s, out, |out|) <==> out == s.pix;
    } else {
      hide Rows, Start;
    }
  }

  lemma AllBefore(src: Canvas, out: seq<byte>)
    requires src.Valid() && |out| == |src.px|
    ensures RightBefore(src, out, 0, src.h) <==> IsDithered(src, out)
  {
    hide IsRightAt;
    forall i: nat, j: nat | i < src.w && j < src.h ensures Before(i, j, 0, src.h) {
    }
  }

  // ---- Without dithering

  /** Each pixel is the nearest ink to its own colour, and there is no other such image. */
  lemma FlatIsExact(src: Canvas, out: seq<byte>)
    requires src.Valid()
    ensures (|out| == |src.px| && forall i :: 0 <= i < |out| ==> IsNearestInk(src.px[i], out[i])) <==> out == Flat(src)
  {
    forall i | 0 <= i < |src.px| && i < |out|
      ensures IsNearestInk(src.px[i], out[i]) <==> out[i] == NearestIndex(src.px[i])
    {
      NearestIndexIsNearest(src.px[i], out[i]);
    }
    hide IsNearestInk, NearestIndex;
  }
}
