/** Dithering conserves colour up to what falls off the edges, and leaves ink-only images alone. */
module DitherTheorems {
  import opened Arith
  import opened Bytes
  import opened Ink
  import opened Quantize
  import opened Dither

  datatype Channel = Red | Green | Blue

  function Part(c: Channel, v: Fc): real {
    match c
    case Red => v.r
    case Green => v.g
    case Blue => v.b
  }

  // ---- Sums over the raster

  /** The channel summed over the cells from k on. */
  function SumFrom(buf: seq<Fc>, c: Channel, k: nat): real
    requires k <= |buf|
    decreases |buf| - k
  {
    if k == |buf| then 0.0 else Part(c, buf[k]) + SumFrom(buf, c, k + 1)
  }

  /** The channel summed over the inks of the first k pixels. */
  function SumInks(pix: seq<byte>, c: Channel, k: nat): real
    requires k <= |pix|
  {
    if k == 0 then 0.0
    else SumInks(pix, c, k - 1) + Part(c, Exact(PaletteColor(if pix[k - 1] < INKS then pix[k - 1] else 1)))
  }

  lemma {:induction false} SumFromUpdate(buf: seq<Fc>, c: Channel, k: nat, i: nat, share: Fc)
    requires k <= i < |buf|
    ensures SumFrom(buf[i := Add(buf[i], share)], c, k) == SumFrom(buf, c, k) + Part(c, share)
    decreases |buf| - k
  {
    if k < i {
      SumFromUpdate(buf, c, k + 1, i, share);
    } else {
      SumFromSame(buf, buf[i := Add(buf[i], share)], c, k + 1);
    }
  }

  lemma {:induction false} SumFromSame(a: seq<Fc>, b: seq<Fc>, c: Channel, k: nat)
    requires k <= |a| == |b| && forall j :: k <= j < |a| ==> a[j] == b[j]
    ensures SumFrom(a, c, k) == SumFrom(b, c, k)
    decreases |a| - k
  {
    if k < |a| {
      SumFromSame(a, b, c, k + 1);
    }
  }

  lemma {:induction false} SumInksSame(a: seq<byte>, b: seq<byte>, c: Channel, k: nat)
    requires k <= |a| && k <= |b| && a[..k] == b[..k]
    ensures SumInks(a, c, k) == SumInks(b, c, k)
  {
    if k > 0 {
      assert a[k - 1] == a[..k][k - 1] == b[..k][k - 1] == b[k - 1];
      assert a[..k - 1] == a[..k][..k - 1] == b[..k][..k - 1] == b[..k - 1];
      SumInksSame(a, b, c, k - 1);
    }
  }

  // ---- One pixel

  /** The part of a share that has no pixel to go to. */
  function Off(c: Channel, w: nat, h: nat, x: int, y: int, share: Fc): real {
    if Inside(w, h, x, y) then 0.0 else Part(c, share)
  }

  /** All of one pixel's error that falls outside the image. */
  function OffAll(c: Channel, w: nat, h: nat, x: nat, y: nat, e: Fc): real {
    Off(c, w, h, x + 1, y, Share(e, 7.0)) + Off(c, w, h, x - 1, y + 1, Share(e, 3.0))
    + Off(c, w, h, x, y + 1, Share(e, 5.0)) + Off(c, w, h, x + 1, y + 1, Share(e, 1.0))
  }

  /** Only the left, right and bottom edges lose colour. */
  lemma InteriorLosesNothing(c: Channel, w: nat, h: nat, x: nat, y: nat, e: Fc)
    requires 0 < x < w - 1 && y < h - 1
    ensures OffAll(c, w, h, x, y, e) == 0.0
  {
  }

  /** A share lands on an unprocessed pixel and raises the sum of those, or it is off the image. */
  lemma SpreadConserves(buf: seq<Fc>, w: nat, h: nat, x: nat, y: nat, nx: int, ny: int, share: Fc, c: Channel)
    requires |buf| == w * h && x < w && y < h
    requires (ny == y && nx == x + 1) || (ny == y + 1 && x - 1 <= nx <= x + 1)
    ensures var i, r := At(w, h, x, y), Spread(buf, w, h, nx, ny, share);
            && r[..i + 1] == buf[..i + 1]
            && SumFrom(r, c, i + 1) + Off(c, w, h, nx, ny, share) == SumFrom(buf, c, i + 1) + Part(c, share)
  {
    if Inside(w, h, nx, ny) {
      LaterInRaster(w, h, x, y, nx, ny);
      SumFromUpdate(buf, c, At(w, h, x, y) + 1, At(w, h, nx, ny), share);
    }
  }

  lemma LaterInRaster(w: nat, h: nat, x: nat, y: nat, nx: nat, ny: nat)
    requires x < w && y < h && nx < w && ny < h
    requires (ny == y && nx == x + 1) || ny == y + 1
    ensures At(w, h, nx, ny) > At(w, h, x, y)
  {
    if ny == y + 1 {
      RowInRaster(w, h, y);
    }
  }

  /** The four shares add up to the whole error. */
  lemma SpreadAllConserves(buf: seq<Fc>, w: nat, h: nat, x: nat, y: nat, e: Fc, c: Channel)
    requires |buf| == w * h && x < w && y < h
    ensures var i, r := At(w, h, x, y), SpreadAll(buf, w, h, x, y, e);
            && r[..i + 1] == buf[..i + 1]
            && SumFrom(r, c, i + 1) + OffAll(c, w, h, x, y, e) == SumFrom(buf, c, i + 1) + Part(c, e)
  {
    hide Spread, Off, SumFrom;
    var b1 := Spread(buf, w, h, x + 1, y, Share(e, 7.0));
    var b2 := Spread(b1, w, h, x - 1, y + 1, Share(e, 3.0));
    var b3 := Spread(b2, w, h, x, y + 1, Share(e, 5.0));
    SpreadConserves(buf, w, h, x, y, x + 1, y, Share(e, 7.0), c);
    SpreadConserves(b1, w, h, x, y, x - 1, y + 1, Share(e, 3.0), c);
    SpreadConserves(b2, w, h, x, y, x, y + 1, Share(e, 5.0), c);
    SpreadConserves(b3, w, h, x, y, x + 1, y + 1, Share(e, 1.0), c);
  }

  // ---- Every raster position

  /** How many pixels come before position (x, y); x may be w at the end of a row, y may be h at the end. */
  function Passed(w: nat, h: nat, x: nat, y: nat): (n: nat)
    requires (x <= w && y < h) || (x == 0 && y == h)
    ensures n == y * w + x <= w * h
    ensures x < w && y < h ==> n == At(w, h, x, y)
  {
    if y < h then
      RowInRaster(w, h, y);
      y * w + x
    else
      assert y * w == w * h;
      w * h
  }

  lemma NextRow(w: nat, h: nat, y: nat)
    requires y < h
    ensures Passed(w, h, w, y) == Passed(w, h, 0, y + 1)
  {
    RowInRaster(w, h, y);
  }

  /** What is still to be accounted for once the first k pixels have their ink. */
  function Total(s: Raster, c: Channel, k: nat): real
    requires k <= |s.buf| && k <= |s.pix|
  {
    SumInks(s.pix, c, k) + SumFrom(s.buf, c, k)
  }

  lemma StepConserves(s: Raster, w: nat, h: nat, x: nat, y: nat, c: Channel)
    requires Fits(s, w, h) && x < w && y < h
    ensures var i := At(w, h, x, y);
            Total(Step(s, w, h, x, y), c, i + 1) + OffAll(c, w, h, x, y, Residue(s.buf[i])) == Total(s, c, i)
  {
    hide SpreadAll, OffAll, InkFor;
    var i, r := At(w, h, x, y), Step(s, w, h, x, y);
    var v := s.buf[i];
    SpreadAllConserves(s.buf, w, h, x, y, Residue(v), c);
    SumInksSame(s.pix, r.pix, c, i);
    assert r.pix[i] == InkFor(v);
    assert Part(c, v) == Part(c, Exact(PaletteColor(InkFor(v)))) + Part(c, Residue(v));
  }

  /** The error lost over the edges by the first x pixels of row y. */
  function LostInRow(s: Raster, w: nat, h: nat, x: nat, y: nat, c: Channel): real
    requires Fits(s, w, h) && x <= w && y < h
  {
    if x == 0 then 0.0
    else
      var before := Row(s, w, h, x - 1, y);
      LostInRow(s, w, h, x - 1, y, c)
      + OffAll(c, w, h, x - 1, y, Residue(before.buf[At(w, h, x - 1, y)]))
  }

  /** The error lost over the edges by the first y rows. */
  function Lost(s: Raster, w: nat, h: nat, y: nat, c: Channel): real
    requires Fits(s, w, h) && y <= h
  {
    if y == 0 then 0.0
    else Lost(s, w, h, y - 1, c) + LostInRow(Rows(s, w, h, y - 1), w, h, w, y - 1, c)
  }

  lemma RowEmpty(s: Raster, w: nat, h: nat, y: nat, c: Channel)
    requires Fits(s, w, h) && y < h
    ensures Row(s, w, h, 0, y) == s && LostInRow(s, w, h, 0, y, c) == 0.0
  {
  }

  /** One more pixel of a row: the walk steps and the loss grows by that pixel's. */
  lemma RowUnfold(s: Raster, w: nat, h: nat, x: nat, y: nat, c: Channel)
    requires Fits(s, w, h) && 0 < x <= w && y < h
    ensures var before := Row(s, w, h, x - 1, y);
            && Row(s, w, h, x, y) == Step(before, w, h, x - 1, y)
            && LostInRow(s, w, h, x, y, c) == LostInRow(s, w, h, x - 1, y, c)
                                              + OffAll(c, w, h, x - 1, y, Residue(before.buf[At(w, h, x - 1, y)]))
  {
  }

  lemma {:induction false} RowConserves(s: Raster, w: nat, h: nat, x: nat, y: nat, c: Channel)
    requires Fits(s, w, h) && x <= w && y < h
    ensures Total(Row(s, w, h, x, y), c, Passed(w, h, x, y)) + LostInRow(s, w, h, x, y, c)
         == Total(s, c, Passed(w, h, 0, y))
    decreases x
  {
    hide *;
    if x == 0 {
      RowEmpty(s, w, h, y, c);
    } else {
      RowUnfold(s, w, h, x, y, c);
      RowConserves(s, w, h, x - 1, y, c);
      StepConserves(Row(s, w, h, x - 1, y), w, h, x - 1, y, c);
    }
  }

  /** After any number of whole rows nothing has been created or destroyed but at the edges. */
  lemma {:induction false} RowsConserve(s: Raster, w: nat, h: nat, y: nat, c: Channel)
    requires Fits(s, w, h) && y <= h
    ensures Total(Rows(s, w, h, y), c, Passed(w, h, 0, y)) + Lost(s, w, h, y, c) == Total(s, c, 0)
  {
    hide Row, Total, LostInRow, Passed;
    if y > 0 {
      NextRow(w, h, y - 1);
      RowsConserve(s, w, h, y - 1, c);
      RowConserves(Rows(s, w, h, y - 1), w, h, w, y - 1, c);
    }
  }

  /** The raster position (x, y): after y rows and x more pixels. */
  function Reached(src: Canvas, x: nat, y: nat): (s: Raster)
    requires src.Valid() && x <= src.w && y < src.h
    ensures Fits(s, src.w, src.h)
  {
    Row(Rows(Start(src), src.w, src.h, y), src.w, src.h, x, y)
  }

  function SumSource(src: Canvas, c: Channel): real
    requires src.Valid()
  {
    SumFrom(Start(src).buf, c, 0)
  }

  /** The invariant of the dithering loops, at every raster position. */
  lemma ConservedAtEveryPixel(src: Canvas, x: nat, y: nat, c: Channel)
    requires src.Valid() && x <= src.w && y < src.h
    ensures Total(Reached(src, x, y), c, Passed(src.w, src.h, x, y))
            + Lost(Start(src), src.w, src.h, y, c)
            + LostInRow(Rows(Start(src), src.w, src.h, y), src.w, src.h, x, y, c)
            == SumSource(src, c)
  {
    hide Rows, Row, Lost, LostInRow, Start, Passed;
    RowsConserve(Start(src), src.w, src.h, y, c);
    RowConserves(Rows(Start(src), src.w, src.h, y), src.w, src.h, x, y, c);
  }

  /** Source colour = emitted ink colour + exactly the error that fell off the image. */
  lemma Conservation(src: Canvas, c: Channel)
    requires src.Valid()
    ensures var out := Rows(Start(src), src.w, src.h, src.h).pix;
            SumSource(src, c) == SumInks(out, c, |out|) + Lost(Start(src), src.w, src.h, src.h, c)
  {
    hide Rows, Lost, Start;
    RowsConserve(Start(src), src.w, src.h, src.h, c);
    assert Passed(src.w, src.h, 0, src.h) == src.w * src.h;
  }

  // ---- Ink-only images

  /** Every pixel of src is exactly the ink that inks names. */
  ghost predicate InkOnly(src: Canvas, inks: seq<byte>) {
    src.Valid() && |inks| == |src.px|
    && forall i :: 0 <= i < |inks| ==> inks[i] < INKS && src.px[i] == PaletteColor(inks[i])
  }

  lemma ExactInk(k: nat)
    requires k < INKS
    ensures InkFor(Exact(PaletteColor(k))) == k && Residue(Exact(PaletteColor(k))) == Fc(0.0, 0.0, 0.0)
  {
    hide NearestIndex, PaletteColor, Clamp;
    var p := PaletteColor(k);
    ClampIsExact(p.r);
    ClampIsExact(p.g);
    ClampIsExact(p.b);
    InkIsNearestToItself(k);
  }

  lemma ClampIsExact(b: byte)
    ensures Clamp(b as real) == b
  {
  }

  lemma ZeroSpread(buf: seq<Fc>, w: nat, h: nat, x: int, y: int)
    requires |buf| == w * h
    ensures Spread(buf, w, h, x, y, Fc(0.0, 0.0, 0.0)) == buf
  {
    if Inside(w, h, x, y) {
      var i := At(w, h, x, y);
      assert Add(buf[i], Fc(0.0, 0.0, 0.0)) == buf[i];
    }
  }

  lemma NothingToSpread(buf: seq<Fc>, w: nat, h: nat, x: nat, y: nat)
    requires |buf| == w * h
    ensures SpreadAll(buf, w, h, x, y, Fc(0.0, 0.0, 0.0)) == buf
  {
    hide Spread;
    ZeroSpread(buf, w, h, x + 1, y);
    ZeroSpread(buf, w, h, x - 1, y + 1);
    ZeroSpread(buf, w, h, x, y + 1);
    ZeroSpread(buf, w, h, x + 1, y + 1);
  }

  /** The buffer never changes and the first pixels hold the named inks. */
  ghost predicate Untouched(s: Raster, src: Canvas, inks: seq<byte>, k: nat)
    requires src.Valid() && |inks| == |src.px|
  {
    s.buf == Start(src).buf && k <= |s.pix| == |inks| && forall i :: 0 <= i < k ==> s.pix[i] == inks[i]
  }

  lemma StepUntouched(s: Raster, src: Canvas, inks: seq<byte>, x: nat, y: nat)
    requires InkOnly(src, inks) && Fits(s, src.w, src.h) && x < src.w && y < src.h
    requires Untouched(s, src, inks, At(src.w, src.h, x, y))
    ensures Untouched(Step(s, src.w, src.h, x, y), src, inks, At(src.w, src.h, x, y) + 1)
  {
    hide SpreadAll, InkFor, Residue;
    var i := At(src.w, src.h, x, y);
    assert s.buf[i] == Exact(PaletteColor(inks[i]));
    ExactInk(inks[i]);
    NothingToSpread(s.buf, src.w, src.h, x, y);
  }

  lemma {:induction false} RowUntouched(s: Raster, src: Canvas, inks: seq<byte>, x: nat, y: nat)
    requires InkOnly(src, inks) && Fits(s, src.w, src.h) && x <= src.w && y < src.h
    requires Untouched(s, src, inks, Passed(src.w, src.h, 0, y))
    ensures Untouched(Row(s, src.w, src.h, x, y), src, inks, Passed(src.w, src.h, x, y))
  {
    hide Step, Untouched, Passed;
    if x > 0 {
      RowUntouched(s, src, inks, x - 1, y);
      StepUntouched(Row(s, src.w, src.h, x - 1, y), src, inks, x - 1, y);
    }
  }

  lemma {:induction false} RowsUntouched(src: Canvas, inks: seq<byte>, y: nat)
    requires InkOnly(src, inks) && y <= src.h
    ensures Untouched(Rows(Start(src), src.w, src.h, y), src, inks, Passed(src.w, src.h, 0, y))
  {
    hide Row, Passed;
    if y > 0 {
      NextRow(src.w, src.h, y - 1);
      RowsUntouched(src, inks, y - 1);
      RowUntouched(Rows(Start(src), src.w, src.h, y - 1), src, inks, src.w, y - 1);
    }
  }

  /** With or without dithering, an image drawn in exact inks comes out as those very inks. */
  lemma IdentityOnInks(src: Canvas, inks: seq<byte>)
    requires InkOnly(src, inks)
    ensures Rows(Start(src), src.w, src.h, src.h).pix == inks
    ensures Flat(src) == inks
  {
    hide Rows;
    RowsUntouched(src, inks, src.h);
    assert Passed(src.w, src.h, 0, src.h) == src.w * src.h;
    forall i | 0 <= i < |inks| ensures NearestIndex(src.px[i]) == inks[i] {
      InkIsNearestToItself(inks[i]);
    }
  }
}
