/** Floyd-Steinberg dithering onto the six inks (spectra6.go), with exact arithmetic for the error buffer. */
module Dither {
  import opened Arith
  import opened Bytes
  import opened Ink
  import opened Quantize

  // ---- Colours with error

  datatype Fc = Fc(r: real, g: real, b: real)

  function Add(a: Fc, d: Fc): Fc { Fc(a.r + d.r, a.g + d.g, a.b + d.b) }

  function Exact(c: Color): Fc { Fc(c.r as real, c.g as real, c.b as real) }

  /** k sixteenths of an error. */
  function Share(e: Fc, k: real): Fc { Fc(e.r * k / 16.0, e.g * k / 16.0, e.b * k / 16.0) }

  function Clamp(v: real): byte {
    if v < 0.0 then 0 else if v > 255.0 then 255 else v.Floor
  }

  function InkFor(v: Fc): (k: nat)
    ensures k < INKS
  {
    NearestIndex(Color(Clamp(v.r), Clamp(v.g), Clamp(v.b)))
  }

  /** What the chosen ink got wrong, from the unclamped value. */
  function Residue(v: Fc): Fc {
    var p := Exact(PaletteColor(InkFor(v)));
    Fc(v.r - p.r, v.g - p.g, v.b - p.b)
  }

  // ---- The raster walk as a function

  /** The error buffer and the ink indices chosen so far. */
  datatype Raster = Raster(buf: seq<Fc>, pix: seq<byte>)

  ghost predicate Fits(s: Raster, w: nat, h: nat) {
    |s.buf| == |s.pix| == w * h
  }

  function At(w: nat, h: nat, x: nat, y: nat): (i: nat)
    requires x < w && y < h
    ensures i == y * w + x < w * h
  {
    RowInRaster(w, h, y);
    y * w + x
  }

  predicate Inside(w: nat, h: nat, x: int, y: int) { 0 <= x < w && 0 <= y < h }

  function Spread(buf: seq<Fc>, w: nat, h: nat, x: int, y: int, share: Fc): (r: seq<Fc>)
    requires |buf| == w * h
    ensures |r| == |buf|
  {
    if Inside(w, h, x, y) then
      var i := At(w, h, x, y);
      buf[i := Add(buf[i], share)]
    else buf
  }

  /** The four shares of one pixel's error, in the order the source hands them out. */
  function SpreadAll(buf: seq<Fc>, w: nat, h: nat, x: nat, y: nat, e: Fc): (r: seq<Fc>)
    requires |buf| == w * h
    ensures |r| == |buf|
  {
    var b1 := Spread(buf, w, h, x + 1, y, Share(e, 7.0));
    var b2 := Spread(b1, w, h, x - 1, y + 1, Share(e, 3.0));
    var b3 := Spread(b2, w, h, x, y + 1, Share(e, 5.0));
    Spread(b3, w, h, x + 1, y + 1, Share(e, 1.0))
  }

  function Step(s: Raster, w: nat, h: nat, x: nat, y: nat): (r: Raster)
    requires Fits(s, w, h) && x < w && y < h
    ensures Fits(r, w, h)
  {
    var v := s.buf[At(w, h, x, y)];
    Raster(SpreadAll(s.buf, w, h, x, y, Residue(v)), s.pix[At(w, h, x, y) := InkFor(v)])
  }

  /** The state after the first x pixels of row y. */
  function Row(s: Raster, w: nat, h: nat, x: nat, y: nat): (r: Raster)
    requires Fits(s, w, h) && x <= w && y < h
    ensures Fits(r, w, h)
  {
    if x == 0 then s else Step(Row(s, w, h, x - 1, y), w, h, x - 1, y)
  }

  /** The state after the first y rows. */
  function Rows(s: Raster, w: nat, h: nat, y: nat): (r: Raster)
    requires Fits(s, w, h) && y <= h
    ensures Fits(r, w, h)
  {
    if y == 0 then s else Row(Rows(s, w, h, y - 1), w, h, w, y - 1)
  }

  function Start(src: Canvas): (s: Raster)
    requires src.Valid()
    ensures Fits(s, src.w, src.h)
  {
    Raster(seq(|src.px|, i requires 0 <= i < |src.px| => Exact(src.px[i])), Repeat(1, |src.px|))
  }

  // ---- The program

  method SpreadInto(buf: array<Fc>, w: nat, h: nat, nx: int, ny: int, share: Fc)
    requires buf.Length == w * h
    modifies buf
    ensures buf[..] == Spread(old(buf[..]), w, h, nx, ny, share)
  {
    if nx < 0 || nx >= w || ny < 0 || ny >= h {
      return;
    }
    var i := At(w, h, nx, ny);
    buf[i] := Add(buf[i], share);
  }

  method DitherPixel(buf: array<Fc>, pix: array<byte>, w: nat, h: nat, x: nat, y: nat)
    requires buf.Length == pix.Length == w * h && x < w && y < h
    modifies buf, pix
    ensures Raster(buf[..], pix[..]) == Step(old(Raster(buf[..], pix[..])), w, h, x, y)
  {
    var i := At(w, h, x, y);
    var v := buf[i];
    var c := Color(Clamp(v.r), Clamp(v.g), Clamp(v.b));
    var k := FindNearest(c, if IsAchromatic(c) then 2 else INKS);
    pix[i] := k;
    var e := Residue(v);
    SpreadInto(buf, w, h, x + 1, y, Share(e, 7.0));
    SpreadInto(buf, w, h, x - 1, y + 1, Share(e, 3.0));
    SpreadInto(buf, w, h, x, y + 1, Share(e, 5.0));
    SpreadInto(buf, w, h, x + 1, y + 1, Share(e, 1.0));
  }

  /** spectra6.go: quantize with dither true. */
  method QuantizeDithered(src: Canvas) returns (out: seq<byte>)
    requires src.Valid()
    ensures out == Rows(Start(src), src.w, src.h, src.h).pix
  {
    var w, h := src.w, src.h;
    var pix := new byte[w * h](_ => 1);
    var buf := new Fc[w * h](i requires 0 <= i < |src.px| => Exact(src.px[i]));
    ghost var start := Start(src);
    assert buf[..] == start.buf && pix[..] == start.pix;
    for y := 0 to h
      invariant Raster(buf[..], pix[..]) == Rows(start, w, h, y)
    {
      for x := 0 to w
        invariant Raster(buf[..], pix[..]) == Row(Rows(start, w, h, y), w, h, x, y)
      {
        DitherPixel(buf, pix, w, h, x, y);
      }
    }
    out := pix[..];
  }
}
