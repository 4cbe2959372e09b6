/** Packing a palette-aligned image into the 4-bit framebuffer (spectra6.go). */
module Frame {
  import opened Arith
  import opened Bytes
  import opened Ink

  /** A palette-aligned image: row y starts at y * stride. */
  datatype Paletted = Paletted(w: nat, h: nat, stride: nat, pix: seq<byte>) {
    predicate Valid() {
      w <= stride && |pix| == h * stride
    }

    /** Pack reads pixels in pairs, so it needs whole pairs in every row. */
    predicate Packable() {
      Valid() && w % 2 == 0
    }
  }

  function PixelAt(img: Paletted, x: nat, y: nat): byte
    requires img.Valid() && x < img.w && y < img.h
  {
    RowInRaster(img.stride, img.h, y);
    img.pix[y * img.stride + x]
  }

  /** The byte holding pixels 2j and 2j + 1 of row y, left pixel in the high nibble. */
  function PixelPair(img: Paletted, y: nat, j: nat): byte
    requires img.Packable() && y < img.h && j < img.w / 2
  {
    CodeFor(PixelAt(img, 2 * j, y)) * 16 + CodeFor(PixelAt(img, 2 * j + 1, y))
  }

  function PackedRow(img: Paletted, y: nat, n: nat): (r: seq<byte>)
    requires img.Packable() && y < img.h && n <= img.w / 2
    ensures |r| == n && forall j :: 0 <= j < n ==> r[j] == PixelPair(img, y, j)
  {
    seq(n, j requires 0 <= j < n => PixelPair(img, y, j))
  }

  function PackedRows(img: Paletted, rows: nat): (r: seq<byte>)
    requires img.Packable() && rows <= img.h
    ensures |r| == rows * (img.w / 2)
  {
    if rows == 0 then [] else PackedRows(img, rows - 1) + PackedRow(img, rows - 1, img.w / 2)
  }

  /** The whole packed framebuffer. */
  function Packed(img: Paletted): (r: seq<byte>)
    requires img.Packable()
    ensures |r| == img.w * img.h / 2
  {
    HalfArea(img.w, img.h);
    PackedRows(img, img.h)
  }

  lemma HalfArea(w: nat, h: nat)
    requires w % 2 == 0
    ensures w * h / 2 == h * (w / 2)
  {
    assert w * h == 2 * (h * (w / 2)) by {
      assert w == 2 * (w / 2);
    }
  }

  /** Row y of the packed framebuffer starts at y * (w / 2). */
  lemma {:induction false} PackedRowsAt(img: Paletted, rows: nat, y: nat, j: nat)
    requires img.Packable() && y < rows <= img.h && j < img.w / 2
    ensures y * (img.w / 2) + j < rows * (img.w / 2)
    ensures PackedRows(img, rows)[y * (img.w / 2) + j] == PixelPair(img, y, j)
    decreases rows
  {
    RowInRaster(img.w / 2, rows, y);
    if y < rows - 1 {
      PackedRowsAt(img, rows - 1, y, j);
    }
  }

  /** Two pixels a byte in raster order: fb has the code of pixel (x, y) in the nibble that belongs to it. */
  predicate HoldsPixel(fb: seq<byte>, img: Paletted, x: nat, y: nat)
    requires img.Packable() && x < img.w && y < img.h
  {
    RowInRaster(img.stride, img.h, y);
    var i := (y * img.w + x) / 2;
    i < |fb| && CodeFor(img.pix[y * img.stride + x]) == if x % 2 == 0 then fb[i] / 16 else fb[i] % 16
  }

  /** Every pixel of the image is found in its own nibble: even columns high, odd columns low. */
  lemma PackedPixel(img: Paletted, x: nat, y: nat)
    requires img.Packable() && x < img.w && y < img.h
    ensures HoldsPixel(Packed(img), img, x, y)
  {
    hide PackedRows, PixelAt, CodeFor;
    PairIndex(img.w / 2, x, y);
    PackedRowsAt(img, img.h, y, x / 2);
    assert x == 2 * (x / 2) + x % 2;
    PixelIsThere(img, x, y);
  }

  lemma PixelIsThere(img: Paletted, x: nat, y: nat)
    requires img.Packable() && x < img.w && y < img.h
    ensures y * img.stride + x < |img.pix| && PixelAt(img, x, y) == img.pix[y * img.stride + x]
  {
    RowInRaster(img.stride, img.h, y);
  }

  lemma PairIndex(half: nat, x: nat, y: nat)
    ensures (y * (2 * half) + x) / 2 == y * half + x / 2
  {
    assert y * (2 * half) == 2 * (y * half);
  }

  /** spectra6.go: the raster loop of Pack. */
  method Pack(img: Paletted) returns (packed: seq<byte>)
    requires img.Packable()
    ensures packed == Packed(img)
  {
    HalfArea(img.w, img.h);
    assert Packed(img) == PackedRows(img, img.h) && PackedRows(img, 0) == [];
    hide PackedRows, PackedRow, PixelPair, Packed;
    var out := new byte[img.w * img.h / 2];
    var oi := 0;
    var y := 0;
    while y < img.h
      invariant 0 <= y <= img.h && oi == |PackedRows(img, y)|
      invariant oi <= out.Length && out[..oi] == PackedRows(img, y)
    {
      RowInRaster(img.w / 2, img.h, y);
      NextPackedRow(img, y);
      oi := PackRow(img, y, out, oi);
      y := y + 1;
    }
    packed := out[..];
  }

  lemma NextPackedRow(img: Paletted, y: nat)
    requires img.Packable() && y < img.h
    ensures PackedRows(img, y + 1) == PackedRows(img, y) + PackedRow(img, y, img.w / 2)
  {
  }

  /** The inner loop of Pack: one row, two pixels a byte. */
  method PackRow(img: Paletted, y: nat, out: array<byte>, base: nat) returns (oi: nat)
    requires img.Packable() && y < img.h
    requires base + img.w / 2 <= out.Length
    modifies out
    ensures oi == base + img.w / 2
    ensures out[..oi] == old(out[..base]) + PackedRow(img, y, img.w / 2)
  {
    hide CodeFor, PixelAt;
    var row := y * img.stride;
    assert row + img.stride <= |img.pix| by {
      RowInRaster(img.stride, img.h, y);
    }
    oi := base;
    var x := 0;
    while x < img.w
      invariant 0 <= x <= img.w && x % 2 == 0 && oi == base + x / 2
      invariant out[..oi] == old(out[..base]) + PackedRow(img, y, x / 2)
    {
      PixelIsThere(img, x, y);
      PixelIsThere(img, x + 1, y);
      var hi := CodeFor(img.pix[row + x]);
      var lo := CodeFor(img.pix[row + x + 1]);
      out[oi] := hi * 16 + lo;
      assert out[oi] == PixelPair(img, y, x / 2);
      oi := oi + 1;
      x := x + 2;
    }
  }
}
