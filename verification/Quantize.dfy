/** Mapping a full-colour canvas onto the six inks, with and without Floyd-Steinberg dithering (spectra6.go). */
module Quantize {
  import opened Arith
  import opened Bytes
  import opened Ink

  // ---- Nearest ink

  const ACHROMATIC_TOLERANCE: int := 12

  predicate IsAchromatic(c: Color) {
    Max(Max(c.r, c.g), c.b) - Min(Min(c.r, c.g), c.b) <= ACHROMATIC_TOLERANCE
  }

  function Square(d: int): (q: int)
    ensures q >= 0 && (-255 <= d <= 255 ==> q <= 65025)
  {
    if -255 <= d <= 255 then
      assert d * d <= 65025 by { SquareBound(d); }
      d * d
    else d * d
  }

  lemma SquareBound(d: int)
    requires -255 <= d <= 255
    ensures 0 <= d * d <= 65025
  {
    if d >= 0 {
      MulMono(d, 255, d);
    } else {
      MulMono(-d, 255, -d);
      assert d * d == (-d) * (-d);
    }
  }

  /** The luma-weighted squared distance. */
  function Distance(c: Color, p: Color): (d: int)
    ensures 0 <= d < 0x8000_0000
  {
    2 * Square(c.r - p.r) + 4 * Square(c.g - p.g) + 3 * Square(c.b - p.b)
  }

  /** The first of the nearest inks among the first n. */
  function NearestAmong(c: Color, n: nat): (best: nat)
    requires 1 <= n <= INKS
    ensures best < n
  {
    if n == 1 then 0
    else
      var best := NearestAmong(c, n - 1);
      if Distance(c, PaletteColor(n - 1)) < Distance(c, PaletteColor(best)) then n - 1 else best
  }

  lemma {:induction false} NearestIsNearest(c: Color, n: nat, i: nat)
    requires i < n <= INKS
    ensures var best := NearestAmong(c, n);
            && Distance(c, PaletteColor(best)) <= Distance(c, PaletteColor(i))
            && (i < best ==> Distance(c, PaletteColor(best)) < Distance(c, PaletteColor(i)))
  {
    hide Distance, PaletteColor;
    if n > 1 {
      NearestIsNearest(c, n - 1, if i < n - 1 then i else 0);
    }
  }

  /** Greys may only become black or white. */
  function NearestIndex(c: Color): (best: nat)
    ensures best < INKS && (IsAchromatic(c) ==> best < 2)
  {
    NearestAmong(c, if IsAchromatic(c) then 2 else INKS)
  }

  // ---- What nearest means

  /** How far two colours are apart: squared, red counting twice, green four times and blue three times. */
  ghost function Apart(a: Color, b: Color): int {
    2 * (a.r - b.r) * (a.r - b.r) + 4 * (a.g - b.g) * (a.g - b.g) + 3 * (a.b - b.b) * (a.b - b.b)
  }

  /** No two channels differ by more than 12. */
  ghost predicate IsGrey(c: Color) {
    -12 <= c.r - c.g <= 12 && -12 <= c.g - c.b <= 12 && -12 <= c.b - c.r <= 12
  }

  /** k is the first of the inks nearest to c, black and white only if c is grey. */
  ghost predicate IsNearestInk(c: Color, k: nat) {
    var n := if IsGrey(c) then 2 else INKS;
    && k < n
    && forall i :: 0 <= i < n ==>
         Apart(c, PaletteColor(k)) <= Apart(c, PaletteColor(i)) - if i < k then 1 else 0
  }

  /** The search finds the nearest ink and there is no other. */
  lemma NearestIndexIsNearest(c: Color, k: nat)
    ensures IsNearestInk(c, k) <==> k == NearestIndex(c)
  {
    hide Distance, Apart, PaletteColor, IsAchromatic, IsGrey, NearestAmong, NearestIndex;
    GreyIsAchromatic(c);
    NearestIndexUnfold(c);
    var n := if IsAchromatic(c) then 2 else INKS;
    var best := NearestAmong(c, n);
    forall i: nat | i < INKS ensures Apart(c, PaletteColor(i)) == Distance(c, PaletteColor(i)) {
      ApartIsDistance(c, PaletteColor(i));
    }
    forall i | 0 <= i < n
      ensures Distance(c, PaletteColor(best)) <= Distance(c, PaletteColor(i)) - if i < best then 1 else 0
    {
      NearestIsNearest(c, n, i);
    }
  }

  lemma GreyIsAchromatic(c: Color)
    ensures IsGrey(c) <==> IsAchromatic(c)
  {
  }

  lemma NearestIndexUnfold(c: Color)
    ensures NearestIndex(c) == NearestAmong(c, if IsAchromatic(c) then 2 else INKS)
  {
  }

  lemma ApartIsDistance(a: Color, b: Color)
    ensures Apart(a, b) == Distance(a, b)
  {
    assert 2 * (a.r - b.r) * (a.r - b.r) == 2 * ((a.r - b.r) * (a.r - b.r));
    assert 4 * (a.g - b.g) * (a.g - b.g) == 4 * ((a.g - b.g) * (a.g - b.g));
    assert 3 * (a.b - b.b) * (a.b - b.b) == 3 * ((a.b - b.b) * (a.b - b.b));
  }

  /** spectra6.go: the search loop of nearestAmong. */
  method FindNearest(c: Color, candidates: nat) returns (best: nat)
    requires 1 <= candidates <= INKS
    ensures best == NearestAmong(c, candidates)
  {
    hide Distance, PaletteColor;
    var bestD := 0x8000_0000;
    best := 0;
    for i := 0 to candidates
      invariant i == 0 ==> bestD == 0x8000_0000
      invariant i > 0 ==> best == NearestAmong(c, i) && bestD == Distance(c, PaletteColor(best))
    {
      var d := Distance(c, PaletteColor(i));
      if d < bestD {
        bestD, best := d, i;
      }
    }
  }

  /** Each ink is its own nearest ink, although black and white compete among greys only. */
  lemma InkIsNearestToItself(k: nat)
    requires k < INKS
    ensures NearestIndex(PaletteColor(k)) == k
  {
    var c := PaletteColor(k);
    OnlyBlackAndWhiteAreGrey(k);
    var n := if IsAchromatic(c) then 2 else INKS;
    var best := NearestAmong(c, n);
    assert NearestIndex(c) == best;
    hide *;
    InksDiffer(k, k);
    NearestIsNearest(c, n, k);
    if best <= k {
      InksDiffer(k, best);
    }
  }

  lemma OnlyBlackAndWhiteAreGrey(k: nat)
    requires k < INKS
    ensures IsAchromatic(PaletteColor(k)) <==> k < 2
  {
  }

  /** The green channel alone tells the inks apart. */
  lemma InksDiffer(k: nat, i: nat)
    requires i <= k < INKS
    ensures Distance(PaletteColor(k), PaletteColor(i)) > 0 <==> i < k
  {
    var c, p := PaletteColor(k), PaletteColor(i);
    assert c.g != p.g <==> i < k;
    SquareIsZero(c.r - p.r);
    SquareIsZero(c.g - p.g);
    SquareIsZero(c.b - p.b);
  }

  lemma SquareIsZero(d: int)
    ensures Square(d) == 0 <==> d == 0
  {
  }

  /** Each ink's colour reaches the controller as that ink's code. */
  lemma EachInkIsSent(c: Color)
    ensures c == Color(0, 0, 0) ==> CodeFor(NearestIndex(c)) == CODE_BLACK
    ensures c == Color(255, 255, 255) ==> CodeFor(NearestIndex(c)) == CODE_WHITE
    ensures c == Color(224, 200, 16) ==> CodeFor(NearestIndex(c)) == CODE_YELLOW
    ensures c == Color(192, 32, 32) ==> CodeFor(NearestIndex(c)) == CODE_RED
    ensures c == Color(32, 48, 160) ==> CodeFor(NearestIndex(c)) == CODE_BLUE
    ensures c == Color(32, 128, 64) ==> CodeFor(NearestIndex(c)) == CODE_GREEN
  {
    hide NearestIndex;
    InkTable();
    InkIsSent(0, CODE_BLACK);
    InkIsSent(1, CODE_WHITE);
    InkIsSent(2, CODE_YELLOW);
    InkIsSent(3, CODE_RED);
    InkIsSent(4, CODE_BLUE);
    InkIsSent(5, CODE_GREEN);
  }

  lemma InkIsSent(k: nat, code: byte)
    requires k < INKS && CodeFor(k) == code
    ensures CodeFor(NearestIndex(PaletteColor(k))) == code
  {
    InkIsNearestToItself(k);
    hide *;
  }

  lemma InkTable()
    ensures PaletteColor(0) == Color(0, 0, 0) && CodeFor(0) == CODE_BLACK
    ensures PaletteColor(1) == Color(255, 255, 255) && CodeFor(1) == CODE_WHITE
    ensures PaletteColor(2) == Color(224, 200, 16) && CodeFor(2) == CODE_YELLOW
    ensures PaletteColor(3) == Color(192, 32, 32) && CodeFor(3) == CODE_RED
    ensures PaletteColor(4) == Color(32, 48, 160) && CodeFor(4) == CODE_BLUE
    ensures PaletteColor(5) == Color(32, 128, 64) && CodeFor(5) == CODE_GREEN
  {
  }

  // ---- Images

  /** Row-major 8-bit pixels, as read through At(x, y).RGBA() >> 8. */
  datatype Canvas = Canvas(w: nat, h: nat, px: seq<Color>) {
    ghost predicate Valid() { |px| == w * h }
  }

  /** Quantization without dithering: each pixel becomes its nearest ink. */
  ghost function Flat(src: Canvas): (r: seq<byte>)
    requires src.Valid()
    ensures |r| == |src.px|
  {
    seq(|src.px|, i requires 0 <= i < |src.px| => NearestIndex(src.px[i]) as byte)
  }

  /** spectra6.go: quantize with dither false. */
  method QuantizeFlat(src: Canvas) returns (pix: seq<byte>)
    requires src.Valid()
    ensures pix == Flat(src)
  {
    hide Flat;
    var out := new byte[src.w * src.h](_ => 1);
    var y := 0;
    while y < src.h
      invariant 0 <= y <= src.h && y * src.w <= out.Length
      invariant out[..y * src.w] == Flat(src)[..y * src.w]
    {
      RowInRaster(src.w, src.h, y);
      FlatRow(src, y * src.w, out);
      y := y + 1;
    }
    pix := out[..];
  }

  method FlatRow(src: Canvas, base: nat, out: array<byte>)
    requires src.Valid() && out.Length == |src.px| && base + src.w <= out.Length
    requires out[..base] == Flat(src)[..base]
    modifies out
    ensures out[..base + src.w] == Flat(src)[..base + src.w]
  {
    hide NearestAmong, IsAchromatic;
    for x := 0 to src.w
      invariant out[..base + x] == Flat(src)[..base + x]
    {
      var c := src.px[base + x];
      var best := FindNearest(c, if IsAchromatic(c) then 2 else INKS);
      out[base + x] := best;
    }
  }
}
