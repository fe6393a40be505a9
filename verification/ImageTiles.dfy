/** The image viewer's scaler: nearest sampling, fitting to a box, and drawing tile by tile. */
module ImageTiles {
  import opened Arithmetic
  import opened Grid
  import opened Options

  const TILE_ROWS: nat := 32
  const TILE_BYTES: nat := 0x4_0000

  type Pixel = n: int | 0 <= n < 0x1_0000_0000

  datatype Image = Image(width: nat, height: nat, pixels: seq<Pixel>)

  predicate ValidImage(image: Image) {
    image.width > 0 && image.height > 0 && |image.pixels| == image.width * image.height
  }

  /** The pixel at x * width / outW, y * height / outH, which always exists. */
  function Nearest(image: Image, x: nat, y: nat, outW: nat, outH: nat): Pixel
    requires ValidImage(image) && x < outW && y < outH
  {
    hide Scaled, Index;
    ScaledInside(x, image.width, outW);
    ScaledInside(y, image.height, outH);
    IndexInside(Scaled(x, image.width, outW), Scaled(y, image.height, outH), image.width, image.height);
    image.pixels[Index(Scaled(x, image.width, outW), Scaled(y, image.height, outH), image.width)]
  }

  /** The scaled coordinate, held inside the source for places beyond the output. */
  function Clamped(x: nat, from: nat, to: nat): (r: nat)
    requires from > 0 && to > 0
    ensures r < from
  {
    if Scaled(x, from, to) >= from then from - 1 else Scaled(x, from, to)
  }

  /** imgview_sample_nearest; for a place of the output no clamping happens. */
  method SampleNearest(image: Image, x: nat, y: nat, outW: nat, outH: nat) returns (p: Pixel)
    requires ValidImage(image)
    ensures outW == 0 || outH == 0 ==> p == 0
    ensures outW > 0 && outH > 0 ==>
      var at := Index(Clamped(x, image.width, outW), Clamped(y, image.height, outH), image.width);
      at < |image.pixels| && p == image.pixels[at]
    ensures x < outW && y < outH ==> p == Nearest(image, x, y, outW, outH)
  {
    if outW == 0 || outH == 0 {
      return 0;
    }
    var srcX := Scaled(x, image.width, outW);
    var srcY := Scaled(y, image.height, outH);
    hide Scaled, Index;
    if x < outW && y < outH {
      ScaledInside(x, image.width, outW);
      ScaledInside(y, image.height, outH);
    }
    if srcX >= image.width {
      srcX := image.width - 1;
    }
    if srcY >= image.height {
      srcY := image.height - 1;
    }
    IndexInside(srcX, srcY, image.width, image.height);
    p := image.pixels[Index(srcX, srcY, image.width)];
  }

  /** One side shrunk in the ratio b to c, but not to nothing. */
  function Shrunk(a: nat, b: nat, c: nat): (r: nat)
    requires b < c && a > 0
    ensures 1 <= r <= a
    ensures a * b < (r + 1) * c && (r == 1 || r * c <= a * b)
  {
    ShrunkAtMost(a, b, c);
    QuotientFits(a * b, c);
    if a * b / c == 0 then 1 else a * b / c
  }

  /**
   Neither side of a w by h box is a whole pixel longer than the proportion of p by q and the
   other side ask for, unless it is a single pixel.
   */
  predicate Proportional(w: nat, h: nat, p: nat, q: nat) {
    (w == 1 || w * q < (h + 1) * p) && (h == 1 || h * p < (w + 1) * q)
  }

  /**
   imgview_compute_fit: the fitted box lies inside the limits, touching one of them if it is
   not the source itself, and keeps the proportion to the pixel.
   */
  method ComputeFit(srcW: nat, srcH: nat, maxW: nat, maxH: nat) returns (fit: Option<(nat, nat)>)
    ensures fit.None? <==> srcW == 0 || srcH == 0 || maxW == 0 || maxH == 0
    ensures fit.Some? ==> 1 <= fit.value.0 <= maxW && 1 <= fit.value.1 <= maxH
    ensures fit.Some? ==> fit.value.0 <= srcW && fit.value.1 <= srcH
    ensures fit.Some? && srcW <= maxW && srcH <= maxH ==> fit.value == (srcW, srcH)
    ensures fit.Some? ==> fit.value == (srcW, srcH) || fit.value.0 == maxW || fit.value.1 == maxH
    ensures fit.Some? ==> Proportional(fit.value.0, fit.value.1, srcW, srcH)
  {
    if srcW == 0 || srcH == 0 || maxW == 0 || maxH == 0 {
      return None;
    }
    hide Shrunk, Proportional, Rounded;
    var w, h := srcW, srcH;
    SourceIsProportional(srcW, srcH);
    if w > maxW {
      WidthShrunk(srcW, srcH, maxW);
      h := Shrunk(h, maxW, w);
      w := maxW;
    }
    if h > maxH {
      HeightShrunk(srcW, srcH, w, h, maxH);
      w := Shrunk(w, maxH, h);
      h := maxH;
    }
    return Some((w, h));
  }

  /** The height of a w by h box is the proportion's, rounded down but not to nothing. */
  predicate Rounded(w: nat, h: nat, p: nat, q: nat) {
    w * q < (h + 1) * p && (h == 1 || h * p <= w * q)
  }

  lemma {:induction false} SourceIsProportional(p: nat, q: nat)
    requires p > 0 && q > 0
    ensures Proportional(p, q, p, q) && Rounded(p, q, p, q)
  {
    assert (p + 1) * q == p * q + q && (q + 1) * p == p * q + p;
  }

  lemma {:induction false} WidthShrunk(p: nat, q: nat, w: nat)
    requires 0 < w < p && q > 0
    ensures Proportional(w, Shrunk(q, w, p), p, q) && Rounded(w, Shrunk(q, w, p), p, q)
  {
    hide Shrunk;
    assert (w + 1) * q == q * w + q;
  }

  lemma HeightShrunk(p: nat, q: nat, w1: nat, h1: nat, h: nat)
    requires 0 < h < h1 && w1 > 0 && p > 0 && Rounded(w1, h1, p, q)
    ensures Proportional(Shrunk(w1, h, h1), h, p, q)
  {
    hide Shrunk;
    TwiceShrunk(p, q, w1, h1, Shrunk(w1, h, h1), h);
  }

  /**
   Shrinking a box w1 by h1 that nearly keeps the proportion of p by q, in its own proportion,
   nearly keeps it too.
   */
  lemma TwiceShrunk(p: nat, q: nat, w1: nat, h1: nat, w: nat, h: nat)
    requires 0 < w <= w1 && p > 0
    requires w1 * q < (h1 + 1) * p && h1 * p <= w1 * q
    requires w1 * h < (w + 1) * h1 && (w == 1 || w * h1 <= w1 * h)
    ensures h * p < (w + 1) * q
    ensures w == 1 || w * q < (h + 1) * p
  {
    Composed(w1, h, w + 1, h1, p, q);
    if w != 1 {
      assert w * (h1 + 1) == w * h1 + w;
      assert w1 * (h + 1) == w1 * h + w1;
      ComposedUp(w, h1 + 1, w1, h + 1, p, q);
    }
  }

  /** From a / c < d / b and d / q <= a / p follows b / q < c / p, without the quotients. */
  lemma {:induction false} Composed(a: nat, b: nat, c: nat, d: nat, p: nat, q: nat)
    requires a > 0 && p > 0 && a * b < c * d && d * p <= a * q
    ensures b * p < c * q
  {
    var x, y, z := b * p, c * q, d * p;
    assert a * x < c * z by {
      Exchange(a, b, p);
      Exchange(c, d, p);
      StrictMono(a * b, c * d, p);
    }
    assert c * z <= a * y by {
      MulMono(z, a * q, c);
      Exchange(c, a, q);
    }
    if y <= x {
      MulMono(y, x, a);
    }
  }

  lemma {:induction false} ComposedUp(a: nat, b: nat, c: nat, d: nat, p: nat, q: nat)
    requires a > 0 && c > 0 && a * b <= c * d && c * q < b * p
    ensures a * q < d * p
  {
    var x, y, z := a * q, d * p, b * p;
    assert a * z <= c * y by {
      Exchange(a, b, p);
      Exchange(c, d, p);
      MulMono(a * b, c * d, p);
    }
    assert c * x < a * z by {
      StrictMono(c * q, z, a);
      Exchange(c, a, q);
    }
    if y <= x {
      MulMono(y, x, c);
    }
  }

  lemma {:induction false} StrictMono(k: nat, l: nat, a: nat)
    requires k < l && a > 0
    ensures a * k < a * l
  {
    MulMono(k + 1, l, a);
    assert a * (k + 1) == a * k + a;
  }

  lemma {:induction false} Exchange(a: nat, b: nat, c: nat)
    ensures a * (b * c) == b * (a * c) == c * (a * b)
  {
  }

  lemma {:induction false} ShrunkAtMost(a: nat, b: nat, c: nat)
    requires b < c
    ensures a * b / c <= a
  {
    var q := a * b / c;
    assert c * q <= a * b;
    MulMono(b, c, a);
    assert c * (a + 1) == a * c + c;
    if q > a {
      MulMono(a + 1, q, c);
    }
  }

  /** imgview_choose_tile_rows. */
  method ChooseTileRows(outW: nat) returns (rows: nat)
    ensures rows == 0 <==> outW == 0 || outW > 0xFFFF_FFFF_FFFF_FFFF / 4
    ensures rows > 0 ==> rows <= TILE_ROWS && (rows == 1 || rows * (outW * 4) <= TILE_BYTES)
  {
    if outW == 0 || outW > 0xFFFF_FFFF_FFFF_FFFF / 4 {
      return 0;
    }
    var rowBytes := outW * 4;
    rows := TILE_BYTES / rowBytes;
    QuotientFits(TILE_BYTES, rowBytes);
    if rows == 0 {
      rows := 1;
    }
    if rows > TILE_ROWS {
      MulMono(TILE_ROWS, rows, rowBytes);
      rows := TILE_ROWS;
    }
  }

  lemma QuotientFits(a: nat, b: nat)
    requires b > 0
    ensures a / b * b <= a
  {
  }

  /** The tile's rows y hold the scaled rows start + y. */
  ghost predicate Filled(tile: seq<Pixel>, image: Image, outW: nat, outH: nat, start: nat, rows: nat)
    requires ValidImage(image)
  {
    && start + rows <= outH
    && forall x: nat, y: nat :: x < outW && y < rows ==>
      Index(x, y, outW) < |tile| && tile[Index(x, y, outW)] == Nearest(image, x, start + y, outW, outH)
  }

  /** imgview_scale_rows_into. */
  method ScaleRowsInto(image: Image, tile: array<Pixel>, outW: nat, outH: nat, start: nat, rows: nat)
    requires ValidImage(image) && outW * rows <= tile.Length && start + rows <= outH
    modifies tile
    ensures Filled(tile[..], image, outW, outH, start, rows)
  {
    hide Index, Nearest;
    var y := 0;
    while y < rows && start + y < outH
      invariant 0 <= y <= rows
      invariant Filled(tile[..], image, outW, outH, start, y)
    {
      ScaleRow(image, tile, outW, outH, start, y, rows);
      y := y + 1;
    }
  }

  /** One pass of the inner loop of imgview_scale_rows_into. */
  method ScaleRow(image: Image, tile: array<Pixel>, outW: nat, outH: nat, start: nat, y: nat, rows: nat)
    requires ValidImage(image) && outW * rows <= tile.Length && y < rows && start + y < outH
    requires Filled(tile[..], image, outW, outH, start, y)
    modifies tile
    ensures Filled(tile[..], image, outW, outH, start, y + 1)
  {
    hide Nearest;
    var x := 0;
    while x < outW
      invariant 0 <= x <= outW
      invariant Filled(tile[..], image, outW, outH, start, y)
      invariant forall u: nat :: u < x ==>
        Index(u, y, outW) < tile.Length && tile[Index(u, y, outW)] == Nearest(image, u, start + y, outW, outH)
    {
      IndexInside(x, y, outW, rows);
      var p := SampleNearest(image, x, start + y, outW, outH);
      ghost var before := tile[..];
      hide Index;
      forall u: nat, v: nat | u < outW && v <= y && Index(u, v, outW) == Index(x, y, outW)
        ensures u == x && v == y
      {
        IndexInjective(u, v, x, y, outW);
      }
      assert y * outW + x == Index(x, y, outW);
      tile[y * outW + x] := p;
      assert tile[..] == before[Index(x, y, outW) := p];
      x := x + 1;
    }
  }

  // ----- the screen

  class Screen {
    /** What each position shows. */
    var shows: (nat, nat) -> Pixel
    // whether no drawing call fails
    const draws: bool

    constructor (shows: (nat, nat) -> Pixel, draws: bool)
      ensures this.shows == shows && this.draws == draws
    {
      this.shows := shows;
      this.draws := draws;
    }

    /** The frame-buffer blit at scale 1, which may fail. */
    method Blit(tile: array<Pixel>, width: nat, rows: nat, dstX: nat, dstY: nat) returns (ok: bool)
      modifies this
      ensures !ok ==> shows == old(shows)
      ensures draws ==> ok
      ensures ok ==> forall u: nat, v: nat :: shows(u, v) == Over(old(shows), tile[..], width, rows, dstX, dstY, u, v)
    {
      var fault: bool := *;
      if fault && !draws {
        return false;
      }
      var before, cells := shows, tile[..];
      shows := (u: nat, v: nat) => Over(before, cells, width, rows, dstX, dstY, u, v);
      return true;
    }
  }

  function Over(before: (nat, nat) -> Pixel, cells: seq<Pixel>, width: nat, rows: nat, dstX: nat, dstY: nat,
                u: nat, v: nat): Pixel
  {
    if dstX <= u < dstX + width && dstY <= v < dstY + rows && Index(u - dstX, v - dstY, width) < |cells|
    then cells[Index(u - dstX, v - dstY, width)]
    else before(u, v)
  }

  /** The screen with the first `rows` rows of the whole scaled image drawn at the place. */
  function Drawn(before: (nat, nat) -> Pixel, image: Image, outW: nat, outH: nat, rows: nat, dstX: nat, dstY: nat,
                 u: nat, v: nat): Pixel
    requires ValidImage(image) && rows <= outH
  {
    if dstX <= u < dstX + outW && dstY <= v < dstY + rows then Nearest(image, u - dstX, v - dstY, outW, outH)
    else before(u, v)
  }

  /**
   imgview_blit_image_tiled: drawing by tiles of any height draws the image as scaled at once.
   If a drawing call fails, the first `done` rows are there; nothing else ever changes.
   */
  method BlitImageTiled(screen: Screen, image: Image, tile: array<Pixel>, tileRows: nat, outW: nat, outH: nat,
                        dstX: nat, dstY: nat)
    returns (ok: bool, ghost done: nat)
    requires ValidImage(image) && outW * tileRows <= tile.Length
    modifies screen, tile
    ensures tileRows == 0 || outW == 0 || outH == 0 || outW > 0xFFFF_FFFF_FFFF_FFFF / 4 ==> !ok && done == 0
    ensures screen.draws ==>
      (ok <==> tileRows > 0 && outW > 0 && outH > 0 && outW <= 0xFFFF_FFFF_FFFF_FFFF / 4)
    ensures done <= outH && (ok ==> done == outH)
    ensures forall u: nat, v: nat ::
      screen.shows(u, v) == Drawn(old(screen.shows), image, outW, outH, done, dstX, dstY, u, v)
    ensures forall u: nat, v: nat :: !(dstX <= u < dstX + outW && dstY <= v < dstY + outH) ==>
      screen.shows(u, v) == old(screen.shows)(u, v)
  {
    done := 0;
    if tileRows == 0 || outW == 0 || outH == 0 || outW > 0xFFFF_FFFF_FFFF_FFFF / 4 {
      return false, done;
    }
    hide Index, Nearest;
    var start: nat := 0;
    while start < outH
      invariant start == done <= outH
      invariant forall u: nat, v: nat ::
        screen.shows(u, v) == Drawn(old(screen.shows), image, outW, outH, start, dstX, dstY, u, v)
      decreases outH - start
    {
      var rows := outH - start;
      if rows > tileRows {
        rows := tileRows;
      }
      MulMono(rows, tileRows, outW);
      ScaleRowsInto(image, tile, outW, outH, start, rows);
      ghost var before := screen.shows;
      var drawn := screen.Blit(tile, outW, rows, dstX, dstY + start);
      if !drawn {
        return false, done;
      }
      forall u: nat, v: nat
        ensures screen.shows(u, v) == Drawn(old(screen.shows), image, outW, outH, start + rows, dstX, dstY, u, v)
      {
        TileDrawn(old(screen.shows), before, tile[..], image, outW, outH, start, rows, dstX, dstY, u, v);
      }
      start := start + rows;
      done := start;
    }
    return true, done;
  }

  lemma {:induction false} TileDrawn(first: (nat, nat) -> Pixel, before: (nat, nat) -> Pixel, cells: seq<Pixel>,
                                     image: Image, outW: nat, outH: nat, start: nat, rows: nat,
                                     dstX: nat, dstY: nat, u: nat, v: nat)
    requires ValidImage(image) && start + rows <= outH && Filled(cells, image, outW, outH, start, rows)
    requires before(u, v) == Drawn(first, image, outW, outH, start, dstX, dstY, u, v)
    ensures Over(before, cells, outW, rows, dstX, dstY + start, u, v)
      == Drawn(first, image, outW, outH, start + rows, dstX, dstY, u, v)
  {
    hide Index, Nearest;
    if dstX <= u < dstX + outW && dstY + start <= v < dstY + start + rows {
      var x: nat, y: nat := u - dstX, v - dstY - start;
      assert cells[Index(x, y, outW)] == Nearest(image, x, start + y, outW, outH);
    }
  }
}
