/** Placing the watermark: `addWatermark` for one offset (Main.kt:20-51) and the grid tiling
    that applies it tile by tile (Main.kt:100-108). Images are two-dimensional arrays indexed
    `[x, y]`, with `Length0` the width and `Length1` the height. */
module Compositor {
  import opened Errors
  import opened Pixels

  /** The top-left corner of the watermark on the base image. */
  datatype Position = Position(x: int, y: int)

  /** Whether base coordinate (x, y) lies under a `ww` by `wh` watermark placed at `pos`
      (Main.kt:35-36). */
  predicate InFootprint(x: int, y: int, pos: Position, ww: int, wh: int) {
    pos.x <= x < pos.x + ww && pos.y <= y < pos.y + wh
  }

  /** The watermark pixel seen at base coordinate (x, y), as read in `mode`, or None outside
      the footprint (Main.kt:34-37). It comes from watermark coordinate (x - pos.x, y - pos.y),
      which the footprint test keeps inside the watermark. */
  function WatermarkAt(wm: array2<Argb>, mode: Mode, pos: Position, x: int, y: int): (w: Option<Argb>)
    reads wm
  {
    if InFootprint(x, y, pos, wm.Length0, wm.Length1) then
      Some(ReadWatermark(wm[x - pos.x, y - pos.y], mode))
    else None
  }

  /** The output pixel at (x, y) of one `addWatermark` call, for base colour `i` there. */
  function Composite(i: Rgb, wm: array2<Argb>, mode: Mode, p: Percent, pos: Position, x: int, y: int): Result<Rgb>
    reads wm
  {
    Blend(i, WatermarkAt(wm, mode, pos, x, y), mode, p)
  }

  /** Outside the footprint the base colour is kept; a pixel is refused exactly when it lies
      inside the footprint, the mode is alpha mode, and the watermark pixel under it is
      partially transparent. */
  lemma {:induction false} CompositeCases(i: Rgb, wm: array2<Argb>, mode: Mode, p: Percent, pos: Position, x: int, y: int)
    ensures !InFootprint(x, y, pos, wm.Length0, wm.Length1) ==> Composite(i, wm, mode, p, pos, x, y) == Ok(i)
    ensures Composite(i, wm, mode, p, pos, x, y).Err?
        <==> InFootprint(x, y, pos, wm.Length0, wm.Length1) && mode.AlphaChannel?
             && PartiallyTransparent(wm[x - pos.x, y - pos.y])
  {
  }

  /** `base.addWatermark(...)`: a fresh output image of the base's size, filled column by
      column with the blended pixels; a refused watermark pixel aborts the call with no image.
      Neither the base nor the watermark is changed. */
  method AddWatermark(base: array2<Rgb>, wm: array2<Argb>, mode: Mode, p: Percent, pos: Position)
    returns (r: Result<array2<Rgb>>)
    ensures r.Ok? ==> fresh(r.value) && r.value.Length0 == base.Length0 && r.value.Length1 == base.Length1
    ensures r.Ok? ==> forall x, y :: 0 <= x < base.Length0 && 0 <= y < base.Length1 ==>
      Composite(base[x, y], wm, mode, p, pos, x, y) == Ok(r.value[x, y])
    ensures r.Err? ==> r.error == InvalidWatermarkImage
    ensures r.Err? ==> exists x, y :: (0 <= x < base.Length0 && 0 <= y < base.Length1 &&
                                       Composite(base[x, y], wm, mode, p, pos, x, y).Err?)
  {
    var output := new Rgb[base.Length0, base.Length1];
    for x := 0 to base.Length0
      invariant forall x', y' :: 0 <= x' < x && 0 <= y' < base.Length1 ==>
        Composite(base[x', y'], wm, mode, p, pos, x', y') == Ok(output[x', y'])
    {
      for y := 0 to base.Length1
        invariant forall x', y' :: 0 <= x' < x && 0 <= y' < base.Length1 ==>
          Composite(base[x', y'], wm, mode, p, pos, x', y') == Ok(output[x', y'])
        invariant forall y' :: 0 <= y' < y ==>
          Composite(base[x, y'], wm, mode, p, pos, x, y') == Ok(output[x, y'])
      {
        var i := base[x, y];
        var w := if pos.x <= x < pos.x + wm.Length0 && pos.y <= y < pos.y + wm.Length1
          then Some(ReadWatermark(wm[x - pos.x, y - pos.y], mode))
          else None;
        var color := Blend(i, w, mode, p);
        if color.Err? {
          assert Composite(base[x, y], wm, mode, p, pos, x, y).Err?;
          return Err(color.error);
        }
        output[x, y] := color.value;
      }
    }
    return Ok(output);
  }

  /** A four by four black base under a two by two opaque white watermark at (1, 1), with
      weight 50 and no transparency, stays black except for the two by two block under the
      watermark, which turns (127, 127, 127). */
  lemma {:induction false} SingleExample(base: array2<Rgb>, wm: array2<Argb>)
    requires base.Length0 == 4 && base.Length1 == 4 && wm.Length0 == 2 && wm.Length1 == 2
    requires forall x, y :: 0 <= x < 4 && 0 <= y < 4 ==> base[x, y] == Rgb(0, 0, 0)
    requires forall u, v :: 0 <= u < 2 && 0 <= v < 2 ==> wm[u, v] == Argb(255, Rgb(255, 255, 255))
    ensures forall x, y :: 0 <= x < 4 && 0 <= y < 4 ==>
      Composite(base[x, y], wm, NoTransparency, 50, Position(1, 1), x, y)
      == Ok(if 1 <= x <= 2 && 1 <= y <= 2 then Rgb(127, 127, 127) else Rgb(0, 0, 0))
  {
  }

  // ---------------------------------------------------------------- grid tiling

  /** The pixel at (x, y) of the finished grid: the base colour blended with watermark pixel
      (x mod width, y mod height). */
  function GridPixel(i: Rgb, wm: array2<Argb>, mode: Mode, p: Percent, x: nat, y: nat): Result<Rgb>
    requires wm.Length0 > 0 && wm.Length1 > 0
    reads wm
  {
    Blend(i, Some(ReadWatermark(wm[x % wm.Length0, y % wm.Length1], mode)), mode, p)
  }

  /** Euclidean division is unique: a quotient and a remainder in range are the ones `/` and
      `%` give. */
  lemma DivModUnique(a: int, n: int, q: int, d: int)
    requires n > 0 && 0 <= d < n && a == q * n + d
    ensures a / n == q && a % n == d
  {
    var q', d' := a / n, a % n;
    assert a == q' * n + d' && 0 <= d' < n;
    assert (q - q') * n == d' - d;
    NoMultipleBetween(q - q', n);
  }

  /** A non-zero multiple of `n` is at least `n` away from zero. */
  lemma NoMultipleBetween(k: int, n: int)
    requires n > 0
    ensures k >= 1 ==> k * n >= n
    ensures k <= -1 ==> k * n <= -n
  {
    if k >= 1 {
      assert k * n == (k - 1) * n + n;
    } else if k <= -1 {
      assert k * n == -((-k - 1) * n) - n;
    }
  }

  /** Grid tiles do not overlap: a coordinate lies in the footprint of exactly one tile column,
      the one numbered `x / n`. */
  lemma {:induction false} TileColumn(x: int, n: int, k: int)
    requires n > 0 && k * n <= x < k * n + n
    ensures k == x / n && x - k * n == x % n
  {
    DivModUnique(x, n, k, x - k * n);
  }

  /** Two distinct grid tiles never cover the same coordinate. */
  lemma {:induction false} TilesDisjoint(ww: int, wh: int, i: int, j: int, i': int, j': int, x: int, y: int)
    requires ww > 0 && wh > 0
    requires InFootprint(x, y, Position(i * ww, j * wh), ww, wh)
    requires InFootprint(x, y, Position(i' * ww, j' * wh), ww, wh)
    ensures i == i' && j == j'
  {
    TileColumn(x, ww, i);
    TileColumn(x, ww, i');
    TileColumn(y, wh, j);
    TileColumn(y, wh, j');
  }

  /** The grid result at every pixel is what a single placement at the tile containing that
      pixel yields. */
  lemma {:induction false} GridIsTiledSingle(i: Rgb, wm: array2<Argb>, mode: Mode, p: Percent, x: nat, y: nat)
    requires wm.Length0 > 0 && wm.Length1 > 0
    ensures GridPixel(i, wm, mode, p, x, y)
         == Composite(i, wm, mode, p, Position(x / wm.Length0 * wm.Length0, y / wm.Length1 * wm.Length1), x, y)
  {
    var ww, wh := wm.Length0, wm.Length1;
    var pos := Position(x / ww * ww, y / wh * wh);
    assert x == x / ww * ww + x % ww && y == y / wh * wh + y % wh;
    assert InFootprint(x, y, pos, ww, wh);
  }

  /** The pixel at (x, y) after the tile at `a` and then the tile at `b`; a refusal by the
      first tile aborts. */
  function TwoTiles(v: Rgb, wm: array2<Argb>, mode: Mode, p: Percent, a: Position, b: Position, x: int, y: int): Result<Rgb>
    reads wm
  {
    var first := Composite(v, wm, mode, p, a, x, y);
    if first.Ok? then Composite(first.value, wm, mode, p, b, x, y) else first
  }

  /** Applying one grid tile and then another, at any pixel and for any colour there, gives
      what the other order gives: the grid result does not depend on the order of its tiles. */
  lemma {:induction false} TilesCommute(v: Rgb, wm: array2<Argb>, mode: Mode, p: Percent,
                                        i: int, j: int, i': int, j': int, x: int, y: int)
    requires wm.Length0 > 0 && wm.Length1 > 0
    ensures
      var a, b := Position(i * wm.Length0, j * wm.Length1), Position(i' * wm.Length0, j' * wm.Length1);
      TwoTiles(v, wm, mode, p, a, b, x, y) == TwoTiles(v, wm, mode, p, b, a, x, y)
  {
    var ww, wh := wm.Length0, wm.Length1;
    var a, b := Position(i * ww, j * wh), Position(i' * ww, j' * wh);
    if InFootprint(x, y, a, ww, wh) && InFootprint(x, y, b, ww, wh) {
      TilesDisjoint(ww, wh, i, j, i', j', x, y);
    } else if InFootprint(x, y, a, ww, wh) {
      var first := Composite(v, wm, mode, p, a, x, y);
      if first.Ok? {
        CompositeCases(first.value, wm, mode, p, b, x, y);
      }
      CompositeCases(v, wm, mode, p, b, x, y);
    } else {
      CompositeCases(v, wm, mode, p, a, x, y);
      var first := Composite(v, wm, mode, p, b, x, y);
      if first.Ok? {
        CompositeCases(first.value, wm, mode, p, a, x, y);
      }
    }
  }

  /** One tile's step of the grid loop at pixel (x, y): `before` is the pixel before the tile and
      `after` after it. Tiles are taken column by column, and within a column top to bottom; the
      pixels of tiles already done hold their grid result and all others the base colour. */
  lemma {:induction false} TileStep(b: Rgb, before: Rgb, after: Rgb, wm: array2<Argb>, mode: Mode, p: Percent,
                                    ki: nat, kj: nat, x: nat, y: nat)
    requires wm.Length0 > 0 && wm.Length1 > 0
    requires Composite(before, wm, mode, p, Position(ki * wm.Length0, kj * wm.Length1), x, y) == Ok(after)
    requires Done(x, y, ki * wm.Length0, kj * wm.Length1, wm.Length0) ==> GridPixel(b, wm, mode, p, x, y) == Ok(before)
    requires !Done(x, y, ki * wm.Length0, kj * wm.Length1, wm.Length0) ==> before == b
    ensures Done(x, y, ki * wm.Length0, kj * wm.Length1 + wm.Length1, wm.Length0) ==> GridPixel(b, wm, mode, p, x, y) == Ok(after)
    ensures !Done(x, y, ki * wm.Length0, kj * wm.Length1 + wm.Length1, wm.Length0) ==> after == b
  {
    var ww, wh := wm.Length0, wm.Length1;
    var pos := Position(ki * ww, kj * wh);
    CompositeCases(before, wm, mode, p, pos, x, y);
    if InFootprint(x, y, pos, ww, wh) {
      TileColumn(x, ww, ki);
      TileColumn(y, wh, kj);
    }
  }

  /** Whether pixel (x, y) belongs to a tile already done when the loops stand at tile
      origin (tx, ty), for tiles `ww` wide. */
  predicate Done(x: int, y: int, tx: int, ty: int, ww: int) {
    x < tx || (x < tx + ww && y < ty)
  }

  /** A refused pixel of one tile is a pixel the grid refuses, whatever colour lies under it. */
  lemma {:induction false} TileRefusal(b: Rgb, before: Rgb, wm: array2<Argb>, mode: Mode, p: Percent,
                                       ki: nat, kj: nat, x: nat, y: nat)
    requires wm.Length0 > 0 && wm.Length1 > 0
    requires Composite(before, wm, mode, p, Position(ki * wm.Length0, kj * wm.Length1), x, y).Err?
    ensures GridPixel(b, wm, mode, p, x, y).Err?
  {
    var ww, wh := wm.Length0, wm.Length1;
    var pos := Position(ki * ww, kj * wh);
    CompositeCases(before, wm, mode, p, pos, x, y);
    TileColumn(x, ww, ki);
    TileColumn(y, wh, kj);
    RefusedIffPartialAlpha(b, wm[x % ww, y % wh], mode, p);
  }

  /** The grid placement (Main.kt:100-108): tiles at every multiple of the watermark's width
      below the base width, and within each such column at every multiple of its height below
      the base height, each applied to the previous output. The first tile is applied to the
      base itself, which is what the output still is then. A refused pixel aborts the whole
      placement. Every base pixel is blended exactly once, with the watermark pixel at its
      coordinate modulo the watermark's size. */
  method GridPlacement(base: array2<Rgb>, wm: array2<Argb>, mode: Mode, p: Percent)
    returns (r: Result<array2<Rgb>>)
    requires base.Length0 > 0 && base.Length1 > 0
    requires wm.Length0 > 0 && wm.Length1 > 0
    ensures r.Ok? ==> fresh(r.value) && r.value.Length0 == base.Length0 && r.value.Length1 == base.Length1
    ensures r.Ok? ==> forall x, y :: 0 <= x < base.Length0 && 0 <= y < base.Length1 ==>
      GridPixel(base[x, y], wm, mode, p, x, y) == Ok(r.value[x, y])
    ensures r.Err? ==> r.error == InvalidWatermarkImage
    ensures r.Err? ==> exists x, y :: (0 <= x < base.Length0 && 0 <= y < base.Length1 &&
                                       GridPixel(base[x, y], wm, mode, p, x, y).Err?)
  {
    var ww, wh := wm.Length0, wm.Length1;
    var output := base;
    var tx := 0;
    ghost var ki: nat := 0;
    while tx < base.Length0
      invariant tx == ki * ww
      invariant output.Length0 == base.Length0 && output.Length1 == base.Length1
      invariant tx == 0 ==> output == base
      invariant tx > 0 ==> fresh(output)
      invariant forall x, y :: 0 <= x < base.Length0 && 0 <= y < base.Length1 ==>
        if x < tx then GridPixel(base[x, y], wm, mode, p, x, y) == Ok(output[x, y])
        else output[x, y] == base[x, y]
    {
      var ty := 0;
      ghost var kj: nat := 0;
      while ty < base.Length1
        invariant ty == kj * wh
        invariant output.Length0 == base.Length0 && output.Length1 == base.Length1
        invariant tx == 0 && ty == 0 ==> output == base
        invariant tx > 0 || ty > 0 ==> fresh(output)
        invariant forall x, y :: 0 <= x < base.Length0 && 0 <= y < base.Length1 ==>
          if Done(x, y, tx, ty, ww) then GridPixel(base[x, y], wm, mode, p, x, y) == Ok(output[x, y])
          else output[x, y] == base[x, y]
      {
        var tile: Result<array2<Rgb>>;
        if tx == 0 && ty == 0 {
          tile := AddWatermark(base, wm, mode, p, Position(0, 0));
        } else {
          tile := AddWatermark(output, wm, mode, p, Position(tx, ty));
        }
        if tile.Err? {
          var x: int, y: int :| 0 <= x < base.Length0 && 0 <= y < base.Length1
            && Composite(output[x, y], wm, mode, p, Position(tx, ty), x, y).Err?;
          TileRefusal(base[x, y], output[x, y], wm, mode, p, ki, kj, x, y);
          return Err(tile.error);
        }
        var next := tile.value;
        forall x, y | 0 <= x < base.Length0 && 0 <= y < base.Length1
          ensures if Done(x, y, tx, ty + wh, ww) then GridPixel(base[x, y], wm, mode, p, x, y) == Ok(next[x, y])
            else next[x, y] == base[x, y]
        {
          TileStep(base[x, y], output[x, y], next[x, y], wm, mode, p, ki, kj, x, y);
        }
        output := next;
        ty, kj := ty + wh, kj + 1;
      }
      tx, ki := tx + ww, ki + 1;
    }
    return Ok(output);
  }

  // ---------------------------------------------------------------- refusal

  predicate HasPartialAlpha(wm: array2<Argb>)
    reads wm
  {
    exists u, v :: 0 <= u < wm.Length0 && 0 <= v < wm.Length1 && PartiallyTransparent(wm[u, v])
  }

  /** A single placement whose footprint lies inside the base is refused exactly when the mode
      is alpha mode and the watermark holds a partially transparent pixel: every watermark
      pixel is visited. */
  lemma {:induction false} SingleRefusedIffPartialAlpha(base: array2<Rgb>, wm: array2<Argb>, mode: Mode, p: Percent, pos: Position)
    requires 0 <= pos.x <= base.Length0 - wm.Length0 && 0 <= pos.y <= base.Length1 - wm.Length1
    ensures (exists x, y :: 0 <= x < base.Length0 && 0 <= y < base.Length1
              && Composite(base[x, y], wm, mode, p, pos, x, y).Err?)
        <==> mode.AlphaChannel? && HasPartialAlpha(wm)
  {
    if exists x, y :: 0 <= x < base.Length0 && 0 <= y < base.Length1
        && Composite(base[x, y], wm, mode, p, pos, x, y).Err? {
      var x, y :| 0 <= x < base.Length0 && 0 <= y < base.Length1
        && Composite(base[x, y], wm, mode, p, pos, x, y).Err?;
      CompositeCases(base[x, y], wm, mode, p, pos, x, y);
      assert PartiallyTransparent(wm[x - pos.x, y - pos.y]);
    }
    if mode.AlphaChannel? && HasPartialAlpha(wm) {
      var u, v :| 0 <= u < wm.Length0 && 0 <= v < wm.Length1 && PartiallyTransparent(wm[u, v]);
      var x, y := u + pos.x, v + pos.y;
      CompositeCases(base[x, y], wm, mode, p, pos, x, y);
      assert Composite(base[x, y], wm, mode, p, pos, x, y).Err?;
    }
  }

  /** The grid is refused exactly when the mode is alpha mode and the watermark holds a
      partially transparent pixel, provided the watermark fits in the base: its first tile
      already visits every watermark pixel. */
  lemma {:induction false} GridRefusedIffPartialAlpha(base: array2<Rgb>, wm: array2<Argb>, mode: Mode, p: Percent)
    requires 0 < wm.Length0 <= base.Length0 && 0 < wm.Length1 <= base.Length1
    ensures (exists x, y :: 0 <= x < base.Length0 && 0 <= y < base.Length1
              && GridPixel(base[x, y], wm, mode, p, x, y).Err?)
        <==> mode.AlphaChannel? && HasPartialAlpha(wm)
  {
    var ww, wh := wm.Length0, wm.Length1;
    if exists x, y :: 0 <= x < base.Length0 && 0 <= y < base.Length1
        && GridPixel(base[x, y], wm, mode, p, x, y).Err? {
      var x, y :| 0 <= x < base.Length0 && 0 <= y < base.Length1
        && GridPixel(base[x, y], wm, mode, p, x, y).Err?;
      RefusedIffPartialAlpha(base[x, y], wm[x % ww, y % wh], mode, p);
      assert PartiallyTransparent(wm[x % ww, y % wh]);
    }
    if mode.AlphaChannel? && HasPartialAlpha(wm) {
      var u, v :| 0 <= u < ww && 0 <= v < wh && PartiallyTransparent(wm[u, v]);
      DivModUnique(u, ww, 0, u);
      DivModUnique(v, wh, 0, v);
      RefusedIffPartialAlpha(base[u, v], wm[u, v], mode, p);
      assert GridPixel(base[u, v], wm, mode, p, u, v).Err?;
    }
  }
}
