/** `draw_circle`: paints a filled disc into the frame buffer. The loops walk a
    box that runs from row `pos.y + r` down to row `pos.y - r + 1` and from
    column `pos.x - r` up to column `pos.x + 2r - 1`; a visited point inside the
    open disc of radius `r` is written at index `y * WIDTH + x` when that index
    passes the guard. The guard is on the linear index only, so a disc point left
    or right of the raster wraps into a neighbouring row. */
module Disc {
  import opened Geometry
  import opened Canvas

  /** Point `pt` lies strictly inside the disc: its squared distance to the
      centre is below `r * r`. The disc of radius 0 is empty; any other radius,
      negative ones included, contains the centre. */
  predicate InDisc(pos: Vec2, r: int, pt: Vec2)
    ensures InDisc(pos, r, pt) ==> r != 0
    ensures pt == pos ==> (InDisc(pos, r, pt) <==> r != 0)
  {
    SquareAtLeastAbs(r);
    var sq := r * r;
    assert sq >= 0 && (sq == 0 <==> r == 0);
    Len(Sub(pt, pos)) < sq
  }

  /** The bounds check as `draw_circle` writes it: only `index < 0` and
      `index > WIDTH * HEIGHT` are rejected, so the index one past the end of
      the buffer passes. */
  predicate GuardAsWritten(index: int)
    ensures GuardAsWritten(index) <==> InBounds(index) || index == WIDTH * HEIGHT
  {
    !(index < 0 || index > WIDTH * HEIGHT)
  }

  /** The corrected guard, which is what keeps every write inside the buffer,
      rejects exactly one more index than `draw_circle`'s guard: `WIDTH * HEIGHT`. */
  lemma CorrectedGuard(index: int)
    ensures InBounds(index) <==> GuardAsWritten(index) && index != WIDTH * HEIGHT
  {
  }

  /** The loop visits, on row `y`, the point whose index is `index`, and that
      point lies in the disc. */
  ghost predicate Hit(pos: Vec2, r: int, index: int, y: int) {
    var x := index - y * WIDTH;
    pos.x - r <= x < pos.x + 2 * r && InDisc(pos, r, Vec2(x, y))
  }

  /** `index` is written by one of the rows from `pos.y + r` down to `lo + 1`. */
  ghost predicate RowsPainted(pos: Vec2, r: int, index: int, lo: int) {
    InBounds(index) && exists y :: lo < y <= pos.y + r && Hit(pos, r, index, y)
  }

  /** `index` is written on row `y` before column `x` is reached. */
  ghost predicate RowPrefixPainted(pos: Vec2, r: int, index: int, y: int, x: int) {
    InBounds(index) && pos.x - r <= index - y * WIDTH < x && InDisc(pos, r, Vec2(index - y * WIDTH, y))
  }

  /** `index` is written by a call `draw_circle(pos, r, ...)`. */
  ghost predicate Painted(pos: Vec2, r: int, index: int) {
    RowsPainted(pos, r, index, pos.y - r)
  }

  lemma RowsPaintedStep(pos: Vec2, r: int, index: int, y: int)
    ensures RowsPainted(pos, r, index, y - 1) <==>
            RowsPainted(pos, r, index, y) || (InBounds(index) && y <= pos.y + r && Hit(pos, r, index, y))
  {
    if RowsPainted(pos, r, index, y - 1) {
      var y' :| y - 1 < y' <= pos.y + r && Hit(pos, r, index, y');
      if y' != y {
        assert RowsPainted(pos, r, index, y);
      }
    }
  }

  /** Paints `color` at every point of the disc of radius `r` around `pos` whose
      linear index is inside the buffer; every other pixel keeps its value. */
  method DrawCircle(pixels: array<u32>, pos: Vec2, r: int, color: u32)
    requires pixels.Length == WIDTH * HEIGHT
    modifies pixels
    ensures forall i :: 0 <= i < pixels.Length ==>
      pixels[i] == if Painted(pos, r, i) then color else old(pixels[i])
  {
    var topLeft := Vec2(pos.x - r, pos.y + r);
    var bottomRight := Vec2(pos.x + r, pos.y - r);
    var y := topLeft.y;
    while y > bottomRight.y
      invariant y <= pos.y + r
      invariant r >= 0 ==> y >= pos.y - r
      invariant forall i :: 0 <= i < pixels.Length ==>
        pixels[i] == if RowsPainted(pos, r, i, y) then color else old(pixels[i])
    {
      var x := topLeft.x;
      while x < bottomRight.x + r
        invariant pos.x - r <= x <= pos.x + 2 * r
        invariant forall i :: 0 <= i < pixels.Length ==>
          pixels[i] == if RowsPainted(pos, r, i, y) || RowPrefixPainted(pos, r, i, y, x)
                       then color else old(pixels[i])
      {
        var point := Vec2(x, y);
        if Len(Sub(point, pos)) < r * r {
          var index := y * WIDTH + x;
          if !(index < 0 || index >= WIDTH * HEIGHT) {
            pixels[index] := color;
          }
        }
        x := x + 1;
      }
      forall i | 0 <= i < pixels.Length
        ensures RowsPainted(pos, r, i, y - 1) <==> RowsPainted(pos, r, i, y) || RowPrefixPainted(pos, r, i, y, x)
      {
        RowsPaintedStep(pos, r, i, y);
      }
      y := y - 1;
    }
  }

  /** `index` is the linear index of some point strictly inside the disc, and it
      lies inside the buffer. */
  ghost predicate DiscIndex(pos: Vec2, r: int, index: int) {
    InBounds(index) && exists pt {:trigger InDisc(pos, r, pt)} :: InDisc(pos, r, pt) && pt.y * WIDTH + pt.x == index
  }

  /** A point strictly inside the disc lies inside the box the loops walk. */
  lemma DiscInsideBox(pos: Vec2, r: int, pt: Vec2)
    requires r >= 0 && InDisc(pos, r, pt)
    ensures pos.y - r < pt.y <= pos.y + r
    ensures pos.x - r <= pt.x < pos.x + 2 * r
  {
    var d := Sub(pt, pos);
    SquareBelowBound(d.x, r);
    SquareBelowBound(d.y, r);
  }

  /** Every written pixel is the in-buffer index of a point strictly inside the
      disc. */
  lemma PaintedIsDiscIndex(pos: Vec2, r: int, index: int)
    requires Painted(pos, r, index)
    ensures DiscIndex(pos, r, index)
  {
    var y :| pos.y - r < y <= pos.y + r && Hit(pos, r, index, y);
    var pt := Vec2(index - y * WIDTH, y);
    assert InDisc(pos, r, pt);
    assert pt.y * WIDTH + pt.x == index;
  }

  /** For a non-negative radius, no point strictly inside the disc whose index
      is inside the buffer is missed. */
  lemma DiscIndexIsPainted(pos: Vec2, r: int, pt: Vec2)
    requires r >= 0 && InDisc(pos, r, pt) && InBounds(pt.y * WIDTH + pt.x)
    ensures Painted(pos, r, pt.y * WIDTH + pt.x)
  {
    DiscInsideBox(pos, r, pt);
    assert Hit(pos, r, pt.y * WIDTH + pt.x, pt.y);
  }

  /** A negative radius leaves the loops empty, so nothing is written. */
  lemma NegativeRadiusPaintsNothing(pos: Vec2, r: int, index: int)
    requires r < 0
    ensures !Painted(pos, r, index)
  {
  }

  /** The guard is on the linear index, so a disc point one column left of the
      raster is written at the last pixel of the row above. */
  lemma DiscWrapsIntoRowAbove()
    ensures Painted(Vec2(0, 100), 5, 100 * WIDTH - 1)
    ensures PixelAt(100 * WIDTH - 1) == Vec2(WIDTH - 1, 99)
  {
    assert Hit(Vec2(0, 100), 5, 100 * WIDTH - 1, 100);
  }
}
