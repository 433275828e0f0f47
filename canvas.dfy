/** The frame buffer: a flat `WIDTH * HEIGHT` array of packed 32-bit RGBA
    pixels, row after row, the pixel in column `c` of row `r` at `r * WIDTH + c`. */
module Canvas {
  import opened Geometry

  const WIDTH := 800
  const HEIGHT := 600

  /** An unsigned 32-bit packed colour, 0xRRGGBBAA. */
  newtype u32 = n: int | 0 <= n < 0x1_0000_0000

  /** An index that lies inside the frame buffer. */
  predicate InBounds(index: int) {
    0 <= index < WIDTH * HEIGHT
  }

  /** The pixel (column, row) that a buffer index stands for. */
  function PixelAt(index: int): (p: Vec2)
    requires InBounds(index)
    ensures 0 <= p.x < WIDTH && 0 <= p.y < HEIGHT
    ensures p.y * WIDTH + p.x == index
  {
    Vec2(index % WIDTH, index / WIDTH)
  }

  /** Row-major indexing is a bijection between the pixels of the raster and the
      indices of the buffer: every pixel has an index in bounds, and the index
      gives back that pixel. */
  lemma PixelIndexRoundTrip(col: int, row: int)
    requires 0 <= col < WIDTH && 0 <= row < HEIGHT
    ensures InBounds(row * WIDTH + col)
    ensures PixelAt(row * WIDTH + col) == Vec2(col, row)
  {
  }
}
