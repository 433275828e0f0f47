# Voronoi renderer: verified model of the nearest-seed classifier

This project models the rendering core of a small SDL program. The program
draws a discrete Voronoi diagram on an 800 × 600 raster. It works in three steps:

1. It places ten seeds and gives each one a colour from a fixed ten-entry palette.
2. It colours every pixel after the seed nearest to it, by Manhattan distance
   `|dx| + |dy|`.
3. It draws a black disc of radius 5 over every seed.

The raster is a flat array of packed 32-bit RGBA pixels. The pixel in column
`c` of row `r` is at index `r * 800 + c`.

The model has five modules:

- `Geometry` (`geometry.dfy`): the integer vector `vec2`, its subtraction, its
  squared length `len`, and the Manhattan distance the scan computes inline.
- `Canvas` (`canvas.dfy`): the frame buffer's dimensions, the `u32` pixel type
  and row-major indexing.
- `Seeds` (`seeds.dfy`): the palette, the `Seed` record and the initialisation
  loop. Seed positions come from a random generator and are inputs here.
- `Disc` (`disc.dfy`): `draw_circle`, as an in-place method over the pixel array.
- `Voronoi` (`voronoi.dfy`): the inner nearest-seed scan, the row/column fill,
  the marker pass, and the whole `render_shit` body without its SDL calls.

The methods work in place on arrays, as the program does. Each method is proved
against a specification function. The fill is proved against `FirstMinimiser`,
which is characterised declaratively: it returns the lowest store position at
the minimal distance. The disc is proved against `Painted` and the marker pass
against `Marked`. The whole frame is proved against `FrameColour`.

## Behaviour kept as written

The model follows the code in three places where its effect is easy to
overlook.

- **Winner index.** The scan keeps the smallest distance and replaces it only
  on `<`, so the distance it keeps belongs to the lowest-index nearest seed.
  But it records the winner as `seeds.end() - it`. So when that seed is at
  position `k >= 1`, the pixel is painted with the colour of seed `N - k`.
  `AsWrittenSlot` models this. `WinnerSlotMisassigns` shows a pixel whose only
  nearest seed is seed 1 painted in seed 9's different colour. The mapping is
  its own inverse (`AsWrittenSlotInvolution`), so the cells are still the
  Voronoi cells and each keeps a colour of its own (`CellsKeepOwnColour`). Only
  the colours of seeds `k` and `N - k` are swapped. With two seeds, and for
  `k = 5` with ten, `N - k = k` (`TwoSeedStrip`).
- **Palette order.** The initialisation loop gives seed `k` the colour
  `palette[N - 1 - k]`, so the palette is used in reverse store order.
- **Disc clipping.** The guard in `draw_circle` tests only the linear index
  `y * w + x`. A disc point left or right of the raster therefore lands in the
  neighbouring row (`DiscWrapsIntoRowAbove`). The loop box is also asymmetric:
  rows `(y-r, y+r]` and columns `[x-r, x+2r)`. The model keeps that box.

## Model

| member | source | states |
|---|---|---|
| `Geometry.Abs` | src/main.cpp:159 | `std::abs` gives the operand or its negation, never a negative value |
| `Geometry.Sub` | src/main.cpp:34-40 | `operator-` is componentwise: adding `rhs` back to the result gives `lhs`; the difference is the zero vector exactly when the operands are equal |
| `Geometry.Len` | src/main.cpp:42-45 | `len` is a natural number (never negative) and is zero exactly for the zero vector |
| `Geometry.L1` | src/main.cpp:159-167 | the Manhattan distance the scan computes is a natural number, zero exactly when the two points coincide |
| `Geometry.L1Symmetric` | src/main.cpp:159-167 | the Manhattan distance is symmetric |
| `Geometry.L1Triangle` | src/main.cpp:159-167 | the Manhattan distance satisfies the triangle inequality |
| `Canvas.PixelAt` | src/main.cpp:176 | every in-buffer index stands for one pixel inside the 800 × 600 raster whose row-major index is that index |
| `Canvas.PixelIndexRoundTrip` | src/main.cpp:151-177 | for every pixel `(c, r)` of the raster, the index `r*w + c` lies in `[0, w*h)` and gives back `(c, r)`, so the fill writes each index exactly once |
| `Seeds.PaletteSlot` | src/main.cpp:145 | the seed at position `k` takes palette entry `N - 1 - k`, which is inside the palette |
| `Seeds.SeedStore` | src/main.cpp:136-148 | after initialisation, seed `k` holds the `k`-th drawn position and colour `palette[N-1-k]` |
| `Seeds.PaletteDistinct` | src/main.cpp:122-132 | the ten live palette entries are pairwise different |
| `Seeds.SeedColoursDistinct` | src/main.cpp:136-148 | no two seeds of an initialised store share a colour |
| `Seeds.InitSeeds` | src/main.cpp:136-148 | the initialisation loop leaves the seed array equal to `SeedStore(positions)` |
| `Disc.InDisc` | src/main.cpp:73 | the disc test `len(point - pos) < radius * radius`: it holds for no point when the radius is 0, and it holds at the centre for every other radius |
| `Disc.GuardAsWritten` | src/main.cpp:76 | the guard as written accepts exactly the in-buffer indices and the one index `W*H` past the end |
| `Disc.CorrectedGuard` | src/main.cpp:76 | the in-buffer test rejects exactly one index more than the guard as written: `W*H` |
| `Disc.DrawCircle` | src/main.cpp:56-83 | afterwards a pixel holds `color` if a point of the loop box lies strictly inside the disc and has that pixel's in-buffer index, and otherwise it keeps its old value |
| `Disc.DiscInsideBox` | src/main.cpp:60-69 | for `r >= 0`, every point strictly inside the disc lies inside the box the loops walk, `y` in `(pos.y-r, pos.y+r]` and `x` in `[pos.x-r, pos.x+2r)` |
| `Disc.PaintedIsDiscIndex` | src/main.cpp:63-82 | every pixel `draw_circle` writes is the in-buffer index of a point strictly inside the disc |
| `Disc.DiscIndexIsPainted` | src/main.cpp:60-82 | for `r >= 0`, every point strictly inside the disc whose index passes the guard is written |
| `Disc.NegativeRadiusPaintsNothing` | src/main.cpp:63-69 | with a negative radius the loops are empty and nothing is written |
| `Disc.DiscWrapsIntoRowAbove` | src/main.cpp:75-79 | the guard is on the linear index: for a disc at `(0, 100)`, the point `(-1, 100)` is written at pixel `(799, 99)` |
| `Voronoi.FirstMinimiser` | src/main.cpp:159-174 | scanning the seeds in order and replacing only on `<` yields a position whose distance is the minimum over all seeds, and every earlier seed is strictly farther |
| `Voronoi.FirstMinimiserUnique` | src/main.cpp:160-173 | that position is unique: the lowest-index minimiser |
| `Voronoi.TieKeepsLowestIndex` | src/main.cpp:168 | a seed at the minimal distance is never beaten by a later one: the kept position is at or before it and at the same distance (so seed 0 wins when it is a minimiser) |
| `Voronoi.AsWrittenSlot` | src/main.cpp:160-172 | the seed whose colour is written is seed 0 when the minimiser is seed 0, and otherwise the seed at `N - k` for the minimiser at position `k >= 1` |
| `Voronoi.AsWrittenSlotInvolution` | src/main.cpp:160-172 | applying the winner-slot mapping twice gives back the minimiser: it swaps `k` and `N - k` and fixes 0 |
| `Voronoi.AsWrittenSlotInjective` | src/main.cpp:160-172 | different minimisers map to different seeds whose colour is written |
| `Voronoi.ScanSeeds` | src/main.cpp:155-174 | after the inner scan, `nearest` is at most every seed's distance and equals the lowest-index minimiser's distance; `slot` is `AsWrittenSlot` of that minimiser, and `seeds[slot].color` is the fill's colour for the pixel |
| `Voronoi.FillRow` | src/main.cpp:153-178 | one pass of the column loop gives every pixel of row `r` the scan's colour and leaves every pixel outside the row unchanged |
| `Voronoi.FillNearest` | src/main.cpp:150-179 | after the row/column fill, every pixel of the buffer holds the colour of the seed at `AsWrittenSlot` of its lowest-index nearest seed |
| `Voronoi.DrawMarkers` | src/main.cpp:182-185 | after the marker pass, a pixel under any seed's radius-5 disc is `0x000000ff` and every other pixel keeps its fill colour |
| `Voronoi.Render` | src/main.cpp:134-185 | the finished buffer is `FrameColour` of the initialised store: the marker colour under a marker, the scan's colour elsewhere |
| `Voronoi.MarkerOverridesFill` | src/main.cpp:182-185 | for a pixel strictly inside some seed's marker disc and inside the buffer, the finished frame is black, whatever the fill gave it |
| `Voronoi.CellsKeepOwnColour` | src/main.cpp:136-177 | two pixels whose lowest-index nearest seeds differ are painted in different colours, so each Voronoi cell keeps a colour of its own despite the winner index |
| `Voronoi.TwoSeedStrip` | src/main.cpp:159-173 | seeds at columns 0 and 10 on one row: columns 0 to 5 go to the first seed (5 is a tie resolved to the lower index), columns 6 to 19 to the second |
| `Voronoi.WinnerSlotMisassigns` | src/main.cpp:171-177 | a pixel whose only nearest seed is seed 1 is painted with seed 9's colour, which is different, while seed 9 is farther away |
| `Voronoi.GuardAdmitsOnePastEnd` | src/main.cpp:56-83 | a seed the generator can place at `(0, 600)` has its disc centre at index `W*H`, which the guard as written lets through although it is outside the buffer |

## Findings

| source | as written | input that shows it | evidently intended | confidence | as-written member | corrected member |
|---|---|---|---|---|---|---|
| src/main.cpp:76 | `draw_circle` skips a point only when `index < 0 or index > WINDOW_WIDTH * WINDOW_HEIGHT`, so `index == 800 * 600` is written, one past the end of the pixel buffer | `rand_between(0, WINDOW_HEIGHT)` can return 600; a seed at `(0, 600)` has its disc centre at index `600 * 800 + 0 = 480000` | skip `index >= WINDOW_WIDTH * WINDOW_HEIGHT` | high; not executed | `Voronoi.GuardAdmitsOnePastEnd` | `Disc.DrawCircle` |

## Left out

- SDL plumbing is left out because it is foreign library calls and I/O. This
  covers surface creation, locking and unlocking, the texture, window and
  renderer, the event loop, F5 re-rendering, the delay and the `std::exit`
  error paths. `Render` allocates the pixel array itself.
- `rand_between` is left out because it uses a hardware random device and a
  Mersenne twister. The ten seed positions are a parameter of `Render`.
  `Seeds.Drawable` records the range the generator draws from.
- The commented-out palettes, the `#if 0` random palette index and the
  commented-out Euclidean distance lines are left out because they are not live
  code.
- C++ `int` overflow in `len`, in `r * w + c` and in the distance sums is left
  out: integers are unbounded. Seed positions lie in `[0, 800] × [0, 600]`, so
  none of these values comes near 2^31 in the program.
- `Disc.DrawCircle`: uses the corrected guard `index >= WIDTH * HEIGHT`. The
  program's out-of-bounds write at index `WIDTH * HEIGHT` is undefined behaviour
  and is not modelled. `Voronoi.GuardAdmitsOnePastEnd` shows that it can happen.
- `surface->w` and `surface->h` are modelled as the constants 800 and 600,
  because the surface is created with exactly those dimensions.
- The inner scan and one pass of the column loop are separate methods
  (`ScanSeeds`, `FillRow`). In the program they are nested inside the
  row/column loops. The statements and their order are unchanged.
