/** The body of `render_shit` without its SDL calls: initialise the seeds, give
    every pixel the colour of the seed the nearest-seed scan selects, then draw
    a black disc of radius 5 over every seed.

    The scan tracks the smallest Manhattan distance and replaces it only on a
    strict improvement, so the distance it keeps belongs to the lowest-index
    seed that attains the minimum. The seed whose colour it writes, however, is
    computed as `seeds.end() - it`: for the minimiser at store position `k >= 1`
    that is the seed at position `N - k`, not `k`. The model keeps that. */
module Voronoi {
  import opened Geometry
  import opened Canvas
  import opened Seeds
  import opened Disc

  const MARKER_RADIUS := 5
  const MARKER_COLOR: u32 := 0x000000ff

  /** `k` is the lowest store position whose seed is at the smallest Manhattan
      distance from `p`. */
  ghost predicate IsFirstMinimiser(ds: seq<Seed>, p: Vec2, k: int) {
    0 <= k < |ds| &&
    (forall j :: 0 <= j < |ds| ==> L1(p, ds[k].pos) <= L1(p, ds[j].pos)) &&
    (forall j :: 0 <= j < k ==> L1(p, ds[j].pos) > L1(p, ds[k].pos))
  }

  /** The lowest-index nearest seed, found by scanning the store in order. */
  function FirstMinimiser(ds: seq<Seed>, p: Vec2): (k: nat)
    requires |ds| > 0
    ensures IsFirstMinimiser(ds, p, k)
    decreases |ds|
  {
    if |ds| == 1 then 0
    else
      var k := FirstMinimiser(ds[..|ds| - 1], p);
      if L1(p, ds[|ds| - 1].pos) < L1(p, ds[k].pos) then |ds| - 1 else k
  }

  /** There is only one lowest-index nearest seed. */
  lemma FirstMinimiserUnique(ds: seq<Seed>, p: Vec2, k: int)
    requires IsFirstMinimiser(ds, p, k)
    ensures k == FirstMinimiser(ds, p)
  {
  }

  /** Ties go to the lower store position: a seed at the minimal distance is
      never beaten by a later one. */
  lemma TieKeepsLowestIndex(ds: seq<Seed>, p: Vec2, j: nat)
    requires j < |ds|
    requires forall i :: 0 <= i < |ds| ==> L1(p, ds[j].pos) <= L1(p, ds[i].pos)
    ensures FirstMinimiser(ds, p) <= j
    ensures L1(p, ds[FirstMinimiser(ds, p)].pos) == L1(p, ds[j].pos)
  {
  }

  /** The store position whose colour the scan writes once the minimiser is at
      position `k`: `seeds[0]` when no later seed improved on it, otherwise the
      seed `k` places back from the end of the store. */
  function AsWrittenSlot(n: nat, k: nat): (slot: nat)
    requires k < n
    ensures slot < n
    ensures k == 0 ==> slot == 0
    ensures k > 0 ==> slot > 0 && slot + k == n
  {
    if k == 0 then 0 else n - k
  }

  /** The winner-slot mapping is its own inverse on `[0, n)`: it swaps `k` and
      `n - k` and fixes 0. */
  lemma AsWrittenSlotInvolution(n: nat, k: nat)
    requires k < n
    ensures AsWrittenSlot(n, AsWrittenSlot(n, k)) == k
  {
  }

  /** Hence it is one-to-one: different minimisers are written with the colours
      of different seeds. */
  lemma AsWrittenSlotInjective(n: nat, j: nat, k: nat)
    requires j < n && k < n && j != k
    ensures AsWrittenSlot(n, j) != AsWrittenSlot(n, k)
  {
    AsWrittenSlotInvolution(n, j);
    AsWrittenSlotInvolution(n, k);
  }

  /** The colour the fill gives pixel `p`. */
  function VoronoiColour(ds: seq<Seed>, p: Vec2): u32
    requires |ds| > 0
  {
    ds[AsWrittenSlot(|ds|, FirstMinimiser(ds, p))].color
  }

  /** The inner scan for pixel `a`: `nearest` ends as the smallest Manhattan
      distance to any seed, and `slot` as the store position whose colour the
      pixel receives. */
  method ScanSeeds(seeds: array<Seed>, a: Vec2) returns (nearest: int, slot: nat)
    requires seeds.Length > 0
    ensures forall j :: 0 <= j < seeds.Length ==> nearest <= L1(a, seeds[j].pos)
    ensures nearest == L1(a, seeds[FirstMinimiser(seeds[..], a)].pos)
    ensures slot == AsWrittenSlot(seeds.Length, FirstMinimiser(seeds[..], a))
    ensures seeds[slot].color == VoronoiColour(seeds[..], a)
  {
    var b := seeds[0].pos;
    nearest := Abs(a.x - b.x) + Abs(a.y - b.y);
    slot := 0;
    ghost var k := 0;
    var i := 1;
    while i < seeds.Length
      invariant 1 <= i <= seeds.Length
      invariant 0 <= k < i
      invariant nearest == L1(a, seeds[k].pos)
      invariant forall j :: 0 <= j < i ==> nearest <= L1(a, seeds[j].pos)
      invariant forall j :: 0 <= j < k ==> L1(a, seeds[j].pos) > nearest
      invariant slot == AsWrittenSlot(seeds.Length, k)
    {
      var l := Abs(a.x - seeds[i].pos.x) + Abs(a.y - seeds[i].pos.y);
      if l < nearest {
        nearest := l;
        var index := seeds.Length - i;
        slot := index;
        k := i;
      }
      i := i + 1;
    }
    FirstMinimiserUnique(seeds[..], a, k);
  }

  /** The row/column fill: every pixel of the buffer receives the colour the scan
      selects for it; nothing of the old contents survives. */
  method FillNearest(pixels: array<u32>, seeds: array<Seed>)
    requires pixels.Length == WIDTH * HEIGHT && seeds.Length > 0
    modifies pixels
    ensures forall i :: 0 <= i < pixels.Length ==> pixels[i] == VoronoiColour(seeds[..], PixelAt(i))
  {
    ghost var ds := seeds[..];
    var r := 0;
    while r < HEIGHT
      invariant 0 <= r <= HEIGHT
      invariant forall i :: 0 <= i < r * WIDTH ==> pixels[i] == VoronoiColour(ds, PixelAt(i))
    {
      FillRow(pixels, seeds, r);
      forall i | r * WIDTH <= i < r * WIDTH + WIDTH
        ensures pixels[i] == VoronoiColour(ds, PixelAt(i))
      {
        var col := i - r * WIDTH;
        PixelIndexRoundTrip(col, r);
        assert pixels[r * WIDTH + col] == VoronoiColour(ds, Vec2(col, r));
      }
      r := r + 1;
    }
  }

  /** One pass of the column loop: each pixel of row `r` receives the colour the
      scan selects for it, and no pixel outside the row changes. */
  method FillRow(pixels: array<u32>, seeds: array<Seed>, r: int)
    requires pixels.Length == WIDTH * HEIGHT && seeds.Length > 0
    requires 0 <= r < HEIGHT
    modifies pixels
    ensures forall col :: 0 <= col < WIDTH ==> pixels[r * WIDTH + col] == VoronoiColour(seeds[..], Vec2(col, r))
    ensures forall i :: 0 <= i < pixels.Length && !(r * WIDTH <= i < r * WIDTH + WIDTH) ==> pixels[i] == old(pixels[i])
  {
    ghost var ds := seeds[..];
    var c := 0;
    while c < WIDTH
      invariant 0 <= c <= WIDTH
      invariant forall col :: 0 <= col < c ==> pixels[r * WIDTH + col] == VoronoiColour(ds, Vec2(col, r))
      invariant forall i :: 0 <= i < pixels.Length && !(r * WIDTH <= i < r * WIDTH + c) ==> pixels[i] == old(pixels[i])
    {
      var a := Vec2(c, r);
      var nearest, slot := ScanSeeds(seeds, a);
      assert seeds[..] == ds;
      var index := r * WIDTH + c;
      pixels[index] := seeds[slot].color;
      forall col | 0 <= col < c + 1
        ensures pixels[r * WIDTH + col] == VoronoiColour(ds, Vec2(col, r))
      {
        if col < c {
          assert r * WIDTH + col < index;
        }
      }
      c := c + 1;
    }
  }

  /** `index` lies under the marker disc of one of the first `n` seeds. */
  ghost predicate Marked(ds: seq<Seed>, n: int, index: int) {
    exists k :: 0 <= k < n && k < |ds| && Painted(ds[k].pos, MARKER_RADIUS, index)
  }

  lemma MarkedStep(ds: seq<Seed>, k: nat, index: int)
    requires k < |ds|
    ensures Marked(ds, k + 1, index) <==> Marked(ds, k, index) || Painted(ds[k].pos, MARKER_RADIUS, index)
  {
    if Marked(ds, k + 1, index) {
      var j :| 0 <= j < k + 1 && j < |ds| && Painted(ds[j].pos, MARKER_RADIUS, index);
      if j < k {
        assert Marked(ds, k, index);
      }
    }
  }

  /** The marker pass: a black disc over every seed, in store order. Pixels under
      some marker become black; all others keep the colour the fill gave them. */
  method DrawMarkers(pixels: array<u32>, seeds: array<Seed>)
    requires pixels.Length == WIDTH * HEIGHT
    modifies pixels
    ensures forall i :: 0 <= i < pixels.Length ==>
      pixels[i] == if Marked(seeds[..], seeds.Length, i) then MARKER_COLOR else old(pixels[i])
  {
    for k := 0 to seeds.Length
      invariant forall i :: 0 <= i < pixels.Length ==>
        pixels[i] == if Marked(seeds[..], k, i) then MARKER_COLOR else old(pixels[i])
    {
      DrawCircle(pixels, seeds[k].pos, MARKER_RADIUS, MARKER_COLOR);
      forall i | 0 <= i < pixels.Length
        ensures Marked(seeds[..], k + 1, i) <==> Marked(seeds[..], k, i) || Painted(seeds[k].pos, MARKER_RADIUS, i)
      {
        MarkedStep(seeds[..], k, i);
      }
    }
  }

  /** The finished frame at `index`: the marker colour under a marker, the
      scan's colour elsewhere. */
  ghost function FrameColour(ds: seq<Seed>, index: int): u32
    requires |ds| > 0 && InBounds(index)
  {
    if Marked(ds, |ds|, index) then MARKER_COLOR else VoronoiColour(ds, PixelAt(index))
  }

  /** One call of the renderer for the given seed positions. */
  method Render(positions: seq<Vec2>) returns (pixels: array<u32>)
    requires |positions| == N
    ensures pixels.Length == WIDTH * HEIGHT
    ensures forall i :: 0 <= i < pixels.Length ==> pixels[i] == FrameColour(SeedStore(positions), i)
  {
    pixels := new u32[WIDTH * HEIGHT];
    var seeds := new Seed[N];
    InitSeeds(seeds, positions);
    FillNearest(pixels, seeds);
    DrawMarkers(pixels, seeds);
  }

  /** Under the marker of any seed, the finished frame is black, whatever colour
      the fill gave that pixel: markers are drawn after the fill. */
  lemma MarkerOverridesFill(positions: seq<Vec2>, k: nat, pt: Vec2)
    requires |positions| == N && k < N
    requires InDisc(positions[k], MARKER_RADIUS, pt)
    requires InBounds(pt.y * WIDTH + pt.x)
    ensures FrameColour(SeedStore(positions), pt.y * WIDTH + pt.x) == MARKER_COLOR
  {
    var ds := SeedStore(positions);
    DiscIndexIsPainted(positions[k], MARKER_RADIUS, pt);
    assert Painted(ds[k].pos, MARKER_RADIUS, pt.y * WIDTH + pt.x);
  }

  /** Although the winner index is not the minimiser, every Voronoi cell of an
      initialised store still gets a colour of its own: two pixels with different
      lowest-index nearest seeds are painted in different colours. The picture
      differs from the intended one only by swapping the colours of seeds `k`
      and `N - k`. */
  lemma CellsKeepOwnColour(positions: seq<Vec2>, p: Vec2, q: Vec2)
    requires |positions| == N
    requires FirstMinimiser(SeedStore(positions), p) != FirstMinimiser(SeedStore(positions), q)
    ensures VoronoiColour(SeedStore(positions), p) != VoronoiColour(SeedStore(positions), q)
  {
    var ds := SeedStore(positions);
    var j := FirstMinimiser(ds, p);
    var k := FirstMinimiser(ds, q);
    AsWrittenSlotInjective(N, j, k);
    SeedColoursDistinct(positions, AsWrittenSlot(N, j), AsWrittenSlot(N, k));
  }

  /** Two seeds on a one-row strip, at columns 0 and 10: columns 0 to 5 go to the
      first seed (column 5 is a tie at distance 5 and the lower index wins), the
      rest to the second. With two seeds the position `N - k` computed for the
      winner is `k` itself, so the colours come out as intended. */
  lemma TwoSeedStrip(colourA: u32, colourB: u32, x: int)
    requires 0 <= x < 20
    ensures FirstMinimiser([Seed(Vec2(0, 0), colourA), Seed(Vec2(10, 0), colourB)], Vec2(x, 0))
            == if x <= 5 then 0 else 1
    ensures VoronoiColour([Seed(Vec2(0, 0), colourA), Seed(Vec2(10, 0), colourB)], Vec2(x, 0))
            == if x <= 5 then colourA else colourB
  {
    var ds := [Seed(Vec2(0, 0), colourA), Seed(Vec2(10, 0), colourB)];
    FirstMinimiserUnique(ds, Vec2(x, 0), if x <= 5 then 0 else 1);
  }

  /** Seed 1 alone near the middle of the raster, every other seed in the corner. */
  const LONE_SEED_POSITIONS: seq<Vec2> := [
    Vec2(0, 0), Vec2(400, 300), Vec2(0, 0), Vec2(0, 0), Vec2(0, 0),
    Vec2(0, 0), Vec2(0, 0), Vec2(0, 0), Vec2(0, 0), Vec2(0, 0)
  ]

  /** The pixel at (410, 300) lies under no marker of `LONE_SEED_POSITIONS`. */
  lemma LoneSeedPixelUnmarked()
    ensures !Marked(SeedStore(LONE_SEED_POSITIONS), N, 300 * WIDTH + 410)
  {
  }

  /** The winner index `seeds.end() - it` paints the pixel in seed 9's colour:
      the pixel at (410, 300) is nearest to seed 1, uniquely, yet the frame shows
      the colour of seed 9, which is farther away and has a different colour. */
  lemma WinnerSlotMisassigns()
    ensures FirstMinimiser(SeedStore(LONE_SEED_POSITIONS), Vec2(410, 300)) == 1
    ensures L1(Vec2(410, 300), SeedStore(LONE_SEED_POSITIONS)[9].pos)
            > L1(Vec2(410, 300), SeedStore(LONE_SEED_POSITIONS)[1].pos)
    ensures FrameColour(SeedStore(LONE_SEED_POSITIONS), 300 * WIDTH + 410)
            == SeedStore(LONE_SEED_POSITIONS)[9].color
    ensures SeedStore(LONE_SEED_POSITIONS)[9].color != SeedStore(LONE_SEED_POSITIONS)[1].color
  {
    var ds := SeedStore(LONE_SEED_POSITIONS);
    var p := Vec2(410, 300);
    assert IsFirstMinimiser(ds, p, 1);
    FirstMinimiserUnique(ds, p, 1);
    PixelIndexRoundTrip(410, 300);
    LoneSeedPixelUnmarked();
    SeedColoursDistinct(LONE_SEED_POSITIONS, 9, 1);
  }

  /** `draw_circle`'s guard lets a marker write one past the end of the buffer: the
      generator may place a seed at (0, HEIGHT), the centre of its disc is
      visited, its index is `WIDTH * HEIGHT`, and `index > WIDTH * HEIGHT` is
      false, so the write goes ahead. */
  lemma GuardAdmitsOnePastEnd()
    ensures Drawable(Vec2(0, HEIGHT))
    ensures Hit(Vec2(0, HEIGHT), MARKER_RADIUS, HEIGHT * WIDTH + 0, HEIGHT)
    ensures GuardAsWritten(HEIGHT * WIDTH + 0)
    ensures HEIGHT * WIDTH + 0 == WIDTH * HEIGHT && !InBounds(HEIGHT * WIDTH + 0)
  {
  }
}
