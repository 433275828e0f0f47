/** The seed store: ten seeds, each a position and a colour taken from a fixed
    ten-entry palette in reverse store order. Positions come from a random
    generator and are inputs here. */
module Seeds {
  import opened Geometry
  import opened Canvas

  /** Number of seeds in the store. */
  const N := 10

  datatype Seed = Seed(pos: Vec2, color: u32)

  /** The live palette, 0xRRGGBBAA. */
  const PALETTE: seq<u32> := [
    0x705041ff, 0xcd5b45ff, 0xfbd870ff, 0x208f3fff, 0x2590c6ff,
    0xf3c681ff, 0x1279c8ff, 0xe53939ff, 0x68a247ff, 0x14c5b6ff
  ]

  /** A position the generator can produce: each coordinate is drawn from the
      closed range [0, WIDTH] or [0, HEIGHT], so it may sit one past the
      buffer's last column or row. */
  predicate Drawable(p: Vec2) {
    0 <= p.x <= WIDTH && 0 <= p.y <= HEIGHT
  }

  /** The palette index the seed at store position `k` is given. */
  function PaletteSlot(k: nat): (i: nat)
    requires k < N
    ensures i < |PALETTE|
    ensures i + k == N - 1
  {
    N - 1 - k
  }

  /** The store the initialisation loop leaves behind for the given positions. */
  function SeedStore(positions: seq<Vec2>): (ds: seq<Seed>)
    requires |positions| == N
    ensures |ds| == N
    ensures forall k :: 0 <= k < N ==> ds[k].pos == positions[k]
    ensures forall k :: 0 <= k < N ==> ds[k].color == PALETTE[PaletteSlot(k)]
  {
    seq(N, k requires 0 <= k < N => Seed(positions[k], PALETTE[PaletteSlot(k)]))
  }

  /** The palette entries are pairwise different. */
  lemma PaletteDistinct(i: nat, j: nat)
    requires i < |PALETTE| && j < |PALETTE| && i != j
    ensures PALETTE[i] != PALETTE[j]
  {
  }

  /** Two different seeds of an initialised store never share a colour. */
  lemma SeedColoursDistinct(positions: seq<Vec2>, j: nat, k: nat)
    requires |positions| == N
    requires j < N && k < N && j != k
    ensures SeedStore(positions)[j].color != SeedStore(positions)[k].color
  {
    PaletteDistinct(PaletteSlot(j), PaletteSlot(k));
  }

  /** The initialisation loop: visits the seeds in store order and gives each its
      position and the colour `PALETTE[N - 1 - k]`. */
  method InitSeeds(seeds: array<Seed>, positions: seq<Vec2>)
    requires seeds.Length == N && |positions| == N
    modifies seeds
    ensures seeds[..] == SeedStore(positions)
  {
    var k := 0;
    while k < N
      invariant 0 <= k <= N
      invariant forall j :: 0 <= j < k ==> seeds[j] == SeedStore(positions)[j]
    {
      var index := N - k - 1;
      seeds[k] := Seed(positions[k], PALETTE[index]);
      k := k + 1;
    }
  }
}
