/** Integer plane geometry: the `vec2` value type, its subtraction, its squared
    length `len`, and the Manhattan (L1) distance the nearest-seed scan uses. */
module Geometry {

  /** A point or offset with integer coordinates. */
  datatype Vec2 = Vec2(x: int, y: int)

  const ORIGIN := Vec2(0, 0)

  function Abs(n: int): (r: nat)
    ensures r == n || r == -n
  {
    if n < 0 then -n else n
  }

  /** Componentwise difference: adding `rhs` back gives `lhs` again. */
  function Sub(lhs: Vec2, rhs: Vec2): (r: Vec2)
    ensures r.x + rhs.x == lhs.x && r.y + rhs.y == lhs.y
    ensures r == ORIGIN <==> lhs == rhs
  {
    Vec2(lhs.x - rhs.x, lhs.y - rhs.y)
  }

  /** The squared Euclidean length; it is never negative and is zero only for
      the zero vector. */
  function Len(v: Vec2): (r: nat)
    ensures r == 0 <==> v == ORIGIN
  {
    SquareAtLeastAbs(v.x);
    SquareAtLeastAbs(v.y);
    v.x * v.x + v.y * v.y
  }

  lemma SquareAtLeastAbs(n: int)
    ensures n * n >= Abs(n)
    ensures n * n == 0 <==> n == 0
  {
    if n != 0 {
      MulMonotone(Abs(n), 1, Abs(n));
      assert n * n == Abs(n) * Abs(n);
    }
  }

  lemma MulMonotone(a: nat, b: nat, c: nat)
    requires b <= c
    ensures a * b <= a * c
  {
  }

  /** A square below `r * r` (with `r >= 0`) has a base strictly between `-r` and `r`. */
  lemma {:induction false} SquareBelowBound(d: int, r: int)
    requires r >= 0
    requires d * d < r * r
    ensures -r < d < r
  {
    assert Abs(d) * Abs(d) == d * d;
    if Abs(d) >= r {
      MulMonotone(Abs(d), r, Abs(d));
      MulMonotone(r, r, Abs(d));
      assert false;
    }
  }

  /** Manhattan distance |dx| + |dy|, the metric the live scan uses. */
  function L1(a: Vec2, b: Vec2): (d: nat)
    ensures d == 0 <==> a == b
  {
    Abs(a.x - b.x) + Abs(a.y - b.y)
  }

  lemma L1Symmetric(a: Vec2, b: Vec2)
    ensures L1(a, b) == L1(b, a)
  {
  }

  /** The Manhattan distance obeys the triangle inequality, so it is a metric. */
  lemma L1Triangle(a: Vec2, b: Vec2, c: Vec2)
    ensures L1(a, c) <= L1(a, b) + L1(b, c)
  {
  }
}
