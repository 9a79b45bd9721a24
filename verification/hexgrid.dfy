/** Pointy-top axial hexagonal grid cells and the snapping of an axial point
    to the nearest cell (cube-coordinate rounding). */
module HexGrid {
  import opened RealRound

  /** An integer axial cell; equality is structural, as the derived `PartialEq`. */
  datatype PointyHexGrid = PointyHexGrid(x: int, y: int)

  /** The derived `Default`. */
  const Origin := PointyHexGrid(0, 0)

  /** The six axial neighbour offsets, in the order the game enumerates them. */
  const Directions: seq<(int, int)> := [(1, 0), (0, 1), (-1, 1), (-1, 0), (0, -1), (1, -1)]

  function Neighbour(g: PointyHexGrid, k: nat): PointyHexGrid
    requires k < |Directions|
  {
    PointyHexGrid(g.x + Directions[k].0, g.y + Directions[k].1)
  }

  /** One third of the squared Euclidean distance, in tile units, between the
      axial point `(q, r)` and the centre of `g`. */
  function SqDistance(q: real, r: real, g: PointyHexGrid): real {
    var a := g.x as real - q;
    var b := g.y as real - r;
    a * a + a * b + b * b
  }

  /** Cube offsets `(a, b, -a - b)` that pairwise differ by at most one: the
      offset of a point from a cell centre when it lies in that cell's closed
      hexagon. */
  predicate CubeClose(a: real, b: real) {
    var c := -a - b;
    Abs(a - b) <= 1.0 && Abs(b - c) <= 1.0 && Abs(c - a) <= 1.0
  }

  /** The axial point `(q, r)` lies in the closed hexagon of `g`. */
  predicate WithinHexagon(q: real, r: real, g: PointyHexGrid) {
    CubeClose(g.x as real - q, g.y as real - r)
  }

  /** Rounds q, r and s = -q - r to integers, then recomputes the component
      with the strictly largest rounding error from the other two (q first,
      then r; otherwise s, which is discarded). */
  function NearestGrid(q: real, r: real): (g: PointyHexGrid)
    ensures WithinHexagon(q, r, g)
    ensures Abs(g.x as real - q) <= 2.0 / 3.0 && Abs(g.y as real - r) <= 2.0 / 3.0
    ensures g.x == Round(q) || g.y == Round(r)
  {
    var g := Repair(q, r, Round(q), Round(r), Round(-q - r));
    CubeCloseBounds(g.x as real - q, g.y as real - r);
    g
  }

  /** The rounding errors are at most one half each. */
  predicate RoundedWell(q: real, r: real, qRound: int, rRound: int, sRound: int) {
    && Abs(qRound as real - q) <= 0.5
    && Abs(rRound as real - r) <= 0.5
    && Abs(sRound as real - (-q - r)) <= 0.5
  }

  /** The repair step on already rounded components. */
  function Repair(q: real, r: real, qRound: int, rRound: int, sRound: int): (g: PointyHexGrid)
    requires RoundedWell(q, r, qRound, rRound, sRound)
    ensures WithinHexagon(q, r, g)
    ensures g.x == qRound || g.y == rRound
  {
    var qDiff, rDiff, sDiff := Abs(qRound as real - q), Abs(rRound as real - r), Abs(sRound as real - (-q - r));
    if qDiff > rDiff && qDiff > sDiff then
      RepairQ(q, r, qRound, rRound, sRound);
      PointyHexGrid(-rRound - sRound, rRound)
    else if rDiff > sDiff then
      RepairR(q, r, qRound, rRound, sRound);
      PointyHexGrid(qRound, -qRound - sRound)
    else
      RepairS(q, r, qRound, rRound, sRound);
      PointyHexGrid(qRound, rRound)
  }

  /** Recomputing q when its error is the largest. */
  lemma RepairQ(q: real, r: real, qRound: int, rRound: int, sRound: int)
    requires RoundedWell(q, r, qRound, rRound, sRound)
    requires Abs(qRound as real - q) >= Abs(rRound as real - r)
    requires Abs(qRound as real - q) >= Abs(sRound as real - (-q - r))
    ensures WithinHexagon(q, r, PointyHexGrid(-rRound - sRound, rRound))
  {
    var eq, er, es := qRound as real - q, rRound as real - r, sRound as real - (-q - r);
    var k := qRound + rRound + sRound;
    RepairLargest(eq, er, es, k);
    assert (-rRound - sRound) as real - q == eq - k as real;
  }

  /** Recomputing r when its error is the largest. */
  lemma RepairR(q: real, r: real, qRound: int, rRound: int, sRound: int)
    requires RoundedWell(q, r, qRound, rRound, sRound)
    requires Abs(rRound as real - r) >= Abs(qRound as real - q)
    requires Abs(rRound as real - r) >= Abs(sRound as real - (-q - r))
    ensures WithinHexagon(q, r, PointyHexGrid(qRound, -qRound - sRound))
  {
    var eq, er, es := qRound as real - q, rRound as real - r, sRound as real - (-q - r);
    var k := qRound + rRound + sRound;
    RepairLargest(er, es, eq, k);
    assert (-qRound - sRound) as real - r == er - k as real;
  }

  /** Dropping s when its error is the largest. */
  lemma RepairS(q: real, r: real, qRound: int, rRound: int, sRound: int)
    requires RoundedWell(q, r, qRound, rRound, sRound)
    requires Abs(sRound as real - (-q - r)) >= Abs(qRound as real - q)
    requires Abs(sRound as real - (-q - r)) >= Abs(rRound as real - r)
    ensures WithinHexagon(q, r, PointyHexGrid(qRound, rRound))
  {
    var eq, er, es := qRound as real - q, rRound as real - r, sRound as real - (-q - r);
    RepairLargest(es, eq, er, qRound + rRound + sRound);
  }

  /** The arithmetic behind the repair: with three rounding errors of at most
      one half summing to the integer `k`, replacing the largest error `e1` by
      `e1 - k` (recomputing that component) leaves a cube offset whose
      components pairwise differ by at most one, in every order. */
  lemma RepairLargest(e1: real, e2: real, e3: real, k: int)
    requires Abs(e1) <= 0.5 && Abs(e2) <= 0.5 && Abs(e3) <= 0.5
    requires e1 + e2 + e3 == k as real
    requires Abs(e1) >= Abs(e2) && Abs(e1) >= Abs(e3)
    ensures
      var a := e1 - k as real;
      CubeClose(a, e2) && CubeClose(e3, a) && CubeClose(e2, e3)
  {
    assert -2 < k < 2;
  }

  /** Each component of a close cube offset is at most two thirds. */
  lemma CubeCloseBounds(a: real, b: real)
    requires CubeClose(a, b)
    ensures Abs(a) <= 2.0 / 3.0 && Abs(b) <= 2.0 / 3.0
  {
  }

  /** The tie-break, stated as which component may differ from plain rounding:
      q only when its error is strictly the largest, r only when its error is
      strictly larger than s's and not smaller than q's, and never both. */
  lemma NearestGridTieBreak(q: real, r: real)
    ensures
      var g := NearestGrid(q, r);
      var qDiff, rDiff, sDiff := Abs(Round(q) as real - q), Abs(Round(r) as real - r), Abs(Round(-q - r) as real - (-q - r));
      && (g.x != Round(q) ==> qDiff > rDiff && qDiff > sDiff && g.y == Round(r) && -g.x - g.y == Round(-q - r))
      && (g.y != Round(r) ==> rDiff > sDiff && rDiff >= qDiff && g.x == Round(q) && -g.x - g.y == Round(-q - r))
  {
  }

  /** The centre of a cell snaps to that cell. */
  lemma NearestGridOfCentre(g: PointyHexGrid)
    ensures NearestGrid(g.x as real, g.y as real) == g
  {
    RoundIntegral(g.x);
    RoundIntegral(g.y);
    RoundIntegral(-g.x - g.y);
  }

  /** Being in the hexagon of `g` means no neighbouring centre is closer. */
  lemma WithinHexagonIsNearest(q: real, r: real, g: PointyHexGrid, k: nat)
    requires WithinHexagon(q, r, g) && k < |Directions|
    ensures SqDistance(q, r, g) <= SqDistance(q, r, Neighbour(g, k))
  {
    var a := g.x as real - q;
    var b := g.y as real - r;
    var u, v := Directions[k].0 as real, Directions[k].1 as real;
    Expand(a, b, u, v);
    assert u * u + u * v + v * v == 1.0;
  }

  lemma Expand(a: real, b: real, u: real, v: real)
    ensures (a + u) * (a + u) + (a + u) * (b + v) + (b + v) * (b + v)
         == a * a + a * b + b * b + u * (2.0 * a + b) + v * (a + 2.0 * b) + (u * u + u * v + v * v)
  {
  }
}
