/** The second copy of the snapping rule, on plain coordinate pairs, and the
    Cartesian-to-axial conversion it is composed with. Reals stand for `f32`;
    the square root of three is a parameter, exact in the lemmas that need it. */
module HexagonalCoordinate {
  import opened RealRound
  import HexGrid

  /** Cartesian point to axial point. */
  function ToHexagonal(point: (real, real), sqrt3: real): (h: (real, real))
    ensures sqrt3 * sqrt3 == 3.0 ==>
      point.0 * point.0 + point.1 * point.1 == 3.0 * (h.0 * h.0 + h.0 * h.1 + h.1 * h.1)
  {
    var h := ((sqrt3 * point.0 - point.1) / 3.0, 2.0 / 3.0 * point.1);
    assert sqrt3 * sqrt3 == 3.0 ==>
      point.0 * point.0 + point.1 * point.1 == 3.0 * (h.0 * h.0 + h.0 * h.1 + h.1 * h.1)
    by {
      if sqrt3 * sqrt3 == 3.0 {
        AxialNorm(point.0, point.1, sqrt3, h.0, h.1);
      }
    }
    h
  }

  /** The axial quadratic form `a^2 + ab + b^2` is `(a + b/2)^2 + 3b^2/4`. */
  lemma AxialNorm(x: real, y: real, sqrt3: real, a: real, b: real)
    requires sqrt3 * sqrt3 == 3.0
    requires a == (sqrt3 * x - y) / 3.0 && b == 2.0 / 3.0 * y
    ensures x * x + y * y == 3.0 * (a * a + a * b + b * b)
  {
    var m := a + 0.5 * b;
    assert m == sqrt3 * x / 3.0;
    assert a * a + a * b + b * b == m * m + 0.75 * b * b;
    assert m * m == (sqrt3 * sqrt3) * x * x / 9.0;
    assert 0.75 * b * b == y * y / 3.0;
  }

  /** Axial point to Cartesian point. */
  function ToCartesian(point: (real, real), sqrt3: real): (c: (real, real))
    ensures sqrt3 * sqrt3 == 3.0 ==> ToHexagonal(c, sqrt3) == point
  {
    var c := (sqrt3 * (point.0 + 0.5 * point.1), 1.5 * point.1);
    assert sqrt3 * sqrt3 == 3.0 ==> ToHexagonal(c, sqrt3) == point by {
      if sqrt3 * sqrt3 == 3.0 {
        assert sqrt3 * c.0 == 3.0 * (point.0 + 0.5 * point.1) by {
          assert sqrt3 * (sqrt3 * (point.0 + 0.5 * point.1)) == (sqrt3 * sqrt3) * (point.0 + 0.5 * point.1);
        }
        var hc := ToHexagonal(c, sqrt3);
        assert hc.0 == point.0 && hc.1 == point.1;
      }
    }
    c
  }

  /** With an exact square root of three, converting to axial and back gives
      the Cartesian point again (the other order is the contract of
      `ToCartesian`). */
  lemma ConversionsInverse(p: (real, real), sqrt3: real)
    requires sqrt3 * sqrt3 == 3.0
    ensures ToCartesian(ToHexagonal(p, sqrt3), sqrt3) == p
  {
    var h := ToHexagonal(p, sqrt3);
    assert h.0 + 0.5 * h.1 == sqrt3 * p.0 / 3.0;
    assert sqrt3 * (sqrt3 * p.0 / 3.0) == p.0 by {
      assert sqrt3 * (sqrt3 * p.0 / 3.0) == (sqrt3 * sqrt3) * p.0 / 3.0;
    }
    var ch := ToCartesian(h, sqrt3);
    assert ch.0 == p.0 && ch.1 == p.1;
  }

  /** Centre of the axial cell `point` in Cartesian space. */
  function HexagonalGrid(point: (int, int), sqrt3: real): (c: (real, real))
    ensures c == ToCartesian((point.0 as real, point.1 as real), sqrt3)
  {
    var c := (sqrt3 * 0.5 * (2 * point.0 + point.1) as real, 1.5 * point.1 as real);
    var x, y := point.0 as real, point.1 as real;
    var m := (2 * point.0 + point.1) as real;
    assert 0.5 * m == x + 0.5 * y;
    assert c.0 == ToCartesian((x, y), sqrt3).0 by {
      assert sqrt3 * 0.5 * m == sqrt3 * (0.5 * m);
      assert sqrt3 * (0.5 * m) == sqrt3 * (x + 0.5 * y);
    }
    c
  }

  /** Rounds q, r and s = -q - r, then recomputes the component with the
      strictly largest rounding error (q first, then r, else s). */
  function SnapHexagonalToHexagonalGrid(point: (real, real)): (cell: (int, int))
    ensures HexGrid.WithinHexagon(point.0, point.1, HexGrid.PointyHexGrid(cell.0, cell.1))
    ensures cell.0 == Round(point.0) || cell.1 == Round(point.1)
  {
    var (q, r, s) := (point.0, point.1, -point.0 - point.1);
    SnapRounded(q, r, Round(q), Round(r), Round(s))
  }

  /** The repair half of the snap, on the rounded components; it computes
      what the repair of `HexGrid` computes. */
  function SnapRounded(q: real, r: real, qRound: int, rRound: int, sRound: int): (cell: (int, int))
    requires HexGrid.RoundedWell(q, r, qRound, rRound, sRound)
    ensures
      var g := HexGrid.Repair(q, r, qRound, rRound, sRound);
      cell == (g.x, g.y)
    ensures HexGrid.WithinHexagon(q, r, HexGrid.PointyHexGrid(cell.0, cell.1))
    ensures cell.0 == qRound || cell.1 == rRound
  {
    var s := -q - r;
    var (qDiff, rDiff, sDiff) := (Abs(qRound as real - q), Abs(rRound as real - r), Abs(sRound as real - s));
    if qDiff > rDiff && qDiff > sDiff then (-rRound - sRound, rRound)
    else if rDiff > sDiff then (qRound, -qRound - sRound)
    else (qRound, rRound)
  }

  /** The two copies of the rule agree on every input. */
  lemma SnapMatchesHexGrid(q: real, r: real)
    ensures
      var g := HexGrid.NearestGrid(q, r);
      SnapHexagonalToHexagonalGrid((q, r)) == (g.x, g.y)
  {
    var (qRound, rRound, sRound) := (Round(q), Round(r), Round(-q - r));
    assert HexGrid.NearestGrid(q, r) == HexGrid.Repair(q, r, qRound, rRound, sRound);
    assert SnapHexagonalToHexagonalGrid((q, r)) == SnapRounded(q, r, qRound, rRound, sRound);
  }

  /** An integral axial point snaps to itself. */
  lemma SnapIntegral(x: int, y: int)
    ensures SnapHexagonalToHexagonalGrid((x as real, y as real)) == (x, y)
  {
    SnapMatchesHexGrid(x as real, y as real);
    HexGrid.NearestGridOfCentre(HexGrid.PointyHexGrid(x, y));
  }

  /** Snapping a Cartesian point: convert to axial, then snap. */
  function SnapCartesianToHexagonalGrid(point: (real, real), sqrt3: real): (cell: (int, int))
    ensures
      var h := ToHexagonal(point, sqrt3);
      HexGrid.WithinHexagon(h.0, h.1, HexGrid.PointyHexGrid(cell.0, cell.1))
  {
    SnapHexagonalToHexagonalGrid(ToHexagonal(point, sqrt3))
  }

  /** With an exact square root of three, the conversion inverts the cell
      centre map on integer cells. */
  lemma ToHexagonalOfCentre(cell: (int, int), sqrt3: real)
    requires sqrt3 * sqrt3 == 3.0
    ensures ToHexagonal(HexagonalGrid(cell, sqrt3), sqrt3) == (cell.0 as real, cell.1 as real)
  {
    var x, y := cell.0 as real, cell.1 as real;
    var m := (2 * cell.0 + cell.1) as real;
    var c := HexagonalGrid(cell, sqrt3);
    var h := ToHexagonal(c, sqrt3);
    assert c.0 == sqrt3 * 0.5 * m && c.1 == 1.5 * y;
    assert sqrt3 * c.0 == 1.5 * m by {
      assert sqrt3 * (sqrt3 * 0.5 * m) == (sqrt3 * sqrt3) * 0.5 * m;
    }
    assert h.0 == (sqrt3 * c.0 - c.1) / 3.0;
    assert h.1 == 2.0 / 3.0 * c.1;
  }

  /** With an exact square root of three, the centre of every cell snaps back
      to that cell. */
  lemma SnapCartesianOfCentre(cell: (int, int), sqrt3: real)
    requires sqrt3 * sqrt3 == 3.0
    ensures SnapCartesianToHexagonalGrid(HexagonalGrid(cell, sqrt3), sqrt3) == cell
  {
    ToHexagonalOfCentre(cell, sqrt3);
    SnapIntegral(cell.0, cell.1);
  }
}
