/** The generic hexagonal storage: a hexagon with `hexPerSide` cells per side
    kept in a square buffer of `hexBound * hexBound` slots, where
    `hexBound == 2 * hexPerSide - 1`. Only the cells inside the diamond-clipped
    window are addressable; the corners of the square are padding. */
module HexagonalTable {
  import opened Options

  datatype Table<T> = Table(hexPerSide: nat, hexBound: int, buf: seq<T>)

  /** What every table built by `New` satisfies. */
  predicate Valid<T>(t: Table<T>) {
    && t.hexPerSide >= 1
    && t.hexBound == 2 * t.hexPerSide - 1
    && |t.buf| == t.hexBound * t.hexBound
  }

  /** A table of side `hexPerSide` whose every slot holds `default`. A side of
      zero is excluded: `2 * 0 - 1` underflows the unsigned width in the game. */
  function New<T>(hexPerSide: nat, default: T): (t: Table<T>)
    requires hexPerSide >= 1
    ensures Valid(t)
    ensures HexagonsPerSide(t) == hexPerSide
    ensures HexagonsBound(t) == 2 * hexPerSide - 1
    ensures forall x, y :: Get(t, x, y) == if IsOutOfBound(t, x, y) then None else Some(default)
  {
    var bound := 2 * hexPerSide - 1;
    var t := Table(hexPerSide, bound, seq(bound * bound, _ => default));
    forall x, y ensures Get(t, x, y) == if IsOutOfBound(t, x, y) then None else Some(default) {
      if !IsOutOfBound(t, x, y) {
        SlotInRange(t, x, y);
      }
    }
    t
  }

  /** The side length; on a valid table it fixes the number of playable
      cells. */
  function HexagonsPerSide<T>(t: Table<T>): (n: nat)
    ensures Valid(t) ==> n >= 1 && CountInBound(t) == 3 * n * n - 3 * n + 1
  {
    if Valid(t) then InBoundCount(t); t.hexPerSide else t.hexPerSide
  }

  /** The side of the square buffer; on a valid table it is `2N - 1` and the
      buffer holds its square. */
  function HexagonsBound<T>(t: Table<T>): (b: int)
    ensures Valid(t) ==> b == 2 * HexagonsPerSide(t) - 1 && |t.buf| == b * b
  {
    t.hexBound
  }

  /** The diamond clip: outside the square, or outside the band
      `hexPerSide - 1 <= x + y <= 3 * (hexPerSide - 1)`. */
  predicate IsOutOfBound<T>(t: Table<T>, x: int, y: int) {
    || x < 0
    || y < 0
    || x >= t.hexBound
    || y >= t.hexBound
    || x + y < t.hexPerSide - 1
    || x + y > 3 * (t.hexPerSide - 1)
  }

  function AbsInt(a: int): nat {
    if a < 0 then -a else a
  }

  /** The hexagonal (cube) distance from `(0, 0)` to the axial offset
      `(a, b)`: the largest of `|a|`, `|b|` and `|a + b|`. */
  function CubeNorm(a: int, b: int): nat {
    var (u, v, w) := (AbsInt(a), AbsInt(b), AbsInt(a + b));
    if u >= v && u >= w then u else if v >= w then v else w
  }

  /** The window is the set of cells within distance `N - 1` of the centre
      cell `(N - 1, N - 1)`: a hexagon with `N` cells per side. */
  lemma OutOfBoundIsDistance<T>(t: Table<T>, x: int, y: int)
    requires Valid(t)
    ensures IsOutOfBound(t, x, y) <==> CubeNorm(x - (t.hexPerSide - 1), y - (t.hexPerSide - 1)) > t.hexPerSide - 1
  {
  }

  /** The row-major slot of a cell; the one index formula of the table. */
  function Slot<T>(t: Table<T>, x: int, y: int): int {
    y * t.hexBound + x
  }

  /** Read access: `None` off the board, otherwise the slot's content (a slot
      beyond the buffer would also read as `None`, as `Vec::get` does). */
  function Get<T>(t: Table<T>, x: int, y: int): (r: Option<T>)
    ensures r.Some? ==> 0 <= Slot(t, x, y) < |t.buf| && r.value == t.buf[Slot(t, x, y)]
    ensures r.Some? ==> !IsOutOfBound(t, x, y)
    ensures Valid(t) ==> (r.None? <==> IsOutOfBound(t, x, y))
  {
    if IsOutOfBound(t, x, y) then None
    else
      var i := Slot(t, x, y);
      if 0 <= i < |t.buf| then Some(t.buf[i])
      else
        assert !Valid(t) by {
          if Valid(t) {
            SlotInRange(t, x, y);
          }
        }
        None
  }

  /** Mutable access, modelled as the slot the returned reference designates. */
  function GetMut<T>(t: Table<T>, x: int, y: int): (r: Option<nat>)
    ensures r.Some? ==> r.value == Slot(t, x, y) && r.value < |t.buf|
    ensures r.Some? ==> !IsOutOfBound(t, x, y)
    ensures Valid(t) ==> (r.None? <==> IsOutOfBound(t, x, y))
  {
    if IsOutOfBound(t, x, y) then None
    else
      var i := Slot(t, x, y);
      if 0 <= i < |t.buf| then Some(i)
      else
        assert !Valid(t) by {
          if Valid(t) {
            SlotInRange(t, x, y);
          }
        }
        None
  }

  /** `if let Some(slot) = t.get_mut((x, y)) { *slot = v }`. */
  function Write<T>(t: Table<T>, x: int, y: int, v: T): (r: Table<T>)
    ensures r.hexPerSide == t.hexPerSide && r.hexBound == t.hexBound && |r.buf| == |t.buf|
    ensures Valid(t) ==> Get(r, x, y) == if IsOutOfBound(t, x, y) then None else Some(v)
  {
    match GetMut(t, x, y)
    case Some(i) => t.(buf := t.buf[i := v])
    case None => t
  }

  /** `get` and `get_mut` address the same slot. */
  lemma GetMatchesGetMut<T>(t: Table<T>, x: int, y: int)
    ensures Get(t, x, y) == match GetMut(t, x, y)
                            case Some(i) => Some(t.buf[i])
                            case None => None
  {
  }

  /** Every cell inside the window lies inside the buffer. */
  lemma SlotInRange<T>(t: Table<T>, x: int, y: int)
    requires Valid(t) && !IsOutOfBound(t, x, y)
    ensures 0 <= Slot(t, x, y) < |t.buf|
  {
    var b := t.hexBound;
    assert 0 <= y * b <= (b - 1) * b by {
      MulLeftMonotone(0, y, b);
      MulLeftMonotone(y, b - 1, b);
    }
    assert (b - 1) * b + (b - 1) == b * b - 1;
  }

  lemma MulLeftMonotone(a: int, c: int, b: int)
    requires a <= c && b >= 0
    ensures a * b <= c * b
  {
    assert c * b - a * b == (c - a) * b;
  }

  /** A cell on an earlier row has a smaller slot. */
  lemma SlotOrder(b: int, x1: int, y1: int, x2: int, y2: int)
    requires 0 <= x1 < b && 0 <= x2 < b && y1 < y2
    ensures y1 * b + x1 < y2 * b + x2
  {
    MulLeftMonotone(y1 + 1, y2, b);
    assert (y1 + 1) * b == y1 * b + b;
  }

  /** Two distinct cells inside the window never share a slot. */
  lemma SlotInjective<T>(t: Table<T>, x1: int, y1: int, x2: int, y2: int)
    requires Valid(t) && !IsOutOfBound(t, x1, y1) && !IsOutOfBound(t, x2, y2)
    requires Slot(t, x1, y1) == Slot(t, x2, y2)
    ensures x1 == x2 && y1 == y2
  {
    if y1 < y2 {
      SlotOrder(t.hexBound, x1, y1, x2, y2);
    } else if y2 < y1 {
      SlotOrder(t.hexBound, x2, y2, x1, y1);
    }
  }

  /** Writing one cell leaves every other cell's reading unchanged. */
  lemma WriteFrame<T>(t: Table<T>, x: int, y: int, v: T, x': int, y': int)
    requires Valid(t)
    requires x' != x || y' != y
    ensures Get(Write(t, x, y, v), x', y') == Get(t, x', y')
  {
    if !IsOutOfBound(t, x, y) && !IsOutOfBound(t, x', y') && Slot(t, x, y) == Slot(t, x', y') {
      SlotInjective(t, x, y, x', y');
    }
  }

  // Counting the cells of the window, row by row.

  /** In-window cells `(x', y)` with `x <= x' < hexBound`. */
  function CountRowFrom<T>(t: Table<T>, y: int, x: int): nat
    decreases t.hexBound - x
  {
    if x >= t.hexBound then 0
    else (if IsOutOfBound(t, x, y) then 0 else 1) + CountRowFrom(t, y, x + 1)
  }

  /** In-window cells on the rows `y .. hexBound - 1`. */
  function CountRowsFrom<T>(t: Table<T>, y: int): nat
    decreases t.hexBound - y
  {
    if y >= t.hexBound then 0
    else CountRowFrom(t, y, 0) + CountRowsFrom(t, y + 1)
  }

  /** The number of cells for which `IsOutOfBound` is false. */
  function CountInBound<T>(t: Table<T>): nat {
    CountRowsFrom(t, 0)
  }

  function Max(a: int, b: int): int { if a >= b then a else b }
  function Min(a: int, b: int): int { if a <= b then a else b }

  lemma {:induction false} RowFromCount<T>(t: Table<T>, y: int, x: int)
    requires Valid(t) && 0 <= y < t.hexBound && 0 <= x <= t.hexBound
    ensures
      var n := t.hexPerSide;
      var lo := Max(Max(0, n - 1 - y), x);
      var hi := Min(2 * n - 2, 3 * n - 3 - y);
      CountRowFrom(t, y, x) == Max(0, hi - lo + 1)
    decreases t.hexBound - x
  {
    if x < t.hexBound {
      RowFromCount(t, y, x + 1);
    }
  }

  /** Row `y` holds `n + y` cells above the middle row and `3n - 2 - y` from it down. */
  lemma RowCount<T>(t: Table<T>, y: int)
    requires Valid(t) && 0 <= y < t.hexBound
    ensures
      var n := t.hexPerSide;
      CountRowFrom(t, y, 0) == if y <= n - 1 then n + y else 3 * n - 2 - y
  {
    RowFromCount(t, y, 0);
  }

  lemma {:induction false} RowsFromCount<T>(t: Table<T>, y: int)
    requires Valid(t) && 0 <= y <= t.hexBound
    ensures
      var n := t.hexPerSide;
      2 * CountRowsFrom(t, y) ==
        if y >= n - 1 then (2 * n - 1 - y) * (4 * n - 2 - y)
        else (n - 1 - y) * (3 * n - 2 + y) + n * (3 * n - 1)
    decreases t.hexBound - y
  {
    var n := t.hexPerSide;
    if y < t.hexBound {
      RowsFromCount(t, y + 1);
      RowCount(t, y);
      if y >= n - 1 {
        LowerRowsStep(n, y);
      } else if y == n - 2 {
        MiddleRowStep(n);
      } else {
        UpperRowsStep(n, y);
      }
    }
  }

  lemma LowerRowsStep(n: int, y: int)
    ensures (2 * n - 1 - y) * (4 * n - 2 - y)
         == 2 * (3 * n - 2 - y) + (2 * n - 2 - y) * (4 * n - 3 - y)
  {
  }

  lemma MiddleRowStep(n: int)
    ensures 1 * (3 * n - 2 + n - 2) + n * (3 * n - 1) == 2 * (n + n - 2) + n * (3 * n - 1)
  {
  }

  lemma UpperRowsStep(n: int, y: int)
    ensures (n - 1 - y) * (3 * n - 2 + y)
         == 2 * (n + y) + (n - 2 - y) * (3 * n - 1 + y)
  {
  }

  /** A hexagon of side `n` has the centred hexagonal number `3n^2 - 3n + 1` of cells. */
  lemma InBoundCount<T>(t: Table<T>)
    requires Valid(t)
    ensures CountInBound(t) == 3 * t.hexPerSide * t.hexPerSide - 3 * t.hexPerSide + 1
  {
    RowsFromCount(t, 0);
  }
}
