/** The game board: per-tile state in a square buffer addressed like the
    hexagonal table, the whole-board queries, and loading from a grid of
    characters. */
module Model {
  import opened Options
  import opened HexGrid
  import opened Events
  import HT = HexagonalTable

  datatype TileState = TileState(isOpen: bool, isFlag: bool, isMine: bool)

  /** The derived `Default`: closed, unflagged, safe. */
  const DefaultTile := TileState(false, false, false)

  /** `board` has `(2N - 1)^2` slots; `moveStack` lists applied moves, most
      recent last. */
  datatype GameBoard = GameBoard(tilesPerSide: nat, board: seq<TileState>, moveStack: seq<OnMoveTile>)

  function Bound(n: nat): int {
    2 * n - 1
  }

  /** What every board built by `New` or `Load` satisfies. */
  predicate Valid(b: GameBoard) {
    b.tilesPerSide >= 1 && |b.board| == Bound(b.tilesPerSide) * Bound(b.tilesPerSide)
  }

  /** A fresh board: every slot default, no moves. */
  function New(tilesPerSide: nat): (b: GameBoard)
    requires tilesPerSide >= 1
    ensures Valid(b) && b.tilesPerSide == tilesPerSide && b.moveStack == []
    ensures forall g :: Get(b, g) == if IsOutOfBound(b, g) then None else Some(DefaultTile)
    ensures Consistent(b)
    ensures forall i | 0 <= i < |b.board| :: b.board[i] == DefaultTile
  {
    var bound := Bound(tilesPerSide);
    var b := GameBoard(tilesPerSide, seq(bound * bound, _ => DefaultTile), []);
    forall g ensures Get(b, g) == if IsOutOfBound(b, g) then None else Some(DefaultTile) {
      TableView(b, g);
    }
    b
  }

  /** The diamond clip for a board of side `n`. */
  predicate OutOfBound(n: nat, g: PointyHexGrid) {
    || g.x < 0
    || g.x >= Bound(n)
    || g.y < 0
    || g.y >= Bound(n)
    || g.x + g.y < n - 1
    || g.x + g.y > 3 * (n - 1)
  }

  predicate IsOutOfBound(b: GameBoard, g: PointyHexGrid) {
    OutOfBound(b.tilesPerSide, g)
  }

  /** On a board of side `n`, a cell is off the board exactly when it is
      farther than `n - 1` from the centre cell `(n - 1, n - 1)`. A side of
      zero leaves no cell on the board. */
  lemma OutOfBoundIsDistance(n: nat, g: PointyHexGrid)
    ensures OutOfBound(n, g) <==> HT.CubeNorm(g.x - (n - 1), g.y - (n - 1)) > n - 1
  {
  }

  function Index(b: GameBoard, g: PointyHexGrid): int {
    g.y * (2 * b.tilesPerSide - 1) + g.x
  }

  /** `None` off the board, otherwise the tile (a slot beyond the buffer also
      reads as `None`, as `Vec::get` does). */
  function Get(b: GameBoard, g: PointyHexGrid): (r: Option<TileState>)
    ensures r.Some? ==> !IsOutOfBound(b, g) && 0 <= Index(b, g) < |b.board| && r.value == b.board[Index(b, g)]
    ensures Valid(b) ==> (r.None? <==> IsOutOfBound(b, g))
  {
    assert Valid(b) && !IsOutOfBound(b, g) ==> 0 <= Index(b, g) < |b.board| by {
      if Valid(b) && !IsOutOfBound(b, g) {
        HT.SlotInRange(AsTable(b), g.x, g.y);
      }
    }
    if IsOutOfBound(b, g) then None
    else if 0 <= Index(b, g) < |b.board| then Some(b.board[Index(b, g)])
    else None
  }

  /** Mutable access, modelled as the slot the returned reference designates. */
  function GetMut(b: GameBoard, g: PointyHexGrid): (r: Option<nat>)
    ensures r.Some? ==> r.value == Index(b, g) && r.value < |b.board|
    ensures r.Some? <==> Get(b, g).Some?
    ensures r.Some? ==> Get(b, g).value == b.board[r.value]
  {
    if IsOutOfBound(b, g) then None
    else if 0 <= Index(b, g) < |b.board| then Some(Index(b, g))
    else None
  }

  /** `if let Some(tile) = b.get_mut(g) { *tile = t }`. */
  function Put(b: GameBoard, g: PointyHexGrid, t: TileState): GameBoard {
    match GetMut(b, g)
    case Some(i) => b.(board := b.board[i := t])
    case None => b
  }

  /** The board's storage seen as a hexagonal table of tiles. */
  function AsTable(b: GameBoard): HT.Table<TileState> {
    HT.Table(b.tilesPerSide, 2 * b.tilesPerSide - 1, b.board)
  }

  /** The board addresses its tiles exactly as the hexagonal table does. */
  lemma TableView(b: GameBoard, g: PointyHexGrid)
    ensures Valid(b) <==> HT.Valid(AsTable(b))
    ensures IsOutOfBound(b, g) <==> HT.IsOutOfBound(AsTable(b), g.x, g.y)
    ensures Index(b, g) == HT.Slot(AsTable(b), g.x, g.y)
    ensures Get(b, g) == HT.Get(AsTable(b), g.x, g.y)
    ensures GetMut(b, g) == HT.GetMut(AsTable(b), g.x, g.y)
  {
  }

  /** On a valid board, `get` and `get_mut` fail exactly off the board, and
      succeed on the same slot. */
  lemma GetSpec(b: GameBoard, g: PointyHexGrid)
    requires Valid(b)
    ensures Get(b, g).None? <==> IsOutOfBound(b, g)
    ensures GetMut(b, g).None? <==> IsOutOfBound(b, g)
    ensures GetMut(b, g).Some? ==> Get(b, g) == Some(b.board[GetMut(b, g).value])
  {
    TableView(b, g);
  }

  /** Writing through one cell changes that cell's reading and no other. */
  lemma PutSpec(b: GameBoard, g: PointyHexGrid, t: TileState, h: PointyHexGrid)
    requires Valid(b)
    ensures Valid(Put(b, g, t)) && Put(b, g, t).tilesPerSide == b.tilesPerSide
    ensures Put(b, g, t).moveStack == b.moveStack
    ensures Get(Put(b, g, t), h) == if h == g && !IsOutOfBound(b, g) then Some(t) else Get(b, h)
  {
    TableView(b, g);
    TableView(b, h);
    TableView(Put(b, g, t), h);
    assert AsTable(Put(b, g, t)) == HT.Write(AsTable(b), g.x, g.y, t);
    if h != g {
      HT.WriteFrame(AsTable(b), g.x, g.y, t, h.x, h.y);
    }
  }

  /** Distinct cells on the board occupy distinct slots. */
  lemma IndexInjective(b: GameBoard, g: PointyHexGrid, h: PointyHexGrid)
    requires Valid(b) && !IsOutOfBound(b, g) && !IsOutOfBound(b, h) && g != h
    ensures Index(b, g) != Index(b, h)
  {
    TableView(b, g);
    TableView(b, h);
    if Index(b, g) == Index(b, h) {
      HT.SlotInjective(AsTable(b), g.x, g.y, h.x, h.y);
    }
  }

  /** The move `m` is in effect on `b`: its target is on the board and still
      open (for `Open`) or flagged (for `Flag`). */
  predicate Applied(b: GameBoard, m: OnMoveTile) {
    match m
    case Open(t) => Get(b, t).Some? && Get(b, t).value.isOpen
    case Flag(t) => Get(b, t).Some? && Get(b, t).value.isFlag
  }

  /** The invariant the move systems keep: no tile both open and flagged,
      every stacked move still in effect, and no two stacked moves on the
      same cell. */
  ghost predicate Consistent(b: GameBoard) {
    && Valid(b)
    && (forall g | Get(b, g).Some? :: !(Get(b, g).value.isOpen && Get(b, g).value.isFlag))
    && (forall k | 0 <= k < |b.moveStack| :: Applied(b, b.moveStack[k]))
    && (forall j, k | 0 <= j < k < |b.moveStack| :: b.moveStack[j].target != b.moveStack[k].target)
  }

  // Adjacent mines.

  /** The cell holds a mine (false off the board). */
  predicate MineAt(b: GameBoard, g: PointyHexGrid) {
    Get(b, g).Some? && Get(b, g).value.isMine
  }

  /** For each direction in order, whether the neighbour there holds a mine. */
  function MineFlags(b: GameBoard, g: PointyHexGrid): (f: seq<bool>)
    ensures |f| == |Directions|
    ensures forall j | 0 <= j < |f| :: f[j] == MineAt(b, Neighbour(g, j))
  {
    seq(|Directions|, j requires 0 <= j < |Directions| => MineAt(b, Neighbour(g, j)))
  }

  /** The running count of the loop: the flags `f[k..]` that are set. */
  function CountSet(f: seq<bool>, k: nat): nat
    decreases |f| - k
  {
    if k >= |f| then 0 else (if f[k] then 1 else 0) + CountSet(f, k + 1)
  }

  /** The positions `k <= j` at which `f` is set. */
  function SetFrom(f: seq<bool>, k: nat): set<nat> {
    set j: nat | k <= j < |f| && f[j]
  }

  lemma {:induction false} CountSetIsCardinality(f: seq<bool>, k: nat)
    requires k <= |f|
    ensures CountSet(f, k) == |SetFrom(f, k)|
    ensures CountSet(f, k) <= |f| - k
    decreases |f| - k
  {
    if k < |f| {
      CountSetIsCardinality(f, k + 1);
      var rest := SetFrom(f, k + 1);
      assert k !in rest;
      if f[k] {
        assert SetFrom(f, k) == rest + {k};
      } else {
        assert SetFrom(f, k) == rest;
      }
    } else {
      assert SetFrom(f, k) == {};
    }
  }

  /** The directions in which a mine lies next to `g`. */
  function MineDirections(b: GameBoard, g: PointyHexGrid): set<nat> {
    set j: nat | j < |Directions| && MineAt(b, Neighbour(g, j))
  }

  /** `None` off the board; otherwise the number of the six neighbours that
      are on the board and hold a mine. */
  function CountAdjacentMines(b: GameBoard, g: PointyHexGrid): (r: Option<nat>)
    ensures r.None? <==> IsOutOfBound(b, g)
    ensures r.Some? ==> r.value == |MineDirections(b, g)| && r.value <= 6
  {
    if IsOutOfBound(b, g) then None
    else
      var f := MineFlags(b, g);
      CountSetIsCardinality(f, 0);
      assert SetFrom(f, 0) == MineDirections(b, g);
      Some(CountSet(f, 0))
  }

  // Whole-board counts. They scan every slot, padding included.

  /** The number of tiles of `s` satisfying `p`. */
  function Count(s: seq<TileState>, p: TileState -> bool): nat {
    if s == [] then 0 else (if p(s[0]) then 1 else 0) + Count(s[1..], p)
  }

  predicate IsOpen(t: TileState) { t.isOpen }
  predicate IsMine(t: TileState) { t.isMine }
  predicate IsFlaggedMine(t: TileState) { t.isMine && t.isFlag }

  function CountOpenTile(b: GameBoard): (r: nat)
    ensures r == |set i | 0 <= i < |b.board| && IsOpen(b.board[i])|
  {
    CountIsCardinality(b.board, IsOpen);
    var p: TileState -> bool := IsOpen;
    assert (set i | 0 <= i < |b.board| && p(b.board[i])) == (set i | 0 <= i < |b.board| && IsOpen(b.board[i]));
    Count(b.board, IsOpen)
  }

  function CountMines(b: GameBoard): (r: nat)
    ensures r == |set i | 0 <= i < |b.board| && IsMine(b.board[i])|
  {
    CountIsCardinality(b.board, IsMine);
    var p: TileState -> bool := IsMine;
    assert (set i | 0 <= i < |b.board| && p(b.board[i])) == (set i | 0 <= i < |b.board| && IsMine(b.board[i]));
    Count(b.board, IsMine)
  }

  function CountFlaggedMines(b: GameBoard): (r: nat)
    ensures r == |set i | 0 <= i < |b.board| && IsFlaggedMine(b.board[i])|
  {
    CountIsCardinality(b.board, IsFlaggedMine);
    var p: TileState -> bool := IsFlaggedMine;
    assert (set i | 0 <= i < |b.board| && p(b.board[i])) == (set i | 0 <= i < |b.board| && IsFlaggedMine(b.board[i]));
    Count(b.board, IsFlaggedMine)
  }

  /** Every mine carries a flag. */
  predicate AllMinesFlagged(s: seq<TileState>) {
    forall i | 0 <= i < |s| :: s[i].isMine ==> s[i].isFlag
  }

  /** Mines not yet flagged. The subtraction cannot underflow, and the count
      is zero exactly when every mine is flagged. */
  function CountRemainingMines(b: GameBoard): (r: nat)
    ensures r <= CountMines(b)
    ensures r == 0 <==> AllMinesFlagged(b.board)
  {
    FlaggedMinesBound(b.board);
    CountMines(b) - CountFlaggedMines(b)
  }

  /** Flagged mines are mines, so there are never more of them; and there are
      as many exactly when every mine is flagged. */
  lemma {:induction false} FlaggedMinesBound(s: seq<TileState>)
    ensures Count(s, IsFlaggedMine) <= Count(s, IsMine)
    ensures Count(s, IsFlaggedMine) == Count(s, IsMine) <==> AllMinesFlagged(s)
  {
    if s != [] {
      FlaggedMinesBound(s[1..]);
      assert AllMinesFlagged(s) <==> (s[0].isMine ==> s[0].isFlag) && AllMinesFlagged(s[1..]) by {
        if AllMinesFlagged(s[1..]) && (s[0].isMine ==> s[0].isFlag) {
          forall i | 0 <= i < |s| ensures s[i].isMine ==> s[i].isFlag {
            if i > 0 {
              assert s[i] == s[1..][i - 1];
            }
          }
        }
        if AllMinesFlagged(s) {
          forall i | 0 <= i < |s[1..]| ensures s[1..][i].isMine ==> s[1..][i].isFlag {
            assert s[1..][i] == s[i + 1];
          }
        }
      }
    }
  }

  /** `Count` is the size of the set of slots it accepts. */
  lemma {:induction false} CountIsCardinality(s: seq<TileState>, p: TileState -> bool)
    ensures Count(s, p) == |set i | 0 <= i < |s| && p(s[i])|
    decreases |s|
  {
    if s != [] {
      var init, last := s[..|s| - 1], s[|s| - 1];
      assert s == init + [last];
      CountIsCardinality(init, p);
      CountSnoc(init, last, p);
      var before := set i | 0 <= i < |init| && p(init[i]);
      var all := set i | 0 <= i < |s| && p(s[i]);
      assert |init| !in before;
      if p(last) {
        assert all == before + {|init|};
      } else {
        assert all == before;
      }
    }
  }

  lemma {:induction false} CountSnoc(s: seq<TileState>, t: TileState, p: TileState -> bool)
    ensures Count(s + [t], p) == Count(s, p) + if p(t) then 1 else 0
  {
    if s != [] {
      assert (s + [t])[1..] == s[1..] + [t];
      CountSnoc(s[1..], t, p);
    }
  }

  // Loading.

  datatype LoadError = InvalidSize | MalformedBoard

  /** `.` closed safe, `O` open safe, `M` closed mine; anything else is refused. */
  function DecodeTile(c: char): (r: Option<TileState>)
    ensures r.Some? <==> c == '.' || c == 'O' || c == 'M'
    ensures r.Some? ==> !r.value.isFlag && !(r.value.isOpen && r.value.isMine)
  {
    match c
    case '.' => Some(TileState(false, false, false))
    case 'O' => Some(TileState(true, false, false))
    case 'M' => Some(TileState(false, false, true))
    case _ => None
  }

  /** The tiles a board text can describe: unflagged, and not an open mine. */
  predicate Describable(t: TileState) {
    !t.isFlag && !(t.isOpen && t.isMine)
  }

  /** The character a describable tile is written as. */
  function EncodeTile(t: TileState): char
    requires Describable(t)
  {
    if t.isOpen then 'O' else if t.isMine then 'M' else '.'
  }

  /** Decoding is a bijection between the three tile characters and the
      describable tiles. */
  lemma DecodeEncode(t: TileState, c: char)
    ensures Describable(t) ==> DecodeTile(EncodeTile(t)) == Some(t)
    ensures DecodeTile(c).Some? ==> Describable(DecodeTile(c).value) && EncodeTile(DecodeTile(c).value) == c
  {
  }

  /** The tile the text gives for `g`: `None` if its row is missing or too
      short, or the character is not a tile. */
  function DecodeAt(text: seq<seq<char>>, g: PointyHexGrid): Option<TileState> {
    if 0 <= g.y < |text| && 0 <= g.x < |text[g.y]| then DecodeTile(text[g.y][g.x]) else None
  }

  /** Every on-board cell of a side-`n` board has a tile character. */
  ghost predicate WellFormed(n: nat, text: seq<seq<char>>) {
    forall g | !OutOfBound(n, g) :: DecodeAt(text, g).Some?
  }

  /** Slot `i` of a side-`n` buffer holds an on-board cell; the other slots
      are the padding corners of the square. */
  ghost predicate OnBoardSlot(n: nat, i: int) {
    exists g | !OutOfBound(n, g) :: g.y * (2 * n - 1) + g.x == i
  }

  /** Cells the column-major loop has visited before `(x, y)`. */
  ghost predicate Visited(g: PointyHexGrid, x: int, y: int) {
    g.x < x || (g.x == x && g.y < y)
  }

  /** The load loop of `GameBoard::load`, given the side and the rows already
      split into tokens. Failures that the game reports by panicking are
      errors here. */
  method Load(n: nat, text: seq<seq<char>>) returns (r: Result<GameBoard, LoadError>)
    ensures n == 0 <==> r == Err(InvalidSize)
    ensures n >= 1 ==> (r.Ok? <==> WellFormed(n, text))
    ensures r.Ok? ==> Valid(r.value) && r.value.tilesPerSide == n && r.value.moveStack == []
    ensures r.Ok? ==> Consistent(r.value)
    ensures r.Ok? ==> forall g | !IsOutOfBound(r.value, g) :: Get(r.value, g) == DecodeAt(text, g)
    ensures r.Ok? ==> forall i | 0 <= i < |r.value.board| && !OnBoardSlot(n, i) :: r.value.board[i] == DefaultTile
  {
    if n == 0 {
      return Err(InvalidSize);
    }
    var bound := Bound(n);
    if |text| < bound {
      // The token reader runs out of rows; the last row has on-board cells.
      assert DecodeAt(text, PointyHexGrid(0, bound - 1)).None?;
      return Err(MalformedBoard);
    }
    var b := New(n);
    var x := 0;
    while x < bound
      invariant 0 <= x <= bound
      invariant Valid(b) && b.tilesPerSide == n && b.moveStack == []
      invariant forall g | !IsOutOfBound(b, g) && Visited(g, x, 0) :: DecodeAt(text, g).Some? && Get(b, g) == DecodeAt(text, g)
      invariant forall g | !IsOutOfBound(b, g) && !Visited(g, x, 0) :: Get(b, g) == Some(DefaultTile)
      invariant forall i | 0 <= i < |b.board| && !OnBoardSlot(n, i) :: b.board[i] == DefaultTile
    {
      var y := 0;
      while y < bound
        invariant 0 <= y <= bound
        invariant Valid(b) && b.tilesPerSide == n && b.moveStack == []
        invariant forall g | !IsOutOfBound(b, g) && Visited(g, x, y) :: DecodeAt(text, g).Some? && Get(b, g) == DecodeAt(text, g)
        invariant forall g | !IsOutOfBound(b, g) && !Visited(g, x, y) :: Get(b, g) == Some(DefaultTile)
        invariant forall i | 0 <= i < |b.board| && !OnBoardSlot(n, i) :: b.board[i] == DefaultTile
      {
        var g := PointyHexGrid(x, y);
        if GetMut(b, g).Some? {
          if x >= |text[y]| {
            return Err(MalformedBoard);
          }
          match DecodeTile(text[y][x]) {
            case None =>
              return Err(MalformedBoard);
            case Some(t) =>
              forall h ensures Get(Put(b, g, t), h) == if h == g && !IsOutOfBound(b, g) then Some(t) else Get(b, h) {
                PutSpec(b, g, t, h);
              }
              PutSpec(b, g, t, g);
              assert OnBoardSlot(n, Index(b, g));
              b := Put(b, g, t);
          }
        } else {
          GetSpec(b, g);
        }
        y := y + 1;
      }
      x := x + 1;
    }
    return Ok(b);
  }
}
