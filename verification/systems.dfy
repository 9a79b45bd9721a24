/** The three board systems (try-open, try-flag, undo) as pure steps over the
    board and its move stack, each returning the events it writes, and the
    in-order fold of a queue of intents. */
module Systems {
  import opened Options
  import opened HexGrid
  import opened Events
  import opened Model

  /** The events a step writes, one list per event queue (`OnGameClear` is a
      unit event, so only its number matters). */
  datatype Emitted = Emitted(moved: seq<OnMoveTile>, overs: seq<OnGameOver>, clears: nat, undone: seq<OnUndoTile>)

  const Quiet := Emitted([], [], 0, [])

  /** The events of one step followed by those of the next. */
  function Then(a: Emitted, b: Emitted): Emitted {
    Emitted(a.moved + b.moved, a.overs + b.overs, a.clears + b.clears, a.undone + b.undone)
  }

  datatype Step = Step(board: GameBoard, out: Emitted)

  /** The board's shape and every slot's mine bit are the same in both. */
  ghost predicate SameMines(b: GameBoard, b': GameBoard) {
    && b'.tilesPerSide == b.tilesPerSide
    && |b'.board| == |b.board|
    && forall i | 0 <= i < |b.board| :: b'.board[i].isMine == b.board[i].isMine
  }

  /** The target is on the board and neither open nor flagged: the only case
      in which an open or flag intent changes the board. */
  predicate Playable(b: GameBoard, target: PointyHexGrid) {
    Get(b, target).Some? && !Get(b, target).value.isOpen && !Get(b, target).value.isFlag
  }

  /** `on_try_open_tile_system` for one intent. */
  function TryOpenTile(b: GameBoard, target: PointyHexGrid): (s: Step)
    ensures SameMines(b, s.board)
    ensures s.out.clears == 0 && s.out.undone == []
    ensures s.out.overs == if MineAt(b, target) then [OnGameOver.Open(target)] else []
    ensures Playable(b, target) <==> s.out.moved != []
    ensures Playable(b, target) ==>
      s.out.moved == [OnMoveTile.Open(target)] && s.board.moveStack == b.moveStack + [OnMoveTile.Open(target)]
    ensures !Playable(b, target) ==> s.board == b
  {
    match GetMut(b, target)
    case None => Step(b, Quiet)
    case Some(i) =>
      var tile := b.board[i];
      var open := !tile.isOpen && !tile.isFlag;
      var overs := if tile.isMine then [OnGameOver.Open(target)] else [];
      if open then
        var b' := Put(b, target, tile.(isOpen := true));
        var m := OnMoveTile.Open(target);
        Step(b'.(moveStack := b'.moveStack + [m]), Emitted([m], overs, 0, []))
      else
        Step(b, Emitted([], overs, 0, []))
  }

  /** `on_try_flag_tile_system` for one intent. */
  function TryFlagTile(b: GameBoard, target: PointyHexGrid): (s: Step)
    ensures SameMines(b, s.board)
    ensures s.out.undone == []
    ensures Playable(b, target) <==> s.out.moved != []
    ensures Playable(b, target) ==>
      s.out.moved == [OnMoveTile.Flag(target)] && s.board.moveStack == b.moveStack + [OnMoveTile.Flag(target)]
    ensures !Playable(b, target) ==> s.board == b
    ensures s.out.overs == if Playable(b, target) && !MineAt(b, target) then [OnGameOver.Flag(target)] else []
    ensures s.out.clears == if Get(b, target).Some? && AllMinesFlagged(s.board.board) then 1 else 0
  {
    match GetMut(b, target)
    case None => Step(b, Quiet)
    case Some(i) =>
      var tile := b.board[i];
      var flag := !tile.isOpen && !tile.isFlag;
      var b' := if flag then Put(b, target, tile.(isFlag := true)) else b;
      var overs := if flag && !tile.isMine then [OnGameOver.Flag(target)] else [];
      var clears := if CountRemainingMines(b') == 0 then 1 else 0;
      if flag then
        var m := OnMoveTile.Flag(target);
        Step(b'.(moveStack := b'.moveStack + [m]), Emitted([m], overs, clears, []))
      else
        Step(b', Emitted([], overs, clears, []))
  }

  /** The event that reports taking `m` back. */
  function Reversal(m: OnMoveTile): OnUndoTile {
    match m
    case Open(t) => UnOpen(t)
    case Flag(t) => UnFlag(t)
  }

  /** `on_undo_system` for one intent: pop the latest move and clear the bit
      it set. */
  function Undo(b: GameBoard): (s: Step)
    ensures SameMines(b, s.board)
    ensures s.out.moved == [] && s.out.overs == [] && s.out.clears == 0
    ensures b.moveStack == [] ==> s == Step(b, Quiet)
    ensures b.moveStack != [] ==>
      && s.board.moveStack == b.moveStack[..|b.moveStack| - 1]
      && s.out.undone == [Reversal(b.moveStack[|b.moveStack| - 1])]
  {
    if b.moveStack == [] then Step(b, Quiet)
    else
      var m := b.moveStack[|b.moveStack| - 1];
      var b0 := b.(moveStack := b.moveStack[..|b.moveStack| - 1]);
      match m
      case Open(t) =>
        var b1 := match GetMut(b0, t)
                  case Some(i) => Put(b0, t, b0.board[i].(isOpen := false))
                  case None => b0;
        Step(b1, Emitted([], [], 0, [UnOpen(t)]))
      case Flag(t) =>
        var b1 := match GetMut(b0, t)
                  case Some(i) => Put(b0, t, b0.board[i].(isFlag := false))
                  case None => b0;
        Step(b1, Emitted([], [], 0, [UnFlag(t)]))
  }

  /** One intent, handled by the system that reads its queue. */
  function Apply(b: GameBoard, intent: Intent): Step {
    match intent
    case TryOpen(t) => TryOpenTile(b, t)
    case TryFlag(t) => TryFlagTile(b, t)
    case TryUndo => Undo(b)
  }

  /** A queue of intents, handled one at a time in arrival order. */
  function Run(b: GameBoard, intents: seq<Intent>): (s: Step)
    ensures intents == [] ==> s == Step(b, Quiet)
    ensures |s.out.moved| + |s.out.undone| <= |intents|
    ensures |s.out.overs| <= |intents| && s.out.clears <= |intents|
    ensures |s.board.moveStack| + |s.out.undone| == |b.moveStack| + |s.out.moved|
    decreases |intents|
  {
    if intents == [] then Step(b, Quiet)
    else
      var first := Apply(b, intents[0]);
      var rest := Run(first.board, intents[1..]);
      Step(rest.board, Then(first.out, rest.out))
  }

  // Effects on single cells.

  /** Opening sets the target's open bit and touches no other cell. */
  lemma TryOpenTileEffect(b: GameBoard, target: PointyHexGrid, h: PointyHexGrid)
    requires Valid(b)
    ensures Valid(TryOpenTile(b, target).board)
    ensures Get(TryOpenTile(b, target).board, h) ==
      if h == target && Playable(b, target) then Some(Get(b, h).value.(isOpen := true)) else Get(b, h)
  {
    if Playable(b, target) {
      PutSpec(b, target, Get(b, target).value.(isOpen := true), h);
    }
  }

  /** Flagging sets the target's flag bit and touches no other cell. */
  lemma TryFlagTileEffect(b: GameBoard, target: PointyHexGrid, h: PointyHexGrid)
    requires Valid(b)
    ensures Valid(TryFlagTile(b, target).board)
    ensures Get(TryFlagTile(b, target).board, h) ==
      if h == target && Playable(b, target) then Some(Get(b, h).value.(isFlag := true)) else Get(b, h)
  {
    if Playable(b, target) {
      PutSpec(b, target, Get(b, target).value.(isFlag := true), h);
    }
  }

  /** Undo clears the open bit (for `Open`) or the flag bit (for `Flag`) of
      the latest move's target and touches no other cell. */
  lemma UndoEffect(b: GameBoard, h: PointyHexGrid)
    requires Valid(b) && b.moveStack != []
    ensures Valid(Undo(b).board)
    ensures
      var m := b.moveStack[|b.moveStack| - 1];
      Get(Undo(b).board, h) ==
        if h == m.target && Get(b, h).Some? then
          Some(if m.Open? then Get(b, h).value.(isOpen := false) else Get(b, h).value.(isFlag := false))
        else Get(b, h)
  {
    var m := b.moveStack[|b.moveStack| - 1];
    var b0 := b.(moveStack := b.moveStack[..|b.moveStack| - 1]);
    assert forall g :: Get(b0, g) == Get(b, g);
    if Get(b, m.target).Some? {
      var tile := Get(b, m.target).value;
      PutSpec(b0, m.target, if m.Open? then tile.(isOpen := false) else tile.(isFlag := false), h);
    }
  }

  // Undo takes back exactly one move.

  /** Opening and then undoing restores the board and the stack exactly. */
  lemma UndoAfterOpen(b: GameBoard, target: PointyHexGrid)
    requires Valid(b) && Playable(b, target)
    ensures Undo(TryOpenTile(b, target).board) == Step(b, Emitted([], [], 0, [UnOpen(target)]))
  {
    var i := GetMut(b, target).value;
    var tile := b.board[i];
    assert b.board[i := tile.(isOpen := true)][i := tile] == b.board;
    assert (b.moveStack + [OnMoveTile.Open(target)])[..|b.moveStack|] == b.moveStack;
  }

  /** Flagging and then undoing restores the board and the stack exactly. */
  lemma UndoAfterFlag(b: GameBoard, target: PointyHexGrid)
    requires Valid(b) && Playable(b, target)
    ensures Undo(TryFlagTile(b, target).board) == Step(b, Emitted([], [], 0, [UnFlag(target)]))
  {
    var i := GetMut(b, target).value;
    var tile := b.board[i];
    assert b.board[i := tile.(isFlag := true)][i := tile] == b.board;
    assert (b.moveStack + [OnMoveTile.Flag(target)])[..|b.moveStack|] == b.moveStack;
  }

  /** The intent that re-applies a stacked move. */
  function Redo(m: OnMoveTile): Intent {
    match m
    case Open(t) => TryOpen(t)
    case Flag(t) => TryFlag(t)
  }

  /** On a consistent board, undoing and then re-applying the popped move
      gives back the board and stack exactly. */
  lemma RedoAfterUndo(b: GameBoard)
    requires Consistent(b) && b.moveStack != []
    ensures Apply(Undo(b).board, Redo(b.moveStack[|b.moveStack| - 1])).board == b
  {
    var n := |b.moveStack|;
    var m := b.moveStack[n - 1];
    assert Applied(b, m);
    var b1 := Undo(b).board;
    UndoEffect(b, m.target);
    var i := GetMut(b, m.target).value;
    var tile := b.board[i];
    assert !(tile.isOpen && tile.isFlag);
    assert Playable(b1, m.target);
    assert b1.board == b.board[i := if m.Open? then tile.(isOpen := false) else tile.(isFlag := false)];
    var b2 := Apply(b1, Redo(m)).board;
    assert b2.board == b1.board[i := tile];
    assert b2.board == b.board;
    assert b2.moveStack == b.moveStack[..n - 1] + [m];
    assert b.moveStack == b.moveStack[..n - 1] + [m];
  }

  /** A second identical open intent changes nothing and reports no move; a
      mine target reports the loss again. */
  lemma TryOpenTileIdempotent(b: GameBoard, target: PointyHexGrid)
    requires Valid(b)
    ensures
      var s1 := TryOpenTile(b, target);
      var s2 := TryOpenTile(s1.board, target);
      s2.board == s1.board && s2.out.moved == [] && s2.out.overs == s1.out.overs
  {
    TryOpenTileEffect(b, target, target);
  }

  /** A second identical flag intent changes nothing and reports no move and
      no loss; the clear event repeats exactly when it fired the first time. */
  lemma TryFlagTileIdempotent(b: GameBoard, target: PointyHexGrid)
    requires Valid(b)
    ensures
      var s1 := TryFlagTile(b, target);
      var s2 := TryFlagTile(s1.board, target);
      s2.board == s1.board && s2.out.moved == [] && s2.out.overs == [] && s2.out.clears == s1.out.clears
  {
    TryFlagTileEffect(b, target, target);
  }

  /** Rewriting one slot changes a count by what the old and new tile contribute. */
  lemma {:induction false} CountUpdate(s: seq<TileState>, i: nat, t: TileState, p: TileState -> bool)
    requires i < |s|
    ensures Count(s[i := t], p) + (if p(s[i]) then 1 else 0) == Count(s, p) + (if p(t) then 1 else 0)
  {
    if i > 0 {
      assert s[i := t][1..] == s[1..][i - 1 := t];
      CountUpdate(s[1..], i - 1, t, p);
    } else {
      assert s[i := t][1..] == s[1..];
    }
  }

  /** Each newly flagged mine lowers the remaining-mine count by one; any other
      flag intent leaves it alone. */
  lemma FlagRemainingMines(b: GameBoard, target: PointyHexGrid)
    requires Valid(b)
    ensures CountMines(TryFlagTile(b, target).board) == CountMines(b)
    ensures CountRemainingMines(TryFlagTile(b, target).board)
         == CountRemainingMines(b) - if Playable(b, target) && MineAt(b, target) then 1 else 0
  {
    if Playable(b, target) {
      var i := GetMut(b, target).value;
      var tile := b.board[i];
      var b' := TryFlagTile(b, target).board;
      assert b'.board == b.board[i := tile.(isFlag := true)];
      CountUpdate(b.board, i, tile.(isFlag := true), IsMine);
      CountUpdate(b.board, i, tile.(isFlag := true), IsFlaggedMine);
    }
  }

  /** A successful open raises the open-tile count by one; any other open
      intent leaves it alone. */
  lemma OpenTileCount(b: GameBoard, target: PointyHexGrid)
    requires Valid(b)
    ensures CountOpenTile(TryOpenTile(b, target).board)
         == CountOpenTile(b) + if Playable(b, target) then 1 else 0
  {
    if Playable(b, target) {
      var i := GetMut(b, target).value;
      var tile := b.board[i];
      assert TryOpenTile(b, target).board.board == b.board[i := tile.(isOpen := true)];
      CountUpdate(b.board, i, tile.(isOpen := true), IsOpen);
    }
  }

  // The invariant.

  lemma TryOpenTileConsistent(b: GameBoard, target: PointyHexGrid)
    requires Consistent(b)
    ensures Consistent(TryOpenTile(b, target).board)
  {
    var b' := TryOpenTile(b, target).board;
    forall h ensures Get(b', h) == if h == target && Playable(b, target) then Some(Get(b, h).value.(isOpen := true)) else Get(b, h) {
      TryOpenTileEffect(b, target, h);
    }
    if Playable(b, target) {
      forall k | 0 <= k < |b.moveStack| ensures b.moveStack[k].target != target {
        assert Applied(b, b.moveStack[k]);
      }
      forall k | 0 <= k < |b'.moveStack| ensures Applied(b', b'.moveStack[k]) {
        if k < |b.moveStack| {
          assert Applied(b, b.moveStack[k]);
        }
      }
    }
  }

  lemma TryFlagTileConsistent(b: GameBoard, target: PointyHexGrid)
    requires Consistent(b)
    ensures Consistent(TryFlagTile(b, target).board)
  {
    var b' := TryFlagTile(b, target).board;
    forall h ensures Get(b', h) == if h == target && Playable(b, target) then Some(Get(b, h).value.(isFlag := true)) else Get(b, h) {
      TryFlagTileEffect(b, target, h);
    }
    if Playable(b, target) {
      forall k | 0 <= k < |b.moveStack| ensures b.moveStack[k].target != target {
        assert Applied(b, b.moveStack[k]);
      }
      forall k | 0 <= k < |b'.moveStack| ensures Applied(b', b'.moveStack[k]) {
        if k < |b.moveStack| {
          assert Applied(b, b.moveStack[k]);
        }
      }
    }
  }

  lemma UndoConsistent(b: GameBoard)
    requires Consistent(b)
    ensures Consistent(Undo(b).board)
  {
    if b.moveStack != [] {
      var n := |b.moveStack|;
      var m := b.moveStack[n - 1];
      var b' := Undo(b).board;
      forall h ensures Get(b', h) ==
        if h == m.target && Get(b, h).Some? then
          Some(if m.Open? then Get(b, h).value.(isOpen := false) else Get(b, h).value.(isFlag := false))
        else Get(b, h)
      {
        UndoEffect(b, h);
      }
      forall k | 0 <= k < |b'.moveStack| ensures Applied(b', b'.moveStack[k]) {
        assert b'.moveStack[k] == b.moveStack[k];
        assert Applied(b, b.moveStack[k]);
      }
    }
  }

  lemma ApplyConsistent(b: GameBoard, intent: Intent)
    requires Consistent(b)
    ensures Consistent(Apply(b, intent).board)
  {
    match intent
    case TryOpen(t) => TryOpenTileConsistent(b, t);
    case TryFlag(t) => TryFlagTileConsistent(b, t);
    case TryUndo => UndoConsistent(b);
  }

  /** Every queue of intents keeps the invariant. */
  lemma {:induction false} RunConsistent(b: GameBoard, intents: seq<Intent>)
    requires Consistent(b)
    ensures Consistent(Run(b, intents).board)
    decreases |intents|
  {
    if intents != [] {
      ApplyConsistent(b, intents[0]);
      RunConsistent(Apply(b, intents[0]).board, intents[1..]);
    }
  }

  /** Handling two queues one after the other is handling their concatenation. */
  lemma {:induction false} RunAppend(b: GameBoard, xs: seq<Intent>, ys: seq<Intent>)
    ensures
      var first := Run(b, xs);
      var second := Run(first.board, ys);
      Run(b, xs + ys) == Step(second.board, Then(first.out, second.out))
    decreases |xs|
  {
    if xs == [] {
      assert xs + ys == ys;
      var r := Run(b, ys);
      assert Then(Quiet, r.out) == r.out;
    } else {
      var f := Apply(b, xs[0]);
      var p := Run(f.board, xs[1..]);
      var q := Run(p.board, ys);
      assert (xs + ys)[0] == xs[0];
      assert (xs + ys)[1..] == xs[1..] + ys;
      RunAppend(f.board, xs[1..], ys);
      assert Run(b, xs) == Step(p.board, Then(f.out, p.out));
      assert Run(b, xs + ys) == Step(q.board, Then(f.out, Then(p.out, q.out)));
      ThenAssociative(f.out, p.out, q.out);
    }
  }

  lemma ThenAssociative(a: Emitted, b: Emitted, c: Emitted)
    ensures Then(a, Then(b, c)) == Then(Then(a, b), c)
  {
    assert a.moved + (b.moved + c.moved) == (a.moved + b.moved) + c.moved;
    assert a.overs + (b.overs + c.overs) == (a.overs + b.overs) + c.overs;
    assert a.undone + (b.undone + c.undone) == (a.undone + b.undone) + c.undone;
  }

  /** No queue of intents ever changes where the mines are. */
  lemma {:induction false} RunSameMines(b: GameBoard, intents: seq<Intent>)
    ensures SameMines(b, Run(b, intents).board)
    decreases |intents|
  {
    if intents != [] {
      RunSameMines(Apply(b, intents[0]).board, intents[1..]);
    }
  }
}
