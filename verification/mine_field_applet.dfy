/**
 * The version 2 applet (`MineFieldApplet`): the game flow around the Gamekeeper. It keeps
 * the `running` flag, which `setupGame` raises and a loss or a win lowers; flag placing
 * checks it itself, exposing and chording are guarded by the mouse handler.
 */
module MineFieldApplet {
  import opened Wrappers
  import opened Grid
  import opened MinePick
  import opened Gamekeeper

  class MineFieldApplet {
    /** The engine; in the source its fields sit directly in the applet. */
    const keeper: Gamekeeper
    var running: bool

    /**
     * The applet's invariant. While the game runs it is not yet won, no loss tag is about
     * and the counter shows the requested mines less the flags; once it has stopped,
     * exactly the mined cells show a mine or a flag.
     */
    ghost predicate Valid()
      reads this, keeper, keeper.tags, keeper.mined
    {
      && keeper.Valid()
      && (running ==> !keeper.IsWon() && keeper.NoRevealTags() && keeper.CounterTracksFlags())
      && (!running ==> keeper.MinesShown())
    }

    /**
     * The tag a cell showing `t` over mine entry `m` ends a move with: its loss tag after a
     * detonation, its win tag once the game is won, and `t` itself while the game runs on.
     */
    function EndTag(t: int, m: int, lost: bool): int
      reads keeper
    {
      if lost then LossTag(t, m) else if keeper.IsWon() then WinTag(t) else t
    }

    /** The part of `init` that creates the gamekeeper: two empty grids of the given size. */
    constructor (rows: int, columns: int, marksQ: bool)
      requires 0 <= rows <= INT_MAX && 0 <= columns <= INT_MAX
      ensures fresh(keeper) && fresh(keeper.tags) && fresh(keeper.mined)
      ensures keeper.Shaped() && keeper.Blank() && keeper.updateArea == None
      ensures keeper.rows == rows && keeper.columns == columns && keeper.marksQ == marksQ
      ensures !running
    {
      keeper := new Gamekeeper(rows, columns, marksQ);
      running := false;
    }

    /**
     * The rest of `init`'s game setup: lay the mines, raise `running` and start the counter
     * at the requested count. Where the source throws on a bad grid size, `ok` is false.
     */
    method Start(nmines: int, draws: seq<int>) returns (ok: bool, ghost placed: seq<Cell>)
      requires keeper.Shaped() && keeper.Blank() && keeper.updateArea == None
      requires CheckedCellCount(keeper.rows, keeper.columns).Some? ==>
                 |draws| >= ClampMines(nmines, keeper.rows * keeper.columns)
      requires forall k :: 0 <= k < |draws| ==> IsInt32(draws[k])
      modifies this`running, keeper`exposedCount, keeper`unminedCount, keeper`mineCount
      modifies keeper`counter, keeper`requested, keeper.mined
      ensures ok <==> CheckedCellCount(keeper.rows, keeper.columns).Some?
      ensures ok ==> Valid() && running && keeper.counter == nmines && keeper.exposedCount == 0
      ensures ok ==> |keeper.Mined()| == ClampMines(nmines, keeper.rows * keeper.columns)
      ensures ok ==> |placed| == |keeper.Mined()| && LaidBy(Rect(keeper.rows, keeper.columns), draws, placed)
      ensures ok ==> forall i, j :: keeper.InGrid(i, j) ==> (keeper.mined[i, j] != 0 <==> (i, j) in placed)
    {
      ok, placed := keeper.SetupGame(nmines, draws);
      if ok {
        running := true;
        keeper.StartCounter(nmines);
      }
    }

    /** `newGame` from the restart button: a fresh minefield, running again. */
    method NewGame(nmines: int, draws: seq<int>) returns (ghost placed: seq<Cell>)
      requires Valid()
      requires |draws| >= ClampMines(nmines, keeper.rows * keeper.columns)
      requires forall k :: 0 <= k < |draws| ==> IsInt32(draws[k])
      modifies this`running, keeper`exposedCount, keeper`unminedCount, keeper`mineCount
      modifies keeper`counter, keeper`requested, keeper`updateArea, keeper.tags, keeper.mined
      ensures Valid() && running && keeper.counter == nmines && keeper.exposedCount == 0
      ensures forall i, j :: keeper.InGrid(i, j) ==> keeper.tags[i, j] == TAG_NULL
      ensures |keeper.Mined()| == ClampMines(nmines, keeper.rows * keeper.columns)
      ensures |placed| == |keeper.Mined()| && LaidBy(Rect(keeper.rows, keeper.columns), draws, placed)
      ensures forall i, j :: keeper.InGrid(i, j) ==> (keeper.mined[i, j] != 0 <==> (i, j) in placed)
    {
      var ok;
      ok, placed := keeper.NewGame(nmines, draws);
      running := true;
    }

    /**
     * `rotateTagAt`: nothing once the game has stopped; otherwise step a covered cell's tag
     * round the flag cycle, moving the counter with the flags.
     */
    method RotateTagAt(row: int, column: int)
      requires Valid() && keeper.InGrid(row, column)
      modifies keeper`counter, keeper`updateArea, keeper.tags
      ensures Valid()
      ensures !running ==> unchanged(keeper.tags)
      ensures forall i, j :: keeper.InGrid(i, j) ==>
                keeper.tags[i, j] == if i == row && j == column && running && !IsExposed(old(keeper.tags[i, j]))
                                     then NextTag(old(keeper.tags[i, j]), keeper.marksQ) else old(keeper.tags[i, j])
      ensures keeper.counter == old(keeper.counter)
                                - (if running && old(keeper.tags[row, column]) == TAG_NULL then 1 else 0)
                                + (if running && old(keeper.tags[row, column]) == TAG_FLAG then 1 else 0)
    {
      if !running {
        return;
      }
      var changed := keeper.RotateTagAt(row, column);
    }

    /**
     * How `exposeCellAt` and `clearAround` end a move that opened cells: after a detonation
     * show the loss, once every unmined cell is exposed show the win, and stop either way.
     * The cells the move opened, `uncovered`, stay exposed, and so does the block of each
     * zero among them.
     */
    method EndMove(lost: bool, ghost uncovered: seq<Cell>)
      requires keeper.Valid() && running
      requires lost ==> keeper.exposedCount != 0
      requires !lost ==> keeper.NoRevealTags() && keeper.CounterTracksFlags()
      requires keeper.RippledOn(uncovered) && forall p :: p in uncovered ==> keeper.InGrid(p.0, p.1) && IsExposed(keeper.tags[p.0, p.1])
      modifies this`running, keeper`counter, keeper`updateArea, keeper.tags
      ensures Valid() && keeper.exposedCount == old(keeper.exposedCount) && keeper.IsWon() == old(keeper.IsWon())
      ensures running <==> !lost && !keeper.IsWon()
      ensures running ==> unchanged(keeper.tags)
      ensures forall i, j :: keeper.InGrid(i, j) ==>
                keeper.tags[i, j] == EndTag(old(keeper.tags[i, j]), keeper.mined[i, j], lost)
      ensures forall i, j :: keeper.InGrid(i, j) ==> Gamekeeper.Kept(old(keeper.tags[i, j]), keeper.tags[i, j])
      ensures keeper.RippledOn(uncovered)
      ensures keeper.counter == if !lost && keeper.IsWon() then 0 else old(keeper.counter)
      ensures !lost && keeper.IsWon() ==> keeper.Flags() == keeper.Mined()
    {
      if lost {
        keeper.ShowLoss();
        running := false;
      } else if keeper.IsWon() {
        keeper.ShowWin();
        running := false;
      }
      forall i, j | keeper.InGrid(i, j) ensures Gamekeeper.Kept(old(keeper.tags[i, j]), keeper.tags[i, j]) {
        assert old(keeper.TagFitsAt(i, j));
        Gamekeeper.RevealKept(old(keeper.tags[i, j]), keeper.mined[i, j], old(keeper.AdjacentMineCount(i, j)));
      }
      keeper.RippledKept(uncovered);
    }

    /**
     * `exposeCellAt`, run while the game is running: expose the cell, then end the move.
     * `wasMined` says whether it detonated a mine, `uncovered` lists the cells the
     * exposure opened and (`mr`, `mc`) is where a first click's mine went.
     */
    method ExposeCellAt(row: int, column: int, draw: int)
      returns (wasMined: bool, ghost uncovered: seq<Cell>, ghost mr: int, ghost mc: int)
      requires Valid() && running && keeper.InGrid(row, column) && IsInt32(draw)
      modifies this`running, keeper`exposedCount, keeper`counter, keeper`updateArea, keeper.tags, keeper.mined
      ensures Valid()
      ensures wasMined <==> IsOpenable(old(keeper.tags[row, column])) && old(keeper.mined[row, column]) != 0
                            && old(keeper.exposedCount) != 0
      ensures !running <==> wasMined || keeper.IsWon()
      ensures IsExposed(old(keeper.tags[row, column])) || IsFlag(old(keeper.tags[row, column])) ==>
                unchanged(keeper.tags) && unchanged(keeper.mined) && running && uncovered == []
      // Where the mines are.
      ensures old(keeper.exposedCount) != 0 || old(keeper.mined[row, column]) == 0 ==> unchanged(keeper.mined)
      ensures IsOpenable(old(keeper.tags[row, column])) && old(keeper.exposedCount) == 0
              && old(keeper.mined[row, column]) != 0 ==>
                keeper.InGrid(mr, mc) && old(keeper.mined[mr, mc]) == 0
                && keeper.Mined() == old(keeper.Mined()) - {(row, column)} + {(mr, mc)}
                && |old(keeper.UnminedBefore(mr, mc))| == PickIndex(draw, old(keeper.unminedCount))
      // The cells the exposure opened: each was covered and unflagged and is exposed now.
      ensures forall p :: p in uncovered ==>
                keeper.InGrid(p.0, p.1) && IsOpenable(old(keeper.tags[p.0, p.1])) && IsExposed(keeper.tags[p.0, p.1])
      ensures Spread(keeper.ZeroCells(), uncovered, (row, column), 0) && keeper.RippledOn(uncovered)
      ensures wasMined ==> uncovered == [(row, column)] && keeper.tags[row, column] == TAG_BOOM
      ensures IsOpenable(old(keeper.tags[row, column])) && !wasMined ==>
                old(keeper.exposedCount) < keeper.exposedCount && keeper.mined[row, column] == 0
                && keeper.tags[row, column] == TAG_ZERO + keeper.AdjacentMineCount(row, column)
      // Every other cell: as it was, then the loss or the win reveal.
      ensures forall i, j :: keeper.InGrid(i, j) && (i, j) !in uncovered ==>
                keeper.tags[i, j] == EndTag(old(keeper.tags[i, j]), keeper.mined[i, j], wasMined)
      ensures keeper.counter == if !wasMined && keeper.IsWon() then 0 else old(keeper.counter)
      ensures keeper.IsWon() ==> !wasMined && keeper.Flags() == keeper.Mined()
    {
      var outcome;
      outcome, uncovered, mr, mc := keeper.ExposeCell(row, column, draw);
      wasMined := outcome == Detonated;
      if outcome == Ignored {
        return;
      }
      EndMove(wasMined, uncovered);
    }

    /**
     * `clearAround`, run while the game is running: chord the cell and, when it did, end
     * the move.
     */
    method ClearAround(row: int, column: int) returns (ghost uncovered: seq<Cell>)
      requires Valid() && running && keeper.InGrid(row, column)
      modifies this`running, keeper`exposedCount, keeper`counter, keeper`updateArea, keeper.tags
      ensures Valid()
      ensures !running <==> old(keeper.Chordable(row, column)) && (old(keeper.ChordHits(row, column)) || keeper.IsWon())
      ensures !old(keeper.Chordable(row, column)) ==> unchanged(keeper.tags) && uncovered == []
      ensures old(keeper.Chordable(row, column)) ==> keeper.Settled(row, column)
      ensures old(keeper.Chordable(row, column)) ==>
                forall i, j :: keeper.InGrid(i, j) && Gamekeeper.Near(row, column, i, j)
                               && IsOpenable(old(keeper.tags[i, j])) && keeper.mined[i, j] != 0
                  ==> keeper.tags[i, j] == TAG_BOOM
      // The cells the chord opened: each was covered and unflagged and is exposed now.
      ensures forall p :: p in uncovered ==>
                keeper.InGrid(p.0, p.1) && IsOpenable(old(keeper.tags[p.0, p.1])) && IsExposed(keeper.tags[p.0, p.1])
      ensures Spread(keeper.ZeroCells(), uncovered, (row, column), 1) && keeper.RippledOn(uncovered)
      // The safe cells it opened show their counts, whatever reveal follows.
      ensures forall p :: p in uncovered && keeper.mined[p.0, p.1] == 0 ==>
                keeper.tags[p.0, p.1] == TAG_ZERO + keeper.AdjacentMineCount(p.0, p.1)
      // Every other cell: as it was, then the loss or the win reveal.
      ensures forall i, j :: keeper.InGrid(i, j) && (i, j) !in uncovered ==>
                keeper.tags[i, j] == EndTag(old(keeper.tags[i, j]), keeper.mined[i, j],
                                            old(keeper.Chordable(row, column)) && old(keeper.ChordHits(row, column)))
      ensures keeper.counter == if !old(keeper.ChordHits(row, column)) && keeper.IsWon() then 0 else old(keeper.counter)
      ensures !running && !old(keeper.ChordHits(row, column)) ==> keeper.Flags() == keeper.Mined()
    {
      var chorded, detonated;
      chorded, detonated, uncovered := ChordGrid(row, column);
      label chord:
      if chorded {
        EndMove(detonated, uncovered);
        forall p | p in uncovered ensures keeper.tags[p.0, p.1] == old@chord(keeper.tags[p.0, p.1]) {
          assert Gamekeeper.Kept(old@chord(keeper.tags[p.0, p.1]), keeper.tags[p.0, p.1]);
        }
      }
    }

    /** The engine's part of `clearAround`, with the facts about it that the move needs. */
    method ChordGrid(row: int, column: int) returns (chorded: bool, detonated: bool, ghost uncovered: seq<Cell>)
      requires Valid() && running && keeper.InGrid(row, column)
      modifies keeper`exposedCount, keeper`updateArea, keeper.tags
      ensures keeper.Valid() && keeper.CounterTracksFlags()
      ensures chorded <==> old(keeper.Chordable(row, column))
      ensures detonated <==> chorded && old(keeper.ChordHits(row, column))
      ensures !chorded ==> unchanged(keeper.tags) && keeper.exposedCount == old(keeper.exposedCount)
      ensures detonated ==> keeper.exposedCount != 0
      ensures !detonated ==> keeper.NoRevealTags()
      ensures chorded ==> keeper.Settled(row, column)
      ensures chorded ==>
                forall i, j :: keeper.InGrid(i, j) && Gamekeeper.Near(row, column, i, j)
                               && IsOpenable(old(keeper.tags[i, j])) && keeper.mined[i, j] != 0
                  ==> keeper.tags[i, j] == TAG_BOOM
      ensures !chorded ==> uncovered == []
      ensures forall p :: p in uncovered ==>
                keeper.InGrid(p.0, p.1) && IsOpenable(old(keeper.tags[p.0, p.1])) && IsExposed(keeper.tags[p.0, p.1])
      ensures forall i, j :: keeper.InGrid(i, j) && (i, j) !in uncovered ==> keeper.tags[i, j] == old(keeper.tags[i, j])
      ensures forall i, j :: keeper.InGrid(i, j) ==> Gamekeeper.Cleared(old(keeper.tags[i, j]), keeper.tags[i, j], keeper.mined[i, j])
      ensures forall p :: p in uncovered && keeper.mined[p.0, p.1] == 0 ==>
                keeper.tags[p.0, p.1] == TAG_ZERO + keeper.AdjacentMineCount(p.0, p.1)
      ensures Spread(keeper.ZeroCells(), uncovered, (row, column), 1) && keeper.RippledOn(uncovered)
    {
      chorded, detonated, uncovered := keeper.ClearAround(row, column);
      forall p | p in uncovered && keeper.mined[p.0, p.1] == 0
        ensures keeper.tags[p.0, p.1] == TAG_ZERO + keeper.AdjacentMineCount(p.0, p.1)
      {
        assert Gamekeeper.Cleared(old(keeper.tags[p.0, p.1]), keeper.tags[p.0, p.1], keeper.mined[p.0, p.1]);
        assert keeper.TagFitsAt(p.0, p.1);
      }
    }
  }
}
