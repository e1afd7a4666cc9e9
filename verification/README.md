# Gamekeeper: a verified model of the minefield engine of two Java applets

This project models the game engine ("gamekeeper") of a minesweeper applet. It comes in two
versions of the applet:

- `MinesApplet`, version 3.0, in `java/MinesApplet.java`;
- `MineFieldAppletV2`, version 2.0, in `java.v2/MineFieldAppletV2.java`.

Both versions carry the same engine almost line for line. The engine keeps two
`byte[rows][columns]` grids:

- `tags`, the visible state of each cell;
- `mined`, which holds 0 or 1 per cell.

It also keeps three counters: `exposedCount`, `unminedCount`, and the flags-remaining `counter`.
`updateArea` is the bounding box of cells whose tags changed. The engine implements these steps:

- game setup with a size check and a clamp on the mine count;
- mine laying by sampling without replacement;
- the adjacent-mine count;
- the recursive ripple reveal;
- moving the mine away from the first click;
- the flag / question-mark cycle;
- the chord clear;
- the loss and win reveals.

## Layout

- `wrappers.dfy`: the `Option` type, used for `null`.
- `region.dfy` (module `Region`): the `java.awt.Rectangle` arithmetic of `tagCell`'s redraw box.
- `mine_pick.dfy` (module `MinePick`):
  - Java's 32-bit narrowing and remainder;
  - the reduction of a `random.nextInt()` draw to an index, both as written and as intended.
- `grid.dfy` (module `Grid`): counting grid cells by value, over the whole grid, a row-major prefix, and the clipped 3x3 neighbourhood.
- `gamekeeper.dfy` (module `Gamekeeper`): the engine, a class `Gamekeeper`.
  - The tags and mines are `array2<int>` fields that the methods update in place.
  - Tags stay the source's integer codes 0..14, so `tag >= TAG_BOOM` and `TAG_ZERO + n` are literal.
  - Its invariant `Valid()` states the engine's bookkeeping:
    - every mine entry is 0 or 1;
    - the number of mined cells is the clamped mine count, and `unminedCount` is the cell count less that number;
    - `exposedCount` is the number of cells tagged `TAG_ZERO..TAG_EIGHT`;
    - every exposed tag agrees with the mines: a count tag is on an unmined cell and shows its adjacent-mine count, a `TAG_BOOM`/`TAG_MINE` tag is on a mined cell, and a `TAG_OOPS` tag is on an unmined cell;
    - `exposedCount` is 0 only when nothing at all is exposed.
- `mines_applet.dfy` (module `MinesApplet`): the version 3.0 game flow.
  - It holds the `lost` flag. `Start` and `NewGame` clear it right after `Gamekeeper.SetupGame`, where the source clears it inside `setupGame` (java/MinesApplet.java:693).
  - `GameEnabled` is `gameEnabled`, the guard the mouse handlers test before every move.
- `mine_field_applet.dfy` (module `MineFieldApplet`): the version 2.0 game flow.
  - It holds the `running` flag. `Start` and `NewGame` set it right after a successful `Gamekeeper.SetupGame`, where the source sets it inside `setupGame` (java.v2/MineFieldAppletV2.java:618); `EndMove` clears it on a loss or a win.
  - `rotateTagAt` does its own `running` check.

Randomness is a parameter. Each `random.nextInt()` becomes a caller-supplied 32-bit `draw`, and
`layMines` takes a sequence of them. `init`'s `RuntimeException` for a bad grid size becomes
`ok == false`. In the source the engine's fields sit directly in the applet. Here they sit in the
shared `Gamekeeper` class, which each applet class holds as `keeper`.

The two versions differ only in how they end a move and in where the game-over guard lives. The
differences are these:

- the local `wasMined` in `exposeCellAt`;
- the local `lost` in `clearAround`;
- the early return in `rotateTagAt`.

So the engine is modelled once, and each applet class models its own ending. In version 3.0 a
chord can set off a mine and, in the same move, expose the last safe cell. Then `lost` and
`gameIsWon()` both hold, only the loss is shown, and `gameEnabled()` is false. The model keeps
this behaviour: `MinesApplet.ClearAround` does not promise `!lost` when the game is won.

## Model

| member | source | states |
|---|---|---|
| Gamekeeper.CheckedCellCount | java/MinesApplet.java:673-679 | setup proceeds exactly when `rows*columns` survives narrowing to `int` and is at least 4, and then yields that product |
| Gamekeeper.ClampMines | java/MinesApplet.java:684-687 | the mine count is clamped into [1, ncells-1]: unchanged inside, ncells-1 above, 1 below |
| Gamekeeper.NextTag | java/MinesApplet.java:762-777 | the flag cycle: only a covered `NULL` cell becomes a flag; `QUES` appears only from a flag with question marks on; the result is covered |
| Gamekeeper.LossTag | java/MinesApplet.java:886-895 | the loss reveal keeps `BOOM`, and keeps every tag whose flag state agrees with its mine: a correct flag stays a flag and a covered safe cell stays as it was; a tag that disagrees turns exposed, `MINE` exactly on a mined cell and `OOPS` on a wrongly flagged one; on a consistent grid exactly the mined cells then show a mine or flag |
| Gamekeeper.WinTag | java/MinesApplet.java:911-916 | the win reveal flags every covered cell and leaves every exposed cell as it was |
| Region.Add | java/MinesApplet.java:648 | `Rectangle.add` yields a box that holds the point and the old box |
| Region.Touch | java/MinesApplet.java:642-649 | the new redraw box holds the changed cell, and also the pending box when there is one |
| Region.TouchIsSmallest | java/MinesApplet.java:642-649 | every box holding the pending box and the cell holds the result, so the result is the smallest such box |
| MinePick.Wrap32 | java/MinesApplet.java:674 | narrowing to `int` gives a 32-bit value congruent modulo 2^32, and the identity on 32-bit values |
| MinePick.JavaRem | java/MinesApplet.java:714 | Java's `%` takes the dividend's sign, stays strictly within the divisor, and differs from the dividend by a multiple of the divisor |
| MinePick.MultipleMod | java/MinesApplet.java:714 | a multiple of `n` leaves remainder 0 (the congruence step behind `JavaRem`) |
| MinePick.DrawAsWritten | java/MinesApplet.java:712-714 | the index as the code computes it lies in (-n, n), and is non-negative for every draw except `Integer.MIN_VALUE` |
| MinePick.PickIndex | java/MinesApplet.java:712-714 | the intended index always lies in [0, n) |
| MinePick.AsWrittenMatchesPick | java/MinesApplet.java:712-714 | for every draw but `Integer.MIN_VALUE` the code's index is the intended one |
| MinePick.MinValueDrawIsNegative | java/MinesApplet.java:712-714 | with draw `Integer.MIN_VALUE` and 3 unmined cells the code's index is -2, where the intended one is 2; with 64 unmined cells, a divisor of 2^31, both are 0 |
| Grid.RectSize | java/MinesApplet.java:673-674 | a grid of r rows and c columns has r*c cells |
| Grid.CountAround | java/MinesApplet.java:850-875 | a neighbour count lies in 0..8 |
| Grid.ClippedBlock | java/MinesApplet.java:854-872 | summing the 3x3 block clipped to the grid counts the eight neighbours plus the centre, so subtracting the centre leaves the neighbours |
| Gamekeeper.Gamekeeper.constructor | java/MinesApplet.java:170-172 | two empty grids of the given size, no redraw box pending |
| Gamekeeper.Gamekeeper.TagCell | java/MinesApplet.java:636-651 | stores the tag and changes no other cell; an unchanged tag leaves `updateArea` alone, a changed one grows it by `Touch`; how the exposed-safe set changes; the mine bookkeeping and the tag/mine agreement are kept |
| Gamekeeper.Gamekeeper.LayOneMine | java/MinesApplet.java:709-736 | mines the unmined cell that has exactly `PickIndex(draw, n)` unmined cells before it in row-major order (`Picks`), and changes no other cell |
| Gamekeeper.Gamekeeper.PlantMine | java/MinesApplet.java:727 | one unmined cell becomes mined; the mined set grows by exactly that cell |
| Gamekeeper.Gamekeeper.RankStep | java/MinesApplet.java:719-725 | one step of the row-major scan adds one to the unmined count exactly when the cell is unmined |
| Gamekeeper.Gamekeeper.RankDeterminesCell | java/MinesApplet.java:719-732 | two unmined cells with the same row-major rank are the same cell, so the scan's target is unique |
| Gamekeeper.Gamekeeper.EarlierRankSmaller | java/MinesApplet.java:719-732 | an unmined cell earlier in row-major order has a smaller rank, so the scan stops at the first cell of the wanted rank |
| Gamekeeper.FreeRankUnique | java/MinesApplet.java:719-732 | two free cells that a row-major scan reaches after passing equally many free cells are the same cell |
| Gamekeeper.LaidByUnique | java/MinesApplet.java:696-736 | the draws determine the layout: two layouts laid from the same free cells by the same draws, of the same length, are equal |
| Gamekeeper.LaidStep | java/MinesApplet.java:696-707 | a layout extended by the pick of the next draw among the cells it left free is the layout of one more mine |
| Gamekeeper.FreeAfterFirst | java/MinesApplet.java:696-707 | the cells a layout leaves free are those its first pick leaves free less those its later picks take |
| Gamekeeper.MinedStep | java/MinesApplet.java:727 | mining the pick moves it from the free cells to the mined cells of the layout |
| Gamekeeper.CellsSnoc | java/MinesApplet.java:696-707 | the cells of a layout one pick longer are the old cells plus that pick |
| Gamekeeper.Gamekeeper.UnminedBeforeFree | java/MinesApplet.java:719-725 | the unmined cells the scan passes before (i, j) are the free cells before (i, j) in row-major order |
| Gamekeeper.Gamekeeper.LayMines | java/MinesApplet.java:696-707 | lays exactly `nmines` new mines, keeps the old ones, and returns the cells it mined in draw order: each is the pick of its draw among the cells the earlier draws left free (`LaidBy`), and the mined set grows by exactly those cells |
| Gamekeeper.Gamekeeper.LayStep | java/MinesApplet.java:703-706 | one turn of `layMines`' loop: the layout grows by the pick of the next draw and the mined and free sets follow it |
| Gamekeeper.Gamekeeper.LayFresh | java/MinesApplet.java:686-689 | laying `n` mines on a mine-free grid: exactly the cells of the returned layout, laid by the draws from the whole grid, are mined |
| Gamekeeper.Gamekeeper.SetupGame | java/MinesApplet.java:668-694 | fails exactly on a bad grid size and then changes nothing; otherwise exactly `ClampMines(nmines, ncells)` cells are mined, namely the layout the draws give from the whole grid, `exposedCount` is 0, `unminedCount` is the rest, and the invariant holds |
| Gamekeeper.Gamekeeper.FreshValid | java/MinesApplet.java:686-693 | a grid with every cell covered, nothing counted as exposed and the mines counted satisfies the invariant |
| Gamekeeper.Gamekeeper.NewGame | java/MinesApplet.java:613-634 | every tag is `NULL`; on success the invariant holds, nothing is exposed, the clamped count is mined as the layout the draws give, and `counter` is the requested (unclamped) count with no flags down |
| Gamekeeper.Gamekeeper.ClearGrid | java/MinesApplet.java:617-626 | the clearing loops leave every cell unmined and tagged `NULL` |
| Gamekeeper.Gamekeeper.StartCounter | java/MinesApplet.java:632 | with no flag down, `counter = nmines` makes the counter the requested count less the flags, keeping the invariant |
| Gamekeeper.Gamekeeper.RotateTagAt | java/MinesApplet.java:758-781 | `changed` exactly when the cell was not exposed; the cell then takes `NextTag`, no other cell changes, the counter drops on `NULL`, rises on `FLAG`, and counter plus flags is unchanged |
| Gamekeeper.Gamekeeper.RetagCovered | java/MinesApplet.java:779 | retagging a covered cell keeps the invariant; the flag set gains or loses exactly that cell |
| Gamekeeper.Gamekeeper.TagCellCountingFlags | java/MinesApplet.java:636-651 | as `TagCell`, and the flag set gains the cell exactly when the new tag is `FLAG` and loses it otherwise |
| Gamekeeper.Gamekeeper.ExposeCell | java/MinesApplet.java:783-817 | ignored exactly on an exposed or flagged cell, then changing nothing; a first exposure never detonates; a detonation happens exactly on a mined, openable cell with something already exposed, tags only that cell `BOOM`, and leaves the mines alone; a safe reveal shows the count, only advances tags, and increases `exposedCount`; the mines stay put except that a first click's mine moves to the unmined cell of rank `PickIndex(draw, unminedCount)`; only the listed cells change, each from covered to exposed, and they spread from the cell only through zero cells; the invariant and the flags are kept; every opened cell that shows `TAG_ZERO` ends with its clipped block exposed or flagged |
| Gamekeeper.Gamekeeper.RelocateMine | java/MinesApplet.java:788-794 | the clicked cell's mine moves to the unmined cell of rank `PickIndex(draw, unminedCount)`; the mine total and the invariant are kept |
| Gamekeeper.Gamekeeper.MoveMine | java/MinesApplet.java:792-793 | the clicked cell's mine moves to the unmined cell of that rank, keeping the mine count |
| Gamekeeper.Gamekeeper.ClearMine | java/MinesApplet.java:793 | one mined cell becomes unmined; the mined set loses exactly that cell |
| Gamekeeper.Gamekeeper.ExposeSafe | java/MinesApplet.java:808-810 | opening a safe cell shows its count, increases `exposedCount`, only advances tags, keeps the flags and the invariant, and leaves the block settled when the count is zero; only the listed cells change, each from covered to exposed, spreading from the cell only through zero cells; every opened cell that shows `TAG_ZERO` ends with its clipped block exposed or flagged |
| Gamekeeper.Gamekeeper.Detonate | java/MinesApplet.java:798 | a mined cell becomes `BOOM`, nothing else changes, and the invariant holds |
| Gamekeeper.Gamekeeper.RippleExpose | java/MinesApplet.java:819-848 | the cell shows `TAG_ZERO` plus its adjacent-mine count; tags only advance; only the listed cells change, each from covered to exposed; each listed cell is the cell itself or lies next to an earlier listed cell with no adjacent mines, so a non-zero cell opens only itself; a zero cell ends with every neighbour exposed or flagged; every opened cell that shows `TAG_ZERO` ends with its clipped block exposed or flagged; together these fix the opened cells exactly: the smallest set holding the cell and, for each opened zero cell, its neighbours that were covered and unflagged before the call; as in the source, a ripple stops at cells exposed or flagged earlier |
| Gamekeeper.Gamekeeper.ShowCount | java/MinesApplet.java:821-822 | the count shown is the adjacent-mine count, which gives back the invariant after the caller's `++exposedCount` |
| Gamekeeper.Gamekeeper.RippleAround | java/MinesApplet.java:824-847 | after rippling a zero cell's clipped block, every neighbour is exposed or flagged; the opened cells lie in the block or next to an earlier opened zero cell; every opened cell that shows `TAG_ZERO` ends with its clipped block exposed or flagged |
| Gamekeeper.Gamekeeper.RippleRow | java/MinesApplet.java:836-846 | one row of the block has been scanned: every cell in it is exposed or flagged; the cells opened so far change from covered to exposed and lie in the block or next to an earlier opened zero cell; every opened cell that shows `TAG_ZERO` ends with its clipped block exposed or flagged |
| Gamekeeper.Gamekeeper.RippleNeighbour | java/MinesApplet.java:840-844 | a neighbour of a zero cell is left exposed or flagged, opening it and spreading from it when it was openable and opening nothing otherwise; every opened cell that shows `TAG_ZERO` ends with its clipped block exposed or flagged |
| Gamekeeper.SpreadJoin | java/MinesApplet.java:836-846 | a spread from a cell followed by a spread from a seed whose box lies inside that cell's box is still a spread from the cell |
| Gamekeeper.SpreadWiden | java/MinesApplet.java:840-844 | a spread from a seed is a spread from any cell whose box holds the seed's box |
| Gamekeeper.SpreadFromZero | java/MinesApplet.java:824-847 | a zero cell followed by a spread around its block is a spread from the cell alone |
| Gamekeeper.SpreadStops | java/MinesApplet.java:821-824 | a spread from a cell with adjacent mines opens that cell alone |
| Gamekeeper.Gamekeeper.ExposedWithin | java/MinesApplet.java:743-746 | `exposedCount` never exceeds `unminedCount` |
| Gamekeeper.Gamekeeper.ExposedRoom | java/MinesApplet.java:808 | while an unmined cell is still unexposed, `++exposedCount` stays within `unminedCount`, so the ripple terminates |
| Gamekeeper.Gamekeeper.NoAdjacentMine | java/MinesApplet.java:824 | a cell with adjacent-mine count 0 has no mined neighbour |
| Gamekeeper.Gamekeeper.BlockSettled | java/MinesApplet.java:836-847 | the clipped block scanned whole means the cell's whole neighbourhood is exposed or flagged |
| Gamekeeper.Gamekeeper.CountAdjacentMines | java/MinesApplet.java:850-875 | returns the number of mined neighbours in the clipped 3x3 block, excluding the cell itself, in 0..8 |
| Gamekeeper.Gamekeeper.ShowLoss | java/MinesApplet.java:877-898 | every cell takes `LossTag`; afterwards exactly the mined cells show a mine or flag; the exposed-safe cells, and so `exposedCount`, are unchanged |
| Gamekeeper.Gamekeeper.ShowLossRow | java/MinesApplet.java:884-896 | one row takes `LossTag` and other rows are unchanged |
| Gamekeeper.Gamekeeper.ShowWin | java/MinesApplet.java:900-919 | `counter` is 0 and every cell takes `WinTag`; on a won game the flags are exactly the mines |
| Gamekeeper.Gamekeeper.ShowWinRow | java/MinesApplet.java:909-917 | one row takes `WinTag` and other rows are unchanged |
| Gamekeeper.Gamekeeper.WonIffAllSafeExposed | java/MinesApplet.java:743-746 | `gameIsWon()` holds exactly when every unmined cell shows its count |
| Gamekeeper.Gamekeeper.FlagsAreMines | java/MinesApplet.java:900-919 | once every safe cell is exposed and every covered cell flagged, the flags are exactly the mines |
| Gamekeeper.Gamekeeper.ClearAround | java/MinesApplet.java:921-970 | chords exactly when the cell shows a non-zero count equal to its flagged neighbours, and otherwise changes nothing; a chord leaves every neighbour exposed or flagged, turns each mined openable neighbour `BOOM`, detonates exactly when one existed, keeps the flags and the invariant, and never touches the cell itself; only the listed cells change, each lying in the block or next to an earlier listed zero cell; every opened cell that shows `TAG_ZERO` ends with its clipped block exposed or flagged |
| Gamekeeper.Gamekeeper.CountAdjacentFlags | java/MinesApplet.java:939-947 | counts the flags in the clipped 3x3 block, the centre included |
| Gamekeeper.Gamekeeper.ChordBlock | java/MinesApplet.java:952-970 | every cell of the block is exposed or flagged afterwards; mined openable ones are `BOOM`; mined cells outside keep their tags; it detonates exactly when the block held a mined openable cell; the cells it opens change from covered to exposed and lie in the block or next to an earlier opened zero cell; every opened cell that shows `TAG_ZERO` ends with its clipped block exposed or flagged |
| Gamekeeper.Gamekeeper.ClearRow | java/MinesApplet.java:954-969 | the same for one row of the block, reporting a hit with its column; the same bound on the opened cells; every opened cell that shows `TAG_ZERO` ends with its clipped block exposed or flagged |
| Gamekeeper.Gamekeeper.ClearCell | java/MinesApplet.java:956-967 | an openable cell is set off exactly when mined and is otherwise ripple-exposed; exposed and flagged cells are skipped; the cells it opens change from covered to exposed and spread from the cell only through zero cells; every opened cell that shows `TAG_ZERO` ends with its clipped block exposed or flagged |
| Gamekeeper.Gamekeeper.RippledKept | java/MinesApplet.java:836-846 | a later step that keeps every exposed tag and leaves each flag exposed or flagged keeps the block of every opened zero exposed or flagged, so the ripple's closure survives the rest of the scan |
| Gamekeeper.Gamekeeper.RippledCleared | java/MinesApplet.java:952-970 | the same for the steps of a chord: a chord step keeps the block of every zero opened earlier exposed or flagged |
| Gamekeeper.Gamekeeper.RevealKept | java/MinesApplet.java:886-916 | on a tag that agrees with the mines, the loss and the win reveals keep every exposed tag and leave each flag a flag or exposed |
| MinesApplet.MinesApplet.constructor | java/MinesApplet.java:168-173 | `init` creates the gamekeeper's empty grids |
| MinesApplet.MinesApplet.Start | java/MinesApplet.java:173 | `setupGame` from `init` plus `counter = nmines` (line 192): fails exactly on a bad size; otherwise the game is enabled, the invariant holds, and the clamped count is mined as the layout the draws give |
| MinesApplet.MinesApplet.NewGame | java/MinesApplet.java:613-634 | the restart leaves an enabled game with nothing exposed, all tags `NULL`, `counter` the requested count, and exactly `ClampMines(nmines, rows*columns)` cells mined, namely the layout the draws give |
| MinesApplet.MinesApplet.RotateTagAt | java/MinesApplet.java:758-781 | `rotateTagAt` under the right-click handler's `gameEnabled()` guard (line 513): the cell steps through `NextTag` exactly when covered and no other cell changes; the counter drops by one from `NULL` and rises by one from `FLAG`; the game stays enabled |
| MinesApplet.MinesApplet.EndMove | java/MinesApplet.java:796-816 | a detonation sets `lost` and shows the loss, leaving `counter` as it was; a won game shows the win, every cell takes `WinTag`, `counter` is 0 and the flags are exactly the mines; an ongoing game is untouched; every exposed tag stays and every flag stays a flag or is exposed, so the cells the move opened stay exposed and each opened zero keeps its block exposed or flagged |
| MinesApplet.MinesApplet.ExposeCellAt | java/MinesApplet.java:783-817 | under the handler's guard (line 551), `exposeCellAt` loses exactly when it opens a mined cell after the first exposure, and then shows `BOOM` and every mine; a safe click shows the cell's count and increases `exposedCount`; the mines stay put except the first click's relocation; the opened cells go from covered to exposed and spread only through zero cells; every other cell keeps its tag, put through the loss or win reveal; `counter` changes only on a win, to 0; clicks on exposed or flagged cells change nothing; every opened cell that shows `TAG_ZERO` ends with its clipped block exposed or flagged |
| MinesApplet.MinesApplet.ClearAround | java/MinesApplet.java:921-980 | under the handler's guard (line 563), `clearAround` sets `lost` exactly when the cell is chordable and a mined neighbour is openable, and then shows every mine; a chord leaves the block exposed or flagged and each mined openable neighbour `BOOM`; `counter` changes only on a win without a loss, to 0, and the flags are then exactly the mines; an unchordable cell changes nothing; the chord's opened cells go from covered to exposed and lie in the block or next to an earlier opened zero cell, every opened zero cell ends with its block exposed or flagged, and every other cell keeps its tag, put through the loss or win reveal; each safe cell the chord opened shows `TAG_ZERO` plus its adjacent-mine count even after the loss or win reveal |
| MinesApplet.MinesApplet.ChordGrid | java/MinesApplet.java:921-970 | the engine's chord as the move sees it: chords and detonates exactly as `Gamekeeper.ClearAround`, leaving the block settled and its mined openable cells `BOOM`, with the counter still tracking the flags; every opened cell that shows `TAG_ZERO` ends with its clipped block exposed or flagged; like the engine's chord, every cell only advances to its count or, when mined and openable, turns `BOOM`, so each safe cell it opened shows `TAG_ZERO` plus its adjacent-mine count; only the listed cells change |
| MineFieldApplet.MineFieldApplet.constructor | java.v2/MineFieldAppletV2.java:152-154 | `init` creates the gamekeeper's empty grids; not yet running |
| MineFieldApplet.MineFieldApplet.Start | java.v2/MineFieldAppletV2.java:593-619 | `setupGame` plus `counter = nmines` (line 174): fails exactly on a bad size; otherwise `running`, the invariant holds, and the clamped count is mined as the layout the draws give |
| MineFieldApplet.MineFieldApplet.NewGame | java.v2/MineFieldAppletV2.java:547-566 | the restart leaves a running game with nothing exposed, all tags `NULL`, `counter` the requested count, and exactly `ClampMines(nmines, rows*columns)` cells mined, namely the layout the draws give |
| MineFieldApplet.MineFieldApplet.RotateTagAt | java.v2/MineFieldAppletV2.java:673-698 | a no-op when not running; otherwise the cell steps through `NextTag` exactly when covered, no other cell changes, and the counter drops by one from `NULL` and rises by one from `FLAG` |
| MineFieldApplet.MineFieldApplet.EndMove | java.v2/MineFieldAppletV2.java:716-737 | `running` is cleared exactly on a loss or a win; a loss shows every mine, each cell taking `LossTag`, with `counter` unchanged; a win gives each cell `WinTag`, `counter` 0 and the flags exactly the mines; every exposed tag stays and every flag stays a flag or is exposed, so the cells the move opened stay exposed and each opened zero keeps its block exposed or flagged |
| MineFieldApplet.MineFieldApplet.ExposeCellAt | java.v2/MineFieldAppletV2.java:700-738 | `wasMined` holds exactly when a mined openable cell is opened after the first exposure (the relocation clears it); the game stops exactly then or on a win; a safe click shows the cell's count and increases `exposedCount`; the mines stay put except the first click's relocation; the opened cells go from covered to exposed and spread only through zero cells; every other cell keeps its tag, put through the loss or win reveal; `counter` changes only on a win, to 0; clicks on exposed or flagged cells change nothing; every opened cell that shows `TAG_ZERO` ends with its clipped block exposed or flagged |
| MineFieldApplet.MineFieldApplet.ClearAround | java.v2/MineFieldAppletV2.java:842-904 | stops the game exactly when the cell is chordable and the chord either hits a mine (local `lost`) or wins; a chord leaves the block exposed or flagged and each mined openable neighbour `BOOM`; `counter` changes only on a win without a hit, to 0, and the flags are then exactly the mines; an unchordable cell changes nothing; the chord's opened cells go from covered to exposed and lie in the block or next to an earlier opened zero cell, every opened zero cell ends with its block exposed or flagged, and every other cell keeps its tag, put through the loss or win reveal; each safe cell the chord opened shows `TAG_ZERO` plus its adjacent-mine count even after the loss or win reveal |
| MineFieldApplet.MineFieldApplet.ChordGrid | java.v2/MineFieldAppletV2.java:842-891 | the engine's chord as the move sees it: chords and detonates exactly as `Gamekeeper.ClearAround`, leaving the block settled and its mined openable cells `BOOM`, with the counter still tracking the flags; every opened cell that shows `TAG_ZERO` ends with its clipped block exposed or flagged; like the engine's chord, every cell only advances to its count or, when mined and openable, turns `BOOM`, so each safe cell it opened shows `TAG_ZERO` plus its adjacent-mine count; only the listed cells change |

## Left out

- Painting, redraw, images, layout geometry and the seven-segment display are pure graphics calls. `needUpdate` is only redraw bookkeeping and is not modelled.
- The mouse-button state machines are event plumbing. Only their game-over guards are modelled. `gameEnabled()` in version 3.0 and `running` in version 2.0 become preconditions of exposing and chording, and in version 3.0 also of rotating a tag (the right-click guard at line 513 of `java/MinesApplet.java`). Version 2.0's `rotateTagAt` tests `running` itself, and there the test is a branch that does nothing.
- The timer thread, the wall clock and `startTimer`/`stopTimer`/`ticking` are clocks and threads, so they are left out. No "timer started" flag is kept.
- Applet parameter parsing (`getParameter`, `Integer.parseInt`) is host I/O. `rows`, `columns` and `marksQ` are constructor arguments, and `nmines` is an argument of `Start` and `NewGame`.
- `java.util.Random` is replaced by caller-supplied 32-bit draws.
- `synchronized` on the applet's lifecycle methods is a concurrency concern outside the engine.
- `Gamekeeper.Gamekeeper.LayOneMine` takes the intended index `PickIndex` rather than the code's computation. The code's index and its fall-through `RuntimeException` are modelled separately, by `MinePick.DrawAsWritten`; see Findings.
- `Gamekeeper.Gamekeeper.RotateTagAt` keeps `counter` as an unbounded integer. A 32-bit wrap could only happen for a requested mine count within the number of flags placed of `Integer.MIN_VALUE`, and up to rows×columns flags can be placed.
- `Gamekeeper.Gamekeeper.ShowLoss` restores the full invariant only when something was already exposed. That is always so after a detonation, since the first exposure never detonates.
- `cellIsExposed`, `gameIsWon`, `gameIsLost` and `gameEnabled` are plain queries. They appear as `IsExposed`, `IsWon`, the `lost` field and `GameEnabled`, with no rows of their own.
- The version 2.0 engine methods `tagCell`, `layMines`, `layOneMine`, `rippleExpose`, `countAdjacentMines`, `showLoss` and `showWin` (java.v2/MineFieldAppletV2.java:568-840) are the same code as version 3.0's. They are covered by the same `Gamekeeper` members.

## Findings

| source | as written | input that shows it | evidently intended | confidence | as-written member | corrected member |
|---|---|---|---|---|---|---|
| java/MinesApplet.java:712-714 (the same at java.v2/MineFieldAppletV2.java:637-639) | `if (pos < 0) pos *= -1; pos %= n;` leaves `Integer.MIN_VALUE` negative, because its negation wraps. Then `pos % n` is negative unless n divides 2^31, no cell is reached, and the scan falls through to the `RuntimeException` | draw `Integer.MIN_VALUE` with 3 unmined cells gives index -2 | a non-negative index in [0, n) for every draw | not executed | MinePick.MinValueDrawIsNegative | MinePick.PickIndex |
