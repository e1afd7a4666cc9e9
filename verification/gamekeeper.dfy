/**
 * The Gamekeeper: the minefield engine shared, line for line, by the version 3 applet
 * (`MinesApplet`) and the version 2 applet (`MineFieldApplet`). It owns the visible tag
 * grid, the hidden mine grid, the exposed and unmined counts, the flags-remaining counter
 * and the pending redraw box, and implements mine laying, the ripple reveal, the flag
 * cycle, the chord clear and the loss and win reveals.
 */
module Gamekeeper {
  import opened Wrappers
  import opened Region
  import opened MinePick
  import opened Grid

  // Tag values, kept as the source's byte constants so that order comparisons stay literal.
  const TAG_NULL: int := 0    // covered, no tag
  const TAG_FLAG: int := 1    // covered, flagged
  const TAG_QUES: int := 2    // covered, marked '?'
  const TAG_BOOM: int := 3    // exposed, mined (the detonated cell)
  const TAG_MINE: int := 4    // auto-exposed, mined
  const TAG_OOPS: int := 5    // auto-exposed, wrongly flagged
  const TAG_ZERO: int := 6    // exposed, TAG_ZERO + n for n adjacent mines
  const TAG_EIGHT: int := 14  // exposed, 8 adjacent mines

  predicate IsMinedValue(v: int) { v != 0 }
  predicate IsFlag(t: int) { t == TAG_FLAG }
  /** An exposed safe cell, showing its adjacent-mine count. */
  predicate IsCount(t: int) { t >= TAG_ZERO }
  /** A cell `rippleExpose` may open: covered and not flagged. */
  predicate IsOpenable(t: int) { t == TAG_NULL || t == TAG_QUES }
  /** `cellIsExposed`: the tag says the cell has been uncovered. */
  predicate IsExposed(t: int) { t >= TAG_BOOM }

  /**
   * `setupGame`'s size check: the cell count is computed as a 64-bit product, narrowed
   * to `int`, and refused when the narrowing lost information or fewer than 4 cells remain.
   */
  function CheckedCellCount(rows: int, columns: int): (r: Option<int>)
    requires 0 <= rows <= INT_MAX && 0 <= columns <= INT_MAX
    ensures r.Some? <==> 4 <= rows * columns <= INT_MAX
    ensures r.Some? ==> r.value == rows * columns
  {
    var product := rows * columns;
    var ncells := Wrap32(product);
    if product != ncells || ncells < 4 then None else Some(ncells)
  }

  /** `setupGame`'s silent clamp of the requested mine count into [1, ncells - 1]. */
  function ClampMines(nmines: int, ncells: int): (r: int)
    requires ncells >= 4
    ensures 1 <= r <= ncells - 1
    ensures 1 <= nmines <= ncells - 1 ==> r == nmines
    ensures nmines >= ncells ==> r == ncells - 1
    ensures nmines < 1 ==> r == 1
  {
    var n := if nmines >= ncells then ncells - 1 else nmines;
    if n < 1 then 1 else n
  }

  /** The tag `rotateTagAt` moves a covered cell to. */
  function NextTag(t: int, marksQ: bool): (r: int)
    ensures TAG_NULL <= r <= TAG_QUES
    ensures IsFlag(r) <==> t == TAG_NULL
    ensures r == TAG_QUES <==> marksQ && IsFlag(t)
  {
    if t == TAG_NULL then TAG_FLAG
    else if t == TAG_FLAG then (if marksQ then TAG_QUES else TAG_NULL)
    else TAG_NULL
  }

  /**
   * The tag `showLoss` gives a cell with tag `t` and mine entry `m`: a detonated cell and a
   * cell whose flag agrees with its mine keep their tag, an unflagged mine shows `TAG_MINE`
   * and a wrong flag `TAG_OOPS`. Where the tag agreed with the mines, afterwards exactly the
   * mined cells show a mine or a flag.
   */
  function LossTag(t: int, m: int): (r: int)
    ensures TAG_NULL <= t <= TAG_EIGHT ==> TAG_NULL <= r <= TAG_EIGHT
    ensures IsCount(r) ==> r == t
    ensures IsCount(t) && m == 0 ==> r == t
    ensures r != t ==> t != TAG_BOOM && (r == TAG_MINE || r == TAG_OOPS) && (r == TAG_MINE <==> m != 0)
    ensures IsMinedValue(m) == IsFlag(t) ==> r == t
    ensures t != TAG_BOOM && IsMinedValue(m) != IsFlag(t) ==> IsExposed(r) && (r == TAG_MINE <==> m != 0)
    ensures (t == TAG_BOOM || t == TAG_MINE ==> m != 0) && (t == TAG_OOPS ==> m == 0) ==>
              (m != 0 <==> r == TAG_BOOM || r == TAG_MINE || r == TAG_FLAG)
  {
    if t == TAG_BOOM then t
    else if IsMinedValue(m) != IsFlag(t) then (if IsMinedValue(m) then TAG_MINE else TAG_OOPS)
    else t
  }

  /** The tag `showWin` gives a cell with tag `t`: every covered cell ends up flagged. */
  function WinTag(t: int): (r: int)
    ensures IsExposed(r) <==> IsExposed(t)
    ensures !IsExposed(t) && t >= TAG_NULL ==> IsFlag(r)
    ensures IsExposed(t) ==> r == t
  {
    if t == TAG_NULL || t == TAG_QUES then TAG_FLAG else t
  }

  /** What `exposeCellAt` did with the cell: nothing, a detonation, or a safe reveal. */
  datatype Exposure = Ignored | Detonated | Revealed

  /** `q` lies within `radius` rows and columns of `centre`. */
  predicate Within(centre: Cell, q: Cell, radius: int) {
    centre.0 - radius <= q.0 <= centre.0 + radius && centre.1 - radius <= q.1 <= centre.1 + radius
  }

  /**
   * How far a run of reveals may reach, given the cells `zeros` with no adjacent mines:
   * each listed cell lies within `radius` of `centre`, or in the 3x3 block of an earlier
   * listed cell of `zeros`.
   */
  ghost predicate Spread(zeros: set<Cell>, uncovered: seq<Cell>, centre: Cell, radius: int) {
    forall k :: 0 <= k < |uncovered| ==>
      Within(centre, uncovered[k], radius)
      || exists m :: 0 <= m < k && uncovered[m] in zeros && Within(uncovered[m], uncovered[k], 1)
  }

  /** A reveal seeded inside the box around `centre` continues a spread from `centre`. */
  lemma {:induction false} SpreadJoin(zeros: set<Cell>, a: seq<Cell>, b: seq<Cell>, centre: Cell, radius: int, seed: Cell, r: int)
    requires Spread(zeros, a, centre, radius) && Spread(zeros, b, seed, r)
    requires centre.0 - radius <= seed.0 - r && seed.0 + r <= centre.0 + radius
    requires centre.1 - radius <= seed.1 - r && seed.1 + r <= centre.1 + radius
    ensures Spread(zeros, a + b, centre, radius)
  {
    var s := a + b;
    forall k | 0 <= k < |s|
      ensures Within(centre, s[k], radius) || exists m :: 0 <= m < k && s[m] in zeros && Within(s[m], s[k], 1)
    {
      if k >= |a| {
        assert s[k] == b[k - |a|];
        if !Within(seed, b[k - |a|], r) {
          var m :| 0 <= m < k - |a| && b[m] in zeros && Within(b[m], b[k - |a|], 1);
          assert s[m + |a|] == b[m];
        }
      } else {
        assert s[k] == a[k];
        if !Within(centre, a[k], radius) {
          var m :| 0 <= m < k && a[m] in zeros && Within(a[m], a[k], 1);
          assert s[m] == a[m];
        }
      }
    }
  }

  /** A spread from `seed` is a spread from any `centre` whose box holds the seed's box. */
  lemma SpreadWiden(zeros: set<Cell>, b: seq<Cell>, centre: Cell, radius: int, seed: Cell, r: int)
    requires Spread(zeros, b, seed, r)
    requires centre.0 - radius <= seed.0 - r && seed.0 + r <= centre.0 + radius
    requires centre.1 - radius <= seed.1 - r && seed.1 + r <= centre.1 + radius
    ensures Spread(zeros, b, centre, radius)
  {
  }

  /**
   * `rippleExpose` on a cell with no adjacent mines: the cell, then a spread around its
   * block, is a spread from the cell alone.
   */
  lemma {:induction false} SpreadFromZero(zeros: set<Cell>, p: Cell, around: seq<Cell>)
    requires p in zeros && Spread(zeros, around, p, 1)
    ensures Spread(zeros, [p] + around, p, 0)
  {
    var s := [p] + around;
    forall k | 0 <= k < |s|
      ensures Within(p, s[k], 0) || exists m :: 0 <= m < k && s[m] in zeros && Within(s[m], s[k], 1)
    {
      if k > 0 {
        assert s[k] == around[k - 1];
        if Within(p, around[k - 1], 1) {
          assert s[0] == p;
        } else {
          var m :| 0 <= m < k - 1 && around[m] in zeros && Within(around[m], around[k - 1], 1);
          assert s[m + 1] == around[m];
        }
      }
    }
  }

  /**
   * A spread from a cell that has adjacent mines never leaves it: `rippleExpose` on such a
   * cell opens that cell alone.
   */
  lemma {:induction false} SpreadStops(zeros: set<Cell>, uncovered: seq<Cell>, p: Cell)
    requires Spread(zeros, uncovered, p, 0) && p !in zeros
    ensures forall k :: 0 <= k < |uncovered| ==> uncovered[k] == p
  {
    if |uncovered| > 0 {
      var n := |uncovered| - 1;
      var front := uncovered[..n];
      assert forall k :: 0 <= k < n ==> front[k] == uncovered[k];
      SpreadStops(zeros, front, p);
    }
  }

  /** The cells of `free` that a row-major scan passes before reaching (i, j). */
  ghost function FreeBefore(free: set<Cell>, i: int, j: int): set<Cell> {
    set p | p in free && (p.0 < i || (p.0 == i && p.1 < j))
  }

  /** The cells listed in `s`. */
  ghost function Cells(s: seq<Cell>): set<Cell> {
    set p | p in s
  }

  /**
   * `layOneMine`'s choice: `p` is a cell of `free`, and a row-major scan of `free` passes
   * exactly the index that `draw` reduces to among them before reaching it.
   */
  ghost predicate Picks(free: set<Cell>, draw: int, p: Cell) {
    p in free && |FreeBefore(free, p.0, p.1)| == PickIndex(draw, |free|)
  }

  /**
   * `placed` is what `layMines` mines out of the free cells `free`, one draw per mine: each
   * cell is the pick of its draw among the cells the earlier ones left free.
   */
  ghost predicate LaidBy(free: set<Cell>, draws: seq<int>, placed: seq<Cell>)
    decreases |placed|
  {
    placed == [] || (draws != [] && Picks(free, draws[0], placed[0]) && LaidBy(free - {placed[0]}, draws[1..], placed[1..]))
  }

  /** Two free cells the scan reaches after passing equally many free cells are the same cell. */
  lemma FreeRankUnique(free: set<Cell>, p: Cell, q: Cell)
    requires p in free && q in free
    requires |FreeBefore(free, p.0, p.1)| == |FreeBefore(free, q.0, q.1)|
    ensures p == q
  {
    if p.0 < q.0 || (p.0 == q.0 && p.1 < q.1) {
      assert FreeBefore(free, p.0, p.1) + {p} <= FreeBefore(free, q.0, q.1);
      SubsetSize(FreeBefore(free, p.0, p.1) + {p}, FreeBefore(free, q.0, q.1));
    } else if q.0 < p.0 || (q.0 == p.0 && q.1 < p.1) {
      assert FreeBefore(free, q.0, q.1) + {q} <= FreeBefore(free, p.0, p.1);
      SubsetSize(FreeBefore(free, q.0, q.1) + {q}, FreeBefore(free, p.0, p.1));
    }
  }

  /** The draws determine the layout: two runs of `layMines` from the same grid mine the same cells. */
  lemma {:induction false} LaidByUnique(free: set<Cell>, draws: seq<int>, a: seq<Cell>, b: seq<Cell>)
    requires LaidBy(free, draws, a) && LaidBy(free, draws, b) && |a| == |b|
    ensures a == b
  {
    if a != [] {
      FreeRankUnique(free, a[0], b[0]);
      LaidByUnique(free - {a[0]}, draws[1..], a[1..], b[1..]);
      assert a == [a[0]] + a[1..] && b == [b[0]] + b[1..];
    }
  }

  /** One more draw extends a layout by its pick among the cells still free. */
  lemma {:induction false} LaidStep(free: set<Cell>, draws: seq<int>, placed: seq<Cell>, p: Cell)
    requires LaidBy(free, draws, placed) && |placed| < |draws|
    requires Picks(free - Cells(placed), draws[|placed|], p)
    ensures LaidBy(free, draws, placed + [p])
  {
    if placed == [] {
      assert free - Cells(placed) == free;
    } else {
      var q, rest := placed[0], placed[1..];
      FreeAfterFirst(free, placed);
      LaidStep(free - {q}, draws[1..], rest, p);
      assert (placed + [p])[1..] == rest + [p];
    }
  }

  /** The cells the layout leaves free, counted from the cells its first pick leaves free. */
  lemma FreeAfterFirst(free: set<Cell>, placed: seq<Cell>)
    requires placed != []
    ensures free - Cells(placed) == (free - {placed[0]}) - Cells(placed[1..])
  {
    forall c ensures c in Cells(placed) <==> c == placed[0] || c in placed[1..] {
      assert placed == [placed[0]] + placed[1..];
    }
  }

  /** Mining the pick moves it from the free cells to the mined ones. */
  lemma MinedStep(placed: seq<Cell>, p: Cell, free: set<Cell>, mines0: set<Cell>,
                  mines: set<Cell>, safe: set<Cell>, mines': set<Cell>, safe': set<Cell>)
    requires mines == mines0 + Cells(placed) && safe == free - Cells(placed)
    requires mines' == mines + {p} && safe' == safe - {p}
    ensures mines' == mines0 + Cells(placed + [p]) && safe' == free - Cells(placed + [p])
  {
    CellsSnoc(placed, p);
  }

  lemma CellsSnoc(s: seq<Cell>, p: Cell)
    ensures Cells(s + [p]) == Cells(s) + {p}
  {
    forall q ensures q in Cells(s + [p]) <==> q in Cells(s) + {p} {
      assert q in s + [p] <==> q in s || q == p;
    }
  }

  class Gamekeeper {
    const rows: int
    const columns: int
    const marksQ: bool
    const tags: array2<int>
    const mined: array2<int>
    var exposedCount: int
    var unminedCount: int
    var counter: int
    var updateArea: Option<Area>
    /** The clamped number of mines the last setup laid (a local of `setupGame`). */
    ghost var mineCount: int
    /** The mine count last requested, which the flags-remaining counter starts from. */
    ghost var requested: int

    ghost predicate Shaped() {
      && 0 <= rows <= INT_MAX && 0 <= columns <= INT_MAX
      && tags.Length0 == rows && tags.Length1 == columns
      && mined.Length0 == rows && mined.Length1 == columns
      && tags != mined
    }

    ghost predicate InGrid(i: int, j: int) {
      0 <= i < rows && 0 <= j < columns
    }

    ghost function Unmined(): set<Cell> reads mined { CellsOf(mined, 0) }
    ghost function Mined(): set<Cell> reads mined { CellsOf(mined, 1) }
    ghost function Flags(): set<Cell> reads tags { CellsOf(tags, TAG_FLAG) }
    /** The cells showing an adjacent-mine count. */
    ghost function ExposedSafe(): set<Cell> reads tags {
      set i, j | 0 <= i < tags.Length0 && 0 <= j < tags.Length1 && IsCount(tags[i, j]) :: (i, j)
    }
    /** The mined neighbours of (i, j) in its 3x3 block clipped to the grid. */
    ghost function AdjacentMineCount(i: int, j: int): int reads mined { CountAround(mined, 1, i, j) }
    ghost function AdjacentFlagCount(i: int, j: int): int reads tags { CountAround(tags, TAG_FLAG, i, j) }
    /** The unmined cells a row-major scan of the whole grid passes before (i, j). */
    ghost function UnminedBefore(i: int, j: int): set<Cell> reads mined {
      Scanned(mined, 0, 0, 0, columns, i, j)
    }

    ghost predicate MinesAreBits()
      reads mined
      requires Shaped()
    {
      forall i, j {:trigger mined[i, j]} :: InGrid(i, j) ==> mined[i, j] == 0 || mined[i, j] == 1
    }

    ghost predicate TagsInRange()
      reads tags
      requires Shaped()
    {
      forall i, j {:trigger tags[i, j]} :: InGrid(i, j) ==> TAG_NULL <= tags[i, j] <= TAG_EIGHT
    }

    /** Every cell of the clipped 3x3 block around (i, j) is exposed or flagged. */
    ghost predicate Settled(i: int, j: int)
      reads tags
      requires Shaped()
    {
      forall i', j' :: InGrid(i', j') && i - 1 <= i' <= i + 1 && j - 1 <= j' <= j + 1
        ==> IsExposed(tags[i', j']) || IsFlag(tags[i', j'])
    }

    /** Exactly the mined cells show a mine (detonated or auto-exposed) or a flag. */
    ghost predicate MinesShown()
      reads tags, mined
      requires Shaped()
    {
      forall i, j :: InGrid(i, j) ==>
        (mined[i, j] != 0 <==> tags[i, j] == TAG_BOOM || tags[i, j] == TAG_MINE || tags[i, j] == TAG_FLAG)
    }

    /** No tag that only a loss produces. */
    ghost predicate NoRevealTags()
      reads tags
      requires Shaped()
    {
      forall i, j :: InGrid(i, j) ==> tags[i, j] != TAG_BOOM && tags[i, j] != TAG_MINE && tags[i, j] != TAG_OOPS
    }

    /**
     * What a cell's tag `t` says about its mine entry `m` and its adjacent-mine count `adj`:
     * a count tag sits on an unmined cell and shows `adj`, `TAG_BOOM` and `TAG_MINE` sit on
     * mines, `TAG_OOPS` does not.
     */
    static predicate TagFits(t: int, m: int, adj: int) {
      && (IsCount(t) ==> m == 0 && t == TAG_ZERO + adj)
      && (t == TAG_BOOM || t == TAG_MINE ==> m != 0)
      && (t == TAG_OOPS ==> m == 0)
    }

    /** The tag of (i, j) fits its mine entry and its adjacent-mine count. */
    ghost predicate TagFitsAt(i: int, j: int)
      reads tags, mined
      requires Shaped() && InGrid(i, j)
    {
      TagFits(tags[i, j], mined[i, j], AdjacentMineCount(i, j))
    }

    /**
     * The mine grid's half of the invariant: the grid passed the size check, every entry
     * is 0 or 1, exactly `mineCount` cells are mined and `unminedCount` are not.
     */
    ghost predicate MinesCounted()
      reads this`mineCount, this`unminedCount, mined
      requires Shaped()
    {
      && CheckedCellCount(rows, columns) == Some(rows * columns)
      && MinesAreBits()
      && |Mined()| == mineCount && |Unmined()| == unminedCount
      && mineCount + unminedCount == rows * columns && 1 <= mineCount && 1 <= unminedCount
    }

    /** The tag grid's half: every tag is in range and agrees with the mines. */
    ghost predicate TagsAgree()
      reads tags, mined
      requires Shaped()
    {
      && TagsInRange()
      && (forall i, j {:trigger TagFitsAt(i, j)} :: InGrid(i, j) ==> TagFitsAt(i, j))
    }

    /** Every cell is covered. */
    ghost predicate NoneExposed()
      reads tags
      requires Shaped()
    {
      forall i, j {:trigger tags[i, j]} :: InGrid(i, j) ==> !IsExposed(tags[i, j])
    }

    /** The engine's invariant, apart from the exposed count. */
    ghost predicate Consistent()
      reads this, tags, mined
    {
      Shaped() && MinesCounted() && TagsAgree() && (updateArea.Some? ==> WellFormed(updateArea.value))
    }

    /**
     * The invariant: `exposedCount` counts the cells showing an adjacent-mine count, and
     * before the first exposure nothing is uncovered at all.
     */
    ghost predicate Valid()
      reads this, tags, mined
    {
      Consistent() && exposedCount == |ExposedSafe()| && (exposedCount == 0 ==> NoneExposed())
    }

    /** Every cell covered and unmined: the grid as allocated, or as `newGame` clears it. */
    ghost predicate Blank()
      reads tags, mined
      requires Shaped()
    {
      forall i, j :: InGrid(i, j) ==> tags[i, j] == TAG_NULL && mined[i, j] == 0
    }

    /** `gameIsWon`. */
    predicate IsWon()
      reads this
    {
      exposedCount == unminedCount
    }

    /** The part of `init` that allocates the two grids. */
    constructor (rows: int, columns: int, marksQ: bool)
      requires 0 <= rows <= INT_MAX && 0 <= columns <= INT_MAX
      ensures Shaped() && Blank() && fresh(tags) && fresh(mined)
      ensures this.rows == rows && this.columns == columns && this.marksQ == marksQ
      ensures updateArea == None
    {
      this.rows := rows;
      this.columns := columns;
      this.marksQ := marksQ;
      tags := new int[rows, columns]((i, j) => TAG_NULL);
      mined := new int[rows, columns]((i, j) => 0);
      updateArea := None;
    }

    /** `tagCell`: store a tag and grow the pending redraw box when it changes. */
    method TagCell(row: int, column: int, tag: int)
      requires Shaped() && InGrid(row, column)
      requires updateArea.Some? ==> WellFormed(updateArea.value)
      modifies this`updateArea, tags
      ensures tags[row, column] == tag
      ensures forall i, j :: InGrid(i, j) && (i != row || j != column) ==> tags[i, j] == old(tags[i, j])
      ensures updateArea == if old(tags[row, column]) == tag then old(updateArea)
                            else Some(Touch(old(updateArea), column, row))
      ensures updateArea.Some? ==> WellFormed(updateArea.value)
      ensures ExposedSafe() == if IsCount(tag) then old(ExposedSafe()) + {(row, column)}
                               else if IsCount(old(tags[row, column])) then old(ExposedSafe()) - {(row, column)}
                               else old(ExposedSafe())
      ensures old(MinesCounted()) ==> MinesCounted()
      ensures TagsAgree() <== old(TagsAgree()) && TAG_NULL <= tag <= TAG_EIGHT
                              && TagFits(tag, mined[row, column], AdjacentMineCount(row, column))
    {
      if tags[row, column] != tag {
        ghost var exposed := ExposedSafe();
        tags[row, column] := tag;
        updateArea := Some(Touch(updateArea, column, row));
        ghost var expected := if IsCount(tag) then exposed + {(row, column)}
                              else if IsCount(old(tags[row, column])) then exposed - {(row, column)}
                              else exposed;
        assert ExposedSafe() == expected by {
          forall p | p in ExposedSafe() ensures p in expected {}
          forall p | p in expected ensures p in ExposedSafe() {}
        }
        if old(TagsAgree()) && TAG_NULL <= tag <= TAG_EIGHT
           && TagFits(tag, mined[row, column], AdjacentMineCount(row, column)) {
          forall i, j | InGrid(i, j) ensures TAG_NULL <= tags[i, j] <= TAG_EIGHT && TagFitsAt(i, j) {
            if i != row || j != column {
              assert tags[i, j] == old(tags[i, j]) && old(TagFitsAt(i, j));
            }
          }
        }
      }
    }

    /**
     * `layOneMine`: reduce the draw to an index `pos` among the `n` unmined cells and mine
     * the unmined cell that a row-major scan reaches after passing exactly `pos` others.
     */
    method LayOneMine(n: int, draw: int) returns (ghost mr: int, ghost mc: int)
      requires Shaped() && MinesAreBits()
      requires n == |Unmined()| && n > 0 && IsInt32(draw)
      modifies mined
      ensures MinesAreBits()
      ensures InGrid(mr, mc) && old(mined[mr, mc]) == 0 && mined[mr, mc] == 1
      ensures |old(UnminedBefore(mr, mc))| == PickIndex(draw, n)
      ensures Picks(old(Unmined()), draw, (mr, mc))
      ensures forall i, j :: InGrid(i, j) && (i != mr || j != mc) ==> mined[i, j] == old(mined[i, j])
      ensures Mined() == old(Mined()) + {(mr, mc)} && (mr, mc) !in old(Mined())
      ensures Unmined() == old(Unmined()) - {(mr, mc)} && (mr, mc) in old(Unmined())
    {
      var pos := PickIndex(draw, n);
      ScannedAll(mined, 0);
      ScannedStart(mined, 0, 0, 0, columns);
      var row := 0;
      while row < rows
        invariant 0 <= row <= rows
        invariant 0 <= pos && pos + |UnminedBefore(row, 0)| == PickIndex(draw, n)
        invariant unchanged(mined)
      {
        var col := 0;
        while col < columns
          invariant 0 <= col <= columns
          invariant 0 <= pos && pos + |UnminedBefore(row, col)| == PickIndex(draw, n)
          invariant unchanged(mined)
        {
          RankStep(row, col);
          if mined[row, col] == 0 {
            if pos == 0 {
              UnminedBeforeFree(row, col);
              PlantMine(row, col);
              mr, mc := row, col;
              return;
            }
            pos := pos - 1;
          }
          col := col + 1;
        }
        ScannedRow(mined, 0, 0, 0, columns, row);
        row := row + 1;
      }
      // The scan passed all n unmined cells, more than the index allows.
      assert false;
    }

    /** The rank the mine scan counts is the rank among the unmined cells. */
    lemma UnminedBeforeFree(i: int, j: int)
      requires Shaped()
      ensures UnminedBefore(i, j) == FreeBefore(Unmined(), i, j)
    {
    }

    /** Passing one cell raises the row-major rank by one exactly when that cell is unmined. */
    lemma RankStep(row: int, col: int)
      requires Shaped() && InGrid(row, col)
      ensures |UnminedBefore(row, col + 1)| == |UnminedBefore(row, col)| + (if mined[row, col] == 0 then 1 else 0)
    {
      ScannedNext(mined, 0, 0, 0, columns, row, col);
    }

    /** `mined[mr][mc] = 1` on an unmined cell: it moves from the non-mine set to the mine set. */
    method PlantMine(mr: int, mc: int)
      requires Shaped() && MinesAreBits() && InGrid(mr, mc) && mined[mr, mc] == 0
      modifies mined
      ensures MinesAreBits() && mined[mr, mc] == 1
      ensures forall i, j :: InGrid(i, j) && (i != mr || j != mc) ==> mined[i, j] == old(mined[i, j])
      ensures Mined() == old(Mined()) + {(mr, mc)} && (mr, mc) !in old(Mined())
      ensures Unmined() == old(Unmined()) - {(mr, mc)} && (mr, mc) in old(Unmined())
    {
      ghost var mines, safe := Mined(), Unmined();
      mined[mr, mc] := 1;
      assert Mined() == mines + {(mr, mc)} by {
        forall p | p in Mined() ensures p in mines + {(mr, mc)} {}
        forall p | p in mines + {(mr, mc)} ensures p in Mined() {}
      }
      assert Unmined() == safe - {(mr, mc)} by {
        forall p | p in Unmined() ensures p in safe - {(mr, mc)} {}
        forall p | p in safe - {(mr, mc)} ensures p in Unmined() {}
      }
    }

    /** Row-major rank among the unmined cells identifies a cell: the index picks one cell only. */
    lemma RankDeterminesCell(i1: int, j1: int, i2: int, j2: int)
      requires Shaped()
      requires InGrid(i1, j1) && InGrid(i2, j2) && mined[i1, j1] == 0 && mined[i2, j2] == 0
      requires |UnminedBefore(i1, j1)| == |UnminedBefore(i2, j2)|
      ensures i1 == i2 && j1 == j2
    {
      if i1 < i2 || (i1 == i2 && j1 < j2) {
        EarlierRankSmaller(i1, j1, i2, j2);
      } else if i2 < i1 || (i1 == i2 && j2 < j1) {
        EarlierRankSmaller(i2, j2, i1, j1);
      }
    }

    lemma EarlierRankSmaller(i1: int, j1: int, i2: int, j2: int)
      requires Shaped()
      requires InGrid(i1, j1) && mined[i1, j1] == 0
      requires i1 < i2 || (i1 == i2 && j1 < j2)
      ensures |UnminedBefore(i1, j1)| < |UnminedBefore(i2, j2)|
    {
      var a, b := UnminedBefore(i1, j1), UnminedBefore(i2, j2);
      assert a + {(i1, j1)} <= b;
      SubsetSize(a + {(i1, j1)}, b);
    }

    /**
     * `layMines`: lay `nmines` mines one at a time, the k-th from `draws[k]` among the
     * `ncells - k` cells still unmined, so that no cell is drawn twice.
     */
    method LayMines(nmines: int, ncells: int, draws: seq<int>) returns (ghost placed: seq<Cell>)
      requires Shaped() && MinesAreBits()
      requires ncells == |Unmined()| && 0 <= nmines <= ncells
      requires |draws| >= nmines && forall k :: 0 <= k < |draws| ==> IsInt32(draws[k])
      modifies mined
      ensures MinesAreBits()
      ensures |Mined()| == |old(Mined())| + nmines && |Unmined()| == ncells - nmines
      ensures |placed| == nmines && LaidBy(old(Unmined()), draws, placed)
      ensures Mined() == old(Mined()) + Cells(placed) && Unmined() == old(Unmined()) - Cells(placed)
    {
      ghost var mines0, free0 := Mined(), Unmined();
      placed := [];
      var left, free := nmines, ncells;
      while left > 0
        invariant 0 <= left <= nmines && free == ncells - (nmines - left)
        invariant MinesAreBits()
        invariant |placed| == nmines - left && LaidBy(free0, draws, placed)
        invariant Mined() == mines0 + Cells(placed) && Unmined() == free0 - Cells(placed)
        invariant free == |Unmined()| && |Mined()| == |mines0| + (nmines - left)
      {
        placed := LayStep(free, draws[nmines - left], draws, mines0, free0, placed);
        left := left - 1;
        free := free - 1;
      }
      assert left == 0 && mines0 == old(Mined()) && free0 == old(Unmined());
    }

    /** One `layOneMine` call of `layMines`: the layout so far grows by the draw's pick. */
    method LayStep(n: int, draw: int, ghost draws: seq<int>, ghost mines0: set<Cell>, ghost free0: set<Cell>, ghost placed: seq<Cell>)
      returns (ghost next: seq<Cell>)
      requires Shaped() && MinesAreBits() && n == |Unmined()| && n > 0
      requires |placed| < |draws| && draw == draws[|placed|] && IsInt32(draw)
      requires LaidBy(free0, draws, placed)
      requires Mined() == mines0 + Cells(placed) && Unmined() == free0 - Cells(placed)
      modifies mined
      ensures MinesAreBits() && |Unmined()| == n - 1 && |Mined()| == |old(Mined())| + 1
      ensures |next| == |placed| + 1 && LaidBy(free0, draws, next)
      ensures Mined() == mines0 + Cells(next) && Unmined() == free0 - Cells(next)
    {
      ghost var mines, safe := Mined(), Unmined();
      ghost var mr, mc := LayOneMine(n, draw);
      LaidStep(free0, draws, placed, (mr, mc));
      MinedStep(placed, (mr, mc), free0, mines0, mines, safe, Mined(), Unmined());
      next := placed + [(mr, mc)];
    }

    /** `setupGame`'s call of `layMines` on a grid with no mines yet. */
    method LayFresh(n: int, ncells: int, draws: seq<int>) returns (ghost placed: seq<Cell>)
      requires Shaped() && forall i, j :: InGrid(i, j) ==> mined[i, j] == 0
      requires ncells == rows * columns && 0 <= n <= ncells
      requires |draws| >= n && forall k :: 0 <= k < |draws| ==> IsInt32(draws[k])
      modifies mined
      ensures MinesAreBits() && |Mined()| == n && |Unmined()| == ncells - n
      ensures |placed| == n && LaidBy(Rect(rows, columns), draws, placed)
      ensures forall i, j :: InGrid(i, j) ==> (mined[i, j] != 0 <==> (i, j) in placed)
    {
      CellsOfAll(mined, 0);
      assert Mined() == {} by {
        forall p | p in Mined() ensures false {}
      }
      assert Unmined() == Rect(rows, columns);
      placed := LayMines(n, ncells, draws);
      forall i, j | InGrid(i, j) ensures mined[i, j] != 0 <==> (i, j) in placed {
        assert (i, j) in Mined() <==> (i, j) in Cells(placed);
      }
    }

    /**
     * `rippleExpose`: show the cell's adjacent-mine count and, when that is zero, open every
     * covered, unflagged cell of its clipped 3x3 block in turn, each rippling on in the same way.
     * The caller has already counted the cell in `exposedCount`; each nested reveal counts one
     * more cell among the `unminedCount`, which bounds the recursion.
     */
    method RippleExpose(row: int, column: int) returns (ghost uncovered: seq<Cell>)
      requires Consistent() && InGrid(row, column)
      requires IsOpenable(tags[row, column]) && mined[row, column] == 0
      requires exposedCount == |ExposedSafe()| + 1
      modifies this`exposedCount, this`updateArea, tags
      decreases unminedCount - exposedCount, 4
      ensures Valid() && old(exposedCount) <= exposedCount
      ensures tags[row, column] == TAG_ZERO + AdjacentMineCount(row, column)
      ensures forall i, j :: InGrid(i, j) ==> Advanced(old(tags[i, j]), tags[i, j])
      ensures tags[row, column] == TAG_ZERO ==> Settled(row, column)
      ensures tags[row, column] != TAG_ZERO ==>
                forall i, j :: InGrid(i, j) && (i != row || j != column) ==> tags[i, j] == old(tags[i, j])
      ensures Uncovers(uncovered) && Spread(ZeroCells(), uncovered, (row, column), 0)
      ensures RippledOn(uncovered)
    {
      var nAdjMines := ShowCount(row, column);
      uncovered := [(row, column)];
      if nAdjMines == 0 {
        label shown:
        ghost var around := RippleAround(row, column);
        forall i, j | InGrid(i, j) ensures Advanced(old(tags[i, j]), tags[i, j]) {
          if i != row || j != column {
            assert old@shown(tags[i, j]) == old(tags[i, j]);
          }
        }
        assert (row, column) in ZeroCells();
        SpreadFromZero(ZeroCells(), (row, column), around);
        uncovered := uncovered + around;
      }
    }

    /** The first half of `rippleExpose`: count the cell's mined neighbours and show the count. */
    method ShowCount(row: int, column: int) returns (nAdjMines: int)
      requires Consistent() && InGrid(row, column)
      requires IsOpenable(tags[row, column]) && mined[row, column] == 0
      requires exposedCount == |ExposedSafe()| + 1
      modifies this`updateArea, tags
      ensures Valid()
      ensures nAdjMines == AdjacentMineCount(row, column) && tags[row, column] == TAG_ZERO + nAdjMines
      ensures forall i, j :: InGrid(i, j) && (i != row || j != column) ==> tags[i, j] == old(tags[i, j])
      ensures Uncovers([(row, column)])
    {
      nAdjMines := CountAdjacentMines(row, column);
      TagCell(row, column, TAG_ZERO + nAdjMines);
      assert MinesCounted() && TagsAgree();
      assert (row, column) !in old(ExposedSafe()) && (row, column) in ExposedSafe();
    }

    /** The loops of `rippleExpose` around a cell with no adjacent mines. */
    method RippleAround(row: int, column: int) returns (ghost uncovered: seq<Cell>)
      requires Valid() && InGrid(row, column)
      requires tags[row, column] == TAG_ZERO && AdjacentMineCount(row, column) == 0
      modifies this`exposedCount, this`updateArea, tags
      decreases unminedCount - exposedCount, 3
      ensures Valid() && old(exposedCount) <= exposedCount && tags[row, column] == TAG_ZERO
      ensures forall i, j :: InGrid(i, j) ==> Advanced(old(tags[i, j]), tags[i, j])
      ensures Settled(row, column)
      ensures Uncovers(uncovered) && Spread(ZeroCells(), uncovered, (row, column), 1) && RippledOn(uncovered)
    {
      var lowRow, hiRow := Max(row - 1, 0), Min(row + 2, rows);
      var lowCol, hiCol := Max(column - 1, 0), Min(column + 2, columns);
      uncovered := [];
      var r := lowRow;
      while r < hiRow
        invariant lowRow <= r <= hiRow
        invariant Valid() && old(exposedCount) <= exposedCount && tags[row, column] == TAG_ZERO
        invariant forall i, j :: InGrid(i, j) ==> Advanced(old(tags[i, j]), tags[i, j])
        invariant SettledScan(lowRow, hiRow, lowCol, hiCol, r, lowCol)
        invariant Uncovers(uncovered) && Spread(ZeroCells(), uncovered, (row, column), 1) && RippledOn(uncovered)
      {
        ExposedWithin();
        label before:
        ghost var more := RippleRow(row, column, lowRow, hiRow, lowCol, hiCol, r);
        forall i, j | InGrid(i, j) ensures Advanced(old(tags[i, j]), tags[i, j]) {
          AdvancedTrans(old(tags[i, j]), old@before(tags[i, j]), tags[i, j]);
        }
        RippledKept@before(uncovered);
        SpreadJoin(ZeroCells(), uncovered, more, (row, column), 1, (row, column), 1);
        uncovered := uncovered + more;
        r := r + 1;
      }
      BlockSettled(row, column, lowRow, hiRow, lowCol, hiCol);
    }

    /** One row of `rippleExpose`'s loops: open each cell of row `r` of the clipped block. */
    method RippleRow(row: int, column: int, lowRow: int, hiRow: int, lowCol: int, hiCol: int, r: int)
      returns (ghost uncovered: seq<Cell>)
      requires Valid() && InGrid(row, column)
      requires tags[row, column] == TAG_ZERO && AdjacentMineCount(row, column) == 0
      requires lowRow == Max(row - 1, 0) && hiRow == Min(row + 2, rows) && lowRow <= r < hiRow
      requires lowCol == Max(column - 1, 0) && hiCol == Min(column + 2, columns)
      requires SettledScan(lowRow, hiRow, lowCol, hiCol, r, lowCol)
      modifies this`exposedCount, this`updateArea, tags
      decreases unminedCount - exposedCount, 2
      ensures Valid() && old(exposedCount) <= exposedCount && tags[row, column] == TAG_ZERO
      ensures forall i, j :: InGrid(i, j) ==> Advanced(old(tags[i, j]), tags[i, j])
      ensures SettledScan(lowRow, hiRow, lowCol, hiCol, r + 1, lowCol)
      ensures Uncovers(uncovered) && Spread(ZeroCells(), uncovered, (row, column), 1) && RippledOn(uncovered)
    {
      uncovered := [];
      var c := lowCol;
      while c < hiCol
        invariant lowCol <= c <= hiCol
        invariant Valid() && old(exposedCount) <= exposedCount && tags[row, column] == TAG_ZERO
        invariant forall i, j :: InGrid(i, j) ==> Advanced(old(tags[i, j]), tags[i, j])
        invariant SettledScan(lowRow, hiRow, lowCol, hiCol, r, c)
        invariant Uncovers(uncovered) && Spread(ZeroCells(), uncovered, (row, column), 1) && RippledOn(uncovered)
      {
        ExposedWithin();
        label before:
        ghost var more := RippleNeighbour(row, column, lowRow, hiRow, lowCol, hiCol, r, c);
        forall i, j | InGrid(i, j) ensures Advanced(old(tags[i, j]), tags[i, j]) {
          AdvancedTrans(old(tags[i, j]), old@before(tags[i, j]), tags[i, j]);
        }
        RippledKept@before(uncovered);
        SpreadJoin(ZeroCells(), uncovered, more, (row, column), 1, (row, column), 1);
        uncovered := uncovered + more;
        c := c + 1;
      }
      ScanRow(lowRow, hiRow, lowCol, hiCol, r);
    }

    /**
     * The body of `rippleExpose`'s loops at the neighbour (r, c) of (row, column): open the
     * cell if it is covered and not flagged. The scan of the block then has passed (r, c).
     */
    method RippleNeighbour(row: int, column: int, lowRow: int, hiRow: int, lowCol: int, hiCol: int, r: int, c: int)
      returns (ghost uncovered: seq<Cell>)
      requires Valid() && InGrid(row, column) && InGrid(r, c)
      requires tags[row, column] == TAG_ZERO && AdjacentMineCount(row, column) == 0
      requires row - 1 <= r <= row + 1 && column - 1 <= c <= column + 1
      requires SettledScan(lowRow, hiRow, lowCol, hiCol, r, c)
      modifies this`exposedCount, this`updateArea, tags
      decreases unminedCount - exposedCount, 0
      ensures Valid() && old(exposedCount) <= exposedCount && tags[row, column] == TAG_ZERO
      ensures forall i, j :: InGrid(i, j) ==> Advanced(old(tags[i, j]), tags[i, j])
      ensures SettledScan(lowRow, hiRow, lowCol, hiCol, r, c + 1)
      ensures Uncovers(uncovered) && Spread(ZeroCells(), uncovered, (row, column), 1)
      ensures IsExposed(old(tags[r, c])) || IsFlag(old(tags[r, c])) ==> uncovered == []
      ensures RippledOn(uncovered)
    {
      uncovered := [];
      if !IsExposed(tags[r, c]) && tags[r, c] != TAG_FLAG {
        NoAdjacentMine(row, column, r, c);
        ExposedRoom(r, c);
        exposedCount := exposedCount + 1;
        uncovered := RippleExpose(r, c);
        SpreadWiden(ZeroCells(), uncovered, (row, column), 1, (r, c), 0);
        assert SettledScan(lowRow, hiRow, lowCol, hiCol, r, c) by {
          forall i, j | InGrid(i, j) && lowRow <= i < hiRow && lowCol <= j < hiCol && (i < r || (i == r && j < c))
            ensures IsExposed(tags[i, j]) || IsFlag(tags[i, j])
          {
            assert IsExposed(old(tags[i, j])) || IsFlag(old(tags[i, j]));
          }
        }
      }
      ScanStep(lowRow, hiRow, lowCol, hiCol, r, c);
    }

    /**
     * A reveal leaves a tag as it was or turns a covered, unflagged cell into an exposed
     * count: flags, marks already exposed and detonations stay put.
     */
    static predicate Advanced(before: int, after: int) {
      after == before || (IsOpenable(before) && IsCount(after))
    }

    /** On a tag that fits its cell, the loss and the win reveal keep exposed and flagged cells so. */
    static lemma RevealKept(t: int, m: int, adj: int)
      requires TagFits(t, m, adj)
      ensures Kept(t, LossTag(t, m)) && Kept(t, WinTag(t))
    {
    }

    static lemma AdvancedTrans(a: int, b: int, c: int)
      requires Advanced(a, b) && Advanced(b, c)
      ensures Advanced(a, c)
    {
    }

    /**
     * Since the earlier state exactly the cells listed in `uncovered` changed their tags,
     * each from covered and unflagged to exposed.
     */
    twostate predicate Uncovers(new uncovered: seq<Cell>)
      requires Shaped()
      reads this, tags
    {
      && (forall i, j :: InGrid(i, j) && tags[i, j] != old(tags[i, j]) ==> (i, j) in uncovered)
      && (forall p :: p in uncovered ==>
            InGrid(p.0, p.1) && IsOpenable(old(tags[p.0, p.1])) && IsExposed(tags[p.0, p.1]))
    }

    /**
     * The ripple went on round every zero it opened: each listed cell that shows
     * `TAG_ZERO` has its clipped 3x3 block exposed or flagged.
     */
    ghost predicate RippledOn(uncovered: seq<Cell>)
      reads tags
      requires Shaped()
    {
      forall p :: p in uncovered && InGrid(p.0, p.1) && tags[p.0, p.1] == TAG_ZERO ==> Settled(p.0, p.1)
    }

    /** A later step keeps every exposed tag and leaves a flagged cell exposed or flagged. */
    static predicate Kept(before: int, after: int) {
      (IsExposed(before) ==> after == before) && (IsFlag(before) ==> IsExposed(after) || IsFlag(after))
    }

    /** Steps that keep exposed and flagged cells so keep the block of each opened zero settled. */
    twostate lemma RippledKept(s: seq<Cell>)
      requires Shaped() && old(RippledOn(s))
      requires forall p :: p in s ==> InGrid(p.0, p.1) && IsExposed(old(tags[p.0, p.1]))
      requires forall i, j :: InGrid(i, j) ==> Kept(old(tags[i, j]), tags[i, j])
      ensures RippledOn(s)
    {
      forall p | p in s && InGrid(p.0, p.1) && tags[p.0, p.1] == TAG_ZERO ensures Settled(p.0, p.1) {
        assert old(tags[p.0, p.1]) == TAG_ZERO;
        forall i, j | InGrid(i, j) && p.0 - 1 <= i <= p.0 + 1 && p.1 - 1 <= j <= p.1 + 1
          ensures IsExposed(tags[i, j]) || IsFlag(tags[i, j])
        {
          assert Kept(old(tags[i, j]), tags[i, j]);
        }
      }
    }

    /** The cells with no adjacent mines: a ripple that reaches one goes on round its block. */
    ghost function ZeroCells(): set<Cell>
      reads mined
    {
      set i, j | 0 <= i < rows && 0 <= j < columns && AdjacentMineCount(i, j) == 0 :: (i, j)
    }

    /** Exposed counts sit on unmined cells, so there are no more of them than unmined cells. */
    lemma ExposedWithin()
      requires Consistent()
      ensures |ExposedSafe()| <= unminedCount
    {
      forall p | p in ExposedSafe() ensures p in Unmined() {
        assert TagFitsAt(p.0, p.1);
      }
      SubsetSize(ExposedSafe(), Unmined());
    }

    /** The cells of the block [lowRow, hiRow) x [lowCol, hiCol) a row-major scan has passed at (r, c) are exposed or flagged. */
    ghost predicate SettledScan(lowRow: int, hiRow: int, lowCol: int, hiCol: int, r: int, c: int)
      reads tags
      requires Shaped()
    {
      forall i, j :: InGrid(i, j) && lowRow <= i < hiRow && lowCol <= j < hiCol && (i < r || (i == r && j < c))
        ==> IsExposed(tags[i, j]) || IsFlag(tags[i, j])
    }

    lemma ScanStep(lowRow: int, hiRow: int, lowCol: int, hiCol: int, r: int, c: int)
      requires Shaped() && InGrid(r, c) && SettledScan(lowRow, hiRow, lowCol, hiCol, r, c)
      requires IsExposed(tags[r, c]) || IsFlag(tags[r, c])
      ensures SettledScan(lowRow, hiRow, lowCol, hiCol, r, c + 1)
    {
    }

    lemma ScanRow(lowRow: int, hiRow: int, lowCol: int, hiCol: int, r: int)
      requires Shaped() && SettledScan(lowRow, hiRow, lowCol, hiCol, r, hiCol)
      ensures SettledScan(lowRow, hiRow, lowCol, hiCol, r + 1, lowCol)
    {
    }

    /** A cell with no adjacent mines has no mined neighbour. */
    lemma NoAdjacentMine(row: int, column: int, r: int, c: int)
      requires Shaped() && MinesAreBits() && InGrid(row, column) && InGrid(r, c) && (r != row || c != column)
      requires row - 1 <= r <= row + 1 && column - 1 <= c <= column + 1
      requires AdjacentMineCount(row, column) == 0
      ensures mined[r, c] == 0
    {
    }

    /** Once the scan has passed the whole clipped block, the block is settled. */
    lemma BlockSettled(row: int, column: int, lowRow: int, hiRow: int, lowCol: int, hiCol: int)
      requires Shaped() && InGrid(row, column)
      requires lowRow == Max(row - 1, 0) && hiRow == Min(row + 2, rows)
      requires lowCol == Max(column - 1, 0) && hiCol == Min(column + 2, columns)
      requires SettledScan(lowRow, hiRow, lowCol, hiCol, hiRow, lowCol)
      ensures Settled(row, column)
    {
    }

    /** A covered unmined cell leaves room for one more exposed count below `unminedCount`. */
    lemma ExposedRoom(r: int, c: int)
      requires Consistent() && InGrid(r, c) && mined[r, c] == 0 && !IsCount(tags[r, c])
      ensures |ExposedSafe()| + 1 <= unminedCount
    {
      forall p | p in ExposedSafe() + {(r, c)} ensures p in Unmined() {
        if p != (r, c) {
          assert TagFitsAt(p.0, p.1);
        }
      }
      SubsetSize(ExposedSafe() + {(r, c)}, Unmined());
    }

    /** `countAdjacentMines`: sum the mine entries of the clipped 3x3 block, less the centre's. */
    method CountAdjacentMines(row: int, column: int) returns (count: int)
      requires Shaped() && MinesAreBits() && InGrid(row, column)
      ensures count == AdjacentMineCount(row, column)
      ensures 0 <= count <= 8
    {
      count := 0;
      var lowRow, hiRow := Max(row - 1, 0), Min(row + 1, rows - 1);
      var lowCol, hiCol := Max(column - 1, 0), Min(column + 1, columns - 1);

      var r := lowRow;
      while r <= hiRow
        invariant lowRow <= r <= hiRow + 1
        invariant count == BlockHits(mined, 1, lowRow, r, lowCol, hiCol + 1)
      {
        var c := lowCol;
        while c <= hiCol
          invariant lowCol <= c <= hiCol + 1
          invariant count == BlockHits(mined, 1, lowRow, r, lowCol, hiCol + 1)
                             + RowHits(mined, 1, r, lowCol, c)
        {
          MineEntryIsHit(r, c);
          count := count + mined[r, c];
          c := c + 1;
        }
        r := r + 1;
      }
      ClippedBlock(mined, 1, row, column);
      MineEntryIsHit(row, column);
      count := count - mined[row, column];
    }

    /** With 0/1 entries, a cell's mine entry is its contribution to a count of mines. */
    lemma MineEntryIsHit(r: int, c: int)
      requires Shaped() && MinesAreBits() && InGrid(r, c)
      ensures mined[r, c] == Hit(mined, 1, r, c)
    {
      assert mined[r, c] == 0 || mined[r, c] == 1;
    }

    /** `counter` shows the requested mine count less the flags placed. */
    ghost predicate CounterTracksFlags()
      reads this, tags
    {
      counter + |Flags()| == requested
    }

    /** The counter as a game starts, before any flag: the requested mine count. */
    method StartCounter(nmines: int)
      requires Valid() && forall i, j :: InGrid(i, j) ==> tags[i, j] == TAG_NULL
      modifies this`counter, this`requested
      ensures Valid() && CounterTracksFlags() && counter == nmines && requested == nmines
    {
      counter := nmines;
      requested := nmines;
      assert Flags() == {} by {
        forall p | p in Flags() ensures false {}
      }
    }

    /**
     * `setupGame`: refuse a grid whose cell count overflows or is below 4 (the source throws;
     * here `ok` is false and nothing changes), clamp the mine count, lay that many mines and
     * reset the exposed and unmined counts. The mine grid must be clear, as `init` and
     * `newGame` leave it.
     */
    method SetupGame(nmines: int, draws: seq<int>) returns (ok: bool, ghost placed: seq<Cell>)
      requires Shaped() && Blank() && (updateArea.Some? ==> WellFormed(updateArea.value))
      requires CheckedCellCount(rows, columns).Some? ==> |draws| >= ClampMines(nmines, rows * columns)
      requires forall k :: 0 <= k < |draws| ==> IsInt32(draws[k])
      modifies this`exposedCount, this`unminedCount, this`mineCount, mined
      ensures ok <==> CheckedCellCount(rows, columns).Some?
      ensures !ok ==> unchanged(mined) && exposedCount == old(exposedCount) && unminedCount == old(unminedCount)
      ensures ok ==> Valid() && exposedCount == 0
      ensures ok ==> mineCount == ClampMines(nmines, rows * columns) && |Mined()| == mineCount
      ensures ok ==> unminedCount == rows * columns - mineCount
      ensures ok ==> |placed| == mineCount && LaidBy(Rect(rows, columns), draws, placed)
      ensures ok ==> forall i, j :: InGrid(i, j) ==> (mined[i, j] != 0 <==> (i, j) in placed)
    {
      var checked := CheckedCellCount(rows, columns);
      if checked.None? {
        return false, [];
      }
      var ncells := checked.value;
      var n := ClampMines(nmines, ncells);
      placed := LayFresh(n, ncells, draws);
      exposedCount := 0;
      unminedCount := ncells - n;
      mineCount := n;
      FreshValid();
      ok := true;
    }

    /** A grid with every cell covered and the mines counted satisfies the invariant. */
    lemma FreshValid()
      requires Shaped() && MinesCounted() && (updateArea.Some? ==> WellFormed(updateArea.value))
      requires exposedCount == 0 && forall i, j :: InGrid(i, j) ==> tags[i, j] == TAG_NULL
      ensures Valid()
    {
      assert ExposedSafe() == {} by {
        forall p | p in ExposedSafe() ensures false {}
      }
    }

    /**
     * `newGame`: clear every mine and tag, set the game up again and reset the
     * flags-remaining counter to the requested (unclamped) count.
     */
    method NewGame(nmines: int, draws: seq<int>) returns (ok: bool, ghost placed: seq<Cell>)
      requires Shaped() && (updateArea.Some? ==> WellFormed(updateArea.value))
      requires CheckedCellCount(rows, columns).Some? ==> |draws| >= ClampMines(nmines, rows * columns)
      requires forall k :: 0 <= k < |draws| ==> IsInt32(draws[k])
      modifies this`exposedCount, this`unminedCount, this`mineCount, this`counter, this`requested
      modifies this`updateArea, tags, mined
      ensures ok <==> CheckedCellCount(rows, columns).Some?
      ensures forall i, j :: InGrid(i, j) ==> tags[i, j] == TAG_NULL
      ensures !ok ==> Blank()
      ensures ok ==> Valid() && exposedCount == 0 && CounterTracksFlags() && counter == nmines
      ensures ok ==> mineCount == ClampMines(nmines, rows * columns) && unminedCount == rows * columns - mineCount
      ensures ok ==> |placed| == mineCount && LaidBy(Rect(rows, columns), draws, placed)
      ensures ok ==> forall i, j :: InGrid(i, j) ==> (mined[i, j] != 0 <==> (i, j) in placed)
    {
      ClearGrid();
      ok, placed := SetupGame(nmines, draws);
      if ok {
        StartCounter(nmines);
      }
    }

    /** The loops of `newGame`: scanning from the last cell back, clear every mine and tag. */
    method ClearGrid()
      requires Shaped() && (updateArea.Some? ==> WellFormed(updateArea.value))
      modifies this`updateArea, tags, mined
      ensures Blank() && (updateArea.Some? ==> WellFormed(updateArea.value))
    {
      var row := rows;
      while row > 0
        invariant 0 <= row <= rows
        invariant forall i, j :: InGrid(i, j) && i >= row ==> tags[i, j] == TAG_NULL && mined[i, j] == 0
        invariant updateArea.Some? ==> WellFormed(updateArea.value)
      {
        row := row - 1;
        var column := columns;
        while column > 0
          invariant 0 <= column <= columns
          invariant forall i, j :: InGrid(i, j) && (i > row || (i == row && j >= column))
                      ==> tags[i, j] == TAG_NULL && mined[i, j] == 0
          invariant updateArea.Some? ==> WellFormed(updateArea.value)
        {
          column := column - 1;
          mined[row, column] := 0;
          TagCell(row, column, TAG_NULL);
        }
      }
    }

    /**
     * `rotateTagAt`: step a covered cell's tag round NULL -> FLAG -> (QUES, when marks are on)
     * -> NULL, moving the flags-remaining counter with the flags; refuse an exposed cell.
     */
    method RotateTagAt(row: int, column: int) returns (changed: bool)
      requires Valid() && InGrid(row, column)
      modifies this`counter, this`updateArea, tags
      ensures Valid()
      ensures changed <==> !IsExposed(old(tags[row, column]))
      ensures changed ==> tags[row, column] == NextTag(old(tags[row, column]), marksQ)
      ensures !changed ==> tags[row, column] == old(tags[row, column])
      ensures forall i, j :: InGrid(i, j) && (i != row || j != column) ==> tags[i, j] == old(tags[i, j])
      ensures counter == old(counter) - (if old(tags[row, column]) == TAG_NULL then 1 else 0)
                                      + (if old(tags[row, column]) == TAG_FLAG then 1 else 0)
      ensures counter + |Flags()| == old(counter) + |old(Flags())|
    {
      var tag := tags[row, column];
      var next: int;
      if tag == TAG_NULL {
        next := TAG_FLAG;
        counter := counter - 1;
      } else if tag == TAG_FLAG {
        next := if marksQ then TAG_QUES else TAG_NULL;
        counter := counter + 1;
      } else if tag == TAG_QUES {
        next := TAG_NULL;
      } else {
        return false;
      }
      RetagCovered(row, column, next);
      changed := true;
    }

    /** `tagCell` on a covered cell with a covered tag: the invariant holds and the flag set follows. */
    method RetagCovered(row: int, column: int, next: int)
      requires Valid() && InGrid(row, column) && !IsExposed(tags[row, column])
      requires TAG_NULL <= next < TAG_BOOM
      modifies this`updateArea, tags
      ensures Valid() && tags[row, column] == next
      ensures forall i, j :: InGrid(i, j) && (i != row || j != column) ==> tags[i, j] == old(tags[i, j])
      ensures Flags() == if next == TAG_FLAG then old(Flags()) + {(row, column)} else old(Flags()) - {(row, column)}
    {
      TagCellCountingFlags(row, column, next);
      assert MinesCounted() && TagsAgree();
      assert exposedCount == 0 ==> NoneExposed() by {
        if exposedCount == 0 {
          forall i, j | InGrid(i, j) ensures !IsExposed(tags[i, j]) {
            if i != row || j != column {
              assert tags[i, j] == old(tags[i, j]);
            }
          }
        }
      }
    }

    /** `tagCell`, followed through the flag set. */
    method TagCellCountingFlags(row: int, column: int, tag: int)
      requires Shaped() && InGrid(row, column)
      requires updateArea.Some? ==> WellFormed(updateArea.value)
      modifies this`updateArea, tags
      ensures tags[row, column] == tag
      ensures forall i, j :: InGrid(i, j) && (i != row || j != column) ==> tags[i, j] == old(tags[i, j])
      ensures updateArea.Some? ==> WellFormed(updateArea.value)
      ensures ExposedSafe() == if IsCount(tag) then old(ExposedSafe()) + {(row, column)}
                               else if IsCount(old(tags[row, column])) then old(ExposedSafe()) - {(row, column)}
                               else old(ExposedSafe())
      ensures Flags() == if tag == TAG_FLAG then old(Flags()) + {(row, column)} else old(Flags()) - {(row, column)}
      ensures old(MinesCounted()) ==> MinesCounted()
      ensures TagsAgree() <== old(TagsAgree()) && TAG_NULL <= tag <= TAG_EIGHT
                              && TagFits(tag, mined[row, column], AdjacentMineCount(row, column))
    {
      ghost var flags := Flags();
      TagCell(row, column, tag);
      ghost var expected := if tag == TAG_FLAG then flags + {(row, column)} else flags - {(row, column)};
      assert Flags() == expected by {
        forall p | p in Flags() ensures p in expected {}
        forall p | p in expected ensures p in Flags() {}
      }
    }

    /**
     * `++exposedCount; rippleExpose(r, c)` on a covered, unflagged, unmined cell, as both
     * `exposeCellAt` and `clearAround` do it. No flag moves.
     */
    method ExposeSafe(r: int, c: int) returns (ghost uncovered: seq<Cell>)
      requires Valid() && InGrid(r, c) && IsOpenable(tags[r, c]) && mined[r, c] == 0
      modifies this`exposedCount, this`updateArea, tags
      ensures Valid() && old(exposedCount) < exposedCount
      ensures tags[r, c] == TAG_ZERO + AdjacentMineCount(r, c)
      ensures forall i, j :: InGrid(i, j) ==> Advanced(old(tags[i, j]), tags[i, j])
      ensures tags[r, c] == TAG_ZERO ==> Settled(r, c)
      ensures Flags() == old(Flags())
      ensures Uncovers(uncovered) && Spread(ZeroCells(), uncovered, (r, c), 0) && RippledOn(uncovered)
    {
      ghost var flags := Flags();
      exposedCount := exposedCount + 1;
      uncovered := RippleExpose(r, c);
      assert Flags() == flags by {
        forall p | p in Flags() ensures p in flags {}
        forall p | p in flags ensures p in Flags() {}
      }
    }

    /**
     * `tagCell(row, column, TAG_BOOM)` on a covered, unflagged, mined cell once some cell
     * shows a count, as both `exposeCellAt` and `clearAround` do it.
     */
    method Detonate(r: int, c: int)
      requires Valid() && InGrid(r, c) && IsOpenable(tags[r, c]) && mined[r, c] != 0
      requires exposedCount != 0
      modifies this`updateArea, tags
      ensures Valid() && tags[r, c] == TAG_BOOM
      ensures forall i, j :: InGrid(i, j) && (i != r || j != c) ==> tags[i, j] == old(tags[i, j])
      ensures Flags() == old(Flags())
      ensures Uncovers([(r, c)])
    {
      assert (r, c) !in Flags();
      TagCellCountingFlags(r, c, TAG_BOOM);
      assert MinesCounted() && TagsAgree();
    }

    /** `mined[row][column] = 0` on a mined cell: it moves from the mine set to the non-mine set. */
    method ClearMine(r: int, c: int)
      requires Shaped() && MinesAreBits() && InGrid(r, c) && mined[r, c] == 1
      modifies mined
      ensures MinesAreBits() && mined[r, c] == 0
      ensures forall i, j :: InGrid(i, j) && (i != r || j != c) ==> mined[i, j] == old(mined[i, j])
      ensures Mined() == old(Mined()) - {(r, c)} && (r, c) in old(Mined())
      ensures Unmined() == old(Unmined()) + {(r, c)} && (r, c) !in old(Unmined())
    {
      ghost var mines, safe := Mined(), Unmined();
      mined[r, c] := 0;
      assert Mined() == mines - {(r, c)} by {
        forall p | p in Mined() ensures p in mines - {(r, c)} {}
        forall p | p in mines - {(r, c)} ensures p in Mined() {}
      }
      assert Unmined() == safe + {(r, c)} by {
        forall p | p in Unmined() ensures p in safe + {(r, c)} {}
        forall p | p in safe + {(r, c)} ensures p in Unmined() {}
      }
    }

    /**
     * The first exposure's guard in `exposeCellAt`: lay one more mine among the unmined
     * cells and take the mine off the clicked cell. Nothing is uncovered yet, so no tag
     * depends on where the mines are.
     */
    method RelocateMine(row: int, column: int, draw: int) returns (ghost mr: int, ghost mc: int)
      requires Valid() && InGrid(row, column) && mined[row, column] != 0
      requires exposedCount == 0 && IsInt32(draw)
      modifies mined
      ensures Valid() && mined[row, column] == 0
      ensures InGrid(mr, mc) && old(mined[mr, mc]) == 0 && mined[mr, mc] == 1
      ensures |old(UnminedBefore(mr, mc))| == PickIndex(draw, old(unminedCount))
      ensures Mined() == old(Mined()) - {(row, column)} + {(mr, mc)}
    {
      assert mined[row, column] == 1;
      mr, mc := MoveMine(row, column, draw);
      assert TagsAgree() by {
        assert forall i, j {:trigger tags[i, j]} :: InGrid(i, j) ==> !IsExposed(tags[i, j]);
        forall i, j | InGrid(i, j)
          ensures TAG_NULL <= tags[i, j] <= TAG_EIGHT && TagFitsAt(i, j)
        {
          assert !IsExposed(tags[i, j]);
        }
      }
    }

    /** The mine grid's part of the relocation: one mine laid, the clicked one taken off. */
    method MoveMine(row: int, column: int, draw: int) returns (ghost mr: int, ghost mc: int)
      requires Shaped() && MinesCounted() && InGrid(row, column) && mined[row, column] == 1 && IsInt32(draw)
      modifies mined
      ensures MinesCounted() && mined[row, column] == 0
      ensures InGrid(mr, mc) && old(mined[mr, mc]) == 0 && mined[mr, mc] == 1
      ensures |old(UnminedBefore(mr, mc))| == PickIndex(draw, old(unminedCount))
      ensures Mined() == old(Mined()) - {(row, column)} + {(mr, mc)}
    {
      mr, mc := LayOneMine(unminedCount, draw);
      ClearMine(row, column);
    }

    /**
     * `exposeCellAt`, short of the loss and win reveals the applets run afterwards: ignore
     * an exposed or flagged cell; on the first exposure move a mine off the cell; then
     * detonate a mined cell or ripple-expose a safe one.
     */
    method ExposeCell(row: int, column: int, draw: int)
      returns (outcome: Exposure, ghost uncovered: seq<Cell>, ghost mr: int, ghost mc: int)
      requires Valid() && InGrid(row, column) && IsInt32(draw)
      modifies this`exposedCount, this`updateArea, tags, mined
      ensures Valid() && Flags() == old(Flags())
      ensures outcome == Ignored <==> IsExposed(old(tags[row, column])) || old(tags[row, column]) == TAG_FLAG
      ensures outcome == Ignored ==> unchanged(tags) && unchanged(mined) && exposedCount == old(exposedCount)
      ensures old(exposedCount) == 0 ==> outcome != Detonated
      ensures outcome == Detonated <==> outcome != Ignored && old(mined[row, column]) != 0 && old(exposedCount) != 0
      ensures outcome == Detonated ==> unchanged(mined) && exposedCount == old(exposedCount) && tags[row, column] == TAG_BOOM
      ensures outcome == Detonated ==>
                forall i, j :: InGrid(i, j) && (i != row || j != column) ==> tags[i, j] == old(tags[i, j])
      ensures outcome == Revealed ==> mined[row, column] == 0 && old(exposedCount) < exposedCount
      ensures outcome == Revealed ==> tags[row, column] == TAG_ZERO + AdjacentMineCount(row, column)
      ensures outcome == Revealed ==> forall i, j :: InGrid(i, j) ==> Advanced(old(tags[i, j]), tags[i, j])
      ensures outcome == Revealed && old(NoRevealTags()) ==> NoRevealTags()
      ensures old(exposedCount) != 0 || old(mined[row, column]) == 0 ==> unchanged(mined)
      ensures outcome != Ignored && old(exposedCount) == 0 && old(mined[row, column]) != 0 ==>
                InGrid(mr, mc) && old(mined[mr, mc]) == 0 && Mined() == old(Mined()) - {(row, column)} + {(mr, mc)}
                && |old(UnminedBefore(mr, mc))| == PickIndex(draw, old(unminedCount))
      ensures Uncovers(uncovered) && Spread(ZeroCells(), uncovered, (row, column), 0)
      ensures outcome == Ignored ==> uncovered == []
      ensures outcome == Detonated ==> uncovered == [(row, column)]
      ensures RippledOn(uncovered)
    {
      mr, mc := row, column;
      if IsExposed(tags[row, column]) || tags[row, column] == TAG_FLAG {
        return Ignored, [], mr, mc;
      }
      if exposedCount == 0 && mined[row, column] != 0 {
        mr, mc := RelocateMine(row, column, draw);
      }
      if mined[row, column] != 0 {
        Detonate(row, column);
        return Detonated, [(row, column)], mr, mc;
      }
      uncovered := ExposeSafe(row, column);
      outcome := Revealed;
    }

    /**
     * `showLoss`: scanning from the last cell back, leave the detonated cell alone, expose
     * every other mine that is not flagged and mark every flag that sits on no mine.
     */
    method ShowLoss()
      requires Valid()
      modifies this`updateArea, tags
      ensures forall i, j :: InGrid(i, j) ==> tags[i, j] == LossTag(old(tags[i, j]), mined[i, j])
      ensures MinesShown()
      ensures ExposedSafe() == old(ExposedSafe())
      ensures old(exposedCount) != 0 ==> Valid()
    {
      var row := rows;
      while row > 0
        invariant 0 <= row <= rows
        invariant updateArea.Some? ==> WellFormed(updateArea.value)
        invariant forall i, j :: InGrid(i, j) ==>
                    tags[i, j] == if i >= row then LossTag(old(tags[i, j]), mined[i, j]) else old(tags[i, j])
        invariant ExposedSafe() == old(ExposedSafe())
      {
        row := row - 1;
        assert forall j :: 0 <= j < columns && IsCount(tags[row, j]) ==> mined[row, j] == 0 by {
          forall j | 0 <= j < columns && IsCount(tags[row, j]) ensures mined[row, j] == 0 {
            assert tags[row, j] == old(tags[row, j]) && old(TagFitsAt(row, j));
          }
        }
        label before:
        ShowLossRow(row);
        forall i, j | InGrid(i, j)
          ensures tags[i, j] == if i >= row then LossTag(old(tags[i, j]), mined[i, j]) else old(tags[i, j])
        {
          if i != row {
            assert tags[i, j] == old@before(tags[i, j]);
          }
        }
      }
      forall i, j | InGrid(i, j)
        ensures mined[i, j] != 0 <==> tags[i, j] == TAG_BOOM || tags[i, j] == TAG_MINE || tags[i, j] == TAG_FLAG
      {
        assert old(TagFitsAt(i, j));
      }
      if old(exposedCount) != 0 {
        assert TagsAgree() by {
          forall i, j | InGrid(i, j)
            ensures TAG_NULL <= tags[i, j] <= TAG_EIGHT && TagFitsAt(i, j)
          {
            assert TAG_NULL <= old(tags[i, j]) <= TAG_EIGHT;
            assert old(TagFitsAt(i, j));
          }
        }
      }
    }

    /** One row of `showLoss`'s scan: no count changes, so the exposed set stays put. */
    method ShowLossRow(row: int)
      requires Shaped() && 0 <= row < rows && (updateArea.Some? ==> WellFormed(updateArea.value))
      requires forall j :: 0 <= j < columns && IsCount(tags[row, j]) ==> mined[row, j] == 0
      modifies this`updateArea, tags
      ensures updateArea.Some? ==> WellFormed(updateArea.value)
      ensures forall i, j :: InGrid(i, j) ==>
                tags[i, j] == if i == row then LossTag(old(tags[i, j]), mined[i, j]) else old(tags[i, j])
      ensures ExposedSafe() == old(ExposedSafe())
    {
      var column := columns;
      while column > 0
        invariant 0 <= column <= columns
        invariant updateArea.Some? ==> WellFormed(updateArea.value)
        invariant forall i, j :: InGrid(i, j) ==>
                    tags[i, j] == if i == row && j >= column then LossTag(old(tags[i, j]), mined[i, j]) else old(tags[i, j])
        invariant ExposedSafe() == old(ExposedSafe())
      {
        column := column - 1;
        if tags[row, column] == TAG_BOOM {
          continue;
        }
        var isMined := mined[row, column] != 0;
        var isFlagged := tags[row, column] == TAG_FLAG;
        if isMined != isFlagged {
          assert (row, column) !in ExposedSafe();
          TagCell(row, column, if isMined then TAG_MINE else TAG_OOPS);
        }
      }
    }

    /**
     * `showWin`: zero the flags-remaining counter and flag every covered cell, scanning from
     * the last cell back. After a win with no loss tags about, the flags are the mines.
     */
    method ShowWin()
      requires Valid()
      modifies this`counter, this`updateArea, tags
      ensures Valid() && counter == 0
      ensures forall i, j :: InGrid(i, j) ==> tags[i, j] == WinTag(old(tags[i, j]))
      ensures ExposedSafe() == old(ExposedSafe())
      ensures old(IsWon()) && old(NoRevealTags()) ==> Flags() == Mined() && MinesShown()
    {
      ghost var won := IsWon() && NoRevealTags();
      if won {
        WonIffAllSafeExposed();
      }
      counter := 0;
      var row := tags.Length0;
      while row > 0
        invariant 0 <= row <= rows && counter == 0
        invariant updateArea.Some? ==> WellFormed(updateArea.value)
        invariant forall i, j :: InGrid(i, j) ==>
                    tags[i, j] == if i >= row then WinTag(old(tags[i, j])) else old(tags[i, j])
        invariant ExposedSafe() == old(ExposedSafe())
      {
        row := row - 1;
        label before:
        ShowWinRow(row);
        forall i, j | InGrid(i, j)
          ensures tags[i, j] == if i >= row then WinTag(old(tags[i, j])) else old(tags[i, j])
        {
          if i != row {
            assert tags[i, j] == old@before(tags[i, j]);
          }
        }
      }
      assert TagsAgree() by {
        forall i, j | InGrid(i, j)
          ensures TAG_NULL <= tags[i, j] <= TAG_EIGHT && TagFitsAt(i, j)
          ensures exposedCount == 0 ==> !IsExposed(tags[i, j])
        {
          assert TAG_NULL <= old(tags[i, j]) <= TAG_EIGHT;
          assert old(TagFitsAt(i, j));
        }
      }
      if won {
        forall i, j | InGrid(i, j) ensures IsCount(tags[i, j]) || IsFlag(tags[i, j]) {
          assert TAG_NULL <= old(tags[i, j]) <= TAG_EIGHT;
          assert old(tags[i, j]) != TAG_BOOM && old(tags[i, j]) != TAG_MINE && old(tags[i, j]) != TAG_OOPS;
        }
        FlagsAreMines();
        forall i, j | InGrid(i, j)
          ensures mined[i, j] != 0 <==> tags[i, j] == TAG_BOOM || tags[i, j] == TAG_MINE || tags[i, j] == TAG_FLAG
        {
          assert (i, j) in Mined() <==> (i, j) in Flags();
          assert old(tags[i, j]) != TAG_BOOM && old(tags[i, j]) != TAG_MINE;
        }
      }
    }

    /** One row of `showWin`'s scan: covered cells become flags, so no count changes. */
    method ShowWinRow(row: int)
      requires Shaped() && 0 <= row < rows && (updateArea.Some? ==> WellFormed(updateArea.value))
      modifies this`updateArea, tags
      ensures updateArea.Some? ==> WellFormed(updateArea.value)
      ensures forall i, j :: InGrid(i, j) ==> tags[i, j] == if i == row then WinTag(old(tags[i, j])) else old(tags[i, j])
      ensures ExposedSafe() == old(ExposedSafe())
    {
      var column := tags.Length1;
      while column > 0
        invariant 0 <= column <= columns
        invariant updateArea.Some? ==> WellFormed(updateArea.value)
        invariant forall i, j :: InGrid(i, j) ==>
                    tags[i, j] == if i == row && j >= column then WinTag(old(tags[i, j])) else old(tags[i, j])
        invariant ExposedSafe() == old(ExposedSafe())
      {
        column := column - 1;
        var tag := tags[row, column];
        if tag == TAG_NULL || tag == TAG_QUES {
          TagCell(row, column, TAG_FLAG);
        }
      }
    }

    /** `gameIsWon` means every unmined cell shows its count. */
    lemma WonIffAllSafeExposed()
      requires Valid()
      ensures IsWon() <==> ExposedSafe() == Unmined()
    {
      forall p | p in ExposedSafe() ensures p in Unmined() {
        assert TagFitsAt(p.0, p.1);
      }
      if IsWon() {
        SubsetSameSize(ExposedSafe(), Unmined());
      }
    }

    /** When every unmined cell shows its count and every other cell is flagged, the flags are the mines. */
    lemma FlagsAreMines()
      requires Consistent() && ExposedSafe() == Unmined()
      requires forall i, j :: InGrid(i, j) ==> IsCount(tags[i, j]) || IsFlag(tags[i, j])
      ensures Flags() == Mined()
    {
      forall p | p in Flags() ensures p in Mined() {
        assert p !in ExposedSafe();
      }
      forall p | p in Mined() ensures p in Flags() {
        assert p !in Unmined();
      }
    }

    /** A chord leaves a tag as a reveal would, or detonates a covered, unflagged mine. */
    static predicate Cleared(before: int, after: int, m: int) {
      Advanced(before, after) || (IsOpenable(before) && m != 0 && after == TAG_BOOM)
    }

    /** (i, j) lies in the 3x3 block around (row, column). */
    static predicate Near(row: int, column: int, i: int, j: int) {
      row - 1 <= i <= row + 1 && column - 1 <= j <= column + 1
    }

    /** (row, column) shows n > 0 adjacent mines and exactly n flags lie around it. */
    ghost predicate Chordable(row: int, column: int)
      reads tags
      requires Shaped() && InGrid(row, column)
    {
      tags[row, column] > TAG_ZERO && AdjacentFlagCount(row, column) == tags[row, column] - TAG_ZERO
    }

    /** Some covered, unflagged cell of the 3x3 block around (row, column) is mined. */
    ghost predicate ChordHits(row: int, column: int)
      reads tags, mined
      requires Shaped()
    {
      exists i, j :: InGrid(i, j) && Near(row, column, i, j) && IsOpenable(tags[i, j]) && mined[i, j] != 0
    }

    /**
     * `clearAround`, short of the loss and win reveals the applets run afterwards: on a cell
     * showing n > 0 adjacent mines with exactly n adjacent flags, open every covered,
     * unflagged cell of its clipped 3x3 block, detonating the mines among them.
     */
    method ClearAround(row: int, column: int) returns (chorded: bool, detonated: bool, ghost uncovered: seq<Cell>)
      requires Valid() && InGrid(row, column)
      modifies this`exposedCount, this`updateArea, tags
      ensures Valid() && Flags() == old(Flags()) && old(exposedCount) <= exposedCount
      ensures chorded <==> old(Chordable(row, column))
      ensures !chorded ==> unchanged(tags) && exposedCount == old(exposedCount) && updateArea == old(updateArea)
      ensures !chorded ==> uncovered == []
      ensures tags[row, column] == old(tags[row, column])
      ensures forall i, j :: InGrid(i, j) ==> Cleared(old(tags[i, j]), tags[i, j], mined[i, j])
      ensures chorded ==> Settled(row, column)
      ensures chorded ==> forall i, j :: InGrid(i, j) && Near(row, column, i, j) && IsOpenable(old(tags[i, j])) && mined[i, j] != 0
                            ==> tags[i, j] == TAG_BOOM
      ensures detonated <==> chorded && old(ChordHits(row, column))
      ensures !detonated ==> forall i, j :: InGrid(i, j) ==> Advanced(old(tags[i, j]), tags[i, j])
      ensures !detonated && old(NoRevealTags()) ==> NoRevealTags()
      ensures detonated ==> exposedCount != 0
      ensures Uncovers(uncovered) && Spread(ZeroCells(), uncovered, (row, column), 1) && RippledOn(uncovered)
    {
      var tag := tags[row, column];
      if tag <= TAG_ZERO {
        return false, false, [];
      }
      var nAdjMines := tag - TAG_ZERO;
      var nAdjFlags := CountAdjacentFlags(row, column);
      if nAdjFlags != nAdjMines {
        return false, false, [];
      }
      chorded := true;
      detonated, uncovered := ChordBlock(row, column);
      if !detonated {
        forall i, j | InGrid(i, j) ensures Advanced(old(tags[i, j]), tags[i, j]) {
          if !Near(row, column, i, j) && mined[i, j] != 0 {
            assert tags[i, j] == old(tags[i, j]);
          }
        }
      } else {
        assert (row, column) in ExposedSafe();
      }
    }

    /** `clearAround`'s second scan, once the flags match the count: clear the whole clipped block. */
    method ChordBlock(row: int, column: int) returns (detonated: bool, ghost uncovered: seq<Cell>)
      requires Valid() && InGrid(row, column) && IsCount(tags[row, column])
      modifies this`exposedCount, this`updateArea, tags
      ensures Valid() && Flags() == old(Flags()) && old(exposedCount) <= exposedCount
      ensures tags[row, column] == old(tags[row, column])
      ensures forall i, j :: InGrid(i, j) ==> Cleared(old(tags[i, j]), tags[i, j], mined[i, j])
      ensures Settled(row, column)
      ensures forall i, j :: InGrid(i, j) && Near(row, column, i, j) && IsOpenable(old(tags[i, j])) && mined[i, j] != 0
                ==> tags[i, j] == TAG_BOOM
      ensures forall i, j :: InGrid(i, j) && !Near(row, column, i, j) && mined[i, j] != 0 ==> tags[i, j] == old(tags[i, j])
      ensures detonated <==> exists i, j :: InGrid(i, j) && Near(row, column, i, j)
                                           && IsOpenable(old(tags[i, j])) && mined[i, j] != 0
      ensures Uncovers(uncovered) && Spread(ZeroCells(), uncovered, (row, column), 1) && RippledOn(uncovered)
    {
      detonated := false;
      uncovered := [];
      ghost var wi, wj := row, column;
      var lowRow, hiRow := Max(row - 1, 0), Min(row + 1, rows - 1);
      var r := lowRow;
      while r <= hiRow
        invariant lowRow <= r <= hiRow + 1
        invariant Valid() && old(exposedCount) <= exposedCount && Flags() == old(Flags())
        invariant forall i, j :: InGrid(i, j) ==> Cleared(old(tags[i, j]), tags[i, j], mined[i, j])
        invariant forall i, j :: InGrid(i, j) && mined[i, j] != 0 && !(Near(row, column, i, j) && i < r)
                    ==> tags[i, j] == old(tags[i, j])
        invariant forall i, j :: InGrid(i, j) && Near(row, column, i, j) && i < r ==>
                    (IsExposed(tags[i, j]) || IsFlag(tags[i, j]))
                    && (IsOpenable(old(tags[i, j])) && mined[i, j] != 0 ==> tags[i, j] == TAG_BOOM && detonated)
        invariant detonated ==> InGrid(wi, wj) && Near(row, column, wi, wj)
                                && IsOpenable(old(tags[wi, wj])) && mined[wi, wj] != 0
        invariant Uncovers(uncovered) && Spread(ZeroCells(), uncovered, (row, column), 1) && RippledOn(uncovered)
      {
        label before:
        var hit;
        ghost var wc, more;
        hit, wc, more := ClearRow(row, column, r);
        RippledCleared@before(uncovered);
        if hit {
          detonated, wi, wj := true, r, wc;
        }
        forall i, j | InGrid(i, j)
          ensures Cleared(old(tags[i, j]), tags[i, j], mined[i, j])
          ensures mined[i, j] != 0 && !(Near(row, column, i, j) && i < r + 1) ==> tags[i, j] == old(tags[i, j])
        {
          ClearedTrans(old(tags[i, j]), old@before(tags[i, j]), tags[i, j], mined[i, j]);
        }
        forall i, j | InGrid(i, j) && Near(row, column, i, j) && i < r + 1
          ensures IsExposed(tags[i, j]) || IsFlag(tags[i, j])
          ensures IsOpenable(old(tags[i, j])) && mined[i, j] != 0 ==> tags[i, j] == TAG_BOOM && detonated
        {
          if i < r {
            assert IsExposed(old@before(tags[i, j])) || IsFlag(old@before(tags[i, j]));
          }
        }
        SpreadJoin(ZeroCells(), uncovered, more, (row, column), 1, (row, column), 1);
        uncovered := uncovered + more;
        r := r + 1;
      }
    }

    /** A chord's steps keep exposed and flagged cells so, and with them the ripple's settled zeros. */
    twostate lemma RippledCleared(s: seq<Cell>)
      requires Shaped() && old(RippledOn(s))
      requires forall p :: p in s ==> InGrid(p.0, p.1) && IsExposed(old(tags[p.0, p.1]))
      requires forall i, j :: InGrid(i, j) ==> Cleared(old(tags[i, j]), tags[i, j], mined[i, j])
      ensures RippledOn(s)
    {
      forall i, j | InGrid(i, j) ensures Kept(old(tags[i, j]), tags[i, j]) {
        assert Cleared(old(tags[i, j]), tags[i, j], mined[i, j]);
      }
      RippledKept(s);
    }

    static lemma ClearedTrans(a: int, b: int, c: int, m: int)
      requires Cleared(a, b, m) && Cleared(b, c, m)
      ensures Cleared(a, c, m)
    {
    }

    /**
     * One row of `clearAround`'s second scan: clear each cell of row `r` of the clipped block.
     * `hit` says whether a mine went off, and `wc` is then its column.
     */
    method ClearRow(row: int, column: int, r: int) returns (hit: bool, ghost wc: int, ghost uncovered: seq<Cell>)
      requires Valid() && InGrid(row, column) && IsCount(tags[row, column])
      requires 0 <= r < rows && row - 1 <= r <= row + 1
      modifies this`exposedCount, this`updateArea, tags
      ensures Valid() && old(exposedCount) <= exposedCount && Flags() == old(Flags())
      ensures forall i, j :: InGrid(i, j) ==> Cleared(old(tags[i, j]), tags[i, j], mined[i, j])
      ensures forall i, j :: InGrid(i, j) && mined[i, j] != 0 && !(i == r && Near(row, column, i, j))
                ==> tags[i, j] == old(tags[i, j])
      ensures forall j :: InGrid(r, j) && Near(row, column, r, j) ==>
                (IsExposed(tags[r, j]) || IsFlag(tags[r, j]))
                && (IsOpenable(old(tags[r, j])) && mined[r, j] != 0 ==> tags[r, j] == TAG_BOOM && hit)
      ensures hit ==> InGrid(r, wc) && Near(row, column, r, wc) && IsOpenable(old(tags[r, wc])) && mined[r, wc] != 0
      ensures Uncovers(uncovered) && Spread(ZeroCells(), uncovered, (row, column), 1) && RippledOn(uncovered)
    {
      hit, wc := false, column;
      uncovered := [];
      assert (row, column) in ExposedSafe();
      var lowCol, hiCol := Max(column - 1, 0), Min(column + 1, columns - 1);
      var c := lowCol;
      while c <= hiCol
        invariant lowCol <= c <= hiCol + 1
        invariant Valid() && old(exposedCount) <= exposedCount && Flags() == old(Flags())
        invariant IsCount(tags[row, column]) && exposedCount != 0
        invariant forall i, j :: InGrid(i, j) ==> Cleared(old(tags[i, j]), tags[i, j], mined[i, j])
        invariant forall i, j :: InGrid(i, j) && mined[i, j] != 0 && !(i == r && Near(row, column, i, j) && j < c)
                    ==> tags[i, j] == old(tags[i, j])
        invariant forall j :: InGrid(r, j) && Near(row, column, r, j) && j < c ==>
                    (IsExposed(tags[r, j]) || IsFlag(tags[r, j]))
                    && (IsOpenable(old(tags[r, j])) && mined[r, j] != 0 ==> tags[r, j] == TAG_BOOM && hit)
        invariant hit ==> InGrid(r, wc) && Near(row, column, r, wc) && IsOpenable(old(tags[r, wc])) && mined[r, wc] != 0
        invariant Uncovers(uncovered) && Spread(ZeroCells(), uncovered, (row, column), 1) && RippledOn(uncovered)
      {
        label before:
        var boom;
        ghost var more;
        boom, more := ClearCell(r, c);
        RippledCleared@before(uncovered);
        if boom {
          hit, wc := true, c;
        }
        forall i, j | InGrid(i, j)
          ensures Cleared(old(tags[i, j]), tags[i, j], mined[i, j])
          ensures mined[i, j] != 0 && !(i == r && Near(row, column, i, j) && j < c + 1) ==> tags[i, j] == old(tags[i, j])
        {
          ClearedTrans(old(tags[i, j]), old@before(tags[i, j]), tags[i, j], mined[i, j]);
        }
        forall j | InGrid(r, j) && Near(row, column, r, j) && j < c + 1
          ensures (IsExposed(tags[r, j]) || IsFlag(tags[r, j]))
                  && (IsOpenable(old(tags[r, j])) && mined[r, j] != 0 ==> tags[r, j] == TAG_BOOM && hit)
        {
          ClearedTrans(old(tags[r, j]), old@before(tags[r, j]), tags[r, j], mined[r, j]);
        }
        SpreadJoin(ZeroCells(), uncovered, more, (row, column), 1, (r, c), 0);
        uncovered := uncovered + more;
        c := c + 1;
      }
    }

    /**
     * The body of `clearAround`'s second scan at (r, c): leave an exposed or flagged cell,
     * detonate a mine, ripple-expose anything else. Mines elsewhere keep their tags.
     */
    method ClearCell(r: int, c: int) returns (boom: bool, ghost uncovered: seq<Cell>)
      requires Valid() && InGrid(r, c) && exposedCount != 0
      modifies this`exposedCount, this`updateArea, tags
      ensures Valid() && old(exposedCount) <= exposedCount && Flags() == old(Flags())
      ensures IsExposed(tags[r, c]) || IsFlag(tags[r, c])
      ensures boom <==> IsOpenable(old(tags[r, c])) && mined[r, c] != 0
      ensures boom ==> tags[r, c] == TAG_BOOM
      ensures forall i, j :: InGrid(i, j) ==> Cleared(old(tags[i, j]), tags[i, j], mined[i, j])
      ensures forall i, j :: InGrid(i, j) && (i != r || j != c) && mined[i, j] != 0 ==> tags[i, j] == old(tags[i, j])
      ensures Uncovers(uncovered) && Spread(ZeroCells(), uncovered, (r, c), 0) && RippledOn(uncovered)
    {
      boom, uncovered := false, [];
      if !IsExposed(tags[r, c]) && tags[r, c] != TAG_FLAG {
        if mined[r, c] != 0 {
          Detonate(r, c);
          boom, uncovered := true, [(r, c)];
        } else {
          uncovered := ExposeSafe(r, c);
          forall i, j | InGrid(i, j) && mined[i, j] != 0 ensures tags[i, j] == old(tags[i, j]) {
            assert TagFitsAt(i, j);
          }
        }
      }
    }

    /** `clearAround`'s first scan: the flags in the clipped 3x3 block, the centre included. */
    method CountAdjacentFlags(row: int, column: int) returns (count: int)
      requires Shaped() && InGrid(row, column)
      ensures count == AdjacentFlagCount(row, column) + (if IsFlag(tags[row, column]) then 1 else 0)
    {
      count := 0;
      var lowRow, hiRow := Max(row - 1, 0), Min(row + 1, rows - 1);
      var lowCol, hiCol := Max(column - 1, 0), Min(column + 1, columns - 1);
      var r := lowRow;
      while r <= hiRow
        invariant lowRow <= r <= hiRow + 1
        invariant count == BlockHits(tags, TAG_FLAG, lowRow, r, lowCol, hiCol + 1)
      {
        var c := lowCol;
        while c <= hiCol
          invariant lowCol <= c <= hiCol + 1
          invariant count == BlockHits(tags, TAG_FLAG, lowRow, r, lowCol, hiCol + 1)
                             + RowHits(tags, TAG_FLAG, r, lowCol, c)
        {
          if tags[r, c] == TAG_FLAG {
            count := count + 1;
          }
          c := c + 1;
        }
        r := r + 1;
      }
      ClippedBlock(tags, TAG_FLAG, row, column);
    }
  }
}
