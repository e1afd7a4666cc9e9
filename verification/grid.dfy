/**
 * Counting cells of a two-dimensional byte grid (`byte[rows][columns]` in the source,
 * an `array2<int>` here): the cells holding a given value, the part of them a
 * row-major scan has passed, and the ones among a cell's neighbours.
 */
module Grid {
  type Cell = (int, int)

  function Min(a: int, b: int): int { if a < b then a else b }
  function Max(a: int, b: int): int { if a < b then b else a }

  /** All cells of a grid with `r` rows and `c` columns. */
  ghost function Rect(r: int, c: int): set<Cell> {
    set i, j | 0 <= i < r && 0 <= j < c :: (i, j)
  }

  /** The cells of row `i` left of column `c`. */
  ghost function RowPrefix(i: int, c: int): set<Cell> {
    set j | 0 <= j < c :: (i, j)
  }

  lemma {:induction false} RowPrefixSize(i: int, c: nat)
    ensures |RowPrefix(i, c)| == c
  {
    if c > 0 {
      RowPrefixSize(i, c - 1);
      assert RowPrefix(i, c) == RowPrefix(i, c - 1) + {(i, c - 1)};
    } else {
      assert RowPrefix(i, c) == {};
    }
  }

  /** A grid with `r` rows and `c` columns has `r * c` cells. */
  lemma {:induction false} RectSize(r: nat, c: nat)
    ensures |Rect(r, c)| == r * c
  {
    if r > 0 {
      RectSize(r - 1, c);
      RowPrefixSize(r - 1, c);
      var top, last := Rect(r - 1, c), RowPrefix(r - 1, c);
      assert Rect(r, c) == top + last;
      assert top !! last;
      assert |top + last| == |top| + |last|;
      assert (r - 1) * c + c == r * c;
    } else {
      assert Rect(r, c) == {};
    }
  }

  /** The cells of `a` whose entry is `v`. */
  ghost function CellsOf(a: array2<int>, v: int): set<Cell>
    reads a
  {
    set i, j | 0 <= i < a.Length0 && 0 <= j < a.Length1 && a[i, j] == v :: (i, j)
  }

  lemma CellsOfAll(a: array2<int>, v: int)
    requires forall i, j :: 0 <= i < a.Length0 && 0 <= j < a.Length1 ==> a[i, j] == v
    ensures |CellsOf(a, v)| == a.Length0 * a.Length1
  {
    assert CellsOf(a, v) == Rect(a.Length0, a.Length1);
    RectSize(a.Length0, a.Length1);
  }

  /**
   * The cells holding `v` that a row-major scan of the window of rows from `r0` and
   * columns `c0 <= j < c1` has passed before reaching (r, c).
   */
  ghost function Scanned(a: array2<int>, v: int, r0: int, c0: int, c1: int, r: int, c: int): set<Cell>
    reads a
  {
    set i, j | 0 <= i < a.Length0 && 0 <= j < a.Length1 && r0 <= i && c0 <= j < c1
                 && (i < r || (i == r && j < c)) && a[i, j] == v :: (i, j)
  }

  lemma ScannedStart(a: array2<int>, v: int, r0: int, c0: int, c1: int)
    ensures Scanned(a, v, r0, c0, c1, r0, c0) == {}
  {
  }

  /** A row-major scan over every column that has passed the last row has seen every cell. */
  lemma ScannedAll(a: array2<int>, v: int)
    ensures Scanned(a, v, 0, 0, a.Length1, a.Length0, 0) == CellsOf(a, v)
  {
  }

  /** One step of the inner loop: the scan passes (r, c). */
  lemma ScannedNext(a: array2<int>, v: int, r0: int, c0: int, c1: int, r: int, c: int)
    requires 0 <= r0 <= r < a.Length0 && 0 <= c0 <= c < c1 <= a.Length1
    ensures Scanned(a, v, r0, c0, c1, r, c + 1)
         == Scanned(a, v, r0, c0, c1, r, c) + (if a[r, c] == v then {(r, c)} else {})
    ensures |Scanned(a, v, r0, c0, c1, r, c + 1)|
         == |Scanned(a, v, r0, c0, c1, r, c)| + (if a[r, c] == v then 1 else 0)
  {
    assert (r, c) !in Scanned(a, v, r0, c0, c1, r, c);
  }

  /** The end of a row of the window is the start of the next one. */
  lemma ScannedRow(a: array2<int>, v: int, r0: int, c0: int, c1: int, r: int)
    requires c0 <= c1
    ensures Scanned(a, v, r0, c0, c1, r, c1) == Scanned(a, v, r0, c0, c1, r + 1, c0)
  {
  }

  /** 1 when (i, j) lies in the grid and its entry is `v`, 0 otherwise. */
  ghost function Hit(a: array2<int>, v: int, i: int, j: int): int
    reads a
  {
    if 0 <= i < a.Length0 && 0 <= j < a.Length1 && a[i, j] == v then 1 else 0
  }

  /** The eight neighbours of (row, col), those off the grid excluded, that hold `v`. */
  ghost function CountAround(a: array2<int>, v: int, row: int, col: int): (r: int)
    reads a
    ensures 0 <= r <= 8
  {
    Hit(a, v, row - 1, col - 1) + Hit(a, v, row - 1, col) + Hit(a, v, row - 1, col + 1)
    + Hit(a, v, row, col - 1) + Hit(a, v, row, col + 1)
    + Hit(a, v, row + 1, col - 1) + Hit(a, v, row + 1, col) + Hit(a, v, row + 1, col + 1)
  }

  /** The entries of row `r` in columns [c0, c) that equal `v`. */
  ghost function RowHits(a: array2<int>, v: int, r: int, c0: int, c: int): int
    reads a
    decreases c - c0
  {
    if c <= c0 then 0 else RowHits(a, v, r, c0, c - 1) + Hit(a, v, r, c - 1)
  }

  /** The entries of the block [r0, r) x [c0, c1) that equal `v`. */
  ghost function BlockHits(a: array2<int>, v: int, r0: int, r: int, c0: int, c1: int): int
    reads a
    decreases r - r0
  {
    if r <= r0 then 0 else BlockHits(a, v, r0, r - 1, c0, c1) + RowHits(a, v, r - 1, c0, c1)
  }

  /** Row `r` of the 3x3 block around column `col`, clipped to the grid, counts all three entries. */
  lemma ClippedRow(a: array2<int>, v: int, r: int, col: int)
    requires 0 <= col < a.Length1
    ensures RowHits(a, v, r, Max(col - 1, 0), Min(col + 1, a.Length1 - 1) + 1)
         == Hit(a, v, r, col - 1) + Hit(a, v, r, col) + Hit(a, v, r, col + 1)
  {
    var lo := Max(col - 1, 0);
    assert RowHits(a, v, r, lo, col + 1) == Hit(a, v, r, col - 1) + Hit(a, v, r, col) by {
      assert RowHits(a, v, r, lo, col + 1) == RowHits(a, v, r, lo, col) + Hit(a, v, r, col);
      if col > 0 {
        assert RowHits(a, v, r, lo, col) == RowHits(a, v, r, lo, col - 1) + Hit(a, v, r, col - 1);
      }
    }
    if col + 1 < a.Length1 {
      assert RowHits(a, v, r, lo, col + 2) == RowHits(a, v, r, lo, col + 1) + Hit(a, v, r, col + 1);
    }
  }

  /**
   * The clipped 3x3 block around (row, col), scanned whole, counts the neighbours and
   * the centre.
   */
  lemma ClippedBlock(a: array2<int>, v: int, row: int, col: int)
    requires 0 <= row < a.Length0 && 0 <= col < a.Length1
    ensures BlockHits(a, v, Max(row - 1, 0), Min(row + 1, a.Length0 - 1) + 1,
                      Max(col - 1, 0), Min(col + 1, a.Length1 - 1) + 1)
         == CountAround(a, v, row, col) + Hit(a, v, row, col)
  {
    var lo, c0, c1 := Max(row - 1, 0), Max(col - 1, 0), Min(col + 1, a.Length1 - 1) + 1;
    ClippedRow(a, v, row - 1, col);
    ClippedRow(a, v, row, col);
    ClippedRow(a, v, row + 1, col);
    assert BlockHits(a, v, lo, row + 1, c0, c1) == BlockHits(a, v, lo, row, c0, c1) + RowHits(a, v, row, c0, c1);
    if row > 0 {
      assert BlockHits(a, v, lo, row, c0, c1) == BlockHits(a, v, lo, row - 1, c0, c1) + RowHits(a, v, row - 1, c0, c1);
    }
    if row + 1 < a.Length0 {
      assert BlockHits(a, v, lo, row + 2, c0, c1) == BlockHits(a, v, lo, row + 1, c0, c1) + RowHits(a, v, row + 1, c0, c1);
    }
  }

  lemma SubsetSize<T>(s: set<T>, t: set<T>)
    requires s <= t
    ensures |s| <= |t|
  {
    assert t == s + (t - s);
  }

  /** A subset as large as its superset is the whole superset. */
  lemma SubsetSameSize<T>(s: set<T>, t: set<T>)
    requires s <= t && |s| == |t|
    ensures s == t
  {
    assert t == s + (t - s);
    assert |t - s| == 0;
  }
}
