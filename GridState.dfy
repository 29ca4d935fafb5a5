/**
 The value side of the grid: the screen and grid constants, cell coordinates,
 a board as a square of booleans, writing one cell, mapping a mouse pixel to
 a cell, and the row-major list of active cells (what `np.argwhere` yields).
 */
module GridState {

  const SCREEN_WIDTH: int := 800
  const SCREEN_HEIGHT: int := 800
  const GRID_SIZE: int := 50
  /** Width of one cell in pixels: Python's floor division `SCREEN_WIDTH // GRID_SIZE`. */
  const CELL_SIZE: int := SCREEN_WIDTH / GRID_SIZE

  /** A grid coordinate: (first array index, second array index). */
  type Cell = (int, int)

  /** The contents of the grid, indexed `b[first][second]`. */
  type Board = seq<seq<bool>>

  predicate WellFormed(b: Board) {
    |b| == GRID_SIZE && forall r :: 0 <= r < |b| ==> |b[r]| == GRID_SIZE
  }

  predicate InBounds(c: Cell) {
    0 <= c.0 < GRID_SIZE && 0 <= c.1 < GRID_SIZE
  }

  /** Every entry of `s` is a cell of the grid. */
  predicate AllInBounds(s: seq<Cell>) {
    forall k :: 0 <= k < |s| ==> InBounds(s[k])
  }

  /** 4-adjacency: the two cells differ by one in exactly one coordinate. */
  predicate Adjacent(a: Cell, c: Cell) {
    (a.0 == c.0 && (a.1 == c.1 + 1 || a.1 == c.1 - 1)) ||
    (a.1 == c.1 && (a.0 == c.0 + 1 || a.0 == c.0 - 1))
  }

  function Get(b: Board, c: Cell): bool
    requires WellFormed(b) && InBounds(c)
  {
    b[c.0][c.1]
  }

  /** The board with cell `c` holding `v`; every other cell keeps its value. */
  function SetAt(b: Board, c: Cell, v: bool): (r: Board)
    requires WellFormed(b) && InBounds(c)
    ensures WellFormed(r)
    ensures Get(r, c) == v
    ensures forall d :: InBounds(d) && d != c ==> Get(r, d) == Get(b, d)
  {
    b[c.0 := b[c.0][c.1 := v]]
  }

  /** Two boards that agree on every cell are equal. */
  lemma BoardExt(b1: Board, b2: Board)
    requires WellFormed(b1) && WellFormed(b2)
    requires forall c :: InBounds(c) ==> Get(b1, c) == Get(b2, c)
    ensures b1 == b2
  {
    forall r | 0 <= r < GRID_SIZE ensures b1[r] == b2[r] {
      forall k | 0 <= k < GRID_SIZE ensures b1[r][k] == b2[r][k] {
        assert Get(b1, (r, k)) == Get(b2, (r, k));
      }
    }
  }

  /** Writing the value a cell already holds leaves the board as it was. */
  lemma SetAtSameValue(b: Board, c: Cell)
    requires WellFormed(b) && InBounds(c)
    ensures SetAt(b, c, Get(b, c)) == b
  {
    assert b[c.0][c.1 := b[c.0][c.1]] == b[c.0];
  }

  /** Repeating a write changes nothing. */
  lemma SetAtIdempotent(b: Board, c: Cell, v: bool)
    requires WellFormed(b) && InBounds(c)
    ensures SetAt(SetAt(b, c, v), c, v) == SetAt(b, c, v)
  {
    SetAtSameValue(SetAt(b, c, v), c);
  }

  /** The all-false board that `np.full(..., False)` creates. */
  function EmptyBoard(): (b: Board)
    ensures WellFormed(b)
    ensures forall c :: InBounds(c) ==> !Get(b, c)
  {
    seq(GRID_SIZE, _ => seq(GRID_SIZE, _ => false))
  }

  predicate OnScreen(px: int, py: int) {
    0 <= px < SCREEN_WIDTH && 0 <= py < SCREEN_HEIGHT
  }

  /**
   The cell a mouse pixel falls into: the vertical pixel selects the first
   index and the horizontal pixel the second. Dafny's `/` agrees with Python's
   `//` here because the divisor is positive.
   */
  function CellOfPixel(px: int, py: int): (c: Cell)
    ensures c.0 * CELL_SIZE <= py < (c.0 + 1) * CELL_SIZE
    ensures c.1 * CELL_SIZE <= px < (c.1 + 1) * CELL_SIZE
  {
    (py / CELL_SIZE, px / CELL_SIZE)
  }

  /** Every pixel of the window lands in a cell of the grid. */
  lemma OnScreenPixelInGrid(px: int, py: int)
    requires OnScreen(px, py)
    ensures CELL_SIZE == 16
    ensures InBounds(CellOfPixel(px, py))
  {
    var c := CellOfPixel(px, py);
    assert c.0 * 16 <= py < (c.0 + 1) * 16;
  }

  /** Row-major position of a cell. */
  function Key(c: Cell): int {
    c.0 * GRID_SIZE + c.1
  }

  /** The cell at row-major position `k`. */
  function CellAt(k: int): (c: Cell)
    requires 0 <= k < GRID_SIZE * GRID_SIZE
    ensures InBounds(c) && Key(c) == k
  {
    (k / GRID_SIZE, k % GRID_SIZE)
  }

  lemma KeyInjective(c: Cell, d: Cell)
    requires InBounds(c) && InBounds(d) && Key(c) == Key(d)
    ensures c == d
  {
  }

  /** The active cells at row-major positions `k` and later, in row-major order. */
  function ActiveFrom(b: Board, k: nat): seq<Cell>
    requires WellFormed(b) && k <= GRID_SIZE * GRID_SIZE
    decreases GRID_SIZE * GRID_SIZE - k
  {
    if k == GRID_SIZE * GRID_SIZE then []
    else
      var c := CellAt(k);
      (if Get(b, c) then [c] else []) + ActiveFrom(b, k + 1)
  }

  /** `np.argwhere(grid)`: every active cell once, in row-major order. */
  function ActiveCells(b: Board): seq<Cell>
    requires WellFormed(b)
  {
    ActiveFrom(b, 0)
  }

  predicate RowMajorSorted(s: seq<Cell>) {
    forall i, j :: 0 <= i < j < |s| ==> Key(s[i]) < Key(s[j])
  }

  /** A row-major sorted list repeats no cell. */
  lemma SortedNoRepeat(s: seq<Cell>, i: int, j: int)
    requires RowMajorSorted(s) && 0 <= i < j < |s|
    ensures s[i] != s[j]
  {
  }

  lemma {:induction false} ActiveFromMembers(b: Board, k: nat)
    requires WellFormed(b) && k <= GRID_SIZE * GRID_SIZE
    ensures forall c :: c in ActiveFrom(b, k) <==> InBounds(c) && Key(c) >= k && Get(b, c)
    decreases GRID_SIZE * GRID_SIZE - k
  {
    if k < GRID_SIZE * GRID_SIZE {
      ActiveFromMembers(b, k + 1);
      var c := CellAt(k);
      forall d | InBounds(d) && Key(d) == k ensures d == c {
        KeyInjective(d, c);
      }
    }
  }

  lemma {:induction false} ActiveFromSorted(b: Board, k: nat)
    requires WellFormed(b) && k <= GRID_SIZE * GRID_SIZE
    ensures RowMajorSorted(ActiveFrom(b, k))
    decreases GRID_SIZE * GRID_SIZE - k
  {
    if k < GRID_SIZE * GRID_SIZE {
      ActiveFromSorted(b, k + 1);
      ActiveFromMembers(b, k + 1);
      var c := CellAt(k);
      var rest := ActiveFrom(b, k + 1);
      if Get(b, c) {
        var s := [c] + rest;
        assert ActiveFrom(b, k) == s;
        forall i, j | 0 <= i < j < |s| ensures Key(s[i]) < Key(s[j]) {
          assert s[j] == rest[j - 1] && rest[j - 1] in rest;
          if i > 0 {
            assert s[i] == rest[i - 1];
          }
        }
      }
    }
  }

  /**
   The active-cell list holds exactly the active cells of the board, each
   once, sorted in row-major order.
   */
  lemma ActiveCellsExact(b: Board)
    requires WellFormed(b)
    ensures forall c :: c in ActiveCells(b) <==> InBounds(c) && Get(b, c)
    ensures RowMajorSorted(ActiveCells(b))
  {
    ActiveFromMembers(b, 0);
    ActiveFromSorted(b, 0);
  }

  /** Counting from position `k`: turning one inactive cell on adds exactly one entry. */
  lemma {:induction false} ActiveFromActivate(b: Board, c: Cell, k: nat)
    requires WellFormed(b) && InBounds(c) && !Get(b, c) && k <= GRID_SIZE * GRID_SIZE
    ensures |ActiveFrom(SetAt(b, c, true), k)| == |ActiveFrom(b, k)| + (if Key(c) >= k then 1 else 0)
    decreases GRID_SIZE * GRID_SIZE - k
  {
    if k < GRID_SIZE * GRID_SIZE {
      ActiveFromActivate(b, c, k + 1);
      var d := CellAt(k);
      if d != c {
        assert Key(c) != k by {
          if Key(c) == k { KeyInjective(c, d); }
        }
      }
    } else {
      assert Key(c) < GRID_SIZE * GRID_SIZE;
    }
  }

  /** Turning one inactive cell on grows the active-cell list by exactly one. */
  lemma ActivateAddsOne(b: Board, c: Cell)
    requires WellFormed(b) && InBounds(c) && !Get(b, c)
    ensures |ActiveCells(SetAt(b, c, true))| == |ActiveCells(b)| + 1
  {
    ActiveFromActivate(b, c, 0);
  }
}
