/**
 The grid itself: a GRID_SIZE x GRID_SIZE array of booleans updated in place
 by mouse edits and by the growth step.
 */
module NoveltyGrid {
  import opened GridState
  import opened Neighbourhood
  import opened Growth

  class Grid {
    /** The cells, indexed `cells[first, second]`; the array itself is never replaced. */
    const cells: array2<bool>

    ghost predicate Valid()
      reads this
    {
      cells.Length0 == GRID_SIZE && cells.Length1 == GRID_SIZE
    }

    /** `b` holds, cell for cell, what the array currently holds. */
    ghost predicate Mirrors(b: Board)
      reads this, cells
      requires Valid()
    {
      WellFormed(b) && forall r, c :: 0 <= r < GRID_SIZE && 0 <= c < GRID_SIZE ==> b[r][c] == cells[r, c]
    }

    /** The current contents of the array as a board value. */
    function Snapshot(): (b: Board)
      reads this, cells
      requires Valid()
      ensures Mirrors(b)
    {
      seq(GRID_SIZE, r requires 0 <= r < cells.Length0 reads cells =>
        seq(GRID_SIZE, c requires 0 <= c < cells.Length1 reads cells => cells[r, c]))
    }

    /** The start-up grid, `np.full((GRID_SIZE, GRID_SIZE), False)`. */
    constructor ()
      ensures Valid() && fresh(cells)
      ensures Snapshot() == EmptyBoard()
    {
      cells := new bool[GRID_SIZE, GRID_SIZE]((r, c) => false);
      new;
      BoardExt(Snapshot(), EmptyBoard());
    }

    /**
     `set_cell`: writes `value` into the cell under the mouse pixel
     (`px`, `py`) and changes nothing else.
     */
    method SetCell(px: int, py: int, value: bool)
      requires Valid() && OnScreen(px, py)
      modifies cells
      ensures Valid()
      ensures Snapshot() == SetAt(old(Snapshot()), CellOfPixel(px, py), value)
    {
      OnScreenPixelInGrid(px, py);
      cells[py / CELL_SIZE, px / CELL_SIZE] := value;
      BoardExt(Snapshot(), SetAt(old(Snapshot()), CellOfPixel(px, py), value));
    }

    /**
     The inner loop of the candidate collection in `enable_furthest_cell`:
     the neighbours of one active cell that are currently inactive, in order.
     The ghost board `b` names the current contents for the contract.
     */
    method InactiveNeighbours(current: Cell, ghost b: Board) returns (found: seq<Cell>)
      requires Valid() && Mirrors(b)
      ensures found == InactiveOnly(b, Neighbours(current))
    {
      var adjacent := Neighbours(current);
      found := [];
      for j := 0 to |adjacent|
        invariant found + InactiveOnly(b, adjacent[j..]) == InactiveOnly(b, adjacent)
      {
        var n := adjacent[j];
        InactiveOnlyStep(b, adjacent, j);
        ghost var later := InactiveOnly(b, adjacent[j + 1..]);
        assert InBounds(n) && cells[n.0, n.1] == Get(b, n);
        if !cells[n.0, n.1] {
          assert found + ([n] + later) == (found + [n]) + later;
          found := found + [n];
        }
      }
      assert InactiveOnly(b, adjacent[|adjacent|..]) == [];
    }

    /**
     The candidate collection of `enable_furthest_cell`: for each active
     cell in turn, each of its neighbours that is currently inactive
     (duplicates kept), read against the current contents `b`.
     */
    method CollectCandidates(active: seq<Cell>, ghost b: Board) returns (neighbours: seq<Cell>)
      requires Valid() && Mirrors(b)
      ensures neighbours == Frontier(b, active)
    {
      neighbours := [];
      for i := 0 to |active|
        invariant neighbours + Frontier(b, active[i..]) == Frontier(b, active)
      {
        var found := InactiveNeighbours(active[i], b);
        FrontierStep(b, active, i);
        assert neighbours + Frontier(b, active[i..])
            == (neighbours + found) + Frontier(b, active[i + 1..]);
        neighbours := neighbours + found;
      }
      assert active[|active|..] == [];
    }

    /**
     `enable_furthest_cell`: activates the first candidate with the largest
     summed distance to the active cells. There must be a candidate, since
     `max` of an empty list fails.
     */
    method EnableFurthestCell(dist: (Cell, Cell) -> real)
      requires Valid() && |Frontier(Snapshot(), ActiveCells(Snapshot()))| > 0
      modifies cells
      ensures Valid()
      ensures Snapshot() == SetAt(old(Snapshot()), Chosen(old(Snapshot()), dist), true)
    {
      ghost var before := Snapshot();
      ghost var chosen := Chosen(before, dist);
      var activeCells := ActiveCells(Snapshot());
      var neighbours := CollectCandidates(activeCells, before);
      var furthest := FurthestCell(activeCells, neighbours, dist);
      assert furthest == chosen;
      cells[furthest.0, furthest.1] := true;
      BoardExt(Snapshot(), SetAt(before, chosen, true));
    }
  }
}
