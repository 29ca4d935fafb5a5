/**
 Neighbour generation for one cell. The four 4-adjacent coordinates are
 listed in the fixed order +first, -first, +second, -second.
 `get_neighbours` in novelty_grid.py then drops out-of-range entries by
 removing them from the very list it is iterating over, which skips the
 entry after each removal; that routine is modelled as written (GetNeighboursAsWritten) and described by SkipFilter.
 The rest of the model uses the intended routine Neighbours, a plain filter.
 */
module Neighbourhood {
  import opened ListOps
  import opened GridState

  /** The four 4-adjacent coordinates, in the order `get_neighbours` lists them. */
  function Candidates(x: int, y: int): (s: seq<Cell>)
    ensures |s| == 4 && Distinct(s)
  {
    [(x + 1, y), (x - 1, y), (x, y + 1), (x, y - 1)]
  }

  /** Candidates lists exactly the 4-adjacent cells. */
  lemma CandidatesAdjacent(x: int, y: int)
    ensures forall c :: c in Candidates(x, y) <==> Adjacent((x, y), c)
  {
  }

  /** The in-range entries of `s`, in their original order. */
  function InBoundsOnly(s: seq<Cell>): seq<Cell> {
    if s == [] then []
    else (if InBounds(s[0]) then [s[0]] else []) + InBoundsOnly(s[1..])
  }

  lemma {:induction false} InBoundsOnlyMembers(s: seq<Cell>)
    ensures forall c :: c in InBoundsOnly(s) <==> c in s && InBounds(c)
  {
    if s != [] {
      InBoundsOnlyMembers(s[1..]);
      assert forall c :: c in s <==> c == s[0] || c in s[1..];
    }
  }

  lemma {:induction false} InBoundsOnlySubseq(s: seq<Cell>)
    ensures Subseq(InBoundsOnly(s), s)
  {
    if s != [] {
      InBoundsOnlySubseq(s[1..]);
      if InBounds(s[0]) {
        assert InBoundsOnly(s)[1..] == InBoundsOnly(s[1..]);
      } else {
        assert InBoundsOnly(s) == InBoundsOnly(s[1..]);
      }
    }
  }

  /**
   The intended `get_neighbours`: the in-range entries of Candidates, as a
   filter that builds a new list instead of removing while iterating.
   */
  function Neighbours(c: Cell): (r: seq<Cell>)
    ensures AllInBounds(r)
  {
    InBoundsOnlyMembers(Candidates(c.0, c.1));
    InBoundsOnly(Candidates(c.0, c.1))
  }

  /**
   A neighbour list holds exactly the in-range 4-adjacent cells, as an
   order-preserving subsequence of Candidates.
   */
  lemma NeighboursExact(a: Cell)
    ensures forall c :: c in Neighbours(a) <==> InBounds(c) && Adjacent(a, c)
    ensures Subseq(Neighbours(a), Candidates(a.0, a.1))
  {
    CandidatesAdjacent(a.0, a.1);
    InBoundsOnlyMembers(Candidates(a.0, a.1));
    InBoundsOnlySubseq(Candidates(a.0, a.1));
  }

  /**
   What iterating over a list of distinct cells while removing every
   out-of-range entry met on the way leaves: an out-of-range entry is dropped,
   and the entry right after it is kept unexamined.
   */
  function SkipFilter(t: seq<Cell>): seq<Cell> {
    if t == [] then []
    else if InBounds(t[0]) then [t[0]] + SkipFilter(t[1..])
    else if |t| == 1 then []
    else [t[1]] + SkipFilter(t[2..])
  }

  /** One step of the as-written loop at an in-range entry: the entry is kept and the index moves on. */
  lemma KeepStep(s: seq<Cell>, i: nat)
    requires i < |s| && InBounds(s[i])
    ensures s[..i + 1] + SkipFilter(s[i + 1..]) == s[..i] + SkipFilter(s[i..])
  {
    assert s[i..][1..] == s[i + 1..];
    assert s[..i + 1] == s[..i] + [s[i]];
  }

  /**
   One step of the as-written loop at an out-of-range entry: the entry is cut
   out, and the index moving on passes over the entry that followed it.
   */
  lemma RemoveStep(s: seq<Cell>, i: nat)
    requires i < |s| && !InBounds(s[i])
    ensures var s' := s[..i] + s[i + 1..];
      && (i + 1 <= |s'| ==> s'[..i + 1] + SkipFilter(s'[i + 1..]) == s[..i] + SkipFilter(s[i..]))
      && (i + 1 > |s'| ==> s' == s[..i] + SkipFilter(s[i..]))
  {
    var s' := s[..i] + s[i + 1..];
    if i + 1 < |s| {
      assert s[i..][2..] == s[i + 2..];
      assert s'[..i + 1] == s[..i] + [s[i + 1]];
      assert s'[i + 1..] == s[i + 2..];
    } else {
      assert s' == s[..i];
    }
  }

  /**
   `get_neighbours` as written: a `for` loop walks an index over the list
   while `list.remove` shrinks it, so the loop ends once the index passes
   the current length.
   */
  method GetNeighboursAsWritten(x: int, y: int) returns (neighbours: seq<Cell>)
    ensures neighbours == SkipFilter(Candidates(x, y))
  {
    ghost var target := SkipFilter(Candidates(x, y));
    neighbours := Candidates(x, y);
    var i := 0;
    while i < |neighbours|
      invariant Distinct(neighbours)
      invariant i <= |neighbours| + 1
      invariant i <= |neighbours| ==> neighbours[..i] + SkipFilter(neighbours[i..]) == target
      invariant i == |neighbours| + 1 ==> neighbours == target
      decreases |neighbours| + 1 - i
    {
      var n := neighbours[i];
      if !InBounds(n) {
        RemoveFirstOfDistinct(neighbours, i);
        RemoveStep(neighbours, i);
        neighbours := RemoveFirst(neighbours, n);
      } else {
        KeepStep(neighbours, i);
      }
      i := i + 1;
    }
    if i == |neighbours| {
      assert neighbours[..i] == neighbours && neighbours[i..] == [];
    }
  }

  /** The as-written result never reorders and never invents entries. */
  lemma {:induction false} SkipFilterSubseq(t: seq<Cell>)
    ensures Subseq(SkipFilter(t), t)
  {
    if t != [] {
      if InBounds(t[0]) {
        SkipFilterSubseq(t[1..]);
        assert SkipFilter(t)[1..] == SkipFilter(t[1..]);
      } else if |t| > 1 {
        SkipFilterSubseq(t[2..]);
        var r := SkipFilter(t);
        assert r[1..] == SkipFilter(t[2..]) && t[1..][1..] == t[2..];
        assert Subseq(r, t[1..]);
      }
    }
  }

  /** Without two out-of-range entries in a row, removal while iterating does filter correctly. */
  lemma {:induction false} SkipFilterIsFilter(t: seq<Cell>)
    requires forall i :: 0 <= i < |t| - 1 ==> InBounds(t[i]) || InBounds(t[i + 1])
    ensures SkipFilter(t) == InBoundsOnly(t)
  {
    if t != [] {
      if InBounds(t[0]) {
        SkipFilterIsFilter(t[1..]);
      } else if |t| > 1 {
        assert InBounds(t[1]);
        assert t[1..][1..] == t[2..];
        SkipFilterIsFilter(t[2..]);
      }
    }
  }

  /**
   Every entry of the as-written neighbour list is 4-adjacent to the input
   and appears in Candidates' order.
   */
  lemma AsWrittenAdjacent(x: int, y: int)
    ensures forall c :: c in SkipFilter(Candidates(x, y)) ==> Adjacent((x, y), c)
    ensures Subseq(SkipFilter(Candidates(x, y)), Candidates(x, y))
  {
    CandidatesAdjacent(x, y);
    SkipFilterSubseq(Candidates(x, y));
    SubseqMembers(SkipFilter(Candidates(x, y)), Candidates(x, y));
  }

  /**
   For every in-range cell other than (0, GRID_SIZE - 1) the as-written
   routine returns exactly the intended neighbour list.
   */
  lemma AsWrittenAgreesOffCorner(x: int, y: int)
    requires InBounds((x, y)) && (x, y) != (0, GRID_SIZE - 1)
    ensures SkipFilter(Candidates(x, y)) == Neighbours((x, y))
  {
    SkipFilterIsFilter(Candidates(x, y));
  }

  /**
   At (0, GRID_SIZE - 1) the removal of (-1, GRID_SIZE - 1) makes the loop
   skip (0, GRID_SIZE), which stays in the result although it lies outside
   the grid, so a later `grid[0, GRID_SIZE]` is out of range.
   */
  lemma AsWrittenLeaksAtCorner()
    ensures SkipFilter(Candidates(0, GRID_SIZE - 1))
         == [(1, GRID_SIZE - 1), (0, GRID_SIZE), (0, GRID_SIZE - 2)]
    ensures !InBounds((0, GRID_SIZE))
    ensures SkipFilter(Candidates(0, GRID_SIZE - 1)) != Neighbours((0, GRID_SIZE - 1))
  {
    var t := Candidates(0, GRID_SIZE - 1);
    var u := t[1..];
    assert u == [(-1, GRID_SIZE - 1), (0, GRID_SIZE), (0, GRID_SIZE - 2)];
    assert u[2..] == [(0, GRID_SIZE - 2)] && u[2..][1..] == [];
    assert SkipFilter(u[2..]) == [(0, GRID_SIZE - 2)];
    assert SkipFilter(u) == [(0, GRID_SIZE)] + SkipFilter(u[2..]);
    assert SkipFilter(t) == [t[0]] + SkipFilter(u);
    InBoundsOnlyMembers(t);
    assert (0, GRID_SIZE) !in Neighbours((0, GRID_SIZE - 1));
  }

  /**
   For an in-range input the as-written result is free of out-of-range
   entries if and only if the input is not (0, GRID_SIZE - 1).
   */
  lemma AsWrittenInRangeIff(x: int, y: int)
    requires InBounds((x, y))
    ensures (forall c :: c in SkipFilter(Candidates(x, y)) ==> InBounds(c))
        <==> (x, y) != (0, GRID_SIZE - 1)
  {
    if (x, y) == (0, GRID_SIZE - 1) {
      AsWrittenLeaksAtCorner();
      assert (0, GRID_SIZE) in SkipFilter(Candidates(x, y));
    } else {
      AsWrittenAgreesOffCorner(x, y);
      NeighboursExact((x, y));
    }
  }
}
