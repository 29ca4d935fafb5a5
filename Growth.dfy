/**
 The growth heuristic on board values: the frontier of inactive cells next to
 active ones (duplicates kept, in the order they are met), the summed
 distance of a candidate to all active cells, the first candidate whose sum
 is largest, and the cell one growth step activates.

 The distance between two cells is a parameter `dist`: `euclidean_distance`
 in novelty_grid.py computes it in floating point. Only SingleSeed assumes
 anything about it (distance 1 to each 4-neighbour).

 FrontierAsWritten is the same collection over `get_neighbours` as written,
 which fails with an index error exactly when (0, GRID_SIZE - 1) is active
 and otherwise agrees with Frontier.
 */
module Growth {
  import opened ListOps
  import opened GridState
  import opened Neighbourhood

  /** The entries of `s` that are inactive on `b`, in order. */
  function InactiveOnly(b: Board, s: seq<Cell>): seq<Cell>
    requires WellFormed(b) && AllInBounds(s)
  {
    if s == [] then []
    else (if !Get(b, s[0]) then [s[0]] else []) + InactiveOnly(b, s[1..])
  }

  lemma {:induction false} InactiveOnlyMembers(b: Board, s: seq<Cell>)
    requires WellFormed(b) && AllInBounds(s)
    ensures forall c :: c in InactiveOnly(b, s) <==> c in s && !Get(b, c)
  {
    if s != [] {
      InactiveOnlyMembers(b, s[1..]);
      assert forall c :: c in s <==> c == s[0] || c in s[1..];
    }
  }

  /**
   The candidate list of the growth step: for each cell of `active` in turn,
   its intended neighbours that are inactive on `b`.
   */
  function Frontier(b: Board, active: seq<Cell>): seq<Cell>
    requires WellFormed(b)
  {
    if active == [] then []
    else InactiveOnly(b, Neighbours(active[0])) + Frontier(b, active[1..])
  }

  /** Unfolding InactiveOnly at position `j`. */
  lemma InactiveOnlyStep(b: Board, s: seq<Cell>, j: nat)
    requires WellFormed(b) && j < |s| && AllInBounds(s)
    ensures InactiveOnly(b, s[j..]) == (if !Get(b, s[j]) then [s[j]] else []) + InactiveOnly(b, s[j + 1..])
  {
    assert s[j..][1..] == s[j + 1..];
  }

  /** Unfolding Frontier at position `i`. */
  lemma FrontierStep(b: Board, active: seq<Cell>, i: nat)
    requires WellFormed(b) && i < |active|
    ensures Frontier(b, active[i..]) == InactiveOnly(b, Neighbours(active[i])) + Frontier(b, active[i + 1..])
  {
    assert active[i..][1..] == active[i + 1..];
  }

  /**
   A cell is a candidate exactly when it is in range, inactive, and
   4-adjacent to some cell of `active`.
   */
  lemma {:induction false} FrontierMembers(b: Board, active: seq<Cell>)
    requires WellFormed(b)
    ensures forall c :: c in Frontier(b, active) <==>
      InBounds(c) && !Get(b, c) && exists i :: 0 <= i < |active| && Adjacent(active[i], c)
  {
    if active != [] {
      FrontierMembers(b, active[1..]);
      NeighboursExact(active[0]);
      InactiveOnlyMembers(b, Neighbours(active[0]));
      forall c | InBounds(c) && !Get(b, c)
        ensures (exists i :: 0 <= i < |active| && Adjacent(active[i], c)) <==>
          Adjacent(active[0], c) || exists i :: 0 <= i < |active[1..]| && Adjacent(active[1..][i], c)
      {
        if exists i :: 0 <= i < |active| && Adjacent(active[i], c) {
          var i :| 0 <= i < |active| && Adjacent(active[i], c);
          if i > 0 {
            assert active[1..][i - 1] == active[i];
          }
        }
        if exists i :: 0 <= i < |active[1..]| && Adjacent(active[1..][i], c) {
          var i :| 0 <= i < |active[1..]| && Adjacent(active[1..][i], c);
          assert active[i + 1] == active[1..][i];
        }
      }
    }
  }

  /**
   On the board's own active-cell list, the candidates are exactly the
   inactive in-range cells that are 4-adjacent to an active cell.
   */
  lemma FrontierOfBoard(b: Board)
    requires WellFormed(b)
    ensures forall c :: c in Frontier(b, ActiveCells(b)) <==>
      InBounds(c) && !Get(b, c) && exists a :: InBounds(a) && Get(b, a) && Adjacent(a, c)
  {
    var active := ActiveCells(b);
    FrontierMembers(b, active);
    ActiveCellsExact(b);
    forall c | InBounds(c) ensures (exists i :: 0 <= i < |active| && Adjacent(active[i], c)) <==>
      (exists a :: InBounds(a) && Get(b, a) && Adjacent(a, c))
    {
      if exists a :: InBounds(a) && Get(b, a) && Adjacent(a, c) {
        var a :| InBounds(a) && Get(b, a) && Adjacent(a, c);
        assert a in active;
        var i :| 0 <= i < |active| && active[i] == a;
      }
      if exists i :: 0 <= i < |active| && Adjacent(active[i], c) {
        var i :| 0 <= i < |active| && Adjacent(active[i], c);
        assert active[i] in active;
      }
    }
  }

  /**
   Between an active cell and an inactive one there is an active cell with
   an inactive 4-neighbour: walk from `a` towards `z` one step at a time.
   */
  lemma {:induction false} BoundaryPair(b: Board, a: Cell, z: Cell)
    requires WellFormed(b) && InBounds(a) && InBounds(z) && Get(b, a) && !Get(b, z)
    ensures exists p, q :: InBounds(p) && InBounds(q) && Get(b, p) && !Get(b, q) && Adjacent(p, q)
    decreases (if a.0 < z.0 then z.0 - a.0 else a.0 - z.0) + (if a.1 < z.1 then z.1 - a.1 else a.1 - z.1)
  {
    var step: Cell :=
      if a.0 < z.0 then (a.0 + 1, a.1)
      else if a.0 > z.0 then (a.0 - 1, a.1)
      else if a.1 < z.1 then (a.0, a.1 + 1)
      else (a.0, a.1 - 1);
    assert InBounds(step) && Adjacent(a, step);
    if !Get(b, step) {
      assert InBounds(a) && InBounds(step) && Get(b, a) && !Get(b, step) && Adjacent(a, step);
    } else {
      BoundaryPair(b, step, z);
    }
  }

  /**
   The growth step has a candidate exactly when the board is neither all
   inactive nor all active.
   */
  lemma FrontierNonEmptyIff(b: Board)
    requires WellFormed(b)
    ensures |Frontier(b, ActiveCells(b))| > 0 <==>
      (exists a :: InBounds(a) && Get(b, a)) && (exists z :: InBounds(z) && !Get(b, z))
  {
    FrontierOfBoard(b);
    var f := Frontier(b, ActiveCells(b));
    if |f| > 0 {
      assert f[0] in f;
    }
    if (exists a :: InBounds(a) && Get(b, a)) && (exists z :: InBounds(z) && !Get(b, z)) {
      var a :| InBounds(a) && Get(b, a);
      var z :| InBounds(z) && !Get(b, z);
      BoundaryPair(b, a, z);
      var p, q :| InBounds(p) && InBounds(q) && Get(b, p) && !Get(b, q) && Adjacent(p, q);
      assert q in f;
    }
  }

  datatype Option<T> = None | Some(value: T)

  /**
   The candidate collection of `enable_furthest_cell` over `get_neighbours`
   as written, for in-range active cells (those `np.argwhere` yields): None
   when the neighbour list of an active cell holds an out-of-range entry, at
   which `grid[neighbour_x, neighbour_y]` raises an index error. For in-range
   cells that entry can only be (0, GRID_SIZE), past the end of the array.
   */
  function FrontierAsWritten(b: Board, active: seq<Cell>): Option<seq<Cell>>
    requires WellFormed(b) && AllInBounds(active)
  {
    if active == [] then Some([])
    else
      var t := SkipFilter(Candidates(active[0].0, active[0].1));
      if !AllInBounds(t) then None
      else
        assert AllInBounds(active[1..]) by {
          forall k | 0 <= k < |active[1..]| ensures InBounds(active[1..][k]) {
            assert active[1..][k] == active[k + 1];
          }
        }
        match FrontierAsWritten(b, active[1..])
        case None => None
        case Some(rest) => Some(InactiveOnly(b, t) + rest)
  }

  /**
   The as-written collection fails exactly when (0, GRID_SIZE - 1) is among
   the active cells, and otherwise yields the intended candidate list.
   */
  lemma {:induction false} FrontierAsWrittenIff(b: Board, active: seq<Cell>)
    requires WellFormed(b) && AllInBounds(active)
    ensures FrontierAsWritten(b, active).None? <==> (0, GRID_SIZE - 1) in active
    ensures (0, GRID_SIZE - 1) !in active ==> FrontierAsWritten(b, active) == Some(Frontier(b, active))
  {
    if active != [] {
      var a := active[0];
      var t := SkipFilter(Candidates(a.0, a.1));
      assert InBounds(a);
      assert AllInBounds(active[1..]) by {
        forall k | 0 <= k < |active[1..]| ensures InBounds(active[1..][k]) {
          assert active[1..][k] == active[k + 1];
        }
      }
      FrontierAsWrittenIff(b, active[1..]);
      assert forall c :: c in active <==> c == a || c in active[1..];
      AsWrittenInRangeIff(a.0, a.1);
      if a == (0, GRID_SIZE - 1) {
        assert !AllInBounds(t) by {
          var c :| c in t && !InBounds(c);
          var k :| 0 <= k < |t| && t[k] == c;
        }
      } else {
        AsWrittenAgreesOffCorner(a.0, a.1);
        assert AllInBounds(t);
      }
    }
  }

  /**
   On a board, the as-written growth step fails exactly when cell
   (0, GRID_SIZE - 1) is active; otherwise it collects the same candidates as
   the intended one (scores still differ from the source's floating-point
   sums, which are not modelled).
   */
  lemma GrowthAsWritten(b: Board)
    requires WellFormed(b)
    ensures var active := ActiveCells(b);
      && AllInBounds(active)
      && (FrontierAsWritten(b, active).None? <==> Get(b, (0, GRID_SIZE - 1)))
      && (!Get(b, (0, GRID_SIZE - 1)) ==> FrontierAsWritten(b, active) == Some(Frontier(b, active)))
  {
    var active := ActiveCells(b);
    ActiveCellsExact(b);
    forall k | 0 <= k < |active| ensures InBounds(active[k]) {
      assert active[k] in active;
    }
    FrontierAsWrittenIff(b, active);
  }

  /**
   The as-written growth step reaches `max` of an empty candidate list only
   on the all-inactive grid: a full grid has (0, GRID_SIZE - 1) active and
   fails earlier, at the out-of-range read.
   */
  lemma EmptyCandidatesOnlyOnEmptyGrid(b: Board)
    requires WellFormed(b)
    ensures AllInBounds(ActiveCells(b))
    ensures FrontierAsWritten(b, ActiveCells(b)) == Some([]) <==> forall c :: InBounds(c) ==> !Get(b, c)
    ensures (forall c :: InBounds(c) ==> Get(b, c)) ==> FrontierAsWritten(b, ActiveCells(b)).None?
  {
    GrowthAsWritten(b);
    FrontierNonEmptyIff(b);
    assert InBounds((0, GRID_SIZE - 1));
  }

  /** The summed distance from `c` to every cell of `active`. */
  function TotalDistance(c: Cell, active: seq<Cell>, dist: (Cell, Cell) -> real): real {
    if active == [] then 0.0 else dist(c, active[0]) + TotalDistance(c, active[1..], dist)
  }

  /** The summed distance of each candidate, position by position. */
  function Scores(active: seq<Cell>, candidates: seq<Cell>, dist: (Cell, Cell) -> real): (s: seq<real>)
    ensures |s| == |candidates|
    ensures forall i :: 0 <= i < |s| ==> s[i] == TotalDistance(candidates[i], active, dist)
  {
    seq(|candidates|, i requires 0 <= i < |candidates| => TotalDistance(candidates[i], active, dist))
  }

  /** `i` is the first position holding the largest value of `s`. */
  predicate IsFirstMax(s: seq<real>, i: int) {
    && 0 <= i < |s|
    && (forall j :: 0 <= j < |s| ==> s[j] <= s[i])
    && (forall j :: 0 <= j < i ==> s[j] < s[i])
  }

  /** `distances.index(max(distances))`. */
  function FirstMaxIndex(s: seq<real>): (i: nat)
    requires |s| > 0
    ensures IsFirstMax(s, i)
  {
    IndexOf(s, Max(s))
  }

  /**
   `furthest_cell`: the candidate at the first position whose summed
   distance to the active cells is largest. The list must not be empty, as
   `max` of an empty list fails.
   */
  method FurthestCell(active: seq<Cell>, neighbours: seq<Cell>, dist: (Cell, Cell) -> real)
    returns (furthest: Cell)
    requires |neighbours| > 0
    ensures furthest == neighbours[FirstMaxIndex(Scores(active, neighbours, dist))]
    ensures exists i :: IsFirstMax(Scores(active, neighbours, dist), i) && furthest == neighbours[i]
  {
    var distances: seq<real> := [];
    for k := 0 to |neighbours|
      invariant |distances| == k
      invariant forall j :: 0 <= j < k ==> distances[j] == TotalDistance(neighbours[j], active, dist)
    {
      var neighbour := neighbours[k];
      var totalDistance := 0.0;
      for j := 0 to |active|
        invariant totalDistance + TotalDistance(neighbour, active[j..], dist)
               == TotalDistance(neighbour, active, dist)
      {
        assert active[j..][1..] == active[j + 1..];
        totalDistance := totalDistance + dist(neighbour, active[j]);
      }
      distances := distances + [totalDistance];
    }
    assert distances == Scores(active, neighbours, dist);
    var index := IndexOf(distances, Max(distances));
    furthest := neighbours[index];
  }

  /** The cell that one growth step activates on `b`. */
  function Chosen(b: Board, dist: (Cell, Cell) -> real): (c: Cell)
    requires WellFormed(b) && |Frontier(b, ActiveCells(b))| > 0
    ensures c in Frontier(b, ActiveCells(b)) && InBounds(c) && !Get(b, c)
  {
    var active := ActiveCells(b);
    var candidates := Frontier(b, active);
    FrontierMembers(b, active);
    candidates[FirstMaxIndex(Scores(active, candidates, dist))]
  }

  /**
   The chosen cell is in range, was inactive, is 4-adjacent to an active
   cell, and no candidate scores higher; it sits at the first position of a
   largest summed distance in the candidate list.
   */
  lemma ChosenIsInactiveNeighbour(b: Board, dist: (Cell, Cell) -> real)
    requires WellFormed(b) && |Frontier(b, ActiveCells(b))| > 0
    ensures InBounds(Chosen(b, dist)) && !Get(b, Chosen(b, dist))
    ensures exists a :: InBounds(a) && Get(b, a) && Adjacent(a, Chosen(b, dist))
    ensures forall c :: c in Frontier(b, ActiveCells(b)) ==>
      TotalDistance(c, ActiveCells(b), dist) <= TotalDistance(Chosen(b, dist), ActiveCells(b), dist)
    ensures var candidates := Frontier(b, ActiveCells(b));
      exists i :: IsFirstMax(Scores(ActiveCells(b), candidates, dist), i) && Chosen(b, dist) == candidates[i]
  {
    var active := ActiveCells(b);
    var candidates := Frontier(b, active);
    var s := Scores(active, candidates, dist);
    var i := FirstMaxIndex(s);
    FrontierOfBoard(b);
    assert candidates[i] in candidates;
    forall c | c in candidates
      ensures TotalDistance(c, active, dist) <= TotalDistance(candidates[i], active, dist)
    {
      var j :| 0 <= j < |candidates| && candidates[j] == c;
      assert s[j] <= s[i];
    }
  }

  /**
   One growth step turns exactly the chosen cell from inactive to active:
   no other cell changes, no active cell is cleared, and the active-cell
   list grows by one.
   */
  lemma GrowthStepActivatesOne(b: Board, dist: (Cell, Cell) -> real)
    requires WellFormed(b) && |Frontier(b, ActiveCells(b))| > 0
    ensures var after := SetAt(b, Chosen(b, dist), true);
      && (forall d :: InBounds(d) ==> (Get(after, d) != Get(b, d) <==> d == Chosen(b, dist)))
      && (forall d :: InBounds(d) && Get(b, d) ==> Get(after, d))
      && |ActiveCells(after)| == |ActiveCells(b)| + 1
  {
    ChosenIsInactiveNeighbour(b, dist);
    ActivateAddsOne(b, Chosen(b, dist));
  }

  /** Summing over a single active cell gives its distance. */
  lemma TotalDistanceSingle(c: Cell, s: Cell, dist: (Cell, Cell) -> real)
    ensures TotalDistance(c, [s], dist) == dist(c, s)
  {
    assert [s][1..] == [];
  }

  lemma {:induction false} InactiveOnlyAllInactive(b: Board, s: seq<Cell>)
    requires WellFormed(b) && forall k :: 0 <= k < |s| ==> InBounds(s[k]) && !Get(b, s[k])
    ensures InactiveOnly(b, s) == s
  {
    if s != [] {
      InactiveOnlyAllInactive(b, s[1..]);
    }
  }

  /** A board whose only active cell is `s` has the active-cell list [s]. */
  lemma SingleActiveCell(b: Board, s: Cell)
    requires WellFormed(b) && InBounds(s)
    requires forall c :: InBounds(c) ==> (Get(b, c) <==> c == s)
    ensures ActiveCells(b) == [s]
  {
    var active := ActiveCells(b);
    ActiveCellsExact(b);
    assert s in active;
    forall i | 0 <= i < |active| ensures active[i] == s {
      assert active[i] in active;
    }
    if |active| > 1 {
      SortedNoRepeat(active, 0, 1);
      assert false;
    }
  }

  /** The first-max position of a list whose entries are all equal is 0. */
  lemma FirstMaxOfTie(s: seq<real>, v: real)
    requires |s| > 0 && forall j :: 0 <= j < |s| ==> s[j] == v
    ensures FirstMaxIndex(s) == 0
  {
  }

  /**
   With a single active cell `s`, the candidates are its in-range neighbours
   in the order +first, -first, +second, -second; when they are all at
   distance 1 from `s`, as under the Euclidean distance, the tie goes to the
   first of them, which is (s.0 + 1, s.1) whenever that cell is in range.
   */
  lemma SingleSeed(b: Board, s: Cell, dist: (Cell, Cell) -> real)
    requires WellFormed(b) && InBounds(s)
    requires forall c :: InBounds(c) ==> (Get(b, c) <==> c == s)
    requires forall c :: Adjacent(s, c) ==> dist(c, s) == 1.0
    ensures ActiveCells(b) == [s]
    ensures Frontier(b, ActiveCells(b)) == Neighbours(s)
    ensures |Neighbours(s)| > 0 && Chosen(b, dist) == Neighbours(s)[0]
    ensures s.0 + 1 < GRID_SIZE ==> Chosen(b, dist) == (s.0 + 1, s.1)
    ensures AllInBounds(ActiveCells(b))
    ensures FrontierAsWritten(b, ActiveCells(b)).Some? <==> s != (0, GRID_SIZE - 1)
  {
    GrowthAsWritten(b);
    SingleActiveCell(b, s);
    var n := Neighbours(s);
    NeighboursExact(s);
    InactiveOnlyAllInactive(b, n);
    assert Frontier(b, [s]) == n + Frontier(b, []);
    var step: Cell := if s.0 + 1 < GRID_SIZE then (s.0 + 1, s.1) else (s.0 - 1, s.1);
    assert Adjacent(s, step) && InBounds(step) && step in n;
    var scores := Scores([s], n, dist);
    forall j | 0 <= j < |n| ensures scores[j] == 1.0 {
      assert n[j] in n;
      TotalDistanceSingle(n[j], s, dist);
    }
    FirstMaxOfTie(scores, 1.0);
    if s.0 + 1 < GRID_SIZE {
      assert Candidates(s.0, s.1)[0] == step;
    }
  }
}
