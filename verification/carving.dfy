/** The frontier loop of `Prim::new` and its helper `add_neighbors`. */
module Carving {
  import opened Maze
  import opened Paths
  import opened Points

  /** Rank of the direction from `from` to its 4-neighbour `to` in the
      order `add_neighbors` tries them: up (0), down (1), left (2), right (3). */
  function DirectionRank(from: Cell, to: Cell): nat
  {
    if to.r < from.r then 0 else if to.r > from.r then 1 else if to.c < from.c then 2 else 3
  }

  /** One iteration of the `for` loop of `add_neighbors`, for the offset
      (dr, dc): the entry for (r + dr, c + dc) when that lies inside the grid. */
  function Probe(r: nat, c: nat, dr: int, dc: int, maxR: nat, maxC: nat, parent: Cell): seq<Point>
  {
    var nr := r + dr;
    var nc := c + dc;
    if 0 <= nr < maxR && 0 <= nc < maxC then [Point(Cell(nr, nc), Some(parent))] else []
  }

  /** What one probe of a unit offset contributes. */
  lemma ProbeFacts(r: nat, c: nat, dr: int, dc: int, maxR: nat, maxC: nat, parent: Cell, rank: nat)
    requires (dr, dc) in {(-1, 0), (1, 0), (0, -1), (0, 1)}
    requires rank == if dr < 0 then 0 else if dr > 0 then 1 else if dc < 0 then 2 else 3
    ensures var p := Probe(r, c, dr, dc, maxR, maxC, parent);
            && |p| <= 1
            && (forall i | 0 <= i < |p| ::
                  && p[i].parent == Some(parent)
                  && InGrid(p[i].pos, maxR, maxC)
                  && Adjacent(Cell(r, c), p[i].pos)
                  && DirectionRank(Cell(r, c), p[i].pos) == rank)
            && (forall n: Cell | InGrid(n, maxR, maxC) && Adjacent(Cell(r, c), n) && DirectionRank(Cell(r, c), n) == rank ::
                  Point(n, Some(parent)) in p)
  {
  }

  /** `add_neighbors(r, c, max_r, max_c, frontier, parent)`: its four
      probes, up, down, left, right, appended to the frontier. */
  function AddNeighbors(r: nat, c: nat, maxR: nat, maxC: nat, frontier: seq<Point>, parent: Cell): (res: seq<Point>)
    // Entries already on the frontier stay where they are.
    ensures |frontier| <= |res| <= |frontier| + 4
    ensures res[..|frontier|] == frontier
    // Every new entry is an in-bounds 4-neighbour of (r, c) recorded with the given parent ...
    ensures forall i | |frontier| <= i < |res| ::
              && res[i].parent == Some(parent)
              && InGrid(res[i].pos, maxR, maxC)
              && Adjacent(Cell(r, c), res[i].pos)
    // ... every in-bounds 4-neighbour of (r, c) is among them ...
    ensures forall n: Cell :: InGrid(n, maxR, maxC) && Adjacent(Cell(r, c), n) ==>
              Point(n, Some(parent)) in res[|frontier|..]
    // ... and they come in the order up, down, left, right, each once.
    ensures forall i, j | |frontier| <= i < j < |res| ::
              DirectionRank(Cell(r, c), res[i].pos) < DirectionRank(Cell(r, c), res[j].pos)
  {
    var up := Probe(r, c, -1, 0, maxR, maxC, parent);
    var down := Probe(r, c, 1, 0, maxR, maxC, parent);
    var left := Probe(r, c, 0, -1, maxR, maxC, parent);
    var right := Probe(r, c, 0, 1, maxR, maxC, parent);
    ProbeFacts(r, c, -1, 0, maxR, maxC, parent, 0);
    ProbeFacts(r, c, 1, 0, maxR, maxC, parent, 1);
    ProbeFacts(r, c, 0, -1, maxR, maxC, parent, 2);
    ProbeFacts(r, c, 0, 1, maxR, maxC, parent, 3);
    AppendedInOrder(Cell(r, c), up, down, left, right);
    var res := frontier + (up + down + left + right);
    assert res[|frontier|..] == up + down + left + right;
    assert forall i | |frontier| <= i < |res| :: res[i] == (up + down + left + right)[i - |frontier|];
    res
  }

  /** Four runs of at most one entry each, of direction ranks 0, 1, 2 and 3,
      concatenate to a run of strictly increasing rank. */
  lemma AppendedInOrder(from: Cell, up: seq<Point>, down: seq<Point>, left: seq<Point>, right: seq<Point>)
    requires |up| <= 1 && |down| <= 1 && |left| <= 1 && |right| <= 1
    requires forall i | 0 <= i < |up| :: DirectionRank(from, up[i].pos) == 0
    requires forall i | 0 <= i < |down| :: DirectionRank(from, down[i].pos) == 1
    requires forall i | 0 <= i < |left| :: DirectionRank(from, left[i].pos) == 2
    requires forall i | 0 <= i < |right| :: DirectionRank(from, right[i].pos) == 3
    ensures var s := up + down + left + right;
            forall i, j | 0 <= i < j < |s| :: DirectionRank(from, s[i].pos) < DirectionRank(from, s[j].pos)
  {
  }

  /** The state of the `while` loop: the grid `maz` and the frontier vector. */
  datatype CarveState = CarveState(grid: Grid, frontier: seq<Point>)

  /** Termination measure of the loop: five per wall plus one per frontier entry. */
  function Measure(st: CarveState): nat
  {
    5 * CountGrid(st.grid, Wall) + |st.frontier|
  }

  predicate FrontierInGrid(st: CarveState, row: nat, col: nat)
  {
    forall i | 0 <= i < |st.frontier| :: InGrid(st.frontier[i].pos, row, col)
  }

  /** `Vec::remove(idx)`: the entry at `idx` goes, the others keep their order. */
  function RemoveAt(s: seq<Point>, idx: nat): (t: seq<Point>)
    requires idx < |s|
    ensures |t| == |s| - 1
    ensures forall i | 0 <= i < |t| :: t[i] == (if i < idx then s[i] else s[i + 1])
  {
    s[..idx] + s[idx + 1..]
  }

  /** Opening two walls `a` and `b` (possibly the same cell) into passages. */
  function OpenPair(g: Grid, row: nat, col: nat, a: Cell, b: Cell): (h: Grid)
    requires IsRect(g, row, col)
    requires InGrid(a, row, col) && InGrid(b, row, col)
    requires g[a.r][a.c] == Wall && g[b.r][b.c] == Wall
    ensures IsRect(h, row, col)
    ensures h[a.r][a.c] == Passage && h[b.r][b.c] == Passage
    ensures forall r, c | 0 <= r < row && 0 <= c < col && Cell(r, c) != a && Cell(r, c) != b :: h[r][c] == g[r][c]
    // One wall fewer per distinct cell opened.
    ensures CountGrid(h, Wall) + (if a == b then 1 else 2) == CountGrid(g, Wall)
  {
    var g1 := Put(g, a, Passage);
    CountGridPut(g, a, Passage, Wall);
    CountGridPut(g1, b, Passage, Wall);
    Put(g1, b, Passage)
  }

  /** Whether the loop body carves for the entry `curr`: its opposite
      exists and both cells are still walls. */
  predicate Carves(g: Grid, row: nat, col: nat, curr: Point)
    requires IsRect(g, row, col) && InGrid(curr.pos, row, col)
  {
    var o := Opposite(curr, row, col);
    o.Some? && g[curr.pos.r][curr.pos.c] == Wall && g[o.value.r][o.value.c] == Wall
  }

  /** One iteration of the loop, with `idx` the index drawn by
      `gen_range(0..frontier.len())`: remove that entry; if its opposite
      exists and both cells are walls, open both and push the opposite's
      neighbours with the opposite as parent. */
  function CarveStep(row: nat, col: nat, st: CarveState, idx: nat): (next: CarveState)
    requires IsRect(st.grid, row, col)
    requires FrontierInGrid(st, row, col)
    requires idx < |st.frontier|
    ensures IsRect(next.grid, row, col)
    ensures FrontierInGrid(next, row, col)
    // The loop makes progress: the measure strictly drops.
    ensures Measure(next) < Measure(st)
    // Only walls are ever rewritten, and only into passages.
    ensures forall r, c | 0 <= r < row && 0 <= c < col ::
              next.grid[r][c] == st.grid[r][c] || (st.grid[r][c] == Wall && next.grid[r][c] == Passage)
    // `Vec::remove` keeps the order of the remaining entries; anything new goes at the back.
    ensures |next.frontier| >= |st.frontier| - 1
    ensures next.frontier[..|st.frontier| - 1] == RemoveAt(st.frontier, idx)
  {
    var curr := st.frontier[idx];
    var rest := RemoveAt(st.frontier, idx);
    if Carves(st.grid, row, col, curr) then
      var o := Opposite(curr, row, col).value;
      var h := OpenPair(st.grid, row, col, curr.pos, o);
      var more := AddNeighbors(o.r, o.c, row, col, rest, o);
      assert forall i | 0 <= i < |more| :: InGrid(more[i].pos, row, col) by {
        forall i | 0 <= i < |more| ensures InGrid(more[i].pos, row, col) {
          if i < |rest| { assert more[i] == rest[i]; }
        }
      }
      CarveState(h, more)
    else
      CarveState(st.grid, rest)
  }

  /** A frontier entry as the loop keeps it: inside the grid, with a parent
      that is an in-bounds 4-neighbour and already open (the start or a passage). */
  predicate EntryOk(g: Grid, row: nat, col: nat, e: Point)
  {
    && e.parent.Some?
    && InGrid(e.pos, row, col)
    && InGrid(e.parent.value, row, col)
    && Adjacent(e.parent.value, e.pos)
    && Open(g, e.parent.value)
  }

  /** The grid part of the loop invariant: the start holds `'S'` and every
      other cell is a wall or a passage. */
  predicate Shaped(g: Grid, row: nat, col: nat, start: Cell)
  {
    && IsRect(g, row, col)
    && InGrid(start, row, col)
    && g[start.r][start.c] == Start
    && (forall r, c | 0 <= r < row && 0 <= c < col && Cell(r, c) != start :: g[r][c] == Wall || g[r][c] == Passage)
  }

  predicate FrontierOk(g: Grid, row: nat, col: nat, f: seq<Point>)
  {
    forall i | 0 <= i < |f| :: EntryOk(g, row, col, f[i])
  }

  /** Every passage of `g` is reached from the start. */
  ghost predicate Reached(g: Grid, start: Cell)
  {
    forall r, c | 0 <= r < |g| && 0 <= c < |g[r]| && g[r][c] == Passage :: Connected(g, start, Cell(r, c))
  }

  /** What holds of the loop state on every iteration. */
  ghost predicate CarveInv(row: nat, col: nat, start: Cell, st: CarveState)
  {
    Shaped(st.grid, row, col, start) && FrontierOk(st.grid, row, col, st.frontier) && Reached(st.grid, start)
  }

  /** `vec![vec!['#'; col]; row]` with the start marked. */
  function InitialGrid(row: nat, col: nat, start: Cell): (g: Grid)
    requires InGrid(start, row, col)
    ensures IsRect(g, row, col)
    ensures g[start.r][start.c] == Start
    ensures forall r, c | 0 <= r < row && 0 <= c < col && Cell(r, c) != start :: g[r][c] == Wall
  {
    Put(Filled(row, col, Wall), start, Start)
  }

  /** The state right before the loop: all walls but the start, and the
      start's in-bounds neighbours on the frontier. */
  function InitialState(row: nat, col: nat, start: Cell): (st: CarveState)
    requires InGrid(start, row, col)
    ensures CarveInv(row, col, start, st)
  {
    var g := InitialGrid(row, col, start);
    var f := AddNeighbors(start.r, start.c, row, col, [], start);
    assert Open(g, start);
    assert FrontierOk(g, row, col, f);
    assert Reached(g, start) by {
      assert forall r, c | 0 <= r < row && 0 <= c < col :: g[r][c] != Passage;
    }
    CarveState(g, f)
  }

  /** Opening two walls keeps every open cell open. */
  lemma OpenPairGrows(g: Grid, row: nat, col: nat, a: Cell, b: Cell)
    requires IsRect(g, row, col)
    requires InGrid(a, row, col) && InGrid(b, row, col)
    requires g[a.r][a.c] == Wall && g[b.r][b.c] == Wall
    ensures OpensGrow(g, OpenPair(g, row, col, a, b))
  {
  }

  /** Entries whose parents were open still have open parents once more cells open. */
  lemma FrontierOkGrows(g: Grid, h: Grid, row: nat, col: nat, f: seq<Point>)
    requires FrontierOk(g, row, col, f)
    requires OpensGrow(g, h)
    ensures FrontierOk(h, row, col, f)
  {
  }

  /** The two cells carved for `curr` hang off its parent, which was already
      reached; every older passage keeps its walk. */
  lemma CarveKeepsReached(g: Grid, row: nat, col: nat, start: Cell, curr: Point, o: Cell)
    requires Shaped(g, row, col, start) && Reached(g, start)
    requires EntryOk(g, row, col, curr)
    requires InGrid(o, row, col)
    requires g[curr.pos.r][curr.pos.c] == Wall && g[o.r][o.c] == Wall
    requires o == curr.pos || Adjacent(curr.pos, o)
    ensures Reached(OpenPair(g, row, col, curr.pos, o), start)
  {
    var h := OpenPair(g, row, col, curr.pos, o);
    var par := curr.parent.value;
    OpenPairGrows(g, row, col, curr.pos, o);
    assert Connected(g, start, par) by {
      if par == start {
        ConnectedSelf(g, start);
      } else {
        assert g[par.r][par.c] == Passage;
      }
    }
    ConnectedGrows(g, h, start, par);
    ConnectedStep(h, start, par, curr.pos);
    if o != curr.pos {
      ConnectedStep(h, start, curr.pos, o);
    }
    forall r, c | 0 <= r < row && 0 <= c < col && h[r][c] == Passage
      ensures Connected(h, start, Cell(r, c))
    {
      var x := Cell(r, c);
      if x != curr.pos && x != o {
        assert g[r][c] == Passage;
        ConnectedGrows(g, h, start, x);
      }
    }
  }

  /** One iteration keeps the loop invariant. */
  lemma StepKeepsInv(row: nat, col: nat, start: Cell, st: CarveState, idx: nat)
    requires CarveInv(row, col, start, st)
    requires idx < |st.frontier|
    ensures CarveInv(row, col, start, CarveStep(row, col, st, idx))
  {
    var g := st.grid;
    var curr := st.frontier[idx];
    var rest := RemoveAt(st.frontier, idx);
    assert EntryOk(g, row, col, curr);
    assert FrontierOk(g, row, col, rest);
    if Carves(g, row, col, curr) {
      var o := Opposite(curr, row, col).value;
      var h := OpenPair(g, row, col, curr.pos, o);
      assert CarveStep(row, col, st, idx) == CarveState(h, AddNeighbors(o.r, o.c, row, col, rest, o));
      // The start is neither of the two carved walls.
      assert curr.pos != start && o != start;
      assert Shaped(h, row, col, start);
      OpenPairGrows(g, row, col, curr.pos, o);
      FrontierOkGrows(g, h, row, col, rest);
      assert Open(h, o);
      assert FrontierOk(h, row, col, AddNeighbors(o.r, o.c, row, col, rest, o));
      CarveKeepsReached(g, row, col, start, curr, o);
    } else {
      assert CarveStep(row, col, st, idx) == CarveState(g, rest);
    }
  }

  /** Any way of choosing among the frontier entries: `pick(k, n)` is the
      value of the k-th call of `gen_range(0..n)`. */
  ghost predicate ValidPicker(pick: (nat, nat) -> nat)
  {
    forall k: nat, n: nat :: 0 < n ==> pick(k, n) < n
  }

  /** The carving part of `Prim::new`, from the all-wall grid with the start
      marked to the empty frontier. */
  method Carve(row: nat, col: nat, start: Cell, pick: (nat, nat) -> nat) returns (g: Grid)
    requires InGrid(start, row, col)
    requires ValidPicker(pick)
    ensures IsRect(g, row, col)
    // The start is still there, and it is the only `'S'`.
    ensures g[start.r][start.c] == Start
    ensures forall r, c | 0 <= r < row && 0 <= c < col && Cell(r, c) != start ::
              g[r][c] == Wall || g[r][c] == Passage
    // Every passage can be reached from the start through passages.
    ensures forall r, c | 0 <= r < row && 0 <= c < col && g[r][c] == Passage ::
              Connected(g, start, Cell(r, c))
  {
    var st := InitialState(row, col, start);
    var k: nat := 0;
    while |st.frontier| > 0
      invariant CarveInv(row, col, start, st)
      decreases Measure(st)
    {
      var idx := pick(k, |st.frontier|);
      StepKeepsInv(row, col, start, st, idx);
      st := CarveStep(row, col, st, idx);
      k := k + 1;
    }
    g := st.grid;
  }
}
