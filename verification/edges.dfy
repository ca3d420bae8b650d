/** The helpers of `Prim` that work on the outer ring of the grid:
    `random_edge_point`, `find_end_point` and `enforce_edge_walls`. */
module Edges {
  import opened Maze

  /** The two values `random_edge_point` draws: `gen_range(0..4)` picks a
      side, then `gen_range(0..col)` or `gen_range(0..row)` a position on it. */
  datatype EdgeDraw = EdgeDraw(side: nat, offset: nat)

  /** The draw lies in the ranges `gen_range` can return. */
  predicate ValidDraw(row: nat, col: nat, d: EdgeDraw)
  {
    d.side < 4 && d.offset < (if d.side < 2 then col else row)
  }

  /** `random_edge_point(row, col)` for a given draw: side 0 is the top
      row, 1 the bottom row, 2 the left column, anything else the right column. */
  function RandomEdgePoint(row: nat, col: nat, d: EdgeDraw): (p: Cell)
    requires row >= 1 && col >= 1
    requires ValidDraw(row, col, d)
    ensures InGrid(p, row, col)
    ensures IsEdge(p, row, col)
  {
    match d.side
    case 0 => Cell(0, d.offset)
    case 1 => Cell(row - 1, d.offset)
    case 2 => Cell(d.offset, 0)
    case _ => Cell(d.offset, col - 1)
  }

  /** Every cell of the outer ring is the outcome of some draw, so the
      start and the end can land anywhere on the edge. */
  lemma EdgeDrawCovers(row: nat, col: nat, x: Cell)
    requires row >= 1 && col >= 1
    requires InGrid(x, row, col) && IsEdge(x, row, col)
    ensures exists d :: ValidDraw(row, col, d) && RandomEdgePoint(row, col, d) == x
  {
    var d :=
      if x.r == 0 then EdgeDraw(0, x.c)
      else if x.r == row - 1 then EdgeDraw(1, x.c)
      else if x.c == 0 then EdgeDraw(2, x.r)
      else EdgeDraw(3, x.r);
    assert ValidDraw(row, col, d) && RandomEdgePoint(row, col, d) == x;
  }

  /** The test `find_end_point` applies to each drawn cell: a passage that
      is not the top-left corner. */
  predicate AcceptsEnd(g: Grid, x: Cell)
    requires x.r < |g| && x.c < |g[x.r]|
  {
    g[x.r][x.c] == Passage && (x.r != 0 || x.c != 0)
  }

  /** `find_end_point`, fed the successive draws of its `loop`. It returns
      the first drawn cell that passes the test; `None` means the source
      would still be looping after the given draws. */
  function FindEndPoint(g: Grid, row: nat, col: nat, draws: seq<EdgeDraw>): (e: Option<Cell>)
    requires row >= 1 && col >= 1
    requires IsRect(g, row, col)
    requires forall k | 0 <= k < |draws| :: ValidDraw(row, col, draws[k])
    ensures e.Some? ==> InGrid(e.value, row, col) && IsEdge(e.value, row, col)
    ensures e.Some? ==> g[e.value.r][e.value.c] == Passage && e.value != Cell(0, 0)
    ensures e.Some? ==>
              exists k | 0 <= k < |draws| ::
                && RandomEdgePoint(row, col, draws[k]) == e.value
                && forall j | 0 <= j < k :: !AcceptsEnd(g, RandomEdgePoint(row, col, draws[j]))
    ensures e.None? <==> forall k | 0 <= k < |draws| :: !AcceptsEnd(g, RandomEdgePoint(row, col, draws[k]))
  {
    if |draws| == 0 then None
    else
      var p := RandomEdgePoint(row, col, draws[0]);
      if g[p.r][p.c] == Passage && (p.r != 0 || p.c != 0) then Some(p)
      else
        var e := FindEndPoint(g, row, col, draws[1..]);
        assert forall k | 1 <= k < |draws| :: draws[k] == draws[1..][k - 1];
        e
  }

  /** `find_end_point` never picks the start: the start cell holds `'S'`,
      so the passage test rejects it whatever its coordinates. */
  lemma EndIsNotStart(g: Grid, row: nat, col: nat, draws: seq<EdgeDraw>, start: Cell)
    requires row >= 1 && col >= 1
    requires IsRect(g, row, col)
    requires forall k | 0 <= k < |draws| :: ValidDraw(row, col, draws[k])
    requires InGrid(start, row, col) && g[start.r][start.c] == Start
    ensures FindEndPoint(g, row, col, draws).Some? ==> FindEndPoint(g, row, col, draws).value != start
  {
  }

  /** When no edge cell other than the top-left corner holds a passage,
      no sequence of draws ends the search: the source loops forever. */
  lemma FindEndPointStuck(g: Grid, row: nat, col: nat, draws: seq<EdgeDraw>)
    requires row >= 1 && col >= 1
    requires IsRect(g, row, col)
    requires forall k | 0 <= k < |draws| :: ValidDraw(row, col, draws[k])
    requires forall r, c | 0 <= r < row && 0 <= c < col && IsEdge(Cell(r, c), row, col) && g[r][c] == Passage ::
               r == 0 && c == 0
    ensures FindEndPoint(g, row, col, draws).None?
  {
  }

  /** Conversely, every acceptable edge cell is found by some draw. */
  lemma FindEndPointReaches(g: Grid, row: nat, col: nat, x: Cell)
    requires row >= 1 && col >= 1
    requires IsRect(g, row, col)
    requires InGrid(x, row, col) && IsEdge(x, row, col) && AcceptsEnd(g, x)
    ensures exists d :: ValidDraw(row, col, d) && FindEndPoint(g, row, col, [d]) == Some(x)
  {
    EdgeDrawCovers(row, col, x);
    var d :| ValidDraw(row, col, d) && RandomEdgePoint(row, col, d) == x;
    assert FindEndPoint(g, row, col, [d]) == Some(x);
  }

  /** Whether `enforce_edge_walls` rewrites cell (r, c) of `g`: it lies on
      the ring of `g`'s own size (rows `|g|`, columns `|g[0]|`) and holds
      neither `'S'` nor `'E'`. */
  predicate Resealed(g: Grid, r: nat, c: nat)
    requires |g| >= 1 && r < |g| && c < |g[r]|
  {
    c < |g[0]| && IsEdge(Cell(r, c), |g|, |g[0]|) && g[r][c] != Start && g[r][c] != End
  }

  /** `enforce_edge_walls`: every ring cell other than `'S'` and `'E'`
      becomes a wall. The source reads the width from row 0 and panics on an
      empty grid or a row shorter than row 0. */
  function EnforceEdgeWalls(g: Grid): (h: Grid)
    requires |g| >= 1
    requires forall i | 0 <= i < |g| :: |g[i]| >= |g[0]|
    ensures |h| == |g| && forall i | 0 <= i < |g| :: |h[i]| == |g[i]|
    // Afterwards the ring holds only walls, the start and the end.
    ensures forall r, c | 0 <= r < |g| && 0 <= c < |g[0]| && IsEdge(Cell(r, c), |g|, |g[0]|) ::
              h[r][c] == Wall || h[r][c] == Start || h[r][c] == End
    // The start and the end survive.
    ensures forall r, c | 0 <= r < |g| && 0 <= c < |g[r]| && (g[r][c] == Start || g[r][c] == End) ::
              h[r][c] == g[r][c]
    // Cells off the ring are untouched.
    ensures forall r, c | 0 <= r < |g| && 0 <= c < |g[r]| && !(c < |g[0]| && IsEdge(Cell(r, c), |g|, |g[0]|)) ::
              h[r][c] == g[r][c]
    // The only thing ever written is a wall.
    ensures forall r, c | 0 <= r < |g| && 0 <= c < |g[r]| :: h[r][c] == g[r][c] || h[r][c] == Wall
  {
    seq(|g|, r requires 0 <= r < |g| =>
      seq(|g[r]|, c requires 0 <= c < |g[r]| =>
        if Resealed(g, r, c) then Wall else g[r][c]))
  }

  /** Running `enforce_edge_walls` a second time changes nothing. */
  lemma EnforceEdgeWallsIdempotent(g: Grid)
    requires |g| >= 1
    requires forall i | 0 <= i < |g| :: |g[i]| >= |g[0]|
    ensures var h := EnforceEdgeWalls(g);
            EnforceEdgeWalls(h) == h
  {
    var h := EnforceEdgeWalls(g);
    var h2 := EnforceEdgeWalls(h);
    forall r | 0 <= r < |g|
      ensures h2[r] == h[r]
    {
      forall c | 0 <= c < |g[r]|
        ensures h2[r][c] == h[r][c]
      {
        if c < |g[0]| && IsEdge(Cell(r, c), |g|, |g[0]|) {
          assert h[r][c] == Wall || h[r][c] == Start || h[r][c] == End;
        }
      }
    }
  }
}
