/** `Prim::new(row, col)`: the whole generator, with every random choice
    supplied by the caller. */
module Prim {
  import opened Maze
  import opened Edges
  import opened Carving

  /** The shape of a finished maze with its start at `s` and its exit at `e`. */
  predicate IsMaze(row: nat, col: nat, m: Grid, s: Cell, e: Cell)
  {
    && IsRect(m, row, col)
    // Only the four tile characters occur.
    && (forall r, c | 0 <= r < row && 0 <= c < col ::
          m[r][c] == Wall || m[r][c] == Passage || m[r][c] == Start || m[r][c] == End)
    // One start and one exit, distinct, both on the edge.
    && InGrid(s, row, col) && IsEdge(s, row, col) && m[s.r][s.c] == Start
    && InGrid(e, row, col) && IsEdge(e, row, col) && m[e.r][e.c] == End
    && s != e
    && (forall r, c | 0 <= r < row && 0 <= c < col && Cell(r, c) != s :: m[r][c] != Start)
    && (forall r, c | 0 <= r < row && 0 <= c < col && Cell(r, c) != e :: m[r][c] != End)
    // The rest of the edge is wall.
    && (forall r, c | 0 <= r < row && 0 <= c < col && IsEdge(Cell(r, c), row, col) && Cell(r, c) != s && Cell(r, c) != e ::
          m[r][c] == Wall)
  }

  /** The last steps of `new`: the exit placed on a carved grid, then the ring resealed. */
  lemma FinishIsMaze(row: nat, col: nat, g: Grid, s: Cell, e: Cell)
    requires row >= 1 && col >= 1
    requires IsRect(g, row, col)
    requires InGrid(s, row, col) && IsEdge(s, row, col) && g[s.r][s.c] == Start
    requires forall r, c | 0 <= r < row && 0 <= c < col && Cell(r, c) != s :: g[r][c] == Wall || g[r][c] == Passage
    requires InGrid(e, row, col) && IsEdge(e, row, col) && g[e.r][e.c] == Passage
    ensures IsMaze(row, col, EnforceEdgeWalls(Put(g, e, End)), s, e)
  {
  }

  /** `Prim::new(row, col)`. `startDraw` is the draw of the start's
      `random_edge_point`, `pick(k, n)` the k-th frontier index drawn and
      `endDraws` the successive draws of `find_end_point`. `None` means the
      end-point search has not returned after `endDraws`; the source keeps
      drawing. */
  method New(row: nat, col: nat, startDraw: EdgeDraw, pick: (nat, nat) -> nat, endDraws: seq<EdgeDraw>)
    returns (maze: Option<Grid>)
    requires row >= 1 && col >= 1
    requires ValidDraw(row, col, startDraw)
    requires ValidPicker(pick)
    requires forall k | 0 <= k < |endDraws| :: ValidDraw(row, col, endDraws[k])
    // A returned maze has its start where the start draw put it and its exit at one of the end draws.
    ensures maze.Some? ==>
              exists k | 0 <= k < |endDraws| ::
                IsMaze(row, col, maze.value, RandomEdgePoint(row, col, startDraw), RandomEdgePoint(row, col, endDraws[k]))
    // A 1x1 grid has no edge passage, so `find_end_point` never returns.
    ensures row == 1 && col == 1 ==> maze.None?
  {
    var start := RandomEdgePoint(row, col, startDraw);
    var carved := Carve(row, col, start, pick);
    var endPoint := FindEndPoint(carved, row, col, endDraws);
    match endPoint {
      case None =>
        maze := None;
      case Some(e) =>
        var m := EnforceEdgeWalls(Put(carved, e, End));
        FinishIsMaze(row, col, carved, start, e);
        maze := Some(m);
    }
  }
}
