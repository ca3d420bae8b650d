/** 4-connectivity through open cells. The carving loop promises that every
    passage it opens can be reached from the start through passages. */
module Paths {
  import opened Maze

  /** A cell a walker may stand on during carving: a passage or the start. */
  predicate Open(g: Grid, x: Cell)
  {
    x.r < |g| && x.c < |g[x.r]| && (g[x.r][x.c] == Passage || g[x.r][x.c] == Start)
  }

  /** Cells `i` and `i + 1` of `p` are 4-neighbours. */
  predicate Linked(p: seq<Cell>, i: nat)
    requires i + 1 < |p|
  {
    Adjacent(p[i], p[i + 1])
  }

  /** `p` is a walk of open cells, each a 4-neighbour of the one before. */
  ghost predicate IsPath(g: Grid, p: seq<Cell>)
  {
    && |p| >= 1
    && (forall i | 0 <= i < |p| :: Open(g, p[i]))
    && (forall i: nat | i + 1 < |p| :: Linked(p, i))
  }

  /** Some walk of open cells leads from `a` to `b`. */
  ghost predicate Connected(g: Grid, a: Cell, b: Cell)
  {
    exists p :: IsPath(g, p) && p[0] == a && p[|p| - 1] == b
  }

  /** Every open cell of `g` is still open in `h`. */
  ghost predicate OpensGrow(g: Grid, h: Grid)
  {
    forall x :: Open(g, x) ==> Open(h, x)
  }

  lemma ConnectedSelf(g: Grid, a: Cell)
    requires Open(g, a)
    ensures Connected(g, a, a)
  {
    assert IsPath(g, [a]);
  }

  /** A walk stays a walk when more cells open up. */
  lemma ConnectedGrows(g: Grid, h: Grid, a: Cell, b: Cell)
    requires Connected(g, a, b)
    requires OpensGrow(g, h)
    ensures Connected(h, a, b)
  {
  }

  /** One more step to an open 4-neighbour. */
  lemma ConnectedStep(g: Grid, a: Cell, b: Cell, x: Cell)
    requires Connected(g, a, b)
    requires Open(g, x) && Adjacent(b, x)
    ensures Connected(g, a, x)
  {
    var p :| IsPath(g, p) && p[0] == a && p[|p| - 1] == b;
    var q := p + [x];
    assert forall i | 0 <= i < |q| :: Open(g, q[i]) by {
      forall i | 0 <= i < |q| ensures Open(g, q[i]) {
        if i < |p| { assert q[i] == p[i]; }
      }
    }
    assert forall i: nat | i + 1 < |q| :: Linked(q, i) by {
      forall i: nat | i + 1 < |q| ensures Linked(q, i) {
        if i + 1 < |p| { assert Linked(p, i) && q[i] == p[i] && q[i + 1] == p[i + 1]; }
      }
    }
    assert IsPath(g, q) && q[0] == a && q[|q| - 1] == x;
  }
}
