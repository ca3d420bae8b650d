/** `Point` of `src/algo.rs`: a frontier entry and the "opposite" cell one
    step further along the direction from its parent. */
module Points {
  import opened Maze

  /** A frontier entry. The source keeps a boxed chain of parents, but only
      the immediate parent's coordinates are ever read, so the chain is
      cut down to that one cell. The start point has no parent. */
  datatype Point = Point(pos: Cell, parent: Option<Cell>)

  /** `usize::saturating_sub`. */
  function SaturatingSub(a: nat, b: nat): (d: nat)
    ensures a >= b ==> d + b == a
    ensures a < b ==> d == 0
  {
    if a >= b then a - b else 0
  }

  /** The cell one step past `pos` when walking from `par` to `pos`,
      as signed coordinates (it may fall off the grid on either side). */
  function Beyond(par: Cell, pos: Cell): (int, int)
  {
    (2 * pos.r - par.r, 2 * pos.c - par.c)
  }

  /** `Point::opposite(max_r, max_c)`. The row branch is tried first; it
      reports nothing when the stepped row is not below `maxR`, and then the
      column branch is tried. A step upwards or leftwards from row or column 0
      saturates at 0. */
  function Opposite(p: Point, maxR: nat, maxC: nat): (o: Option<Cell>)
    // Without a parent there is no direction to continue in.
    ensures p.parent.None? ==> o.None?
    // The result never leaves the grid when the point itself is inside it.
    ensures o.Some? && InGrid(p.pos, maxR, maxC) ==> InGrid(o.value, maxR, maxC)
    // For a 4-neighbour parent the result is the point itself or a 4-neighbour of it.
    ensures p.parent.Some? && Adjacent(p.parent.value, p.pos) && o.Some? ==>
              o.value == p.pos || Adjacent(p.pos, o.value)
  {
    match p.parent
    case None => None
    case Some(par) =>
      var rowStep :=
        if p.pos.r != par.r then
          var newR := if p.pos.r > par.r then p.pos.r + 1 else SaturatingSub(p.pos.r, 1);
          if newR < maxR then Some(Cell(newR, p.pos.c)) else None
        else None;
      if rowStep.Some? then rowStep
      else if p.pos.c != par.c then
        var newC := if p.pos.c > par.c then p.pos.c + 1 else SaturatingSub(p.pos.c, 1);
        if newC < maxC then Some(Cell(p.pos.r, newC)) else None
      else None
  }

  /** `opposite` for a frontier entry as the generator makes them, inside the
      grid with a 4-neighbour parent: the cell one step beyond when it is
      inside the grid, nothing when the step passes the last row or column
      (the column branch cannot fire for a parent in the same column, nor the
      row branch for one in the same row), and the point's own cell when the
      step would go below row or column 0. */
  lemma OppositeOfNeighbour(p: Point, maxR: nat, maxC: nat)
    requires p.parent.Some? && Adjacent(p.parent.value, p.pos)
    requires InGrid(p.pos, maxR, maxC)
    ensures var b := Beyond(p.parent.value, p.pos);
            && (0 <= b.0 < maxR && 0 <= b.1 < maxC ==> Opposite(p, maxR, maxC) == Some(Cell(b.0, b.1)))
            && (b.0 >= maxR || b.1 >= maxC ==> Opposite(p, maxR, maxC).None?)
            && (b.0 < 0 || b.1 < 0 ==> Opposite(p, maxR, maxC) == Some(p.pos))
  {
  }

  /** The saturation quirk, for any parent: a point of row 0 whose parent
      lies below it, or a point of column 0 whose parent lies to its right in
      the same row, is its own opposite, because `saturating_sub(1)` stays
      at 0. */
  lemma OppositeSaturates(p: Point, maxR: nat, maxC: nat)
    requires p.parent.Some? && maxR > 0 && maxC > 0
    requires || (p.pos.r == 0 && p.parent.value.r > 0)
             || (p.pos.r == p.parent.value.r && p.pos.c == 0 && p.parent.value.c > 0)
    ensures Opposite(p, maxR, maxC) == Some(p.pos)
  {
  }
}
