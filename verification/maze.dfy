/** Basic vocabulary of the maze generator of `src/algo.rs`: cells, the
    character grid, the four tile characters and grid geometry. */
module Maze {

  /** The optional value returned by `Point::opposite` and by the
      end-point search. */
  datatype Option<+T> = None | Some(value: T)

  /** The four tile characters the generator writes. */
  const Wall: char := '#'
  const Passage: char := '.'
  const Start: char := 'S'
  const End: char := 'E'

  /** A (row, column) coordinate; `usize` in the source, so never negative. */
  datatype Cell = Cell(r: nat, c: nat)

  /** `Vec<Vec<char>>`, row-major. */
  type Grid = seq<seq<char>>

  /** `g` has `row` rows of `col` characters each. */
  predicate IsRect(g: Grid, row: nat, col: nat)
  {
    |g| == row && forall i | 0 <= i < |g| :: |g[i]| == col
  }

  predicate InGrid(x: Cell, row: nat, col: nat)
  {
    x.r < row && x.c < col
  }

  /** The outer ring: first or last row, first or last column. */
  predicate IsEdge(x: Cell, row: nat, col: nat)
  {
    x.r == 0 || x.r == row - 1 || x.c == 0 || x.c == col - 1
  }

  /** `a` and `b` are 4-neighbours: they differ by one in exactly one coordinate. */
  predicate Adjacent(a: Cell, b: Cell)
  {
    || (a.r == b.r && (a.c + 1 == b.c || b.c + 1 == a.c))
    || (a.c == b.c && (a.r + 1 == b.r || b.r + 1 == a.r))
  }

  function At(g: Grid, x: Cell): char
    requires x.r < |g| && x.c < |g[x.r]|
  {
    g[x.r][x.c]
  }

  /** `maz[x.r][x.c] = v`: one cell changes, nothing else does. */
  function Put(g: Grid, x: Cell, v: char): (h: Grid)
    requires x.r < |g| && x.c < |g[x.r]|
    ensures |h| == |g|
    ensures forall i | 0 <= i < |g| :: |h[i]| == |g[i]|
    ensures h[x.r][x.c] == v
    ensures forall i, j | 0 <= i < |g| && 0 <= j < |g[i]| && (i != x.r || j != x.c) :: h[i][j] == g[i][j]
  {
    g[x.r := g[x.r][x.c := v]]
  }

  /** `vec![vec![v; col]; row]`. */
  function Filled(row: nat, col: nat, v: char): (g: Grid)
    ensures IsRect(g, row, col)
    ensures forall i, j | 0 <= i < row && 0 <= j < col :: g[i][j] == v
  {
    seq(row, _ => seq(col, _ => v))
  }

  /** Number of occurrences of `ch` in one row. */
  function CountRow(s: seq<char>, ch: char): nat
  {
    if |s| == 0 then 0 else (if s[0] == ch then 1 else 0) + CountRow(s[1..], ch)
  }

  /** Number of occurrences of `ch` in the whole grid. */
  function CountGrid(g: Grid, ch: char): nat
  {
    if |g| == 0 then 0 else CountRow(g[0], ch) + CountGrid(g[1..], ch)
  }

  lemma {:induction false} CountRowPut(s: seq<char>, i: nat, v: char, ch: char)
    requires i < |s|
    ensures CountRow(s[i := v], ch) + (if s[i] == ch then 1 else 0)
         == CountRow(s, ch) + (if v == ch then 1 else 0)
  {
    if i == 0 {
      assert s[i := v][1..] == s[1..];
    } else {
      assert s[i := v][1..] == s[1..][i - 1 := v];
      CountRowPut(s[1..], i - 1, v, ch);
    }
  }

  /** Overwriting one cell changes the count of `ch` by at most one, in the
      obvious direction. */
  lemma {:induction false} CountGridPut(g: Grid, x: Cell, v: char, ch: char)
    requires x.r < |g| && x.c < |g[x.r]|
    ensures CountGrid(Put(g, x, v), ch) + (if At(g, x) == ch then 1 else 0)
         == CountGrid(g, ch) + (if v == ch then 1 else 0)
  {
    var h := Put(g, x, v);
    if x.r == 0 {
      assert h[1..] == g[1..];
      assert h[0] == g[0][x.c := v];
      CountRowPut(g[0], x.c, v, ch);
    } else {
      assert h[0] == g[0];
      assert h[1..] == Put(g[1..], Cell(x.r - 1, x.c), v);
      CountGridPut(g[1..], Cell(x.r - 1, x.c), v, ch);
    }
  }
}
