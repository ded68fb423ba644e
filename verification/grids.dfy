/** 3×3 grids, the common carrier of a sub-board's cells and of the master
    board's sub-boards: nested sequences of three rows of three entries,
    addressed by coordinates. */
module Grids {

  /** A row or column index. */
  type Idx = i: int | 0 <= i < 3

  /** A grid position. `row` is the source's `coordinates.x` (the first array
      index), `col` its `coordinates.y` (the second). */
  datatype Coord = Coord(row: Idx, col: Idx)

  /** Three rows of three entries each. */
  predicate IsGrid<T>(g: seq<seq<T>>) {
    |g| == 3 && forall i | 0 <= i < 3 :: |g[i]| == 3
  }

  /** The entry at `c`, the source's `cells[c.row][c.col]`. */
  function At<T>(g: seq<seq<T>>, c: Coord): T
    requires IsGrid(g)
  {
    g[c.row][c.col]
  }

  /** The grid with the entry at `c` replaced by `v`. */
  function Update<T>(g: seq<seq<T>>, c: Coord, v: T): (r: seq<seq<T>>)
    requires IsGrid(g)
    ensures IsGrid(r)
    ensures At(r, c) == v
    ensures forall d :: d != c ==> At(r, d) == At(g, d)
  {
    g[c.row := g[c.row][c.col := v]]
  }

  /** The grid whose entry at every position `c` is `f(c)`. */
  function Fill<T>(f: Coord -> T): (r: seq<seq<T>>)
    ensures IsGrid(r)
    ensures forall c :: At(r, c) == f(c)
  {
    [ [f(Coord(0, 0)), f(Coord(0, 1)), f(Coord(0, 2))],
      [f(Coord(1, 0)), f(Coord(1, 1)), f(Coord(1, 2))],
      [f(Coord(2, 0)), f(Coord(2, 1)), f(Coord(2, 2))] ]
  }

  /** `f` applied to every entry. */
  function Map<T, U>(g: seq<seq<T>>, f: T -> U): (r: seq<seq<U>>)
    requires IsGrid(g)
    ensures IsGrid(r)
    ensures forall c :: At(r, c) == f(At(g, c))
  {
    Fill(c => f(At(g, c)))
  }

  function Flip(c: Coord): Coord {
    Coord(c.col, c.row)
  }

  /** Mirror image in the main diagonal: rows become columns. */
  function Transpose<T>(g: seq<seq<T>>): (r: seq<seq<T>>)
    requires IsGrid(g)
    ensures IsGrid(r)
    ensures forall c :: At(r, c) == At(g, Flip(c))
  {
    Fill(c => At(g, Flip(c)))
  }

  /** Two grids that agree at every position are equal. */
  lemma Extensionality<T>(g: seq<seq<T>>, h: seq<seq<T>>)
    requires IsGrid(g) && IsGrid(h)
    requires forall c :: At(g, c) == At(h, c)
    ensures g == h
  {
    forall i | 0 <= i < 3 ensures g[i] == h[i] {
      assert At(g, Coord(i, 0)) == At(h, Coord(i, 0));
      assert At(g, Coord(i, 1)) == At(h, Coord(i, 1));
      assert At(g, Coord(i, 2)) == At(h, Coord(i, 2));
    }
  }
}
