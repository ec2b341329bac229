/**
 * Connectivity of the foreground (value-1) pixels of a raster, as seen by the
 * connected-component labelling step of the cleaning script: the structuring
 * element is the full 3x3 block of ones, so two pixels are connected when they
 * touch at an edge or at a corner (8-connectivity). Cells outside the raster
 * are background.
 */
module Connectivity {

  /** A raster held in memory: one sequence of pixel values per row. */
  type Grid = seq<seq<int>>

  /** A pixel position; coordinates may fall outside the raster. */
  datatype Cell = Cell(row: int, col: int)

  /** The structuring element handed to the labelling step. */
  const Structure: seq<seq<int>> := [[1, 1, 1], [1, 1, 1], [1, 1, 1]]

  /** The raster has h rows of w pixels each. */
  predicate Rectangular(g: Grid, h: nat, w: nat)
  {
    |g| == h && forall r :: 0 <= r < h ==> |g[r]| == w
  }

  predicate InBounds(g: Grid, r: int, c: int)
  {
    0 <= r < |g| && 0 <= c < |g[r]|
  }

  /** Pixel (r, c) belongs to the labelled mask `raster == 1`. */
  predicate Fg(g: Grid, r: int, c: int)
  {
    InBounds(g, r, c) && g[r][c] == 1
  }

  /** Some pixel of the 3x3 neighbourhood around (r, c), other than (r, c), is foreground. */
  predicate HasFgNeighbour(g: Grid, r: int, c: int)
  {
    || Fg(g, r - 1, c - 1) || Fg(g, r - 1, c) || Fg(g, r - 1, c + 1)
    || Fg(g, r, c - 1)                        || Fg(g, r, c + 1)
    || Fg(g, r + 1, c - 1) || Fg(g, r + 1, c) || Fg(g, r + 1, c + 1)
  }

  /** A foreground pixel with no foreground pixel among its 8 neighbours. */
  predicate Isolated(g: Grid, r: int, c: int)
  {
    Fg(g, r, c) && !HasFgNeighbour(g, r, c)
  }

  /** q is a neighbour of p under the structuring element. */
  predicate Adjacent(p: Cell, q: Cell)
  {
    && p != q
    && -1 <= q.row - p.row <= 1
    && -1 <= q.col - p.col <= 1
    && Structure[q.row - p.row + 1][q.col - p.col + 1] == 1
  }

  lemma AdjacentSymmetric(p: Cell, q: Cell)
    ensures Adjacent(p, q) <==> Adjacent(q, p)
  {
  }

  /**
   * The explicit eight-neighbour test is the structuring element's adjacency:
   * (r, c) has a foreground neighbour exactly when some cell adjacent to it
   * under Structure is foreground.
   */
  lemma NeighbourhoodIsStructure(g: Grid, r: int, c: int)
    ensures HasFgNeighbour(g, r, c) <==> exists q :: Adjacent(Cell(r, c), q) && Fg(g, q.row, q.col)
  {
    var p := Cell(r, c);
    if HasFgNeighbour(g, r, c) {
      if Fg(g, r - 1, c - 1) { assert Adjacent(p, Cell(r - 1, c - 1)); }
      else if Fg(g, r - 1, c) { assert Adjacent(p, Cell(r - 1, c)); }
      else if Fg(g, r - 1, c + 1) { assert Adjacent(p, Cell(r - 1, c + 1)); }
      else if Fg(g, r, c - 1) { assert Adjacent(p, Cell(r, c - 1)); }
      else if Fg(g, r, c + 1) { assert Adjacent(p, Cell(r, c + 1)); }
      else if Fg(g, r + 1, c - 1) { assert Adjacent(p, Cell(r + 1, c - 1)); }
      else if Fg(g, r + 1, c) { assert Adjacent(p, Cell(r + 1, c)); }
      else { assert Adjacent(p, Cell(r + 1, c + 1)); }
    } else {
      forall q | Adjacent(p, q) ensures !Fg(g, q.row, q.col) {
        AdjacentIsNeighbourCell(p, q);
      }
    }
  }

  /** The eight cells around p, read off the structuring element. */
  function NeighbourCells(p: Cell): (s: seq<Cell>)
    ensures |s| == 8
    ensures forall q :: q in s ==> Adjacent(p, q)
  {
    [ Cell(p.row - 1, p.col - 1), Cell(p.row - 1, p.col), Cell(p.row - 1, p.col + 1),
      Cell(p.row, p.col - 1),                             Cell(p.row, p.col + 1),
      Cell(p.row + 1, p.col - 1), Cell(p.row + 1, p.col), Cell(p.row + 1, p.col + 1) ]
  }

  lemma AdjacentIsNeighbourCell(p: Cell, q: Cell)
    requires Adjacent(p, q)
    ensures q in NeighbourCells(p)
  {
    var dr, dc := q.row - p.row, q.col - p.col;
    assert dr == -1 || dr == 0 || dr == 1;
    assert dc == -1 || dc == 0 || dc == 1;
    if dr == -1 && dc == -1 { assert q == NeighbourCells(p)[0]; }
    else if dr == -1 && dc == 0 { assert q == NeighbourCells(p)[1]; }
    else if dr == -1 { assert q == NeighbourCells(p)[2]; }
    else if dr == 0 && dc == -1 { assert q == NeighbourCells(p)[3]; }
    else if dr == 0 { assert q == NeighbourCells(p)[4]; }
    else if dc == -1 { assert q == NeighbourCells(p)[5]; }
    else if dc == 0 { assert q == NeighbourCells(p)[6]; }
    else { assert q == NeighbourCells(p)[7]; }
  }

  /** A chain of foreground cells, each adjacent to the next. */
  ghost predicate FgPath(g: Grid, path: seq<Cell>)
  {
    && |path| > 0
    && (forall i :: 0 <= i < |path| ==> Fg(g, path[i].row, path[i].col))
    && (forall i :: 0 <= i < |path| - 1 ==> Adjacent(path[i], path[i + 1]))
  }

  lemma FirstStep(g: Grid, path: seq<Cell>)
    requires FgPath(g, path)
    ensures |path| > 1 ==> Adjacent(path[0], path[1]) && Fg(g, path[1].row, path[1].col)
  {
  }

  /** q lies in the connected component of p within the mask. */
  ghost predicate Connected(g: Grid, p: Cell, q: Cell)
  {
    exists path :: FgPath(g, path) && path[0] == p && path[|path| - 1] == q
  }

  /** p is a foreground pixel whose connected component has exactly one pixel, p itself. */
  ghost predicate SingletonComponent(g: Grid, p: Cell)
  {
    Fg(g, p.row, p.col) && forall q :: Connected(g, p, q) ==> q == p
  }

  /**
   * The local rule decides what the labelling would: a pixel forms a one-pixel
   * component exactly when it is foreground with no foreground 8-neighbour.
   */
  lemma IsolatedIffSingletonComponent(g: Grid, p: Cell)
    ensures Isolated(g, p.row, p.col) <==> SingletonComponent(g, p)
  {
    NeighbourhoodIsStructure(g, p.row, p.col);
    if Isolated(g, p.row, p.col) {
      forall q | Connected(g, p, q) ensures q == p {
        var path: seq<Cell> :| FgPath(g, path) && path[0] == p && path[|path| - 1] == q;
        FirstStep(g, path);
      }
    } else if Fg(g, p.row, p.col) {
      var q :| Adjacent(p, q) && Fg(g, q.row, q.col);
      var path := [p, q];
      assert FgPath(g, path);
      assert Connected(g, p, q);
    }
  }
}
