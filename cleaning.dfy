/**
 * Removal of isolated pixels from a binary damage mask. The foreground
 * (value 1) is split into 8-connected components, and every component made of
 * a single pixel is overwritten with 0, in place. The components are found
 * once, on the raster as loaded, before any pixel is written.
 */
module Cleaning {
  import opened Connectivity

  /** The value pixel (r, c) takes once the filter has run over g. */
  function CleanedCell(g: Grid, r: int, c: int): (v: int)
    requires InBounds(g, r, c)
  {
    if Isolated(g, r, c) then 0 else g[r][c]
  }

  /** The raster after isolated-pixel removal, every decision taken against g. */
  function Cleaned(g: Grid): (h: Grid)
    // the raster keeps its dimensions
    ensures SameShape(g, h)
    // only the `raster == 1` mask is labelled, so no other value is touched
    ensures forall r, c :: 0 <= r < |g| && 0 <= c < |g[r]| && g[r][c] != 1 ==> h[r][c] == g[r][c]
    // a pixel that changes becomes 0
    ensures forall r, c :: 0 <= r < |g| && 0 <= c < |g[r]| && h[r][c] != g[r][c] ==> h[r][c] == 0
    // a foreground pixel is removed exactly when none of its 8 neighbours is foreground,
    // and kept (still 1) exactly when one of them, diagonals included, is
    ensures forall r, c :: 0 <= r < |g| && 0 <= c < |g[r]| && g[r][c] == 1 ==>
              (h[r][c] == 0 <==> !HasFgNeighbour(g, r, c)) && (h[r][c] == 1 <==> HasFgNeighbour(g, r, c))
  {
    seq(|g|, r requires 0 <= r < |g| =>
      seq(|g[r]|, c requires 0 <= c < |g[r]| => CleanedCell(g, r, c)))
  }

  /** The contents of a two-dimensional array, row by row. */
  function Snapshot(a: array2<int>): (g: Grid)
    reads a
    ensures Rectangular(g, a.Length0, a.Length1)
    ensures forall i, j :: 0 <= i < a.Length0 && 0 <= j < a.Length1 ==> g[i][j] == a[i, j]
  {
    seq(a.Length0, i reads a requires 0 <= i < a.Length0 =>
      seq(a.Length1, j reads a requires 0 <= j < a.Length1 => a[i, j]))
  }

  /**
   * The cleaning step on the raster held in memory. The original is copied
   * first, as the labelling is computed before the removal loop; the loop then
   * zeroes, in raster-scan order, every pixel that is a one-pixel component of
   * that copy. The order of the visits does not matter (SweepAnyOrder).
   */
  method Clean(a: array2<int>)
    modifies a
    ensures Snapshot(a) == Cleaned(old(Snapshot(a)))
  {
    var original := Snapshot(a);
    for i := 0 to a.Length0
      invariant forall r, c :: 0 <= r < i && 0 <= c < a.Length1 ==> a[r, c] == CleanedCell(original, r, c)
      invariant forall r, c :: i <= r < a.Length0 && 0 <= c < a.Length1 ==> a[r, c] == original[r][c]
    {
      for j := 0 to a.Length1
        invariant forall r, c :: 0 <= r < i && 0 <= c < a.Length1 ==> a[r, c] == CleanedCell(original, r, c)
        invariant forall c :: 0 <= c < j ==> a[i, c] == CleanedCell(original, i, c)
        invariant forall c :: j <= c < a.Length1 ==> a[i, c] == original[i][c]
        invariant forall r, c :: i < r < a.Length0 && 0 <= c < a.Length1 ==> a[r, c] == original[r][c]
      {
        if Isolated(original, i, j) {
          a[i, j] := 0;
        }
      }
    }
    forall r | 0 <= r < a.Length0 ensures Snapshot(a)[r] == Cleaned(original)[r] {
    }
  }

  // ---------------------------------------------------------------------------
  // Order independence: visiting the pixels one by one in ANY order, and
  // deciding each against the raster as it stands at that moment, removes
  // exactly the pixels that are isolated in the original.
  // ---------------------------------------------------------------------------

  function SetCell(g: Grid, r: int, c: int, v: int): (h: Grid)
    requires InBounds(g, r, c)
  {
    g[r := g[r][c := v]]
  }

  /** One visit: the pixel at p is cleared when it is isolated in the current raster. */
  function Visit(g: Grid, p: Cell): (h: Grid)
  {
    if Isolated(g, p.row, p.col) then SetCell(g, p.row, p.col, 0) else g
  }

  /** Visits the pixels listed in order, one after the other. */
  function Sweep(g: Grid, order: seq<Cell>): (h: Grid)
    decreases |order|
  {
    if order == [] then g else Sweep(Visit(g, order[0]), order[1..])
  }

  predicate SameShape(g: Grid, h: Grid)
  {
    |h| == |g| && forall r :: 0 <= r < |g| ==> |h[r]| == |g[r]|
  }

  /** h is g with some of g's isolated pixels already cleared. */
  ghost predicate PartlyCleaned(g: Grid, h: Grid)
  {
    && SameShape(g, h)
    && forall r, c :: 0 <= r < |g| && 0 <= c < |g[r]| ==>
         h[r][c] == g[r][c] || (h[r][c] == 0 && Isolated(g, r, c))
  }

  /** A foreground neighbour of a foreground pixel is never isolated, so it survives. */
  lemma NeighbourSurvives(g: Grid, h: Grid, p: Cell, q: Cell)
    requires PartlyCleaned(g, h)
    requires Fg(g, p.row, p.col) && Fg(g, q.row, q.col) && Adjacent(p, q)
    ensures Fg(h, q.row, q.col)
  {
    AdjacentSymmetric(p, q);
    NeighbourhoodIsStructure(g, q.row, q.col);
    assert !Isolated(g, q.row, q.col);
  }

  /**
   * While the filter is partly done, a pixel is isolated in the current
   * raster exactly when it is still 1 and was isolated in the original.
   */
  lemma IsolationUnchanged(g: Grid, h: Grid, r: int, c: int)
    requires PartlyCleaned(g, h)
    ensures Isolated(h, r, c) <==> Fg(h, r, c) && Isolated(g, r, c)
  {
    var p := Cell(r, c);
    NeighbourhoodIsStructure(g, r, c);
    NeighbourhoodIsStructure(h, r, c);
    if Fg(h, r, c) {
      assert Fg(g, r, c);
      if Isolated(h, r, c) {
        forall q | Adjacent(p, q) && Fg(g, q.row, q.col) ensures false {
          NeighbourSurvives(g, h, p, q);
        }
      }
      if Isolated(g, r, c) {
        forall q | Adjacent(p, q) && Fg(h, q.row, q.col) ensures Fg(g, q.row, q.col) {
        }
      }
    }
  }

  lemma VisitStep(g: Grid, h: Grid, p: Cell)
    requires PartlyCleaned(g, h)
    ensures PartlyCleaned(g, Visit(h, p))
    ensures forall r, c :: 0 <= r < |g| && 0 <= c < |g[r]| ==>
              Visit(h, p)[r][c] == if Cell(r, c) == p then Cleaned(g)[r][c] else h[r][c]
  {
    IsolationUnchanged(g, h, p.row, p.col);
  }

  lemma {:induction false} SweepSpec(g: Grid, h: Grid, order: seq<Cell>)
    requires PartlyCleaned(g, h)
    ensures PartlyCleaned(g, Sweep(h, order))
    ensures forall r, c :: 0 <= r < |g| && 0 <= c < |g[r]| ==>
              Sweep(h, order)[r][c] == if Cell(r, c) in order then Cleaned(g)[r][c] else h[r][c]
    decreases |order|
  {
    if order != [] {
      var h' := Visit(h, order[0]);
      VisitStep(g, h, order[0]);
      SweepSpec(g, h', order[1..]);
      forall r, c | 0 <= r < |g| && 0 <= c < |g[r]|
        ensures Cell(r, c) in order <==> Cell(r, c) == order[0] || Cell(r, c) in order[1..]
      {
        assert order == [order[0]] + order[1..];
      }
    }
  }

  /** Any visiting order that covers the raster yields the cleaned raster. */
  lemma SweepAnyOrder(g: Grid, order: seq<Cell>)
    requires forall r, c :: 0 <= r < |g| && 0 <= c < |g[r]| ==> Cell(r, c) in order
    ensures Sweep(g, order) == Cleaned(g)
  {
    SweepSpec(g, g, order);
    var s := Sweep(g, order);
    forall r | 0 <= r < |g| ensures s[r] == Cleaned(g)[r] {
    }
  }

  /** Hence the order in which the pixels are visited does not matter. */
  lemma SweepOrdersAgree(g: Grid, order1: seq<Cell>, order2: seq<Cell>)
    requires forall r, c :: 0 <= r < |g| && 0 <= c < |g[r]| ==> Cell(r, c) in order1
    requires forall r, c :: 0 <= r < |g| && 0 <= c < |g[r]| ==> Cell(r, c) in order2
    ensures Sweep(g, order1) == Sweep(g, order2)
  {
    SweepAnyOrder(g, order1);
    SweepAnyOrder(g, order2);
  }

  // ---------------------------------------------------------------------------
  // No isolated pixel is left, and a second pass changes nothing.
  // ---------------------------------------------------------------------------

  lemma NoIsolatedLeft(g: Grid, r: int, c: int)
    ensures !Isolated(Cleaned(g), r, c)
  {
    IsolationUnchanged(g, Cleaned(g), r, c);
  }

  lemma CleanedIdempotent(g: Grid)
    ensures Cleaned(Cleaned(g)) == Cleaned(g)
  {
    var h := Cleaned(g);
    forall r | 0 <= r < |h| ensures Cleaned(h)[r] == h[r] {
      forall c | 0 <= c < |h[r]| ensures Cleaned(h)[r][c] == h[r][c] {
        NoIsolatedLeft(g, r, c);
      }
    }
  }

  // ---------------------------------------------------------------------------
  // The number of value-1 pixels drops by exactly the number of isolated ones.
  // ---------------------------------------------------------------------------

  /** Number of value-1 pixels in a row. */
  function CountOnes(row: seq<int>): (n: nat)
  {
    if row == [] then 0
    else CountOnes(row[..|row| - 1]) + (if row[|row| - 1] == 1 then 1 else 0)
  }

  /** Number of value-1 pixels in a raster. */
  function Ones(g: Grid): (n: nat)
  {
    if g == [] then 0 else Ones(g[..|g| - 1]) + CountOnes(g[|g| - 1])
  }

  /** Number of isolated pixels among the first n of row r. */
  function IsolatedInRow(g: Grid, r: int, n: nat): (k: nat)
    requires 0 <= r < |g| && n <= |g[r]|
  {
    if n == 0 then 0 else IsolatedInRow(g, r, n - 1) + (if Isolated(g, r, n - 1) then 1 else 0)
  }

  /** Number of isolated pixels in the first m rows. */
  function IsolatedInRows(g: Grid, m: nat): (k: nat)
    requires m <= |g|
  {
    if m == 0 then 0 else IsolatedInRows(g, m - 1) + IsolatedInRow(g, m - 1, |g[m - 1]|)
  }

  lemma {:induction false} RowOnesDrop(g: Grid, r: int, n: nat)
    requires 0 <= r < |g| && n <= |g[r]|
    ensures CountOnes(Cleaned(g)[r][..n]) + IsolatedInRow(g, r, n) == CountOnes(g[r][..n])
  {
    if n > 0 {
      RowOnesDrop(g, r, n - 1);
      assert Cleaned(g)[r][..n][..n - 1] == Cleaned(g)[r][..n - 1];
      assert g[r][..n][..n - 1] == g[r][..n - 1];
    }
  }

  lemma {:induction false} RowsOnesDrop(g: Grid, m: nat)
    requires m <= |g|
    ensures Ones(Cleaned(g)[..m]) + IsolatedInRows(g, m) == Ones(g[..m])
  {
    if m > 0 {
      RowsOnesDrop(g, m - 1);
      RowOnesDrop(g, m - 1, |g[m - 1]|);
      assert Cleaned(g)[..m][..m - 1] == Cleaned(g)[..m - 1];
      assert g[..m][..m - 1] == g[..m - 1];
      assert Cleaned(g)[m - 1][..|g[m - 1]|] == Cleaned(g)[m - 1];
      assert g[m - 1][..|g[m - 1]|] == g[m - 1];
    }
  }

  /** Cleaning removes exactly the isolated pixels from the count of value-1 pixels. */
  lemma OnesDropByIsolated(g: Grid)
    ensures Ones(Cleaned(g)) == Ones(g) - IsolatedInRows(g, |g|)
    ensures Ones(Cleaned(g)) <= Ones(g)
  {
    RowsOnesDrop(g, |g|);
    assert Cleaned(g)[..|g|] == Cleaned(g);
    assert g[..|g|] == g;
  }

  // ---------------------------------------------------------------------------
  // Small rasters.
  // ---------------------------------------------------------------------------

  /** Two pixels touching only at a corner form one component and both stay. */
  lemma DiagonalPairKept()
    ensures Connected([[1, 0], [0, 1]], Cell(0, 0), Cell(1, 1))
    ensures Cleaned([[1, 0], [0, 1]]) == [[1, 0], [0, 1]]
  {
    var g := [[1, 0], [0, 1]];
    assert FgPath(g, [Cell(0, 0), Cell(1, 1)]);
    assert Fg(g, 1, 1) && Fg(g, 0, 0);
    assert Cleaned(g)[0] == g[0];
    assert Cleaned(g)[1] == g[1];
  }

  /** A lone pixel is removed. */
  lemma LonePixelRemoved()
    ensures Cleaned([[0, 0, 0], [0, 1, 0], [0, 0, 0]]) == [[0, 0, 0], [0, 0, 0], [0, 0, 0]]
  {
    var g := [[0, 0, 0], [0, 1, 0], [0, 0, 0]];
    assert Isolated(g, 1, 1);
    assert Cleaned(g)[0] == [0, 0, 0];
    assert Cleaned(g)[1] == [0, 0, 0];
    assert Cleaned(g)[2] == [0, 0, 0];
  }

  /** A value other than 1 is background: it neither joins a component nor is removed. */
  lemma OtherValuesAreBackground()
    ensures Cleaned([[2, 1], [0, 0]]) == [[2, 0], [0, 0]]
  {
    var g := [[2, 1], [0, 0]];
    assert Isolated(g, 0, 1);
    assert Cleaned(g)[0] == [2, 0];
    assert Cleaned(g)[1] == [0, 0];
  }
}
