/**
 What holds of the mesh the build produces: every triangle passes the
 consistency check, a neighbour is missing exactly on the outer boundary,
 every vertex carries the border bits of the sides it lies on, all triangles
 run counter-clockwise and no triangle links twice to the same neighbour.
 */
module GridTheorems {
  import opened Points
  import opened Triangles
  import opened Grid

  /** Row and column of the cell that owns slot t of the built mesh. */
  lemma SlotCell(rows: nat, cols: nat, t: nat)
    requires 1 <= cols && t < 2 * rows * cols
    ensures t / 2 < rows * cols
    ensures t / 2 / cols < rows && t / 2 % cols < cols
    ensures t / 2 == (t / 2 / cols) * cols + t / 2 % cols
  {
    var n := t / 2;
    assert 2 * rows * cols == 2 * (rows * cols);
    assert n < rows * cols;
    RowInRange(n, rows, cols);
  }

  // ---------------------------------------------------------------------------
  // The six edges of a cell
  // ---------------------------------------------------------------------------

  /** The south edge of a first triangle is shared with the second triangle of
      the cell below, which links back. */
  lemma FirstSouthEdge(rows: nat, cols: nat, t: nat)
    requires 1 <= cols && t < 2 * rows * cols && t % 2 == 0
    ensures WellFormed(Layout(rows, cols)[t]) && EdgeAgrees(Layout(rows, cols)[t], 0, Layout(rows, cols))
  {
    var L := Layout(rows, cols);
    var n := t / 2;
    LayoutAt(rows, cols, t);
    if n / cols != rows - 1 {
      CellBelow(n, rows, cols);
      LayoutAt(rows, cols, 2 * (n + cols) + 1);
      assert L[2 * (n + cols) + 1] == CellSecond(n + cols, 2 * (n + cols), rows, cols);
    }
  }

  /** The east edge of a first triangle is shared with the second triangle of
      the cell to the east, which links back. */
  lemma FirstEastEdge(rows: nat, cols: nat, t: nat)
    requires 1 <= cols && t < 2 * rows * cols && t % 2 == 0
    ensures WellFormed(Layout(rows, cols)[t]) && EdgeAgrees(Layout(rows, cols)[t], 1, Layout(rows, cols))
  {
    var L := Layout(rows, cols);
    var n := t / 2;
    LayoutAt(rows, cols, t);
    if n % cols != cols - 1 {
      CellEast(n, rows, cols);
      LayoutAt(rows, cols, 2 * (n + 1) + 1);
      assert L[2 * (n + 1) + 1] == CellSecond(n + 1, 2 * (n + 1), rows, cols);
    }
  }

  /** The diagonal of a first triangle is shared with the second triangle of
      the same cell, which links back. */
  lemma FirstDiagonal(rows: nat, cols: nat, t: nat)
    requires 1 <= cols && t < 2 * rows * cols && t % 2 == 0
    ensures WellFormed(Layout(rows, cols)[t]) && EdgeAgrees(Layout(rows, cols)[t], 2, Layout(rows, cols))
  {
    LayoutAt(rows, cols, t);
    LayoutAt(rows, cols, t + 1);
  }

  /** The north edge of a second triangle is shared with the first triangle of
      the cell above, which links back. */
  lemma SecondNorthEdge(rows: nat, cols: nat, t: nat)
    requires 1 <= cols && t < 2 * rows * cols && t % 2 == 1
    ensures WellFormed(Layout(rows, cols)[t]) && EdgeAgrees(Layout(rows, cols)[t], 0, Layout(rows, cols))
  {
    var L := Layout(rows, cols);
    var n := t / 2;
    LayoutAt(rows, cols, t);
    if n / cols != 0 {
      CellAbove(n, cols);
      LayoutAt(rows, cols, 2 * (n - cols));
      assert L[2 * (n - cols)] == CellFirst(n - cols, 2 * (n - cols), rows, cols);
    }
  }

  /** The west edge of a second triangle is shared with the first triangle of
      the cell to the west, which links back. */
  lemma SecondWestEdge(rows: nat, cols: nat, t: nat)
    requires 1 <= cols && t < 2 * rows * cols && t % 2 == 1
    ensures WellFormed(Layout(rows, cols)[t]) && EdgeAgrees(Layout(rows, cols)[t], 1, Layout(rows, cols))
  {
    var L := Layout(rows, cols);
    var n := t / 2;
    LayoutAt(rows, cols, t);
    if n % cols != 0 {
      CellWest(n, cols);
      LayoutAt(rows, cols, 2 * (n - 1));
      assert L[2 * (n - 1)] == CellFirst(n - 1, 2 * (n - 1), rows, cols);
    }
  }

  /** The diagonal of a second triangle is shared with the first triangle of
      the same cell, which links back. */
  lemma SecondDiagonal(rows: nat, cols: nat, t: nat)
    requires 1 <= cols && t < 2 * rows * cols && t % 2 == 1
    ensures WellFormed(Layout(rows, cols)[t]) && EdgeAgrees(Layout(rows, cols)[t], 2, Layout(rows, cols))
  {
    LayoutAt(rows, cols, t);
    LayoutAt(rows, cols, t - 1);
  }

  // ---------------------------------------------------------------------------
  // The built mesh
  // ---------------------------------------------------------------------------

  /** Every triangle of the built mesh passes verify_triangle. */
  lemma TriangleVerifies(rows: nat, cols: nat, t: nat)
    requires 1 <= cols && t < 2 * rows * cols
    ensures Layout(rows, cols)[t].index == t
    ensures VerifyTriangle(Layout(rows, cols)[t], Layout(rows, cols))
  {
    var L := Layout(rows, cols);
    LayoutAt(rows, cols, t);
    if t % 2 == 0 {
      FirstSouthEdge(rows, cols, t);
      FirstEastEdge(rows, cols, t);
      FirstDiagonal(rows, cols, t);
    } else {
      SecondNorthEdge(rows, cols, t);
      SecondWestEdge(rows, cols, t);
      SecondDiagonal(rows, cols, t);
    }
    forall e | 0 <= e < 3
      ensures EdgeAgrees(L[t], e, L)
    {
    }
  }

  /** The mesh built from an empty store is consistent: every slot carries its
      own index, no triangle is degenerate, and every neighbour link is in
      range, shares both endpoints of its edge and is returned. */
  lemma BuildIsConsistent(rows: nat, cols: nat)
    requires 1 <= cols
    ensures |Layout(rows, cols)| == 2 * rows * cols
    ensures MeshConsistent(Layout(rows, cols))
  {
    var L := Layout(rows, cols);
    forall t | 0 <= t < |L|
      ensures L[t].index == t && VerifyTriangle(L[t], L)
    {
      TriangleVerifies(rows, cols, t);
    }
  }

  /** Both endpoints of the edge on the same outer side of the grid. */
  predicate OnOuterSide(p: Point, q: Point, rows: nat, cols: nat)
  {
    (p.y == q.y && (p.y == 0 || p.y == rows)) || (p.x == q.x && (p.x == 0 || p.x == cols))
  }

  /** An edge of the built mesh has no neighbour exactly when it lies on the
      outer boundary of the grid. */
  lemma NoNeighbourIffBoundary(rows: nat, cols: nat, t: nat, e: nat)
    requires 1 <= cols && t < 2 * rows * cols && e < 3
    ensures WellFormed(Layout(rows, cols)[t])
    ensures var u := Layout(rows, cols)[t];
      u.neighbours[e] == NONE <==> OnOuterSide(u.vertices[e], u.vertices[(e + 1) % 3], rows, cols)
  {
    LayoutAt(rows, cols, t);
    SlotCell(rows, cols, t);
  }

  /** Every vertex of the built mesh carries exactly the border bits of the
      outer sides its corner lies on. */
  lemma BorderMatchesSides(rows: nat, cols: nat, t: nat, v: nat)
    requires 1 <= rows && 1 <= cols && t < 2 * rows * cols && v < 3
    ensures WellFormed(Layout(rows, cols)[t])
    ensures var p := Layout(rows, cols)[t].vertices[v]; p.border == SideMask(p, rows, cols)
  {
    LayoutAt(rows, cols, t);
    SlotCell(rows, cols, t);
  }

  /** Every triangle of the built mesh runs counter-clockwise on the map. */
  lemma BuildCounterClockwise(rows: nat, cols: nat, t: nat)
    requires 1 <= cols && t < 2 * rows * cols
    ensures WellFormed(Layout(rows, cols)[t]) && Turn(Layout(rows, cols)[t]) > 0
  {
    LayoutAt(rows, cols, t);
  }

  /** No triangle of the built mesh names the same neighbour on two edges, or itself. */
  lemma BuildLinksDistinct(rows: nat, cols: nat, t: nat)
    requires 1 <= cols && t < 2 * rows * cols
    ensures WellFormed(Layout(rows, cols)[t]) && DistinctLinks(Layout(rows, cols)[t])
  {
    LayoutAt(rows, cols, t);
    SlotCell(rows, cols, t);
  }
}
