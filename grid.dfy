/**
 The grid the initial mesh is built on: the clamped cell size, the row and
 column counts, the border bits of each cell, and the triangles the build
 produces, with the theorems that the built mesh is consistent.
 */
module Grid {
  import opened Points
  import opened Triangles

  /** The raster the mesh is built over: sample counts along x and y. */
  datatype Raster = Raster(width: nat, length: nat)

  // ---------------------------------------------------------------------------
  // Cell size and counts (prepare_mesh)
  // ---------------------------------------------------------------------------

  /** A requested cell size larger than either interior extent becomes the
      smaller of the two extents; a size that fits is kept. */
  function ClampSize(requested: nat, width: nat, length: nat): (s: nat)
    requires 1 <= width && 1 <= length
    ensures s <= width - 1 && s <= length - 1
    ensures requested <= width - 1 && requested <= length - 1 ==> s == requested
    ensures requested > width - 1 || requested > length - 1 ==> s == width - 1 || s == length - 1
  {
    if requested > width - 1 || requested > length - 1 then
      (if width > length then length - 1 else width - 1)
    else
      requested
  }

  /** Number of cells along an extent: the whole cells, plus one more when the
      remainder is more than half a cell. */
  function CellCount(extent: nat, s: nat): (count: nat)
    requires 1 <= s
    ensures count == extent / s || count == extent / s + 1
    ensures s <= extent ==> 1 <= count
  {
    var count := extent / s;
    if extent % s != 0 && 2 * (extent % s) > s then count + 1 else count
  }

  /** x * s stays below y * s when x < y and s is positive. */
  lemma {:induction false} MulStrict(x: int, y: int, s: int)
    requires x < y && 1 <= s
    ensures x * s + s <= y * s
  {
    assert y * s - x * s == (y - x) * s;
    assert (y - x) * s >= s by {
      MulAtLeast(y - x, s);
    }
  }

  lemma {:induction false} MulAtLeast(d: int, s: int)
    requires 1 <= d && 1 <= s
    ensures d * s >= s
  {
    assert d * s == (d - 1) * s + s;
    if d > 1 {
      MulAtLeast(d - 1, s);
    } else {
      assert (d - 1) * s == 0;
    }
  }

  /** The cell count is the integer nearest to extent / s, halves rounding down:
      c is the count exactly when c * s is within [-s/2, s/2) of the extent. */
  lemma {:induction false} CellCountIsNearest(extent: nat, s: nat, c: int)
    requires 1 <= s
    ensures c == CellCount(extent, s) <==> 0 <= 2 * (c * s - extent) + s < 2 * s
  {
    var q, r := extent / s, extent % s;
    assert extent == q * s + r;
    if c < q {
      MulStrict(c, q, s);
      assert c * s + s <= q * s;
    } else if c > q + 1 {
      MulStrict(q + 1, c, s);
      assert (q + 1) * s + s <= c * s;
      assert (q + 1) * s == q * s + s;
    } else if c == q + 1 {
      assert c * s == q * s + s;
    }
  }

  /** The number of grid columns prepare_mesh derives. */
  function GridColumns(raster: Raster, requested: nat): (cols: nat)
    requires 2 <= raster.width && 2 <= raster.length && 1 <= requested
    ensures 1 <= cols
  {
    CellCount(raster.width - 1, ClampSize(requested, raster.width, raster.length))
  }

  /** The number of grid rows prepare_mesh derives. */
  function GridRows(raster: Raster, requested: nat): (rows: nat)
    requires 2 <= raster.width && 2 <= raster.length && 1 <= requested
    ensures 1 <= rows
  {
    CellCount(raster.length - 1, ClampSize(requested, raster.width, raster.length))
  }

  // ---------------------------------------------------------------------------
  // The triangles of one cell (generate_first_triangles, mark_border_points)
  // ---------------------------------------------------------------------------

  /** The bits mark_border_points ORs into the three vertices of the first
      (lower-right) triangle of the cell at (col, row). */
  function FirstMarks(col: int, row: int, cols: int, rows: int): seq<Mask>
  {
    var south := SideBit(row == rows - 1, SOUTH);
    var east := SideBit(col == cols - 1, EAST);
    var north := SideBit(row == 0, NORTH);
    var west := SideBit(col == 0, WEST);
    [south | west, south | east, east | north]
  }

  /** The bits mark_border_points ORs into the three vertices of the second
      (upper-left) triangle of the cell at (col, row). */
  function SecondMarks(col: int, row: int, cols: int, rows: int): seq<Mask>
  {
    var south := SideBit(row == rows - 1, SOUTH);
    var east := SideBit(col == cols - 1, EAST);
    var north := SideBit(row == 0, NORTH);
    var west := SideBit(col == 0, WEST);
    [east | north, north | west, south | west]
  }

  /** t with marks[v] ORed into the border of vertex v. */
  function Tagged(t: Triangle, marks: seq<Mask>): (r: Triangle)
    requires |t.vertices| == 3 && |marks| == 3
  {
    var v := t.vertices;
    t.(vertices := [v[0].(border := v[0].border | marks[0]),
                    v[1].(border := v[1].border | marks[1]),
                    v[2].(border := v[2].border | marks[2])])
  }

  /** q is p with possibly more border bits: same place, no bit of p lost. */
  predicate Extends(p: Point, q: Point)
  {
    SamePlace(p, q) && q.border & p.border == p.border
  }

  /** Marking only adds bits: every vertex keeps its place and every bit it
      carried; index and links are untouched. */
  lemma MarksOnlyAdd(t: Triangle, marks: seq<Mask>)
    requires |t.vertices| == 3 && |marks| == 3
    ensures var r := Tagged(t, marks);
      Extends(t.vertices[0], r.vertices[0]) && Extends(t.vertices[1], r.vertices[1])
      && Extends(t.vertices[2], r.vertices[2])
      && r.index == t.index && r.neighbours == t.neighbours
  {
    var v := t.vertices;
    OrExtends(v[0], marks[0]);
    OrExtends(v[1], marks[1]);
    OrExtends(v[2], marks[2]);
  }

  /** ORing m into the border of p extends p. */
  lemma OrExtends(p: Point, m: Mask)
    ensures Extends(p, p.(border := p.border | m))
  {
    var q := p.(border := p.border | m);
    assert q.border & p.border == p.border by {
      OrKeeps(p.border, m, q.border);
    }
  }

  /** ORing b into a keeps every bit of a. */
  lemma OrKeeps(a: Mask, b: Mask, c: Mask)
    requires c == a | b
    ensures c & a == a
  {
  }

  /** A cell that touches no outer side gets no bits at all. */
  lemma InteriorCellUnmarked(col: int, row: int, cols: int, rows: int)
    requires 0 < col < cols - 1 && 0 < row < rows - 1
    ensures FirstMarks(col, row, cols, rows) == [0, 0, 0]
    ensures SecondMarks(col, row, cols, rows) == [0, 0, 0]
  {
  }

  /** The first triangle of cell n of a rows x cols grid as allocated in
      slot k and linked, before its border bits are marked:
      (west, south), (east, south), (east, north); its diagonal partner is slot k + 1. */
  function FirstShape(n: nat, k: int, rows: nat, cols: nat): Triangle
    requires 1 <= cols
  {
    var i, j := n / cols, n % cols;
    Triangle(k,
             [Corner(j, i + 1), Corner(j + 1, i + 1), Corner(j + 1, i)],
             [if i == rows - 1 then NONE else (n + cols) * 2 + 1,
              if j == cols - 1 then NONE else (n + 1) * 2 + 1,
              k + 1])
  }

  /** The second triangle of cell n as allocated in slot k + 1 and linked,
      before its border bits are marked:
      (east, north), (west, north), (west, south); its diagonal partner is slot k. */
  function SecondShape(n: nat, k: int, rows: nat, cols: nat): Triangle
    requires 1 <= cols
  {
    var i, j := n / cols, n % cols;
    Triangle(k + 1,
             [Corner(j + 1, i), Corner(j, i), Corner(j, i + 1)],
             [if i == 0 then NONE else (n - cols) * 2,
              if j == 0 then NONE else (n - 1) * 2,
              k])
  }

  /** The first triangle of cell n in slot k once linked and marked: each
      corner carries the bits of the outer sides it lies on. This is
      Tagged(FirstShape(..), FirstMarks(..)) written out flat, which keeps the
      proofs about the layout small; MarkedCell proves the two forms equal. */
  function CellFirst(n: nat, k: int, rows: nat, cols: nat): Triangle
    requires 1 <= cols
  {
    var i, j := n / cols, n % cols;
    var south, east := SideBit(i == rows - 1, SOUTH), SideBit(j == cols - 1, EAST);
    var north, west := SideBit(i == 0, NORTH), SideBit(j == 0, WEST);
    Triangle(k,
             [Point(j, i + 1, south | west), Point(j + 1, i + 1, south | east), Point(j + 1, i, east | north)],
             [if i == rows - 1 then NONE else (n + cols) * 2 + 1,
              if j == cols - 1 then NONE else (n + 1) * 2 + 1,
              k + 1])
  }

  /** The second triangle of cell n in slot k + 1 once linked and marked:
      Tagged(SecondShape(..), SecondMarks(..)) written out flat, as for CellFirst. */
  function CellSecond(n: nat, k: int, rows: nat, cols: nat): Triangle
    requires 1 <= cols
  {
    var i, j := n / cols, n % cols;
    var south, east := SideBit(i == rows - 1, SOUTH), SideBit(j == cols - 1, EAST);
    var north, west := SideBit(i == 0, NORTH), SideBit(j == 0, WEST);
    Triangle(k + 1,
             [Point(j + 1, i, east | north), Point(j, i, north | west), Point(j, i + 1, south | west)],
             [if i == 0 then NONE else (n - cols) * 2,
              if j == 0 then NONE else (n - 1) * 2,
              k])
  }

  /** Marking the linked halves of cell n with the bits mark_border_points
      ORs in gives exactly the cell's finished triangles. */
  lemma MarkedCell(n: nat, k: int, rows: nat, cols: nat)
    requires 1 <= cols
    ensures Tagged(FirstShape(n, k, rows, cols), FirstMarks(n % cols, n / cols, cols, rows)) == CellFirst(n, k, rows, cols)
    ensures Tagged(SecondShape(n, k, rows, cols), SecondMarks(n % cols, n / cols, cols, rows)) == CellSecond(n, k, rows, cols)
  {
  }

  /** Slot base + t of a build that started at slot `base`: the first
      triangle of cell t / 2 when t is even, its second triangle when t is odd. */
  function CellSlot(base: int, t: nat, rows: nat, cols: nat): Triangle
    requires 1 <= cols
  {
    if t % 2 == 0 then CellFirst(t / 2, base + t, rows, cols) else CellSecond(t / 2, base + t - 1, rows, cols)
  }

  /** The triangles of cells 0 .. m-1 in allocation order, the first one
      allocated in slot `base`. */
  function Cells(base: int, m: nat, rows: nat, cols: nat): (ts: seq<Triangle>)
    requires 1 <= cols
    ensures |ts| == 2 * m
  {
    seq(2 * m, t requires 0 <= t < 2 * m => CellSlot(base, t, rows, cols))
  }

  /** A store holding `prefix` and then cells 0 .. m-1 holds cells 0 .. m
      once cell n = m, allocated in slot k = base + 2m, is appended. */
  lemma AppendCell(grown: seq<Triangle>, store: seq<Triangle>, prefix: seq<Triangle>,
                   base: int, m: nat, n: nat, k: int, rows: nat, cols: nat)
    requires 1 <= cols && n == m && k == base + 2 * m
    requires store == prefix + Cells(base, m, rows, cols)
    requires grown == store + [CellFirst(n, k, rows, cols), CellSecond(n, k, rows, cols)]
    ensures grown == prefix + Cells(base, m + 1, rows, cols)
  {
    var before, after := Cells(base, m, rows, cols), Cells(base, m + 1, rows, cols);
    assert after[2 * m] == CellFirst(n, k, rows, cols);
    assert after[2 * m + 1] == CellSecond(n, k, rows, cols);
    assert after == before + [CellFirst(n, k, rows, cols), CellSecond(n, k, rows, cols)];
  }

  /** Cell n owns slots base + 2n (first) and base + 2n + 1 (second). */
  lemma CellsAt(base: int, m: nat, rows: nat, cols: nat, n: nat)
    requires 1 <= cols && n < m
    ensures Cells(base, m, rows, cols)[2 * n] == CellFirst(n, base + 2 * n, rows, cols)
    ensures Cells(base, m, rows, cols)[2 * n + 1] == CellSecond(n, base + 2 * n, rows, cols)
  {
    assert (2 * n) / 2 == n && (2 * n + 1) / 2 == n && (2 * n + 1) % 2 == 1;
  }

  /** The mesh the build produces from an empty store. */
  function Layout(rows: nat, cols: nat): seq<Triangle>
    requires 1 <= cols
  {
    Cells(0, rows * cols, rows, cols)
  }

  // ---------------------------------------------------------------------------
  // Cell arithmetic
  // ---------------------------------------------------------------------------

  /** Cell n = i * cols + j lies in row i and column j. */
  lemma CellOf(n: nat, cols: nat, i: nat, j: nat)
    requires 1 <= cols && j < cols && n == i * cols + j
    ensures n / cols == i && n % cols == j
  {
    var q, r := n / cols, n % cols;
    assert n == q * cols + r;
    if q < i {
      MulStrict(q, i, cols);
    } else if q > i {
      MulStrict(i, q, cols);
    }
  }

  /** A column number is its own remainder. */
  lemma ModOfSmall(c: nat, cols: nat)
    requires c < cols
    ensures c % cols == c
  {
  }

  /** A cell of a rows x cols grid lies in one of its rows. */
  lemma RowInRange(n: nat, rows: nat, cols: nat)
    requires 1 <= cols && n < rows * cols
    ensures n / cols < rows
  {
    var q := n / cols;
    if q > rows {
      MulStrict(rows, q, cols);
    }
  }

  /** The cell below cell n (one row south) is n + cols, in the same column. */
  lemma CellBelow(n: nat, rows: nat, cols: nat)
    requires 1 <= cols && n < rows * cols && n / cols != rows - 1
    ensures (n + cols) / cols == n / cols + 1 && (n + cols) % cols == n % cols
    ensures n + cols < rows * cols
  {
    var i, j := n / cols, n % cols;
    RowInRange(n, rows, cols);
    assert (i + 1) * cols == i * cols + cols;
    CellOf(n + cols, cols, i + 1, j);
    MulStrict(i + 1, rows, cols);
  }

  /** The cell above cell n (one row north) is n - cols, in the same column. */
  lemma CellAbove(n: nat, cols: nat)
    requires 1 <= cols && n / cols != 0
    ensures cols <= n
    ensures (n - cols) / cols == n / cols - 1 && (n - cols) % cols == n % cols
  {
    var i, j := n / cols, n % cols;
    assert (i - 1) * cols == i * cols - cols;
    MulAtLeast(i, cols);
    CellOf(n - cols, cols, i - 1, j);
  }

  /** The cell east of cell n is n + 1, in the same row. */
  lemma CellEast(n: nat, rows: nat, cols: nat)
    requires 1 <= cols && n < rows * cols && n % cols != cols - 1
    ensures (n + 1) / cols == n / cols && (n + 1) % cols == n % cols + 1
    ensures n + 1 < rows * cols
  {
    var i, j := n / cols, n % cols;
    RowInRange(n, rows, cols);
    CellOf(n + 1, cols, i, j + 1);
    MulStrict(i, rows, cols);
  }

  /** The cell west of cell n is n - 1, in the same row. */
  lemma CellWest(n: nat, cols: nat)
    requires 1 <= cols && n % cols != 0
    ensures 1 <= n
    ensures (n - 1) / cols == n / cols && (n - 1) % cols == n % cols - 1
  {
    var i, j := n / cols, n % cols;
    CellOf(n - 1, cols, i, j - 1);
  }

  /** Slot t of the built mesh: the first triangle of cell t / 2 when t is
      even, the second when t is odd. */
  lemma LayoutAt(rows: nat, cols: nat, t: nat)
    requires 1 <= cols && t < 2 * rows * cols
    ensures |Layout(rows, cols)| == 2 * rows * cols
    ensures t % 2 == 0 ==> Layout(rows, cols)[t] == CellFirst(t / 2, t, rows, cols)
    ensures t % 2 == 1 ==> Layout(rows, cols)[t] == CellSecond(t / 2, t - 1, rows, cols)
    ensures t / 2 < rows * cols
  {
    var n := t / 2;
    assert 2 * rows * cols == 2 * (rows * cols);
    assert n < rows * cols;
    CellsAt(0, rows * cols, rows, cols, n);
    assert t == 2 * n || t == 2 * n + 1;
  }
}
