/**
 The mesh: one growable array of triangles, the number of slots in use and
 the capacity, plus the flag that records whether the coordinates have been
 converted to UTM. Building, refining and converting change it in place.
 */
module Meshing {
  import opened Points
  import opened Triangles
  import opened Grid
  import opened GridTheorems
  import opened Refinement

  class Mesh {
    /** The triangle store; slots at and beyond `counter` are not in use. */
    var triangles: array<Triangle>
    /** Number of slots in use. */
    var counter: nat
    /** Capacity of the store. */
    var size: nat
    /** The raster the mesh covers. */
    const raster: Raster
    /** Whether the vertex coordinates have been converted to UTM (the map's flag). */
    var utm: bool

    /** The store invariant: the capacity is the array's length and positive,
        the slots in use fit, and each carries its own position as index. */
    ghost predicate Valid()
      reads this, triangles
    {
      triangles.Length == size && 1 <= size && counter <= size
      && forall k :: 0 <= k < counter ==> triangles[k].index == k
    }

    /** The triangles in use. */
    ghost function Contents(): seq<Triangle>
      reads this, triangles
      requires Valid()
    {
      triangles[..counter]
    }

    /** An empty mesh over `raster` with `initialSize` slots of capacity. */
    constructor (raster: Raster, initialSize: nat)
      requires 1 <= initialSize
      ensures Valid() && fresh(triangles)
      ensures this.raster == raster && size == initialSize && counter == 0 && !utm
    {
      triangles := new Triangle[initialSize];
      size := initialSize;
      counter := 0;
      this.raster := raster;
      utm := false;
    }

    /** get_new_triangle: take the next slot, doubling the capacity first when
        the store is full, and stamp the slot with its index. The rest of the
        slot is left as it was. */
    method GetNewTriangle() returns (slot: nat)
      requires Valid()
      modifies this, triangles
      ensures Valid() && utm == old(utm)
      ensures triangles == old(triangles) || fresh(triangles)
      ensures slot == old(counter) && counter == old(counter) + 1
      ensures size == if old(counter) >= old(size) then 2 * old(size) else old(size)
      ensures triangles[slot].index == slot
      ensures triangles[..slot] == old(triangles[..counter])
    {
      if counter >= size {
        var grown := new Triangle[2 * size];
        forall k | 0 <= k < size {
          grown[k] := triangles[k];
        }
        triangles := grown;
        size := 2 * size;
      }
      triangles[counter] := triangles[counter].(index := counter);
      slot := counter;
      counter := counter + 1;
    }

    /** mark_border_points: OR the side bits of the cell at (col, row) into the
        vertices of its two triangles. Bits are only added, never cleared. */
    method MarkBorderPoints(first: nat, second: nat, col: nat, row: nat, cols: nat, rows: nat)
      requires Valid() && first < counter && second < counter && first != second
      requires |triangles[first].vertices| == 3 && |triangles[second].vertices| == 3
      modifies triangles
      ensures Valid()
      ensures Contents() == old(Contents())[first := Tagged(old(triangles[first]), FirstMarks(col, row, cols, rows))]
                                           [second := Tagged(old(triangles[second]), SecondMarks(col, row, cols, rows))]
      ensures triangles[counter..] == old(triangles[counter..])
    {
      var f, g := triangles[first], triangles[second];
      ghost var f0, g0 := f, g;
      // the bits ORed in so far, and the bits each block adds (none when its side does not apply)
      ghost var fm: seq<Mask>, gm: seq<Mask> := [0, 0, 0], [0, 0, 0];
      ghost var south, east := SideBit(row == rows - 1, SOUTH), SideBit(col == cols - 1, EAST);
      ghost var north, west := SideBit(row == 0, NORTH), SideBit(col == 0, WEST);
      TaggedNothing(f);
      TaggedNothing(g);
      TaggedTwice(f0, fm, [south, south, 0]);
      TaggedTwice(g0, gm, [0, 0, south]);
      if row == rows - 1 {  // south
        f := Tagged(f, [SOUTH, SOUTH, 0]);
        g := Tagged(g, [0, 0, SOUTH]);
      }
      fm, gm := OrMarks(fm, [south, south, 0]), OrMarks(gm, [0, 0, south]);
      TaggedTwice(f0, fm, [0, east, east]);
      TaggedTwice(g0, gm, [east, 0, 0]);
      if col == cols - 1 {  // east
        f := Tagged(f, [0, EAST, EAST]);
        g := Tagged(g, [EAST, 0, 0]);
      }
      fm, gm := OrMarks(fm, [0, east, east]), OrMarks(gm, [east, 0, 0]);
      TaggedTwice(f0, fm, [0, 0, north]);
      TaggedTwice(g0, gm, [north, north, 0]);
      if row == 0 {  // north
        f := Tagged(f, [0, 0, NORTH]);
        g := Tagged(g, [NORTH, NORTH, 0]);
      }
      fm, gm := OrMarks(fm, [0, 0, north]), OrMarks(gm, [north, north, 0]);
      TaggedTwice(f0, fm, [west, 0, 0]);
      TaggedTwice(g0, gm, [0, west, west]);
      if col == 0 {  // west
        f := Tagged(f, [WEST, 0, 0]);
        g := Tagged(g, [0, WEST, WEST]);
      }
      fm, gm := OrMarks(fm, [west, 0, 0]), OrMarks(gm, [0, west, west]);
      assert fm == FirstMarks(col, row, cols, rows) && gm == SecondMarks(col, row, cols, rows);
      Store(first, f);
      Store(second, g);
    }

    /** Write t back into slot `slot`, which it already belongs to. */
    method Store(slot: nat, t: Triangle)
      requires Valid() && slot < counter && t.index == slot
      modifies triangles
      ensures Valid()
      ensures Contents() == old(Contents())[slot := t]
      ensures triangles[counter..] == old(triangles[counter..])
    {
      triangles[slot] := t;
    }

    /** init_triangle, as far as the mesh's shape goes: place the three
        lattice corners, with no border bits yet, in slot `slot`. */
    method InitTriangle(x0: int, y0: int, x1: int, y1: int, x2: int, y2: int, slot: nat)
      requires Valid() && slot < counter
      modifies triangles
      ensures Valid()
      ensures Contents() == old(Contents())[slot := old(triangles[slot]).(vertices := [Corner(x0, y0), Corner(x1, y1), Corner(x2, y2)])]
      ensures triangles[counter..] == old(triangles[counter..])
    {
      triangles[slot] := triangles[slot].(vertices := [Corner(x0, y0), Corner(x1, y1), Corner(x2, y2)]);
    }

    /** The linking step of generate_first_triangles: the first triangle of
        cell n, in slot `first`, and its partner in the next slot get the
        references across their south/east and north/west edges (NONE on the
        outer boundary) and across their shared diagonal. */
    method LinkCell(n: nat, first: nat, cols: nat, rows: nat)
      requires Valid() && 1 <= cols && first + 1 < counter
      modifies triangles
      ensures Valid()
      ensures Contents() == old(Contents())[first := old(triangles[first]).(neighbours := FirstShape(n, first, rows, cols).neighbours)]
                                           [first + 1 := old(triangles[first + 1]).(neighbours := SecondShape(n, first, rows, cols).neighbours)]
      ensures triangles[counter..] == old(triangles[counter..])
    {
      var row, col := n / cols, n % cols;
      var second := first + 1;
      triangles[first] := triangles[first].(neighbours :=
        [if row == rows - 1 then NONE else (n + cols) * 2 + 1,
         if col == cols - 1 then NONE else (n + 1) * 2 + 1,
         triangles[second].index]);
      ModOfSmall(col, cols);
      triangles[second] := triangles[second].(neighbours :=
        [if row == 0 then NONE else (n - cols) * 2,
         if col % cols == 0 then NONE else (n - 1) * 2,
         triangles[first].index]);
    }

    /** The allocation step of generate_first_triangles: take two new slots
        and place the lattice corners of cell n's lower-right and upper-left
        halves in them. Their neighbour references are not set yet. */
    method AllocateCell(n: nat, cols: nat, rows: nat) returns (first: nat, second: nat)
      requires Valid() && 1 <= cols
      modifies this, triangles
      ensures Valid() && utm == old(utm)
      ensures triangles == old(triangles) || fresh(triangles)
      ensures first == old(counter) && second == first + 1 && counter == old(counter) + 2
      ensures Contents()[..first] == old(Contents())
      ensures Contents()[first].vertices == FirstShape(n, first, rows, cols).vertices
      ensures Contents()[second].vertices == SecondShape(n, first, rows, cols).vertices
    {
      ghost var before := Contents();
      var row, col := n / cols, n % cols;
      first := GetNewTriangle();
      var firstIndex := triangles[first].index;
      // the lower-right half: (west, south), (east, south), (east, north)
      InitTriangle(col, row + 1, col + 1, row + 1, col + 1, row, first);
      ghost var c1 := Contents();
      assert c1[..first] == before;
      second := GetNewTriangle();
      assert Contents()[..second] == c1;
      // the upper-left half: (east, north), (west, north), (west, south)
      InitTriangle(col + 1, row, col, row, col, row + 1, second);
      assert Contents()[..first] == before;
      first := firstIndex;  // the store may have moved: resolve the first triangle again
    }

    /** generate_first_triangles: append the two triangles of cell n of a
        rows x cols grid, link them to each other and to the neighbouring
        cells' triangles by the closed-form slot formulas, and mark the
        border bits of the cell. */
    method GenerateFirstTriangles(n: nat, cols: nat, rows: nat)
      requires Valid() && 1 <= cols && 1 <= rows
      modifies this, triangles
      ensures Valid() && utm == old(utm)
      ensures triangles == old(triangles) || fresh(triangles)
      ensures counter == old(counter) + 2
      ensures Contents() == old(Contents()) + [CellFirst(n, old(counter), rows, cols), CellSecond(n, old(counter), rows, cols)]
    {
      ghost var before := Contents();
      var first, second := AllocateCell(n, cols, rows);
      LinkCell(n, first, cols, rows);
      ghost var linked := Contents();
      assert linked[first] == FirstShape(n, first, rows, cols);
      assert linked[second] == SecondShape(n, first, rows, cols);
      assert linked == before + [linked[first], linked[second]];
      MarkBorderPoints(first, second, n % cols, n / cols, cols, rows);
      MarkedCell(n, first, rows, cols);
      assert Contents() == before + [Contents()[first], Contents()[second]];
    }

    /** prepare_mesh: clamp the requested cell size, derive the row and column
        counts and append the two triangles of every cell in row-major order. */
    method PrepareMesh(requested: nat)
      requires Valid() && 2 <= raster.width && 2 <= raster.length && 1 <= requested
      modifies this, triangles
      ensures Valid() && utm == old(utm)
      ensures triangles == old(triangles) || fresh(triangles)
      ensures var rows, cols := GridRows(raster, requested), GridColumns(raster, requested);
        counter == old(counter) + 2 * (rows * cols)
        && Contents() == old(Contents()) + Cells(old(counter), rows * cols, rows, cols)
    {
      ghost var before := Contents();
      var base := counter;
      var s := ClampSize(requested, raster.width, raster.length);
      var columns := CellCount(raster.width - 1, s);
      var rows := CellCount(raster.length - 1, s);
      assert columns == GridColumns(raster, requested) && rows == GridRows(raster, requested);
      var i := 0;
      while i < rows
        invariant Valid() && utm == old(utm)
        invariant triangles == old(triangles) || fresh(triangles)
        invariant 0 <= i <= rows
        invariant counter == base + 2 * (i * columns)
        invariant Contents() == before + Cells(base, i * columns, rows, columns)
      {
        var j := 0;
        while j < columns
          invariant Valid() && utm == old(utm)
          invariant triangles == old(triangles) || fresh(triangles)
          invariant 0 <= j <= columns
          invariant counter == base + 2 * (i * columns + j)
          invariant Contents() == before + Cells(base, i * columns + j, rows, columns)
        {
          ghost var cellsBefore := Contents();
          var n := i * columns + j;
          ghost var c0 := counter;
          GenerateFirstTriangles(n, columns, rows);
          AppendCell(Contents(), cellsBefore, before, base, n, n, c0, rows, columns);
          j := j + 1;
        }
        assert i * columns + columns == (i + 1) * columns;
        i := i + 1;
      }
    }

    /** refine_if_required, as far as the driver sees it: ask `refine` about
        slot `slot`; on a rewrite, overwrite the slots the rewrite covers and
        append the rest through GetNewTriangle. */
    method RefineIfRequired(refine: Refiner, slot: nat) returns (modified: bool)
      requires Valid() && slot < counter
      modifies this, triangles
      ensures Valid() && utm == old(utm)
      ensures triangles == old(triangles) || fresh(triangles)
      ensures old(counter) <= counter
      ensures modified <==> refine(old(Contents()), slot).Rewrite?
      ensures Contents() == Apply(old(Contents()), refine(old(Contents()), slot))
    {
      ghost var before := Contents();
      var decision := refine(triangles[..counter], slot);
      match decision
      case Keep =>
        modified := false;
      case Rewrite(next) =>
        ghost var after := Overlay(before, next);
        var kept := counter;
        forall k | 0 <= k < kept && k < |next| {
          triangles[k] := next[k].(index := k);
        }
        assert Contents() == after[..counter];
        while counter < |next|
          invariant Valid() && utm == old(utm)
          invariant triangles == old(triangles) || fresh(triangles)
          invariant kept <= counter <= |after|
          invariant Contents() == after[..counter]
          decreases |next| - counter
        {
          var added := GetNewTriangle();
          triangles[added] := next[added].(index := added);
        }
        modified := true;
    }

    /** One sweep of refine_new_mesh: visit the slots from 0 up to the number
        of slots in use, re-read on every step, asking the refinement step about
        each and consuming one unit of `steps` per visit. `exhausted` reports a
        visit that was due with no steps left; otherwise `left` steps remain and
        `modified` says whether any visit rewrote the store. The run from the
        store before the sweep is the run from the store after it. */
    method RefineSweep(refine: Refiner, steps: nat) returns (modified: bool, left: nat, exhausted: bool)
      requires Valid()
      modifies this, triangles
      ensures Valid() && utm == old(utm)
      ensures triangles == old(triangles) || fresh(triangles)
      ensures left <= steps && (modified ==> left < steps)
      ensures exhausted ==> Drive(refine, old(Contents()), 0, steps, false) == Outcome(false, Contents())
      ensures !exhausted ==> Drive(refine, old(Contents()), 0, steps, false) ==
                               if modified then Drive(refine, Contents(), 0, left, false) else Outcome(true, Contents())
    {
      ghost var run := Drive(refine, Contents(), 0, steps, false);
      modified, left, exhausted := false, steps, false;
      var i := 0;
      while i < counter
        invariant Valid() && utm == old(utm)
        invariant triangles == old(triangles) || fresh(triangles)
        invariant i <= counter
        invariant left <= steps && (modified ==> left < steps)
        invariant Drive(refine, Contents(), i, left, modified) == run
        decreases left, counter - i
      {
        if left == 0 {
          exhausted := true;
          return;
        }
        left := left - 1;
        var m := RefineIfRequired(refine, i);
        if m {
          modified := true;
        }
        i := i + 1;
      }
    }

    /** refine_new_mesh: repeat sweeps until a whole sweep modifies nothing.
        `fuel` bounds the number of refinement steps; the method returns false
        exactly when a step is due and none is left. The run is the one Drive
        describes. */
    method RefineNewMesh(refine: Refiner, fuel: nat) returns (finished: bool)
      requires Valid()
      modifies this, triangles
      ensures Valid() && utm == old(utm)
      ensures Outcome(finished, Contents()) == Drive(refine, old(Contents()), 0, fuel, false)
      ensures old(counter) <= counter
      ensures finished ==> FixedPoint(refine, Contents())
      ensures PreservesConsistency(refine) && MeshConsistent(old(Contents())) ==> MeshConsistent(Contents())
      ensures FixedPoint(refine, old(Contents())) && old(counter) <= fuel ==> finished && Contents() == old(Contents())
    {
      ghost var run := Drive(refine, Contents(), 0, fuel, false);
      RunFacts(refine, Contents(), fuel);
      var steps := fuel;
      var finish := false;
      while !finish
        invariant Valid() && utm == old(utm)
        invariant triangles == old(triangles) || fresh(triangles)
        invariant !finish ==> Drive(refine, Contents(), 0, steps, false) == run
        invariant finish ==> run == Outcome(true, Contents())
        decreases steps, !finish
      {
        var modified, left, exhausted := RefineSweep(refine, steps);
        if exhausted {
          return false;
        }
        steps := left;
        finish := !modified;
      }
      finished := true;
    }

    /** convert_mesh_to_UTM: project the vertices of every slot in use, then
        set the flag. Nothing stops a second call from projecting again. */
    method ConvertMeshToUTM(project: (int, int) -> (int, int))
      requires Valid()
      modifies this, triangles
      ensures Valid() && triangles == old(triangles)
      ensures counter == old(counter) && size == old(size)
      ensures utm
      ensures |Contents()| == |old(Contents())|
      ensures forall k :: 0 <= k < counter ==> Contents()[k] == Projected(old(Contents())[k], project)
    {
      var i := 0;
      while i < counter
        invariant 0 <= i <= counter
        invariant triangles == old(triangles) && counter == old(counter) && size == old(size)
        invariant Valid()
        invariant forall k :: 0 <= k < i ==> triangles[k] == Projected(old(triangles[k]), project)
        invariant forall k :: i <= k < triangles.Length ==> triangles[k] == old(triangles[k])
      {
        triangles[i] := Projected(triangles[i], project);
        i := i + 1;
      }
      utm := true;
    }
  }

  /** The bits of a and of b, vertex by vertex. */
  function OrMarks(a: seq<Mask>, b: seq<Mask>): (r: seq<Mask>)
    requires |a| == 3 && |b| == 3
    ensures |r| == 3
  {
    [a[0] | b[0], a[1] | b[1], a[2] | b[2]]
  }

  /** ORing in no bits changes nothing. */
  lemma TaggedNothing(t: Triangle)
    requires |t.vertices| == 3
    ensures Tagged(t, [0, 0, 0]) == t
  {
    assert Tagged(t, [0, 0, 0]).vertices == t.vertices;
  }

  /** ORing in a and then b is ORing in both at once. */
  lemma TaggedTwice(t: Triangle, a: seq<Mask>, b: seq<Mask>)
    requires |t.vertices| == 3 && |a| == 3 && |b| == 3
    ensures Tagged(Tagged(t, a), b) == Tagged(t, OrMarks(a, b))
  {
    assert Tagged(Tagged(t, a), b).vertices == Tagged(t, OrMarks(a, b)).vertices;
  }

  /** t with every vertex moved by `project`; index, links and border bits stay. */
  function Projected(t: Triangle, project: (int, int) -> (int, int)): (r: Triangle)
    ensures r.index == t.index && r.neighbours == t.neighbours && |r.vertices| == |t.vertices|
    ensures forall v :: 0 <= v < |t.vertices| ==> r.vertices[v].border == t.vertices[v].border
  {
    t.(vertices := seq(|t.vertices|, v requires 0 <= v < |t.vertices| =>
         var p := project(t.vertices[v].x, t.vertices[v].y);
         t.vertices[v].(x := p.0, y := p.1)))
  }

  /** generate_mesh: an empty mesh over `raster` with `initialSize` slots,
      built for the requested cell size. The result is the grid layout and is
      consistent. */
  method GenerateMesh(raster: Raster, requested: nat, initialSize: nat) returns (mesh: Mesh)
    requires 2 <= raster.width && 2 <= raster.length && 1 <= requested && 1 <= initialSize
    ensures fresh(mesh) && mesh.Valid() && mesh.raster == raster && !mesh.utm
    ensures var rows, cols := GridRows(raster, requested), GridColumns(raster, requested);
      mesh.counter == 2 * rows * cols && mesh.Contents() == Layout(rows, cols)
    ensures MeshConsistent(mesh.Contents())
  {
    mesh := new Mesh(raster, initialSize);
    mesh.PrepareMesh(requested);
    BuildIsConsistent(GridRows(raster, requested), GridColumns(raster, requested));
  }
}
