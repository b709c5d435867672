# meshgen: the mesh-construction core in Dafny

meshgen turns an elevation raster into a triangular mesh. This project models the
part of `Src/mesh.c` that builds and maintains that mesh:

- **The triangle store.** One growable array of triangles with a counter of the
  slots in use. `get_new_triangle` appends one slot and stamps it with its index,
  doubling the capacity when the store is full. `get_triangle` resolves a neighbour
  reference, where `-1` means "no triangle".
- **The initial triangulation.** `prepare_mesh` clamps the requested cell size and
  derives the row and column counts. `generate_first_triangles` then emits two
  triangles per grid cell in row-major order. It links each of them to its
  neighbours with the closed-form slot formulas. `mark_border_points` ORs a bit
  into every vertex for each outer side of the grid that it lies on.
- **The consistency check.** `verify_triangle` is modelled as a predicate. The
  main theorem (`GridTheorems.BuildIsConsistent`, used by `Meshing.GenerateMesh`)
  states that every triangle of a freshly built mesh passes it:
  - no triangle is degenerate;
  - every neighbour reference is in range;
  - every neighbour holds both endpoints of the shared edge and links back.
- **The refinement driver.** `refine_new_mesh` sweeps over the live slot count
  until a whole sweep modifies nothing. The per-triangle step is abstract.
- **The UTM conversion loop.** `convert_mesh_to_UTM` projects every slot in use
  and then sets the map's flag.

Vertices live on the integer lattice of cell corners: `x` counts columns eastward
from the west border and `y` counts rows southward from the north border. The
program computes positions in floating point, from the map's borders and the
cell sizes. The model reduces each position to the lattice corner that the
computation stands for, and it treats two vertices as at the same place exactly
when their lattice corners are equal. That is a simplification; see "## Left out".

Modules:

- `Points` (`points.dfy`): the vertex record and the border bits.
- `Triangles` (`triangles.dfy`): the triangle record, `get_triangle` and `verify_triangle`.
- `Grid` (`grid.dfy`): the sizing arithmetic, the border marks, and the layout the
  build produces as a function.
- `GridTheorems` (`grid_theorems.dfy`): what holds of that layout.
- `Refinement` (`refinement.dfy`): what the driver knows of a refinement step.
- `Meshing` (`mesh.dfy`): the class `Mesh`, whose methods change the store in
  place and are proved against the functions of `Grid`.

## Model

| member | source | states |
|---|---|---|
| `Grid.ClampSize` | Src/mesh.c:40-42 | A size larger than either interior extent becomes one of the extents (the smaller). A size that fits is kept. The result never exceeds either extent. |
| `Grid.CellCount` | Src/mesh.c:44-57 | The count is the number of whole cells, or one more. It is at least 1 whenever the size fits the extent. |
| `Grid.CellCountIsNearest` | Src/mesh.c:44-57 | The count is the integer nearest to extent / size, with halves rounding down. Both directions are stated: c is the count exactly when c * size lies within half a cell of the extent. |
| `Grid.GridColumns` | Src/mesh.c:44-49 | The column count derived from the clamped size is at least 1. |
| `Grid.GridRows` | Src/mesh.c:52-57 | The row count derived from the clamped size is at least 1. |
| `Triangles.GetTriangle` | Src/mesh.c:171-175 | `-1` resolves to no triangle without touching the store. Any other reference resolves to the triangle in that slot. |
| `Triangles.CheckTriangle` | Src/mesh.c:185-222 | The exit status of verify_triangle: 5 exactly when the triangle is degenerate; 0 exactly when the triangle passes the consistency predicate (not degenerate, and every edge with a neighbour shares both endpoints with it and is linked back); otherwise 4. |
| `Points.SideMask` | Src/mesh.c:105-129 | Each side bit is set exactly when the corner lies on that outer side of the grid. No other bit is set. |
| `Meshing.Mesh.constructor` | Src/mesh.c:20-27 | A new mesh is empty, has the initial capacity, and has the UTM flag cleared. |
| `Meshing.Mesh.GetNewTriangle` | Src/mesh.c:155-169 | The new slot is the old counter and carries that index. The counter grows by one. The capacity doubles exactly when the store was full. Every earlier slot is unchanged, including across a reallocation. |
| `Meshing.Mesh.InitTriangle` | Src/mesh.c:86-92 | Only the vertices of the given slot change: they become the three lattice corners, with no border bits. |
| `Meshing.Mesh.AllocateCell` | Src/mesh.c:84-92 | Two new slots, old counter and old counter + 1, hold the corners of the cell's lower-right and upper-left halves. Earlier slots are kept. |
| `Meshing.Mesh.LinkCell` | Src/mesh.c:94-100 | Only the neighbour triples of the two slots change, to the closed-form formulas: NONE on the outer side, and the partner's index across the diagonal. |
| `Meshing.Mesh.MarkBorderPoints` | Src/mesh.c:105-129 | Only the two triangles change. Each vertex gains exactly the side bits of the cell's rows and columns that lie on the boundary. |
| `Meshing.Mesh.GenerateFirstTriangles` | Src/mesh.c:73-103 | The store grows by exactly the two finished triangles of cell n, in that order. Earlier slots are unchanged. |
| `Meshing.Mesh.PrepareMesh` | Src/mesh.c:32-65 | The store grows by 2 * rows * columns slots. Those slots hold the triangles of every cell in row-major order. |
| `Meshing.GenerateMesh` | Src/mesh.c:17-30 | The new mesh is exactly the grid layout, with 2 * rows * columns triangles. It is consistent, and its UTM flag is cleared. |
| `Meshing.Mesh.RefineIfRequired` | Src/mesh.c:146-150 | The step reports a modification exactly when the refiner asks for a rewrite. The store becomes the result of applying the refiner's decision: unchanged on a keep, the overlay of the rewrite on a rewrite. The count never shrinks. |
| `Meshing.Mesh.RefineSweep` | Src/mesh.c:145-151 | One sweep re-reads the count on every step and uses one step per visit. Running `Drive` from the store before the sweep gives the same result as continuing from the store after it: a finished run if nothing was modified, a fresh sweep with the remaining steps if something was, and an unfinished run if the steps ran out. |
| `Meshing.Mesh.RefineNewMesh` | Src/mesh.c:140-153 | The result and the final store are exactly those of `Drive`, the sweep-by-sweep run, from the initial store. On a `true` return the store is a fixed point. The store never shrinks. Consistency is kept whenever every refinement step keeps it. A store that is already a fixed point comes back unchanged with `true` when the fuel covers one sweep. |
| `Refinement.DriveFixedPoint` | Src/mesh.c:143-152 | A run that finishes ends in a store where the refiner keeps every slot. By induction over the run, carrying the fact that every slot visited so far in an unmodified sweep was kept. |
| `Refinement.DriveGrows` | Src/mesh.c:143-152 | A run never removes a slot. |
| `Refinement.DriveConsistent` | Src/mesh.c:143-152 | If every refinement step keeps a consistent store consistent, a run from a consistent store ends consistent. |
| `Refinement.DriveStable` | Src/mesh.c:143-152 | A store that is already a fixed point is returned unchanged and finished after one sweep, given one step per remaining slot. |
| `Refinement.RunFacts` | Src/mesh.c:140-153 | Collects the four facts above for a whole run that starts at slot 0. |
| `Meshing.Mesh.ConvertMeshToUTM` | Src/mesh.c:131-138 | Every slot in use is projected, keeping its index, links and border bits. The store's shape is unchanged and the UTM flag is set. |
| `Meshing.Projected` | Src/mesh.c:135 | Projection moves vertices only. Index, neighbour links and border bits stay. |
| `Refinement.Overlay` | Src/mesh.c:146-150 | A rewrite replaces the first slots and appends the rest, each stamped with its position. Slots beyond the rewrite keep their contents. The store never shrinks. |
| `Grid.MarkedCell` | Src/mesh.c:94-129 | Marking the linked halves of a cell yields exactly the cell's finished triangles. |
| `Grid.MarksOnlyAdd` | Src/mesh.c:109-128 | Marking only adds bits. Each vertex keeps its place and every bit it had. Index and links are untouched. |
| `Grid.InteriorCellUnmarked` | Src/mesh.c:109-128 | A cell on no outer side gets no bits at all. |
| `Meshing.TaggedNothing` | Src/mesh.c:109-128 | ORing in no bits leaves a triangle unchanged. |
| `Meshing.TaggedTwice` | Src/mesh.c:109-128 | Two rounds of marking equal one round with both sets of bits. |
| `Grid.AppendCell` | Src/mesh.c:60-64 | Appending cell m to a store that holds cells 0 .. m-1 gives a store that holds cells 0 .. m. |
| `Grid.CellsAt` | Src/mesh.c:60-64 | Cell n owns slot base + 2n (first triangle) and slot base + 2n + 1 (second triangle). |
| `Grid.LayoutAt` | Src/mesh.c:84-92 | In the built mesh, slot t holds the first triangle of cell t/2 when t is even and the second when t is odd. |
| `Grid.CellBelow` | Src/mesh.c:97 | The cell south of cell n is n + cols, in the same column and in range unless n is in the last row. |
| `Grid.CellAbove` | Src/mesh.c:100 | The cell north of cell n is n - cols, in the same column, unless n is in row 0. |
| `Grid.CellEast` | Src/mesh.c:96 | The cell east of cell n is n + 1, in the same row and in range unless n is in the last column. |
| `Grid.CellWest` | Src/mesh.c:99 | The cell west of cell n is n - 1, in the same row, unless n is in column 0. |
| `GridTheorems.FirstSouthEdge` | Src/mesh.c:97 | Edge 0 of a first triangle agrees with its neighbour: the second triangle of the cell below, which links back. |
| `GridTheorems.FirstEastEdge` | Src/mesh.c:96 | Edge 1 of a first triangle agrees with its neighbour: the second triangle of the cell east, which links back. |
| `GridTheorems.FirstDiagonal` | Src/mesh.c:95 | The diagonal of a first triangle agrees with its partner in the same cell. |
| `GridTheorems.SecondNorthEdge` | Src/mesh.c:100 | Edge 0 of a second triangle agrees with its neighbour: the first triangle of the cell above, which links back. |
| `GridTheorems.SecondWestEdge` | Src/mesh.c:99 | Edge 1 of a second triangle agrees with its neighbour: the first triangle of the cell west, which links back. |
| `GridTheorems.SecondDiagonal` | Src/mesh.c:98 | The diagonal of a second triangle agrees with its partner in the same cell. |
| `GridTheorems.TriangleVerifies` | Src/mesh.c:185-222 | Every triangle of the built mesh carries its slot as index and passes verify_triangle against the whole mesh. |
| `GridTheorems.BuildIsConsistent` | Src/mesh.c:185-222 | The built mesh has 2 * rows * columns triangles. Each carries its own index, none is degenerate, and every link is in range, shares both endpoints of its edge and is returned. |
| `GridTheorems.NoNeighbourIffBoundary` | Src/mesh.c:94-100 | An edge of the built mesh has no neighbour exactly when both its endpoints lie on the same outer side of the grid. |
| `GridTheorems.BorderMatchesSides` | Src/mesh.c:105-129 | Every vertex of the built mesh carries exactly the bits of the outer sides its corner lies on. A corner vertex therefore carries both of its side bits. "Exactly" rests on the model's `InitTriangle` clearing the mask. The source never clears `.border` itself (see "## Left out"), so for the program it means "at least these bits". |
| `GridTheorems.BuildCounterClockwise` | Src/mesh.c:67-72 | Every triangle of the built mesh has positive signed area on the map, that is, it runs counter-clockwise. |
| `GridTheorems.BuildLinksDistinct` | Src/mesh.c:94-100 | No triangle of the built mesh names the same neighbour on two edges, or names itself. |

## Left out

- Floating-point geometry is not modelled: cell width and length, and the map coordinates of the corners. Vertices are integer lattice corners, and position equality is exact equality of those corners.
- GridTheorems.BuildIsConsistent: holds of the program only if `point_equals` treats as equal the positions that stand for the same corner. The source computes one corner with different double expressions in neighbouring cells. The east corner of a cell is `(west_border + j * cell_width) + cell_width`, and the west corner of the next cell is `west_border + (j + 1) * cell_width`; rows work the same way. These can differ in the last bit. The body of `point_equals` is not part of this model, so the theorem states the program's consistency only under that assumption.
- The rounding test is modelled as the integer condition `2 * (extent % size) > size`, which the double division by the size and comparison with 0.5 compute exactly.
- Elevations, `z`, `use_height`, and the height sampling done by `init_point` and `get_height` are not modelled. The body of `init_triangle` is not part of this model. `Meshing.Mesh.InitTriangle` writes the three lattice corners with an empty border mask.
- GridTheorems.BorderMatchesSides: the empty starting mask is an assumption of the model. Nothing in `Src/mesh.c` clears `.border`, and the store comes from `malloc`/`realloc`, which do not zero memory. If `init_triangle` does not clear it either, the program's vertices carry at least the stated bits, but possibly others too.
- The border field is modelled as an 8-bit mask. The point record in `Src/point.h` has no such field, and its declared type is not part of this model.
- `refine_if_required` is not part of this model. It is a function parameter that either keeps the store or rewrites it (replacing slots and appending new ones). The driver only sees its decision.
- Meshing.Mesh.RefineNewMesh: the sweeps run under a `fuel` bound on the number of refinement steps. The source loops until a fixed point, and nothing in the code shows that it terminates. The method returns `false` exactly when `Drive` does, that is, when a refinement step is due and no fuel is left. It then promises no fixed point.
- `convert_triangle_to_UTM` is a geodesic computation on doubles that is not part of this model. It is a projection parameter on a vertex's position. Like the code, the model has no guard against converting twice, and a second call projects again.
- Reallocation failure and `exit(6)` are not modelled: allocation always succeeds. The mesh's own allocation in `generate_mesh`, and `free_mesh`/`free_map`, are left out.
- `verify_triangle` is compiled out because `NDEBUG` is forced on. It is modelled twice: as the predicate `VerifyTriangle`, which the theorems use, and as the method `CheckTriangle`, which returns the status the program would exit with instead of exiting.
- Triangles.CheckTriangle: requires every neighbour reference to be NONE or a slot of the store. The source indexes the store without a range check, so any other reference is undefined behaviour there.
- `Src/output.h` holds only declarations of file exporters (I/O) and is not modelled.
- Integers are unbounded. The width and the length must be at least 2 and the requested size at least 1, because otherwise the source divides by zero or wraps `size_t`. Wrap-around of `size_t` and `int` is not modelled.
- `INITIAL_MESH_SIZE` from `mesh.h` is not part of this model. The initial capacity is a constructor parameter, at least 1.
- `generate_first_triangles` writes each neighbour slot separately. The model writes each triangle's triple at once, in the same order of triangles.
- The `map` record is reduced to the raster size and the `utm` flag, which lives in `Mesh`. Zone and hemisphere belong to the projection parameter.
