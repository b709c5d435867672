/**
 Vertices of the mesh.

 A vertex sits on a corner of the cell grid. Instead of the map coordinates
 (west border + column * cell width, north border - row * cell length) the model
 keeps the integer lattice corner itself, so that two vertices are at the same
 place exactly when their lattice corners agree.
 */
module Points {

  /** Border bitmask: one bit per outer side of the whole mesh the vertex lies on. */
  type Mask = bv8

  const SOUTH: Mask := 1 << 2
  const EAST: Mask := 1 << 3
  const NORTH: Mask := 1 << 4
  const WEST: Mask := 1 << 5

  /** A vertex at lattice corner (x, y): x counts cell columns eastward from the
      west border, y counts cell rows southward from the north border. The
      elevation is not modelled. */
  datatype Point = Point(x: int, y: int, border: Mask)

  /** A vertex at a lattice corner that carries no border bit yet. */
  function Corner(x: int, y: int): Point
  {
    Point(x, y, 0)
  }

  /** Position equality: the comparison the consistency check makes between vertices. */
  predicate SamePlace(p: Point, q: Point)
  {
    p.x == q.x && p.y == q.y
  }

  /** The bit `bit` if `on` holds, no bit otherwise. */
  function SideBit(on: bool, bit: Mask): Mask
  {
    if on then bit else 0
  }

  /** The border bits that belong to lattice corner p of a grid of rows x cols
      cells: one bit for every outer side of the grid that p lies on. */
  function SideMask(p: Point, rows: nat, cols: nat): (m: Mask)
    requires 1 <= rows && 1 <= cols
    ensures m & SOUTH != 0 <==> p.y == rows
    ensures m & EAST != 0 <==> p.x == cols
    ensures m & NORTH != 0 <==> p.y == 0
    ensures m & WEST != 0 <==> p.x == 0
    ensures m & !(SOUTH | EAST | NORTH | WEST) == 0
  {
    SideBit(p.y == rows, SOUTH) | SideBit(p.x == cols, EAST)
      | SideBit(p.y == 0, NORTH) | SideBit(p.x == 0, WEST)
  }
}
