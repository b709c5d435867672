/**
 The triangle record, neighbour lookup and the per-triangle consistency check.
 */
module Triangles {
  import opened Points

  /** The "no triangle" sentinel of a neighbour slot. */
  const NONE: int := -1

  datatype Option<T> = None | Some(value: T)

  /** A triangle of the store: its slot `index`, three vertices and, for every
      edge (vertices[i], vertices[(i + 1) % 3]), the index of the triangle on the
      other side of that edge or NONE. */
  datatype Triangle = Triangle(index: int, vertices: seq<Point>, neighbours: seq<int>)

  predicate WellFormed(t: Triangle)
  {
    |t.vertices| == 3 && |t.neighbours| == 3
  }

  /** get_triangle: NONE resolves to no triangle without touching the store;
      any other reference must be a slot of the store. */
  function GetTriangle(index: int, triangles: seq<Triangle>): (r: Option<Triangle>)
    requires index == NONE || 0 <= index < |triangles|
    ensures r.None? <==> index == NONE
    ensures r.Some? ==> r.value == triangles[index]
  {
    if index != NONE then Some(triangles[index]) else None
  }

  /** All three vertices on one vertical or on one horizontal line. */
  predicate Degenerate(t: Triangle)
    requires WellFormed(t)
  {
    var v := t.vertices;
    (v[0].x == v[1].x && v[0].x == v[2].x) || (v[0].y == v[1].y && v[0].y == v[2].y)
  }

  /** Some vertex of u is at the place of p. */
  predicate HasVertexAt(u: Triangle, p: Point)
    requires WellFormed(u)
  {
    SamePlace(p, u.vertices[0]) || SamePlace(p, u.vertices[1]) || SamePlace(p, u.vertices[2])
  }

  /** u names `index` in one of its neighbour slots. */
  predicate ListsBack(u: Triangle, index: int)
    requires WellFormed(u)
  {
    u.neighbours[0] == index || u.neighbours[1] == index || u.neighbours[2] == index
  }

  /** What verify_triangle demands of edge i of t: either the edge has no neighbour, or the
      neighbour is a slot of the store that holds both endpoints of the edge
      and links back to t. A reference outside the store fails. */
  predicate EdgeAgrees(t: Triangle, i: nat, triangles: seq<Triangle>)
    requires WellFormed(t) && i < 3
  {
    var nb := t.neighbours[i];
    nb == NONE ||
    (0 <= nb < |triangles| &&
     var u := GetTriangle(nb, triangles).value;
     WellFormed(u) && HasVertexAt(u, t.vertices[i]) && HasVertexAt(u, t.vertices[(i + 1) % 3])
     && ListsBack(u, t.index))
  }

  /** verify_triangle: t is not degenerate and every edge agrees with its neighbour. */
  predicate VerifyTriangle(t: Triangle, triangles: seq<Triangle>)
  {
    WellFormed(t) && !Degenerate(t) && forall i :: 0 <= i < 3 ==> EdgeAgrees(t, i, triangles)
  }

  /** verify_triangle as the program runs it when compiled in: the status it
      exits with, 5 for a degenerate triangle, 4 for the first edge that does
      not agree with its neighbour, and 0 when it returns normally. It resolves
      every reference without a range check, so every reference must be NONE
      or a slot of the store. */
  method CheckTriangle(t: Triangle, triangles: seq<Triangle>) returns (status: int)
    requires WellFormed(t)
    requires forall i :: 0 <= i < 3 ==> t.neighbours[i] == NONE || 0 <= t.neighbours[i] < |triangles|
    requires forall k :: 0 <= k < |triangles| ==> WellFormed(triangles[k])
    ensures status == 0 || status == 4 || status == 5
    ensures status == 5 <==> Degenerate(t)
    ensures status == 0 <==> VerifyTriangle(t, triangles)
  {
    var v := t.vertices;
    if (v[0].x == v[1].x && v[0].x == v[2].x) || (v[0].y == v[1].y && v[0].y == v[2].y) {
      return 5;
    }
    var i := 0;
    while i < 3
      invariant 0 <= i <= 3
      invariant forall e :: 0 <= e < i ==> EdgeAgrees(t, e, triangles)
    {
      if t.neighbours[i] != NONE {
        var u := GetTriangle(t.neighbours[i], triangles).value;
        if (!SamePlace(v[i], u.vertices[0]) && !SamePlace(v[i], u.vertices[1]) && !SamePlace(v[i], u.vertices[2]))
           || (!SamePlace(v[(i + 1) % 3], u.vertices[0]) && !SamePlace(v[(i + 1) % 3], u.vertices[1])
               && !SamePlace(v[(i + 1) % 3], u.vertices[2])) {
          assert !EdgeAgrees(t, i, triangles);
          return 4;
        }
        if u.neighbours[0] != t.index && u.neighbours[1] != t.index && u.neighbours[2] != t.index {
          assert !EdgeAgrees(t, i, triangles);
          return 4;
        }
      }
      i := i + 1;
    }
    return 0;
  }

  /** The store invariant: every slot is stamped with its position and passes
      verify_triangle against the whole store. */
  predicate MeshConsistent(triangles: seq<Triangle>)
  {
    forall k :: 0 <= k < |triangles| ==> triangles[k].index == k && VerifyTriangle(triangles[k], triangles)
  }

  /** No two edges of t lead to the same neighbour, and t is not its own neighbour. */
  predicate DistinctLinks(t: Triangle)
    requires WellFormed(t)
  {
    (forall i, j :: 0 <= i < j < 3 && t.neighbours[i] != NONE ==> t.neighbours[i] != t.neighbours[j])
    && (forall i :: 0 <= i < 3 ==> t.neighbours[i] != t.index)
  }

  /** Twice the signed area of t in map orientation (north up, east right);
      positive when the vertices run counter-clockwise. Lattice y grows
      southward, so it enters with the opposite sign. */
  function Turn(t: Triangle): int
    requires WellFormed(t)
  {
    var v := t.vertices;
    (v[1].x - v[0].x) * (v[0].y - v[2].y) - (v[2].x - v[0].x) * (v[0].y - v[1].y)
  }
}
