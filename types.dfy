/**
 The values shared by every part of the mesh-mesh intersection core:
 coordinates, intersection results, intersection records and the per-mesh
 intersection index, boundary loops, triangulation pieces, and the geometric
 primitives the core consumes without looking inside them.
 */
module MeshTypes {

  /** A 3D coordinate (a `glm::dvec3`). */
  datatype Point3 = Point3(x: real, y: real, z: real)

  /** A 2D coordinate in a triangle's local frame (a `glm::dvec2`). */
  datatype Point2 = Point2(x: real, y: real)

  /** The three corner coordinates of one face, in face order. */
  datatype Tri = Tri(a: Point3, b: Point3, c: Point3)

  /** What the triangle-triangle intersection primitive reports for one pair. */
  datatype TriTriResult = TriTriResult(hasIntersection: bool, start: Point3, end: Point3)

  /** One recorded intersection of a face against a face of the other mesh. */
  datatype MeshIntersection = MeshIntersection(result: TriTriResult, otherTriangleIndex: nat)

  /** The intersection index of one mesh: face index to its ordered records. */
  type MeshIntersections = map<nat, seq<MeshIntersection>>

  /** The record list of face `i`, empty when the index has no entry for it
      (what `std::map::operator[]` reads for a missing key). */
  function Lookup(index: MeshIntersections, i: nat): seq<MeshIntersection>
  {
    if i in index then index[i] else []
  }

  /** A boundary fragment in a triangle's local frame: a single point
      (`hasOne`, with `v1 == v2`) or an oriented edge from `v1` to `v2`. */
  datatype Loop = Loop(hasOne: bool, v1: Point2, v2: Point2)

  /** One piece returned by the triangulation primitive; `id == -1` marks a
      piece to discard. */
  datatype Triangle2 = Triangle2(a: Point2, b: Point2, c: Point2, id: int)

  /** The discard tag of a triangulation piece. */
  const DiscardId: int := -1

  /**
   The geometric primitives the core calls but does not define. Their
   floating-point bodies are not modelled; the core only passes their results on.
   - projectOnTriangle(pt, a, b, c): `pt` in the local 2D frame of triangle (a, b, c)
   - unProjectFromTriangle(p, a, b, c): a local 2D point of (a, b, c) back in 3D
   - equals2d(p, q): the two 2D points are equal within EPS_SMALL
   - intersectTriangleTriangle(a, b, c, d, e, f): the segment where (a, b, c) meets (d, e, f)
   - triangulate(pa, pb, pc, loops): pieces covering (pa, pb, pc) that respect the loops
   */
  datatype Kernel = Kernel(
    projectOnTriangle: (Point3, Point3, Point3, Point3) -> Point2,
    unProjectFromTriangle: (Point2, Point3, Point3, Point3) -> Point3,
    equals2d: (Point2, Point2) -> bool,
    intersectTriangleTriangle: (Point3, Point3, Point3, Point3, Point3, Point3) -> TriTriResult,
    triangulate: (Point2, Point2, Point2, seq<Loop>) -> seq<Triangle2>
  )

  /** `pt` projected into the local frame of face `t`. */
  function Project(k: Kernel, pt: Point3, t: Tri): Point2
  {
    k.projectOnTriangle(pt, t.a, t.b, t.c)
  }

  /** A local point of face `t` mapped back to 3D against `t`'s own corners. */
  function UnProject(k: Kernel, p: Point2, t: Tri): Point3
  {
    k.unProjectFromTriangle(p, t.a, t.b, t.c)
  }
}
