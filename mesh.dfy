/**
 The triangle mesh the core reads and builds (`IfcGeometry`): a point buffer
 and a face list of index triples into it.
 */
module Geometry {
  import opened MeshTypes

  /** The three point indices of one face. */
  datatype Face = Face(i0: nat, i1: nat, i2: nat)

  predicate FaceInRange(f: Face, numPoints: nat)
  {
    f.i0 < numPoints && f.i1 < numPoints && f.i2 < numPoints
  }

  /** Every face refers to points that exist. */
  predicate FacesInRange(points: seq<Point3>, faces: seq<Face>)
  {
    forall n :: 0 <= n < |faces| ==> FaceInRange(faces[n], |points|)
  }

  /** The corner coordinates of face `f`. */
  function Corners(points: seq<Point3>, f: Face): Tri
    requires FaceInRange(f, |points|)
  {
    Tri(points[f.i0], points[f.i1], points[f.i2])
  }

  /** The corner triples of all faces, in face order. */
  function TrianglesOf(points: seq<Point3>, faces: seq<Face>): seq<Tri>
    requires FacesInRange(points, faces)
  {
    seq(|faces|, n requires 0 <= n < |faces| => Corners(points, faces[n]))
  }

  /** Appending points keeps every existing face's corners. */
  lemma {:induction false} TrianglesOfExtend(points: seq<Point3>, faces: seq<Face>, p: Point3, q: Point3, r: Point3)
    requires FacesInRange(points, faces)
    ensures FacesInRange(points + [p, q, r], faces + [Face(|points|, |points| + 1, |points| + 2)])
    ensures TrianglesOf(points + [p, q, r], faces + [Face(|points|, |points| + 1, |points| + 2)])
         == TrianglesOf(points, faces) + [Tri(p, q, r)]
  {
    var points', faces' := points + [p, q, r], faces + [Face(|points|, |points| + 1, |points| + 2)];
    assert FacesInRange(points', faces') by {
      forall n | 0 <= n < |faces'| ensures FaceInRange(faces'[n], |points'|) {
        if n < |faces| {
          assert faces'[n] == faces[n];
        }
      }
    }
    var lhs, rhs := TrianglesOf(points', faces'), TrianglesOf(points, faces) + [Tri(p, q, r)];
    assert |lhs| == |rhs|;
    forall n | 0 <= n < |lhs| ensures lhs[n] == rhs[n] {
      if n < |faces| {
        assert faces'[n] == faces[n];
        assert Corners(points', faces[n]) == Corners(points, faces[n]);
      }
    }
  }

  class IfcGeometry {
    var points: seq<Point3>
    var faces: seq<Face>

    ghost predicate Valid()
      reads this
    {
      FacesInRange(points, faces)
    }

    /** The faces as corner triples: what callers can observe of the mesh. */
    ghost function Triangles(): seq<Tri>
      reads this
      requires Valid()
    {
      TrianglesOf(points, faces)
    }

    /** An empty mesh. */
    constructor ()
      ensures Valid() && Triangles() == []
    {
      points := [];
      faces := [];
    }

    function NumFaces(): nat
      reads this
    {
      |faces|
    }

    function GetFace(n: nat): Face
      reads this
      requires n < |faces|
    {
      faces[n]
    }

    function GetPoint(n: nat): Point3
      reads this
      requires n < |points|
    {
      points[n]
    }

    /** Appends the face with corners `p`, `q`, `r`, in that order. */
    method AddFace(p: Point3, q: Point3, r: Point3)
      requires Valid()
      modifies this
      ensures Valid()
      ensures Triangles() == old(Triangles()) + [Tri(p, q, r)]
    {
      TrianglesOfExtend(points, faces, p, q, r);
      faces := faces + [Face(|points|, |points| + 1, |points| + 2)];
      points := points + [p, q, r];
    }
  }
}
