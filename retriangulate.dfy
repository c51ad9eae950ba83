/**
 The retriangulator and mesh assembler (`retriangulateMesh`): faces are walked
 in order; a face without records is copied as it is, a face with records is
 cut by the triangulation primitive in its local frame and the pieces not
 tagged for discarding are mapped back onto the face's own corners.
 */
module Retriangulation {
  import opened MeshTypes
  import opened Geometry
  import opened Loops

  /** Positions of the pieces that are kept (tag other than the discard tag):
      each kept position once, in ascending order, and nothing else. */
  function Survivors(ts: seq<Triangle2>): (r: seq<nat>)
    ensures forall n :: 0 <= n < |r| ==> r[n] < |ts| && ts[r[n]].id != DiscardId
    ensures forall m :: 0 <= m < |ts| && ts[m].id != DiscardId ==> m in r
    ensures forall n, n' :: 0 <= n < n' < |r| ==> r[n] < r[n']
  {
    if ts == [] then []
    else
      var init := ts[..|ts| - 1];
      assert forall m :: 0 <= m < |init| ==> init[m] == ts[m];
      var prefix := Survivors(init);
      if ts[|ts| - 1].id != DiscardId then prefix + [|ts| - 1] else prefix
  }

  /** A piece mapped back to 3D against the corners of face `t`. */
  function UnProjectPiece(k: Kernel, t: Tri, piece: Triangle2): Tri
  {
    Tri(UnProject(k, piece.a, t), UnProject(k, piece.b, t), UnProject(k, piece.c, t))
  }

  /** The faces appended for the pieces `ts` of face `t`, in piece order. */
  function Kept(k: Kernel, t: Tri, ts: seq<Triangle2>): seq<Tri>
  {
    if ts == [] then []
    else
      var last := ts[|ts| - 1];
      Kept(k, t, ts[..|ts| - 1]) + (if last.id != DiscardId then [UnProjectPiece(k, t, last)] else [])
  }

  /** What the triangulation primitive returns for face `t` cut by the loops of its records. */
  function Tessellation(k: Kernel, t: Tri, records: seq<MeshIntersection>): seq<Triangle2>
  {
    k.triangulate(Project(k, t.a, t), Project(k, t.b, t), Project(k, t.c, t), LoopsOf(k, t, records))
  }

  /** The output faces of one input face. */
  function FacePieces(k: Kernel, t: Tri, records: seq<MeshIntersection>): seq<Tri>
  {
    if records == [] then [t] else Kept(k, t, Tessellation(k, t, records))
  }

  /** The output faces of a whole mesh: the faces of each input face, grouped
      by input face, in input face order. */
  function Retriangulated(k: Kernel, tris: seq<Tri>, index: MeshIntersections): seq<Tri>
  {
    if tris == [] then []
    else
      Retriangulated(k, tris[..|tris| - 1], index) + FacePieces(k, tris[|tris| - 1], Lookup(index, |tris| - 1))
  }

  /** The kept pieces are exactly the pieces not tagged for discarding, each
      mapped back against the face's own corners, in tessellation order. */
  lemma {:induction false} KeptPieces(k: Kernel, t: Tri, ts: seq<Triangle2>)
    ensures |Kept(k, t, ts)| == |Survivors(ts)|
    ensures forall n :: 0 <= n < |Survivors(ts)| ==> Kept(k, t, ts)[n] == UnProjectPiece(k, t, ts[Survivors(ts)[n]])
  {
    if ts != [] {
      var init := ts[..|ts| - 1];
      KeptPieces(k, t, init);
      assert forall m :: 0 <= m < |init| ==> init[m] == ts[m];
    }
  }

  /**
   One input face's contribution: a face without records yields exactly itself;
   a face with records yields one face per piece of its tessellation not tagged
   for discarding, in tessellation order, each corner mapped back against the
   face's original corners. A face whose only loop is a single point is
   triangulated like any other.
   */
  lemma FacePiecesShape(k: Kernel, t: Tri, records: seq<MeshIntersection>)
    ensures records == [] ==> FacePieces(k, t, records) == [t]
    ensures records != [] ==>
      var ts := Tessellation(k, t, records);
      |FacePieces(k, t, records)| == |Survivors(ts)| &&
      forall n :: 0 <= n < |Survivors(ts)| ==>
        FacePieces(k, t, records)[n] == UnProjectPiece(k, t, ts[Survivors(ts)[n]])
  {
    if records != [] {
      KeptPieces(k, t, Tessellation(k, t, records));
    }
  }

  /** When no face has records, the output is the input, face for face and
      corner for corner. */
  lemma {:induction false} Passthrough(k: Kernel, tris: seq<Tri>, index: MeshIntersections)
    requires forall n :: 0 <= n < |tris| ==> Lookup(index, n) == []
    ensures Retriangulated(k, tris, index) == tris
  {
    if tris != [] {
      var init := tris[..|tris| - 1];
      Passthrough(k, init, index);
      assert init + [tris[|tris| - 1]] == tris;
    }
  }

  /** The output for the first `i` faces is where the whole output starts. */
  lemma {:induction false} PrefixOutput(k: Kernel, tris: seq<Tri>, index: MeshIntersections, i: nat)
    requires i <= |tris|
    ensures Retriangulated(k, tris[..i], index) <= Retriangulated(k, tris, index)
    decreases |tris|
  {
    if i < |tris| {
      var init := tris[..|tris| - 1];
      assert init[..i] == tris[..i];
      PrefixOutput(k, init, index, i);
    } else {
      assert tris[..i] == tris;
    }
  }

  /** Where the faces of input face `i` start in the output. */
  function Offset(k: Kernel, tris: seq<Tri>, index: MeshIntersections, i: nat): nat
    requires i <= |tris|
  {
    |Retriangulated(k, tris[..i], index)|
  }

  /**
   The output is grouped by input face in ascending order: the faces of input
   face `i` are exactly the slice between its offset and the next face's offset.
   */
  lemma Grouped(k: Kernel, tris: seq<Tri>, index: MeshIntersections, i: nat)
    requires i < |tris|
    ensures Offset(k, tris, index, i) <= Offset(k, tris, index, i + 1) <= |Retriangulated(k, tris, index)|
    ensures Retriangulated(k, tris, index)[Offset(k, tris, index, i)..Offset(k, tris, index, i + 1)]
         == FacePieces(k, tris[i], Lookup(index, i))
  {
    RetriangulatedStep(k, tris, index, i);
    PrefixOutput(k, tris, index, i + 1);
    SliceAfterPrefix(Retriangulated(k, tris, index), Retriangulated(k, tris[..i], index),
                     FacePieces(k, tris[i], Lookup(index, i)));
  }

  /** When `before + pieces` starts `out`, the slice of `out` just after `before` is `pieces`. */
  lemma SliceAfterPrefix<T>(out: seq<T>, before: seq<T>, pieces: seq<T>)
    requires before + pieces <= out
    ensures |before| <= |before| + |pieces| <= |out|
    ensures out[|before|..|before| + |pieces|] == pieces
  {
    assert out[..|before| + |pieces|] == before + pieces;
    assert (before + pieces)[|before|..] == pieces;
  }

  /** A face without records takes exactly one place in the output, holding
      its own corners in their original order. */
  lemma PassthroughAt(k: Kernel, tris: seq<Tri>, index: MeshIntersections, i: nat)
    requires i < |tris| && Lookup(index, i) == []
    ensures Offset(k, tris, index, i + 1) == Offset(k, tris, index, i) + 1
    ensures Offset(k, tris, index, i) < |Retriangulated(k, tris, index)|
    ensures Retriangulated(k, tris, index)[Offset(k, tris, index, i)] == tris[i]
  {
    Grouped(k, tris, index, i);
    var out := Retriangulated(k, tris, index);
    var lo := Offset(k, tris, index, i);
    assert out[lo..lo + 1] == [tris[i]];
    assert out[lo] == out[lo..lo + 1][0];
  }

  /** Appends to `output`, in tessellation order, one face per piece not tagged
      for discarding, mapped back against the corners (a, b, c). */
  method AppendKept(k: Kernel, output: IfcGeometry, a: Point3, b: Point3, c: Point3, tesselation: seq<Triangle2>)
    requires output.Valid()
    modifies output
    ensures output.Valid()
    ensures output.Triangles() == old(output.Triangles()) + Kept(k, Tri(a, b, c), tesselation)
  {
    for m := 0 to |tesselation|
      invariant output.Valid()
      invariant output.Triangles() == old(output.Triangles()) + Kept(k, Tri(a, b, c), tesselation[..m])
    {
      var triangle := tesselation[m];
      if triangle.id != -1 {
        var upa := k.unProjectFromTriangle(triangle.a, a, b, c);
        var upb := k.unProjectFromTriangle(triangle.b, a, b, c);
        var upc := k.unProjectFromTriangle(triangle.c, a, b, c);
        output.AddFace(upa, upb, upc);
      }
      assert tesselation[..m + 1][..m] == tesselation[..m];
    }
    assert tesselation[..|tesselation|] == tesselation;
  }

  /** The output for the first `i + 1` faces is the output for the first `i`
      followed by the faces of face `i`. */
  lemma RetriangulatedStep(k: Kernel, tris: seq<Tri>, index: MeshIntersections, i: nat)
    requires i < |tris|
    ensures Retriangulated(k, tris[..i + 1], index)
         == Retriangulated(k, tris[..i], index) + FacePieces(k, tris[i], Lookup(index, i))
  {
    assert tris[..i + 1][..i] == tris[..i];
  }

  /**
   Handles one face (a, b, c) with record list `ints`: without records the face
   is copied as it is; with records it is projected into its own frame, cut
   along the loops of its records, and the kept pieces are appended.
   */
  method RetriangulateFace(k: Kernel, output: IfcGeometry, a: Point3, b: Point3, c: Point3,
                           ints: seq<MeshIntersection>)
    requires output.Valid()
    modifies output
    ensures output.Valid()
    ensures output.Triangles() == old(output.Triangles()) + FacePieces(k, Tri(a, b, c), ints)
  {
    if ints != [] {
      var pa := k.projectOnTriangle(a, a, b, c);
      var pb := k.projectOnTriangle(b, a, b, c);
      var pc := k.projectOnTriangle(c, a, b, c);
      var loops := MakeLoops(k, a, b, c, ints);
      var tesselation := k.triangulate(pa, pb, pc, loops);
      assert tesselation == Tessellation(k, Tri(a, b, c), ints);
      AppendKept(k, output, a, b, c, tesselation);
    } else {
      output.AddFace(a, b, c);
    }
  }

  /** `index'` is `index` after its subscript was read for every face below
      `upTo`: an empty entry was added for each of them that had none, and
      nothing else changed. */
  ghost predicate ReadBelow(index: MeshIntersections, index': MeshIntersections, upTo: nat)
  {
    && (forall n: nat :: n in index' <==> n in index || n < upTo)
    && (forall n :: n in index ==> index'[n] == index[n])
    && (forall n :: n in index' && n !in index ==> index'[n] == [])
  }

  /** Reading the subscript of face `upTo` returns its record list from the
      original index and extends the read range by one. */
  lemma ReadStep(index: MeshIntersections, index': MeshIntersections, upTo: nat)
    requires ReadBelow(index, index', upTo)
    ensures Lookup(index', upTo) == Lookup(index, upTo)
    ensures ReadBelow(index, index'[upTo := Lookup(index', upTo)], upTo + 1)
  {
  }

  /**
   Walks the faces of `mesh` in order and builds a fresh output mesh holding
   `Retriangulated` of its faces. Reading the record list of every face through
   the index's subscript inserts an empty list for each face index that had no
   entry; no existing record list changes.
   */
  method RetriangulateMesh(k: Kernel, mesh: IfcGeometry, index: MeshIntersections)
    returns (output: IfcGeometry, index': MeshIntersections)
    requires mesh.Valid()
    ensures fresh(output) && output.Valid()
    ensures output.Triangles() == Retriangulated(k, mesh.Triangles(), index)
    ensures forall n: nat :: n in index' <==> n in index || n < |mesh.faces|
    ensures forall n :: n in index ==> index'[n] == index[n]
    ensures forall n :: n in index' && n !in index ==> index'[n] == []
  {
    output := new IfcGeometry();
    index' := index;
    ghost var tris := mesh.Triangles();
    var i := 0;
    while i < mesh.NumFaces()
      invariant i <= |tris| == |mesh.faces|
      invariant output.Valid() && output.Triangles() == Retriangulated(k, tris[..i], index)
      invariant ReadBelow(index, index', i)
    {
      var f := mesh.GetFace(i);
      var a, b, c := mesh.GetPoint(f.i0), mesh.GetPoint(f.i1), mesh.GetPoint(f.i2);
      assert Tri(a, b, c) == tris[i];
      var ints := Lookup(index', i);
      ReadStep(index, index', i);
      index' := index'[i := ints];
      RetriangulateFace(k, output, a, b, c, ints);
      RetriangulatedStep(k, tris, index, i);
      i := i + 1;
    }
    assert tris[..i] == tris;
  }
}
