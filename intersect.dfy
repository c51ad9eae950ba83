/**
 The pairwise mesh intersector (`intersectMeshMesh`): every face of the first
 mesh is tested against every face of the second; each hit is recorded twice,
 once in each mesh's intersection index, and both meshes are then
 retriangulated against their own index.
 */
module MeshMeshIntersection {
  import opened MeshTypes
  import opened Geometry
  import opened Retriangulation

  /** The primitive's verdict on face `i` of the first mesh against face `j` of the second. */
  function Test(k: Kernel, tris1: seq<Tri>, tris2: seq<Tri>, i: nat, j: nat): TriTriResult
    requires i < |tris1| && j < |tris2|
  {
    k.intersectTriangleTriangle(tris1[i].a, tris1[i].b, tris1[i].c, tris2[j].a, tris2[j].b, tris2[j].c)
  }

  /** The records of face `i` of the first mesh after testing it against the
      first `m` faces of the second mesh. */
  function Row(k: Kernel, tris1: seq<Tri>, tris2: seq<Tri>, i: nat, m: nat): seq<MeshIntersection>
    requires i < |tris1| && m <= |tris2|
  {
    if m == 0 then []
    else
      var r := Test(k, tris1, tris2, i, m - 1);
      Row(k, tris1, tris2, i, m - 1) + (if r.hasIntersection then [MeshIntersection(r, m - 1)] else [])
  }

  /** The records of face `j` of the second mesh after the first `m` faces of
      the first mesh were tested against it. */
  function Col(k: Kernel, tris1: seq<Tri>, tris2: seq<Tri>, j: nat, m: nat): seq<MeshIntersection>
    requires j < |tris2| && m <= |tris1|
  {
    if m == 0 then []
    else
      var r := Test(k, tris1, tris2, m - 1, j);
      Col(k, tris1, tris2, j, m - 1) + (if r.hasIntersection then [MeshIntersection(r, m - 1)] else [])
  }

  /** The first mesh's index after the full pass: an entry for every face with a hit. */
  function RowIndex(k: Kernel, tris1: seq<Tri>, tris2: seq<Tri>): MeshIntersections
  {
    map i: nat | i < |tris1| && Row(k, tris1, tris2, i, |tris2|) != [] :: Row(k, tris1, tris2, i, |tris2|)
  }

  /** The second mesh's index after the full pass. */
  function ColIndex(k: Kernel, tris1: seq<Tri>, tris2: seq<Tri>): MeshIntersections
  {
    map j: nat | j < |tris2| && Col(k, tris1, tris2, j, |tris1|) != [] :: Col(k, tris1, tris2, j, |tris1|)
  }

  /** `index[key].push_back(rec)`: appends to the entry of `key`, creating it if absent. */
  function PushBack(index: MeshIntersections, key: nat, rec: MeshIntersection): (r: MeshIntersections)
    ensures r.Keys == index.Keys + {key}
    ensures Lookup(r, key) == Lookup(index, key) + [rec]
    ensures forall n :: n != key ==> Lookup(r, n) == Lookup(index, n)
  {
    index[key := Lookup(index, key) + [rec]]
  }

  /** The record list of face `n` of the first mesh once every pair before
      (i, j), in loop order, was tested. */
  function FirstCell(k: Kernel, tris1: seq<Tri>, tris2: seq<Tri>, n: nat, i: nat, j: nat): seq<MeshIntersection>
    requires n < |tris1| && i <= |tris1| && j <= |tris2|
  {
    if n < i then Row(k, tris1, tris2, n, |tris2|) else if n == i then Row(k, tris1, tris2, n, j) else []
  }

  /** The record list of face `n` of the second mesh once every pair before
      (i, j), in loop order, was tested. */
  function SecondCell(k: Kernel, tris1: seq<Tri>, tris2: seq<Tri>, n: nat, i: nat, j: nat): seq<MeshIntersection>
    requires n < |tris2| && i <= |tris1| && j <= |tris2|
  {
    if n < j && i < |tris1| then Col(k, tris1, tris2, n, i + 1) else Col(k, tris1, tris2, n, i)
  }

  /** The first index once every pair before (i, j), in loop order, was tested. */
  function FirstIndexAt(k: Kernel, tris1: seq<Tri>, tris2: seq<Tri>, i: nat, j: nat): MeshIntersections
    requires i <= |tris1| && j <= |tris2|
  {
    map n: nat | n < |tris1| && |FirstCell(k, tris1, tris2, n, i, j)| > 0 :: FirstCell(k, tris1, tris2, n, i, j)
  }

  /** The second index once every pair before (i, j), in loop order, was tested. */
  function SecondIndexAt(k: Kernel, tris1: seq<Tri>, tris2: seq<Tri>, i: nat, j: nat): MeshIntersections
    requires i <= |tris1| && j <= |tris2|
  {
    map n: nat | n < |tris2| && |SecondCell(k, tris1, tris2, n, i, j)| > 0 :: SecondCell(k, tris1, tris2, n, i, j)
  }

  /** Before any pair is tested both indices are empty. */
  lemma PassStart(k: Kernel, tris1: seq<Tri>, tris2: seq<Tri>)
    ensures FirstIndexAt(k, tris1, tris2, 0, 0) == map[]
    ensures SecondIndexAt(k, tris1, tris2, 0, 0) == map[]
  {
    forall n: nat | n < |tris1| ensures FirstCell(k, tris1, tris2, n, 0, 0) == [] {
    }
    forall n: nat | n < |tris2| ensures SecondCell(k, tris1, tris2, n, 0, 0) == [] {
    }
  }

  /** An index after the pass tested one pair with result `r`: on a hit the
      record {r, other} is appended under `key`, otherwise nothing changes. */
  function Recorded(index: MeshIntersections, key: nat, r: TriTriResult, other: nat): MeshIntersections
  {
    if r.hasIntersection then PushBack(index, key, MeshIntersection(r, other)) else index
  }

  /** The keys of the first index after testing (i, j) are those of its state
      before, with `i` added on a hit. */
  lemma FirstStepKeys(k: Kernel, tris1: seq<Tri>, tris2: seq<Tri>, i: nat, j: nat)
    requires i < |tris1| && j < |tris2|
    ensures var before, after := FirstIndexAt(k, tris1, tris2, i, j), FirstIndexAt(k, tris1, tris2, i, j + 1);
      forall n :: n in after <==> n in Recorded(before, i, Test(k, tris1, tris2, i, j), j)
  {
    var r := Test(k, tris1, tris2, i, j);
    assert Row(k, tris1, tris2, i, j + 1) == Row(k, tris1, tris2, i, j) + (if r.hasIntersection then [MeshIntersection(r, j)] else []);
    forall n: nat | n < |tris1| && n != i ensures FirstCell(k, tris1, tris2, n, i, j + 1) == FirstCell(k, tris1, tris2, n, i, j) {
    }
  }

  /** The entries of the first index after testing (i, j) are those of its
      state before, with {result, j} appended under `i` on a hit. */
  lemma FirstStepValues(k: Kernel, tris1: seq<Tri>, tris2: seq<Tri>, i: nat, j: nat)
    requires i < |tris1| && j < |tris2|
    ensures var before, after := FirstIndexAt(k, tris1, tris2, i, j), FirstIndexAt(k, tris1, tris2, i, j + 1);
      var expected := Recorded(before, i, Test(k, tris1, tris2, i, j), j);
      forall n :: n in after && n in expected ==> after[n] == expected[n]
  {
    var r := Test(k, tris1, tris2, i, j);
    assert Row(k, tris1, tris2, i, j + 1) == Row(k, tris1, tris2, i, j) + (if r.hasIntersection then [MeshIntersection(r, j)] else []);
    forall n: nat | n < |tris1| && n != i ensures FirstCell(k, tris1, tris2, n, i, j + 1) == FirstCell(k, tris1, tris2, n, i, j) {
    }
  }

  /** Testing the pair (i, j), and on a hit appending {result, j} under key
      `i`, moves the first index from its state before (i, j) to its state after. */
  lemma PassStep1(k: Kernel, tris1: seq<Tri>, tris2: seq<Tri>, i: nat, j: nat)
    requires i < |tris1| && j < |tris2|
    ensures var r, before := Test(k, tris1, tris2, i, j), FirstIndexAt(k, tris1, tris2, i, j);
      FirstIndexAt(k, tris1, tris2, i, j + 1)
      == if r.hasIntersection then PushBack(before, i, MeshIntersection(r, j)) else before
  {
    FirstStepKeys(k, tris1, tris2, i, j);
    FirstStepValues(k, tris1, tris2, i, j);
    var after := FirstIndexAt(k, tris1, tris2, i, j + 1);
    assert after == Recorded(FirstIndexAt(k, tris1, tris2, i, j), i, Test(k, tris1, tris2, i, j), j);
  }

  /** The keys of the second index after testing (i, j) are those of its state
      before, with `j` added on a hit. */
  lemma SecondStepKeys(k: Kernel, tris1: seq<Tri>, tris2: seq<Tri>, i: nat, j: nat)
    requires i < |tris1| && j < |tris2|
    ensures var before, after := SecondIndexAt(k, tris1, tris2, i, j), SecondIndexAt(k, tris1, tris2, i, j + 1);
      forall n :: n in after <==> n in Recorded(before, j, Test(k, tris1, tris2, i, j), i)
  {
    var r := Test(k, tris1, tris2, i, j);
    assert Col(k, tris1, tris2, j, i + 1) == Col(k, tris1, tris2, j, i) + (if r.hasIntersection then [MeshIntersection(r, i)] else []);
    forall n: nat | n < |tris2| && n != j ensures SecondCell(k, tris1, tris2, n, i, j + 1) == SecondCell(k, tris1, tris2, n, i, j) {
    }
  }

  /** The entries of the second index after testing (i, j) are those of its
      state before, with {result, i} appended under `j` on a hit. */
  lemma SecondStepValues(k: Kernel, tris1: seq<Tri>, tris2: seq<Tri>, i: nat, j: nat)
    requires i < |tris1| && j < |tris2|
    ensures var before, after := SecondIndexAt(k, tris1, tris2, i, j), SecondIndexAt(k, tris1, tris2, i, j + 1);
      var expected := Recorded(before, j, Test(k, tris1, tris2, i, j), i);
      forall n :: n in after && n in expected ==> after[n] == expected[n]
  {
    var r := Test(k, tris1, tris2, i, j);
    assert Col(k, tris1, tris2, j, i + 1) == Col(k, tris1, tris2, j, i) + (if r.hasIntersection then [MeshIntersection(r, i)] else []);
    forall n: nat | n < |tris2| && n != j ensures SecondCell(k, tris1, tris2, n, i, j + 1) == SecondCell(k, tris1, tris2, n, i, j) {
    }
  }

  /** Testing the pair (i, j), and on a hit appending {result, i} under key
      `j`, moves the second index from its state before (i, j) to its state after. */
  lemma PassStep2(k: Kernel, tris1: seq<Tri>, tris2: seq<Tri>, i: nat, j: nat)
    requires i < |tris1| && j < |tris2|
    ensures var r, before := Test(k, tris1, tris2, i, j), SecondIndexAt(k, tris1, tris2, i, j);
      SecondIndexAt(k, tris1, tris2, i, j + 1)
      == if r.hasIntersection then PushBack(before, j, MeshIntersection(r, i)) else before
  {
    SecondStepKeys(k, tris1, tris2, i, j);
    SecondStepValues(k, tris1, tris2, i, j);
    var after := SecondIndexAt(k, tris1, tris2, i, j + 1);
    assert after == Recorded(SecondIndexAt(k, tris1, tris2, i, j), j, Test(k, tris1, tris2, i, j), i);
  }

  /** Finishing the inner loop for face `i` is starting it for face `i + 1`. */
  lemma PassNextRow(k: Kernel, tris1: seq<Tri>, tris2: seq<Tri>, i: nat)
    requires i < |tris1|
    ensures FirstIndexAt(k, tris1, tris2, i + 1, 0) == FirstIndexAt(k, tris1, tris2, i, |tris2|)
    ensures SecondIndexAt(k, tris1, tris2, i + 1, 0) == SecondIndexAt(k, tris1, tris2, i, |tris2|)
  {
    var after1, before1 := FirstIndexAt(k, tris1, tris2, i + 1, 0), FirstIndexAt(k, tris1, tris2, i, |tris2|);
    forall n: nat ensures (n in after1 <==> n in before1) && (n in after1 ==> after1[n] == before1[n]) {
      if n < |tris1| {
        assert FirstCell(k, tris1, tris2, n, i + 1, 0) == FirstCell(k, tris1, tris2, n, i, |tris2|);
      }
    }
    var after2, before2 := SecondIndexAt(k, tris1, tris2, i + 1, 0), SecondIndexAt(k, tris1, tris2, i, |tris2|);
    forall n: nat ensures (n in after2 <==> n in before2) && (n in after2 ==> after2[n] == before2[n]) {
      if n < |tris2| {
        assert SecondCell(k, tris1, tris2, n, i + 1, 0) == SecondCell(k, tris1, tris2, n, i, |tris2|);
      }
    }
  }

  /** Once every pair was tested, the two indices are the specification indices. */
  lemma PassDone(k: Kernel, tris1: seq<Tri>, tris2: seq<Tri>)
    ensures FirstIndexAt(k, tris1, tris2, |tris1|, 0) == RowIndex(k, tris1, tris2)
    ensures SecondIndexAt(k, tris1, tris2, |tris1|, 0) == ColIndex(k, tris1, tris2)
  {
    var first, rows := FirstIndexAt(k, tris1, tris2, |tris1|, 0), RowIndex(k, tris1, tris2);
    forall n: nat ensures (n in first <==> n in rows) && (n in first ==> first[n] == rows[n]) {
      if n < |tris1| {
        assert FirstCell(k, tris1, tris2, n, |tris1|, 0) == Row(k, tris1, tris2, n, |tris2|);
      }
    }
    var second, cols := SecondIndexAt(k, tris1, tris2, |tris1|, 0), ColIndex(k, tris1, tris2);
    forall n: nat ensures (n in second <==> n in cols) && (n in second ==> second[n] == cols[n]) {
      if n < |tris2| {
        assert SecondCell(k, tris1, tris2, n, |tris1|, 0) == Col(k, tris1, tris2, n, |tris1|);
      }
    }
  }

  /**
   The body of the pass for the pair (i, j): reads both faces' corners, asks
   the primitive, and on a hit appends {result, j} under key `i` of the first
   index and {result, i} under key `j` of the second.
   */
  method TestPair(k: Kernel, mesh1: IfcGeometry, mesh2: IfcGeometry, ghost tris1: seq<Tri>, ghost tris2: seq<Tri>,
                  i: nat, j: nat, before1: MeshIntersections, before2: MeshIntersections)
    returns (meshIntersections1: MeshIntersections, meshIntersections2: MeshIntersections)
    requires mesh1.Valid() && mesh2.Valid() && tris1 == mesh1.Triangles() && tris2 == mesh2.Triangles()
    requires i < |tris1| && j < |tris2|
    requires before1 == FirstIndexAt(k, tris1, tris2, i, j) && before2 == SecondIndexAt(k, tris1, tris2, i, j)
    ensures meshIntersections1 == FirstIndexAt(k, tris1, tris2, i, j + 1)
    ensures meshIntersections2 == SecondIndexAt(k, tris1, tris2, i, j + 1)
  {
    var t1, t2 := mesh1.GetFace(i), mesh2.GetFace(j);
    var a, b, c := mesh1.GetPoint(t1.i0), mesh1.GetPoint(t1.i1), mesh1.GetPoint(t1.i2);
    var d, e, f := mesh2.GetPoint(t2.i0), mesh2.GetPoint(t2.i1), mesh2.GetPoint(t2.i2);
    assert Tri(a, b, c) == tris1[i] && Tri(d, e, f) == tris2[j];
    var intersectionLine := k.intersectTriangleTriangle(a, b, c, d, e, f);
    PassStep1(k, tris1, tris2, i, j);
    PassStep2(k, tris1, tris2, i, j);
    meshIntersections1, meshIntersections2 := before1, before2;
    if intersectionLine.hasIntersection {
      meshIntersections1 := PushBack(meshIntersections1, i, MeshIntersection(intersectionLine, j));
      meshIntersections2 := PushBack(meshIntersections2, j, MeshIntersection(intersectionLine, i));
    }
  }

  /** The inner loop of the pass for face `i` of the first mesh: every face `j`
      of the second mesh, in ascending order, up to its face count `numFaces2`
      (read once by the caller; the meshes are not changed by the pass). */
  method TestFace(k: Kernel, mesh1: IfcGeometry, mesh2: IfcGeometry, ghost tris1: seq<Tri>, ghost tris2: seq<Tri>,
                  numFaces2: nat, i: nat, before1: MeshIntersections, before2: MeshIntersections)
    returns (meshIntersections1: MeshIntersections, meshIntersections2: MeshIntersections)
    requires mesh1.Valid() && mesh2.Valid() && tris1 == mesh1.Triangles() && tris2 == mesh2.Triangles()
    requires i < |tris1| && numFaces2 == |tris2|
    requires before1 == FirstIndexAt(k, tris1, tris2, i, 0) && before2 == SecondIndexAt(k, tris1, tris2, i, 0)
    ensures meshIntersections1 == FirstIndexAt(k, tris1, tris2, i + 1, 0)
    ensures meshIntersections2 == SecondIndexAt(k, tris1, tris2, i + 1, 0)
  {
    meshIntersections1, meshIntersections2 := before1, before2;
    var j := 0;
    while j != numFaces2
      invariant j <= numFaces2
      invariant meshIntersections1 == FirstIndexAt(k, tris1, tris2, i, j)
      invariant meshIntersections2 == SecondIndexAt(k, tris1, tris2, i, j)
    {
      meshIntersections1, meshIntersections2 :=
        TestPair(k, mesh1, mesh2, tris1, tris2, i, j, meshIntersections1, meshIntersections2);
      j := j + 1;
    }
    PassNextRow(k, tris1, tris2, i);
  }

  /**
   The nested pass over all face pairs, `i` of the first mesh outer and `j` of
   the second inner: on a hit, the record {result, j} is appended under key `i`
   of the first index and {result, i} under key `j` of the second, an entry
   being created on first use.
   */
  method IntersectionPass(k: Kernel, mesh1: IfcGeometry, mesh2: IfcGeometry)
    returns (meshIntersections1: MeshIntersections, meshIntersections2: MeshIntersections)
    requires mesh1.Valid() && mesh2.Valid()
    ensures meshIntersections1 == RowIndex(k, mesh1.Triangles(), mesh2.Triangles())
    ensures meshIntersections2 == ColIndex(k, mesh1.Triangles(), mesh2.Triangles())
  {
    ghost var tris1, tris2 := mesh1.Triangles(), mesh2.Triangles();
    meshIntersections1, meshIntersections2 := map[], map[];
    PassStart(k, tris1, tris2);
    var numFaces1, numFaces2 := mesh1.NumFaces(), mesh2.NumFaces();
    var i := 0;
    while i != numFaces1
      invariant i <= |tris1| == numFaces1 && |tris2| == numFaces2
      invariant meshIntersections1 == FirstIndexAt(k, tris1, tris2, i, 0)
      invariant meshIntersections2 == SecondIndexAt(k, tris1, tris2, i, 0)
    {
      meshIntersections1, meshIntersections2 :=
        TestFace(k, mesh1, mesh2, tris1, tris2, numFaces2, i, meshIntersections1, meshIntersections2);
      i := i + 1;
    }
    PassDone(k, tris1, tris2);
  }

  /**
   Intersects two meshes: records every intersecting face pair in both indices,
   then builds each result as the retriangulation of its input against its own
   index. The inputs are only read.
   */
  method IntersectMeshMesh(k: Kernel, mesh1: IfcGeometry, mesh2: IfcGeometry)
    returns (result1: IfcGeometry, result2: IfcGeometry)
    requires mesh1.Valid() && mesh2.Valid()
    ensures fresh(result1) && fresh(result2) && result1 != result2
    ensures result1.Valid() && result2.Valid()
    ensures result1.Triangles()
         == Retriangulated(k, mesh1.Triangles(), RowIndex(k, mesh1.Triangles(), mesh2.Triangles()))
    ensures result2.Triangles()
         == Retriangulated(k, mesh2.Triangles(), ColIndex(k, mesh1.Triangles(), mesh2.Triangles()))
  {
    var meshIntersections1, meshIntersections2 := IntersectionPass(k, mesh1, mesh2);
    result1, meshIntersections1 := RetriangulateMesh(k, mesh1, meshIntersections1);
    result2, meshIntersections2 := RetriangulateMesh(k, mesh2, meshIntersections2);
  }

  // ---------------------------------------------------------------------------
  // What the pass records

  /** The pass finds that face `i` of the first mesh meets face `j` of the
      second with result `res`. */
  predicate Found(k: Kernel, tris1: seq<Tri>, tris2: seq<Tri>, i: nat, j: nat, res: TriTriResult)
  {
    i < |tris1| && j < |tris2| && Test(k, tris1, tris2, i, j).hasIntersection && res == Test(k, tris1, tris2, i, j)
  }

  /** A face's records up to `m` are exactly its hits against the faces before `m`. */
  lemma {:induction false} RowMembers(k: Kernel, tris1: seq<Tri>, tris2: seq<Tri>, i: nat, m: nat)
    requires i < |tris1| && m <= |tris2|
    ensures forall res, j: nat :: (MeshIntersection(res, j) in Row(k, tris1, tris2, i, m)
      <==> j < m && Found(k, tris1, tris2, i, j, res))
  {
    if m > 0 {
      RowMembers(k, tris1, tris2, i, m - 1);
    }
  }

  /** A face's records name faces before `m`, in strictly increasing order. */
  lemma {:induction false} RowSorted(k: Kernel, tris1: seq<Tri>, tris2: seq<Tri>, i: nat, m: nat)
    requires i < |tris1| && m <= |tris2|
    ensures forall n :: 0 <= n < |Row(k, tris1, tris2, i, m)| ==> Row(k, tris1, tris2, i, m)[n].otherTriangleIndex < m
    ensures forall n, n' :: 0 <= n < n' < |Row(k, tris1, tris2, i, m)| ==>
      Row(k, tris1, tris2, i, m)[n].otherTriangleIndex < Row(k, tris1, tris2, i, m)[n'].otherTriangleIndex
  {
    if m > 0 {
      RowSorted(k, tris1, tris2, i, m - 1);
    }
  }

  /** A face has no records exactly when it meets none of the faces before `m`. */
  lemma {:induction false} RowEmpty(k: Kernel, tris1: seq<Tri>, tris2: seq<Tri>, i: nat, m: nat)
    requires i < |tris1| && m <= |tris2|
    ensures Row(k, tris1, tris2, i, m) == [] <==> forall j: nat :: j < m ==> !Test(k, tris1, tris2, i, j).hasIntersection
  {
    if m > 0 {
      RowEmpty(k, tris1, tris2, i, m - 1);
    }
  }

  /** The same three facts for a face of the second mesh against the first `m`
      faces of the first mesh. */
  lemma {:induction false} ColMembers(k: Kernel, tris1: seq<Tri>, tris2: seq<Tri>, j: nat, m: nat)
    requires j < |tris2| && m <= |tris1|
    ensures forall res, i: nat :: (MeshIntersection(res, i) in Col(k, tris1, tris2, j, m)
      <==> i < m && Found(k, tris1, tris2, i, j, res))
  {
    if m > 0 {
      ColMembers(k, tris1, tris2, j, m - 1);
    }
  }

  lemma {:induction false} ColSorted(k: Kernel, tris1: seq<Tri>, tris2: seq<Tri>, j: nat, m: nat)
    requires j < |tris2| && m <= |tris1|
    ensures forall n :: 0 <= n < |Col(k, tris1, tris2, j, m)| ==> Col(k, tris1, tris2, j, m)[n].otherTriangleIndex < m
    ensures forall n, n' :: 0 <= n < n' < |Col(k, tris1, tris2, j, m)| ==>
      Col(k, tris1, tris2, j, m)[n].otherTriangleIndex < Col(k, tris1, tris2, j, m)[n'].otherTriangleIndex
  {
    if m > 0 {
      ColSorted(k, tris1, tris2, j, m - 1);
    }
  }

  lemma {:induction false} ColEmpty(k: Kernel, tris1: seq<Tri>, tris2: seq<Tri>, j: nat, m: nat)
    requires j < |tris2| && m <= |tris1|
    ensures Col(k, tris1, tris2, j, m) == [] <==> forall i: nat :: i < m ==> !Test(k, tris1, tris2, i, j).hasIntersection
  {
    if m > 0 {
      ColEmpty(k, tris1, tris2, j, m - 1);
    }
  }

  /**
   Symmetry: face `i` of the first mesh holds the record {res, j} exactly when
   the primitive reports a hit with result `res` for the pair (i, j), and so
   exactly when face `j` of the second mesh holds the record {res, i}.
   */
  lemma Symmetry(k: Kernel, tris1: seq<Tri>, tris2: seq<Tri>)
    ensures forall i: nat, j: nat, res ::
      (i in RowIndex(k, tris1, tris2) && MeshIntersection(res, j) in RowIndex(k, tris1, tris2)[i])
      <==> Found(k, tris1, tris2, i, j, res)
    ensures forall i: nat, j: nat, res ::
      (j in ColIndex(k, tris1, tris2) && MeshIntersection(res, i) in ColIndex(k, tris1, tris2)[j])
      <==> Found(k, tris1, tris2, i, j, res)
    ensures forall i: nat, j: nat, res ::
      (i in RowIndex(k, tris1, tris2) && MeshIntersection(res, j) in RowIndex(k, tris1, tris2)[i])
      <==> (j in ColIndex(k, tris1, tris2) && MeshIntersection(res, i) in ColIndex(k, tris1, tris2)[j])
  {
    var index1: MeshIntersections, index2: MeshIntersections := RowIndex(k, tris1, tris2), ColIndex(k, tris1, tris2);
    forall i: nat, j: nat, res
      ensures (i in index1 && MeshIntersection(res, j) in index1[i]) <==> Found(k, tris1, tris2, i, j, res)
    {
      if i < |tris1| {
        RowMembers(k, tris1, tris2, i, |tris2|);
      }
    }
    forall i: nat, j: nat, res
      ensures (j in index2 && MeshIntersection(res, i) in index2[j]) <==> Found(k, tris1, tris2, i, j, res)
    {
      if j < |tris2| {
        ColMembers(k, tris1, tris2, j, |tris1|);
      }
    }
  }

  /**
   Bounds and order: every key of an index is a face of its own mesh, every
   record names a face of the other mesh, no entry is empty, and within an
   entry the other face indices strictly increase.
   */
  lemma IndexShape(k: Kernel, tris1: seq<Tri>, tris2: seq<Tri>)
    ensures forall i :: i in RowIndex(k, tris1, tris2) ==>
      i < |tris1| && RowIndex(k, tris1, tris2)[i] != [] &&
      (forall n :: 0 <= n < |RowIndex(k, tris1, tris2)[i]| ==> RowIndex(k, tris1, tris2)[i][n].otherTriangleIndex < |tris2|) &&
      (forall n, n' :: 0 <= n < n' < |RowIndex(k, tris1, tris2)[i]| ==>
        RowIndex(k, tris1, tris2)[i][n].otherTriangleIndex < RowIndex(k, tris1, tris2)[i][n'].otherTriangleIndex)
    ensures forall j :: j in ColIndex(k, tris1, tris2) ==>
      j < |tris2| && ColIndex(k, tris1, tris2)[j] != [] &&
      (forall n :: 0 <= n < |ColIndex(k, tris1, tris2)[j]| ==> ColIndex(k, tris1, tris2)[j][n].otherTriangleIndex < |tris1|) &&
      (forall n, n' :: 0 <= n < n' < |ColIndex(k, tris1, tris2)[j]| ==>
        ColIndex(k, tris1, tris2)[j][n].otherTriangleIndex < ColIndex(k, tris1, tris2)[j][n'].otherTriangleIndex)
  {
    var index1: MeshIntersections, index2: MeshIntersections := RowIndex(k, tris1, tris2), ColIndex(k, tris1, tris2);
    forall i: nat | i in index1
      ensures forall n :: 0 <= n < |index1[i]| ==> index1[i][n].otherTriangleIndex < |tris2|
      ensures forall n, n' :: 0 <= n < n' < |index1[i]| ==> index1[i][n].otherTriangleIndex < index1[i][n'].otherTriangleIndex
    {
      RowMembers(k, tris1, tris2, i, |tris2|);
      RowSorted(k, tris1, tris2, i, |tris2|);
      forall n | 0 <= n < |index1[i]| ensures index1[i][n].otherTriangleIndex < |tris2| {
        assert index1[i][n] in index1[i];
        assert MeshIntersection(index1[i][n].result, index1[i][n].otherTriangleIndex) == index1[i][n];
      }
    }
    forall j: nat | j in index2
      ensures forall n :: 0 <= n < |index2[j]| ==> index2[j][n].otherTriangleIndex < |tris1|
      ensures forall n, n' :: 0 <= n < n' < |index2[j]| ==> index2[j][n].otherTriangleIndex < index2[j][n'].otherTriangleIndex
    {
      ColMembers(k, tris1, tris2, j, |tris1|);
      ColSorted(k, tris1, tris2, j, |tris1|);
      forall n | 0 <= n < |index2[j]| ensures index2[j][n].otherTriangleIndex < |tris1| {
        assert index2[j][n] in index2[j];
        assert MeshIntersection(index2[j][n].result, index2[j][n].otherTriangleIndex) == index2[j][n];
      }
    }
  }

  /** When no face pair intersects, both indices are empty and both results
      equal their inputs face for face. */
  lemma NoHitsPassthrough(k: Kernel, tris1: seq<Tri>, tris2: seq<Tri>)
    requires forall i, j :: 0 <= i < |tris1| && 0 <= j < |tris2| ==> !Test(k, tris1, tris2, i, j).hasIntersection
    ensures RowIndex(k, tris1, tris2) == map[] && ColIndex(k, tris1, tris2) == map[]
    ensures Retriangulated(k, tris1, RowIndex(k, tris1, tris2)) == tris1
    ensures Retriangulated(k, tris2, ColIndex(k, tris1, tris2)) == tris2
  {
    forall i: nat | i < |tris1| ensures Row(k, tris1, tris2, i, |tris2|) == [] {
      RowEmpty(k, tris1, tris2, i, |tris2|);
    }
    forall j: nat | j < |tris2| ensures Col(k, tris1, tris2, j, |tris1|) == [] {
      ColEmpty(k, tris1, tris2, j, |tris1|);
    }
    assert RowIndex(k, tris1, tris2) == map[];
    assert ColIndex(k, tris1, tris2) == map[];
    Passthrough(k, tris1, map[]);
    Passthrough(k, tris2, map[]);
  }

  // ---------------------------------------------------------------------------
  // Counting

  /** The number of records held under the first `n` keys of an index. */
  function Total(index: MeshIntersections, n: nat): nat
  {
    if n == 0 then 0 else Total(index, n - 1) + |Lookup(index, n - 1)|
  }

  function Hit(k: Kernel, tris1: seq<Tri>, tris2: seq<Tri>, i: nat, j: nat): nat
    requires i < |tris1| && j < |tris2|
  {
    if Test(k, tris1, tris2, i, j).hasIntersection then 1 else 0
  }

  /** Hits of face `i` of the first mesh against the first `m` faces of the second. */
  function RowHits(k: Kernel, tris1: seq<Tri>, tris2: seq<Tri>, i: nat, m: nat): nat
    requires i < |tris1| && m <= |tris2|
  {
    if m == 0 then 0 else RowHits(k, tris1, tris2, i, m - 1) + Hit(k, tris1, tris2, i, m - 1)
  }

  /** Hits of face `j` of the second mesh against the first `m` faces of the first. */
  function ColHits(k: Kernel, tris1: seq<Tri>, tris2: seq<Tri>, j: nat, m: nat): nat
    requires j < |tris2| && m <= |tris1|
  {
    if m == 0 then 0 else ColHits(k, tris1, tris2, j, m - 1) + Hit(k, tris1, tris2, m - 1, j)
  }

  /** The number of intersecting pairs among the first `a` faces of the first
      mesh and the first `b` faces of the second, counted row by row. */
  function HitCount(k: Kernel, tris1: seq<Tri>, tris2: seq<Tri>, a: nat, b: nat): nat
    requires a <= |tris1| && b <= |tris2|
  {
    if a == 0 then 0 else HitCount(k, tris1, tris2, a - 1, b) + RowHits(k, tris1, tris2, a - 1, b)
  }

  /** The same pairs counted column by column. */
  function HitCountByCols(k: Kernel, tris1: seq<Tri>, tris2: seq<Tri>, a: nat, b: nat): nat
    requires a <= |tris1| && b <= |tris2|
  {
    if b == 0 then 0 else HitCountByCols(k, tris1, tris2, a, b - 1) + ColHits(k, tris1, tris2, b - 1, a)
  }

  lemma {:induction false} RowLength(k: Kernel, tris1: seq<Tri>, tris2: seq<Tri>, i: nat, m: nat)
    requires i < |tris1| && m <= |tris2|
    ensures |Row(k, tris1, tris2, i, m)| == RowHits(k, tris1, tris2, i, m)
  {
    if m > 0 {
      RowLength(k, tris1, tris2, i, m - 1);
    }
  }

  lemma {:induction false} ColLength(k: Kernel, tris1: seq<Tri>, tris2: seq<Tri>, j: nat, m: nat)
    requires j < |tris2| && m <= |tris1|
    ensures |Col(k, tris1, tris2, j, m)| == ColHits(k, tris1, tris2, j, m)
  {
    if m > 0 {
      ColLength(k, tris1, tris2, j, m - 1);
    }
  }

  /** Adding one row of the first mesh adds that row's hits to the column count. */
  lemma {:induction false} ByColsStep(k: Kernel, tris1: seq<Tri>, tris2: seq<Tri>, a: nat, b: nat)
    requires a < |tris1| && b <= |tris2|
    ensures HitCountByCols(k, tris1, tris2, a + 1, b)
         == HitCountByCols(k, tris1, tris2, a, b) + RowHits(k, tris1, tris2, a, b)
  {
    if b > 0 {
      ByColsStep(k, tris1, tris2, a, b - 1);
    }
  }

  /** Counting the pairs by columns gives the same number as by rows. */
  lemma {:induction false} CountExchange(k: Kernel, tris1: seq<Tri>, tris2: seq<Tri>, a: nat, b: nat)
    requires a <= |tris1| && b <= |tris2|
    ensures HitCountByCols(k, tris1, tris2, a, b) == HitCount(k, tris1, tris2, a, b)
  {
    if a > 0 {
      CountExchange(k, tris1, tris2, a - 1, b);
      ByColsStep(k, tris1, tris2, a - 1, b);
    } else {
      ZeroRowsByCols(k, tris1, tris2, b);
    }
  }

  lemma {:induction false} ZeroRowsByCols(k: Kernel, tris1: seq<Tri>, tris2: seq<Tri>, b: nat)
    requires b <= |tris2|
    ensures HitCountByCols(k, tris1, tris2, 0, b) == 0
  {
    if b > 0 {
      ZeroRowsByCols(k, tris1, tris2, b - 1);
    }
  }

  /** Reading any face of the first mesh from its index gives that face's full row. */
  lemma RowIndexAt(k: Kernel, tris1: seq<Tri>, tris2: seq<Tri>, i: nat)
    requires i < |tris1|
    ensures Lookup(RowIndex(k, tris1, tris2), i) == Row(k, tris1, tris2, i, |tris2|)
  {
  }

  /** Reading any face of the second mesh from its index gives that face's full column. */
  lemma ColIndexAt(k: Kernel, tris1: seq<Tri>, tris2: seq<Tri>, j: nat)
    requires j < |tris2|
    ensures Lookup(ColIndex(k, tris1, tris2), j) == Col(k, tris1, tris2, j, |tris1|)
  {
  }

  /** An index whose first `a` entries hold as many records as their faces
      have hits holds that many records in total as there are hits in those rows. */
  lemma {:induction false} TotalRows(k: Kernel, tris1: seq<Tri>, tris2: seq<Tri>, index: MeshIntersections, a: nat)
    requires a <= |tris1|
    requires forall i: nat :: i < a ==> |Lookup(index, i)| == RowHits(k, tris1, tris2, i, |tris2|)
    ensures Total(index, a) == HitCount(k, tris1, tris2, a, |tris2|)
  {
    if a > 0 {
      TotalRows(k, tris1, tris2, index, a - 1);
    }
  }

  /** The same for the first `b` entries of a column index. */
  lemma {:induction false} TotalCols(k: Kernel, tris1: seq<Tri>, tris2: seq<Tri>, index: MeshIntersections, b: nat)
    requires b <= |tris2|
    requires forall j: nat :: j < b ==> |Lookup(index, j)| == ColHits(k, tris1, tris2, j, |tris1|)
    ensures Total(index, b) == HitCountByCols(k, tris1, tris2, |tris1|, b)
  {
    if b > 0 {
      TotalCols(k, tris1, tris2, index, b - 1);
    }
  }

  /**
   Counting: the two indices hold the same number of records, and that number
   is the number of face pairs for which the primitive reports an intersection.
   */
  lemma RecordCount(k: Kernel, tris1: seq<Tri>, tris2: seq<Tri>)
    ensures forall i :: i in RowIndex(k, tris1, tris2) ==> i < |tris1|
    ensures forall j :: j in ColIndex(k, tris1, tris2) ==> j < |tris2|
    ensures Total(RowIndex(k, tris1, tris2), |tris1|) == HitCount(k, tris1, tris2, |tris1|, |tris2|)
    ensures Total(ColIndex(k, tris1, tris2), |tris2|) == HitCount(k, tris1, tris2, |tris1|, |tris2|)
  {
    forall i: nat | i < |tris1| ensures |Lookup(RowIndex(k, tris1, tris2), i)| == RowHits(k, tris1, tris2, i, |tris2|) {
      RowIndexAt(k, tris1, tris2, i);
      RowLength(k, tris1, tris2, i, |tris2|);
    }
    forall j: nat | j < |tris2| ensures |Lookup(ColIndex(k, tris1, tris2), j)| == ColHits(k, tris1, tris2, j, |tris1|) {
      ColIndexAt(k, tris1, tris2, j);
      ColLength(k, tris1, tris2, j, |tris1|);
    }
    TotalRows(k, tris1, tris2, RowIndex(k, tris1, tris2), |tris1|);
    TotalCols(k, tris1, tris2, ColIndex(k, tris1, tris2), |tris2|);
    CountExchange(k, tris1, tris2, |tris1|, |tris2|);
  }
}
