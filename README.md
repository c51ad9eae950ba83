# Mesh–mesh intersection and retriangulation (web-ifc), modelled in Dafny

This project models the bookkeeping core of web-ifc's boolean mesh–mesh
intersection (`src/wasm/include/math/intersect-mesh-mesh.h`). Two triangle
meshes (`IfcGeometry`) are intersected face by face. Every face pair the
triangle–triangle primitive reports as intersecting is recorded twice: once in
each mesh's intersection index (`MeshIntersections`, a map from face index to an
ordered list of `MeshIntersection` records). Each mesh is then rebuilt face by
face:

- a face without records is copied as it is;
- a face with records is projected into its own 2D frame;
- its records become boundary loops (`makeLoops`);
- the triangulation primitive cuts the face along those loops;
- every piece not tagged `-1` is mapped back onto the face's original corners
  and appended to the output mesh.

The geometry stays abstract. Projection, unprojection, `equals2d(…, EPS_SMALL)`,
`intersect_triangle_triangle` and `triangulate` are fields of a `Kernel` value
that is passed to every operation. Nothing is assumed about them, so every
property below holds whatever those primitives compute.

Files:

- `types.dfy` (module `MeshTypes`): points, intersection results, records,
  the index type, loops, triangulation pieces, the `Kernel`.
- `mesh.dfy` (module `Geometry`): the `IfcGeometry` class. Its point buffer and
  face list are fields that `AddFace` updates in place. Its observable view
  `Triangles()` is the sequence of corner triples.
- `loops.dfy` (module `Loops`): `makeLoops` as a method with a loop, and its
  specification `LoopsOf`.
- `retriangulate.dfy` (module `Retriangulation`): `retriangulateMesh` as a
  method with loops, and its specification `Retriangulated`. Lemmas cover
  passthrough, grouping and sentinel filtering.
- `intersect.dfy` (module `MeshMeshIntersection`): the nested pairwise pass and
  `intersectMeshMesh`. The specification indices `RowIndex`/`ColIndex` come
  with lemmas for symmetry, bounds, order and counting.

Three behaviours of the code that the model keeps as they are:

- A face whose only loop is a single point gets no special case. The test at
  line 110 only decides whether the debug vector `vecs` is built: it is built
  when the face is not single-point-only. The face then reaches `triangulate`
  at line 153 like any other face with records (`FacePiecesShape`,
  `SinglePointOnly`).
- `retriangulateMesh` takes the index by non-const reference and reads it
  with `std::map::operator[]` at line 97. That inserts an empty list for every
  face index that had no entry (`RetriangulateMesh`, `ReadStep`).
- Every face is walked in order, and a missing entry is treated like an empty
  list.

## Model

| member | source | states |
|---|---|---|
| `Geometry.IfcGeometry.constructor` | src/wasm/include/math/intersect-mesh-mesh.h:86 | a fresh output mesh has no faces |
| `Geometry.IfcGeometry.AddFace` | src/wasm/include/math/intersect-mesh-mesh.h:167-173 | appending a face by its three corner coordinates adds exactly that corner triple at the end of the mesh's faces and changes no earlier face |
| `Loops.MakeLoops` | src/wasm/include/math/intersect-mesh-mesh.h:59-82 | exactly one loop per record, in record order. A record whose projected start and end are `equals2d` gives the single-point loop `{true, ps, ps}`. Any other record gives the edge loop `{false, pe, ps}`, its ends reversed. The result equals the specification `LoopsOf` used by the retriangulator |
| `Loops.LoopsOfAppend` | src/wasm/include/math/intersect-mesh-mesh.h:63-79 | each record is turned into its loop independently: the loops of a concatenated record list are the concatenated loops |
| `Loops.SinglePointOnly` | src/wasm/include/math/intersect-mesh-mesh.h:108-110 | the condition negated at line 110 (exactly one loop, and it is a single point: the case in which no debug vector is built) holds iff there is exactly one record and its projected ends are `equals2d` |
| `Retriangulation.Survivors` | src/wasm/include/math/intersect-mesh-mesh.h:155-157 | the positions of the tessellation pieces whose `id != -1`: each such position once, strictly ascending, and no discarded position |
| `Retriangulation.KeptPieces` | src/wasm/include/math/intersect-mesh-mesh.h:155-169 | the faces appended for a tessellation are one per piece with `id != -1`, in tessellation order. Each is the piece's three vertices unprojected against the face's original corners |
| `Retriangulation.FacePiecesShape` | src/wasm/include/math/intersect-mesh-mesh.h:97-174 | a face with no records contributes exactly itself. A face with records contributes one face per kept piece of `triangulate(pa, pb, pc, loops)`, unprojected against its own corners. The single-point-only case is triangulated like any other |
| `Retriangulation.Passthrough` | src/wasm/include/math/intersect-mesh-mesh.h:88-98 | when no face has records, the output faces equal the input faces, point for point and in order |
| `Retriangulation.PrefixOutput` | src/wasm/include/math/intersect-mesh-mesh.h:88-175 | the output built for the first `i` faces is a prefix of the whole output: later faces only append |
| `Retriangulation.Grouped` | src/wasm/include/math/intersect-mesh-mesh.h:88-175 | the output is grouped by input face in ascending order. The faces of input face `i` are exactly the slice between its offset and the next face's offset |
| `Retriangulation.PassthroughAt` | src/wasm/include/math/intersect-mesh-mesh.h:171-174 | a face with an empty record list takes exactly one output place, holding its corners `a, b, c` in that order |
| `Retriangulation.RetriangulatedStep` | src/wasm/include/math/intersect-mesh-mesh.h:88-175 | the output for the first `i + 1` faces is the output for the first `i` faces followed by the faces of face `i`: faces are only ever appended, in face order |
| `Retriangulation.AppendKept` | src/wasm/include/math/intersect-mesh-mesh.h:155-169 | the tessellation loop appends to the output mesh exactly the kept pieces, unprojected, and nothing else |
| `Retriangulation.RetriangulateFace` | src/wasm/include/math/intersect-mesh-mesh.h:98-174 | the body for one face appends exactly `FacePieces` of that face and record list to the output mesh: the face itself when there are no records, else its kept pieces |
| `Retriangulation.ReadStep` | src/wasm/include/math/intersect-mesh-mesh.h:97 | reading `intersections[i]` returns the record list the original index holds for `i` (empty when absent), and afterwards the index holds an entry for `i` and nothing else changed |
| `Retriangulation.RetriangulateMesh` | src/wasm/include/math/intersect-mesh-mesh.h:84-178 | builds a fresh mesh whose faces are `Retriangulated` of the input's faces. The index gains an empty entry for every face index it lacked. No existing record list changes, and the input mesh is only read |
| `MeshMeshIntersection.PushBack` | src/wasm/include/math/intersect-mesh-mesh.h:207-215 | `index[key].push_back(rec)` creates the entry if absent and appends `rec` to it, leaving every other key's list unchanged |
| `MeshMeshIntersection.PassStart` | src/wasm/include/math/intersect-mesh-mesh.h:182-183 | before any pair is tested, the mid-pass indices `FirstIndexAt(0, 0)` and `SecondIndexAt(0, 0)` are empty maps, as both indices are declared empty |
| `MeshMeshIntersection.FirstStepKeys` | src/wasm/include/math/intersect-mesh-mesh.h:203-210 | testing pair `(i, j)` adds key `i` to the first index on a hit and no other key; without a hit the keys stay the same |
| `MeshMeshIntersection.FirstStepValues` | src/wasm/include/math/intersect-mesh-mesh.h:203-210 | testing pair `(i, j)` appends `{result, j}` to the list under key `i` on a hit; every other list stays the same |
| `MeshMeshIntersection.SecondStepKeys` | src/wasm/include/math/intersect-mesh-mesh.h:203-216 | testing pair `(i, j)` adds key `j` to the second index on a hit and no other key; without a hit the keys stay the same |
| `MeshMeshIntersection.SecondStepValues` | src/wasm/include/math/intersect-mesh-mesh.h:203-216 | testing pair `(i, j)` appends `{result, i}` to the list under key `j` on a hit; every other list stays the same |
| `MeshMeshIntersection.PassStep1` | src/wasm/include/math/intersect-mesh-mesh.h:203-210 | testing pair `(i, j)` moves the first index from `FirstIndexAt(i, j)` to `FirstIndexAt(i, j + 1)`: on a hit, `{result, j}` is appended under key `i`; without one, nothing changes |
| `MeshMeshIntersection.PassStep2` | src/wasm/include/math/intersect-mesh-mesh.h:203-216 | testing pair `(i, j)` moves the second index from `SecondIndexAt(i, j)` to `SecondIndexAt(i, j + 1)`: on a hit, `{result, i}` is appended under key `j`; without one, nothing changes |
| `MeshMeshIntersection.PassNextRow` | src/wasm/include/math/intersect-mesh-mesh.h:186-188 | the state after the last `j` of face `i` is the state before the first `j` of face `i + 1`, for both indices |
| `MeshMeshIntersection.PassDone` | src/wasm/include/math/intersect-mesh-mesh.h:186-218 | once every pair is tested, the mid-pass indices equal the per-face specifications `RowIndex` and `ColIndex` |
| `MeshMeshIntersection.TestPair` | src/wasm/include/math/intersect-mesh-mesh.h:190-216 | one pass step reads both faces' corners through `GetFace`/`GetPoint`, asks the primitive, and advances both indices from their state before `(i, j)` to their state after it |
| `MeshMeshIntersection.TestFace` | src/wasm/include/math/intersect-mesh-mesh.h:188-217 | the inner loop over every face `j` of the second mesh, up to its face count, advances both indices from their state before face `i` to their state before face `i + 1` |
| `MeshMeshIntersection.IntersectionPass` | src/wasm/include/math/intersect-mesh-mesh.h:182-218 | the nested `i`/`j` loops, bounded by the two face counts, leave the first index equal to `RowIndex` and the second equal to `ColIndex`. Both specifications are defined pair by pair from the primitive's answers |
| `MeshMeshIntersection.IntersectMeshMesh` | src/wasm/include/math/intersect-mesh-mesh.h:180-248 | each result is a fresh mesh: the retriangulation of its own input against its own index. The inputs are only read |
| `MeshMeshIntersection.RowMembers` | src/wasm/include/math/intersect-mesh-mesh.h:186-210 | face `i` of the first mesh holds `{res, j}` iff the primitive reports a hit for `(i, j)` with result `res` |
| `MeshMeshIntersection.ColMembers` | src/wasm/include/math/intersect-mesh-mesh.h:186-216 | face `j` of the second mesh holds `{res, i}` iff the primitive reports a hit for `(i, j)` with result `res` |
| `MeshMeshIntersection.RowSorted` | src/wasm/include/math/intersect-mesh-mesh.h:186-210 | within a record list of the first index, `otherTriangleIndex` is strictly increasing and below the number of faces tested |
| `MeshMeshIntersection.ColSorted` | src/wasm/include/math/intersect-mesh-mesh.h:186-216 | within a record list of the second index, `otherTriangleIndex` is strictly increasing and below the number of faces tested |
| `MeshMeshIntersection.RowEmpty` | src/wasm/include/math/intersect-mesh-mesh.h:205-210 | a face of the first mesh has no records iff it meets none of the faces tested |
| `MeshMeshIntersection.ColEmpty` | src/wasm/include/math/intersect-mesh-mesh.h:205-216 | a face of the second mesh has no records iff none of the faces tested meets it |
| `MeshMeshIntersection.Symmetry` | src/wasm/include/math/intersect-mesh-mesh.h:203-216 | `index1[i]` contains `{r, j}` iff `index2[j]` contains `{r, i}`, with the same result `r`, and iff the primitive reports a hit for `(i, j)` with result `r` |
| `MeshMeshIntersection.IndexShape` | src/wasm/include/math/intersect-mesh-mesh.h:186-215 | every key of an index is a face of its own mesh, and no entry is empty. Every `otherTriangleIndex` is a face of the other mesh. Within an entry they strictly increase |
| `MeshMeshIntersection.NoHitsPassthrough` | src/wasm/include/math/intersect-mesh-mesh.h:180-248 | if no face pair intersects, both indices are empty and both results equal their inputs face for face |
| `MeshMeshIntersection.TotalRows` | src/wasm/include/math/intersect-mesh-mesh.h:207-210 | an index whose entries for the first `a` faces hold as many records as those faces have hits holds, in total, the number of hits in those rows |
| `MeshMeshIntersection.TotalCols` | src/wasm/include/math/intersect-mesh-mesh.h:212-215 | the same for the first `b` entries of the second index and the hits in those columns |
| `MeshMeshIntersection.CountExchange` | src/wasm/include/math/intersect-mesh-mesh.h:186-218 | the intersecting pairs counted column by column equal the count row by row |
| `MeshMeshIntersection.RecordCount` | src/wasm/include/math/intersect-mesh-mesh.h:186-218 | the total number of records in the first index equals the total in the second, and both equal the number of face pairs `(i, j)` for which the primitive reports an intersection. Every key of the first index is a face of the first mesh, and every key of the second a face of the second |

## Left out

- The floating-point bodies of `projectOnTriangle` and `unProjectFromTriangle` (lines 17-49): normalisation, cross products, square roots and the 1000 scale. They are kernel fields with no assumed properties. The projection round trip holds only within float tolerance, so it is not stated.
- `intersect_triangle_triangle`, `triangulate`, `equals2d`/`EPS_SMALL` and `computeNormal`: their sources are not part of this model. The first three are kernel fields. The normal `n` (line 201) is never used and is not modelled.
- Area conservation and coverage of the retriangulated pieces: the code does not check it, and it depends on the triangulation primitive and on float geometry.
- `IfcGeometry::AddFace`'s vertex deduplication is not part of this model. `AddFace` appends three new points and one face referring to them. Only the corner coordinates of each face are specified, not the point buffer's layout or size.
- Coordinates are `real`, not `double`. Only equality of points is ever used.
- The unused round-trip temporaries `uupa`/`uupb`/`uupc` (lines 104-106), the debug vectors `vecs` and `lines` (lines 110-146), the discarded meshes `m1`/`m2` (lines 220-239) and the commented-out dump calls are left out. None of them affects the results.
- `retriangulateMesh` takes the index by reference. It is modelled as a value passed in and returned updated. `intersectMeshMesh` writes its results through out-parameters by move assignment; they are modelled as freshly built meshes that are returned.
- Face and point indices are unbounded naturals. The source's `uint32_t` counters and indices cannot wrap for meshes smaller than 2^32 faces, and larger meshes are not modelled.
- Out-of-range face or point indices are excluded by the precondition `Valid()` on the input meshes, as the source has no handling for them.
- `src/wasm/web-ifc-api.cpp` is not part of this model. It holds host bindings, file reading, logging and global loader registries, with no logic of this core.
