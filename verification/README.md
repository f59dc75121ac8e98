# geom-core mesh analysis, modelled in Dafny

This project models geom-core's dependency-free mesh-analysis engine and the
bookkeeping layer of its CAD side. It covers:

- **Vector and matrix primitives** (`Vectors`): dot and cross products,
  normalisation with its zero-length guard, the epsilon `==` and the exact
  lexicographic `<`, and 3x3 matrix products, transpose and rotation.
- **The indexed triangle mesh** (`Meshes`): signed-tetrahedron volume, the
  edge-count watertightness test and bounding-box extents.
- **The binary STL buffer parser** (`StlLoader`): it deduplicates vertices
  into an index table.
- **The spatial index** (`Spatial`, `Bvh`, `RayCasting`):
  - AABB expansion and the slab test;
  - Möller–Trumbore ray/triangle intersection;
  - the median-split bounding-volume hierarchy with its leaf and depth caps;
  - the branch-and-bound nearest-hit ray cast.
- **The printability analysis** (`Analysis`): overhang area, the
  printability report with its clamped 0–100 score and sampled thin-wall
  count, and the 26-direction search for the best up vector.
- **The CAD value types** (`CadTypes`).
- **The shape registry** (`Registry`): id generation, registration, lookup,
  disposal with cache invalidation, the result cache, LRU eviction and the
  rolling duration window.
- **The engine's own logic** (`CadEngine`): the complexity estimate that
  routes operations, the operation-key format, slow-operation notification
  and the cache hit rate.

How the C++ is mapped:

- A double is a `real`. IEEE rounding is not modelled.
- `sqrt`, `cos` and `sin` are fields of a `Libm` value passed as a
  parameter. Where a property needs them, the minimal law `SqrtLaw` is
  required (`sqrt(x) >= 0` and `sqrt(x) * sqrt(x) == x` for `x >= 0`).
- float32 decoding in the STL parser is a parameter from four bytes to a
  real.
- The literal tolerances (`1e-8`, `1e-6`, `1e-9`, `1e-10`) are kept as real
  constants.
- The registry is an immutable state value. Each operation returns its
  result together with the new state.
- The steady clock that stamps `lastAccess` is a logical counter. Every
  stamping event advances it.
- The built bounding-volume hierarchy stores the mesh it was built over,
  and the ray cast reads that mesh. The C++ tree keeps pointers to the
  mesh's arrays instead. The thin-wall pass and the printability report
  require (`Analysis.IndexOver`) that a built tree was built over the mesh
  being analysed.

Modules, one per file:

- `RealMath`: real_math.dfy
- `Vectors`: vectors.dfy
- `SeqFacts`: seq_facts.dfy
- `Meshes`: meshes.dfy
- `StlLoader`: stl_loader.dfy
- `Sorting`: sorting.dfy
- `Bvh`: bvh.dfy
- `Spatial`: spatial.dfy
- `RayCasting`: raycast.dfy
- `Analysis`: analysis.dfy
- `CadTypes`: cad_types.dfy
- `Registry`: registry.dfy
- `CadEngine`: cad_engine.dfy

## Model

| member | source | states |
|---|---|---|
| Vectors.OperatorLaws | include/geom-core/Vector3.hpp:20-47 | `-` undoes `+` (`Vectors.Sub`, `Vectors.Add`); the dot product (`Vectors.Dot`) is symmetric; the cross product (`Vectors.Cross`) is anti-commutative and zero on equal operands |
| Vectors.CrossOrthogonal | include/geom-core/Vector3.hpp:36-47 | the cross product is orthogonal to both of its operands |
| Vectors.LengthNonNegative | include/geom-core/Vector3.hpp:50-52 | length (`Vectors.Length`, the square root of the squared length) is non-negative and its square is the squared length |
| Vectors.Normalized | include/geom-core/Vector3.hpp:60-64 | below the 1e-10 length guard the result is exactly the zero vector; otherwise it has unit length and scaling it by the length gives back the input |
| Vectors.NormalizedUnitOrZero | include/geom-core/Vector3.hpp:60-64 | every normalised vector is either the zero vector or of unit length |
| Vectors.ApproxEqReflexiveSymmetric | include/geom-core/Vector3.hpp:67-76 | the epsilon `==` is reflexive and symmetric, and `!=` is exactly its negation |
| Vectors.ApproxEqNotTransitive | include/geom-core/Vector3.hpp:67-72 | the epsilon `==` is not transitive: two steps of 6e-10 are each equal, but their 1.2e-9 sum is not |
| Vectors.LessIrreflexive | include/geom-core/Vector3.hpp:79-83 | the lexicographic `<` is irreflexive |
| Vectors.LessTransitive | include/geom-core/Vector3.hpp:79-83 | the lexicographic `<` is transitive |
| Vectors.LessTrichotomy | include/geom-core/Vector3.hpp:79-83 | for any two vectors exactly one of `a < b`, `b < a` or exact equality holds, so the map keyed by `<` identifies only exactly equal vectors |
| Vectors.Identity | include/geom-core/Vector3.hpp:96-100 | the default matrix leaves every vector unchanged |
| Vectors.MulMat | include/geom-core/Vector3.hpp:112-132 | applying the product matrix equals applying the right factor and then the left |
| Vectors.MulMatRow | include/geom-core/Vector3.hpp:121-132 | one row of the product, dotted with v, equals that row of the left factor dotted with the right factor applied to v |
| Vectors.Transpose | include/geom-core/Vector3.hpp:149-155 | the transpose is the adjoint: `u · (Aᵀ v) == (A u) · v` for all u and v |
| Vectors.TransposeInvolution | include/geom-core/Vector3.hpp:149-155 | transposing twice gives back the matrix |
| Vectors.Rotation | include/geom-core/Vector3.hpp:135-146 | the Rodrigues matrix leaves its normalised axis fixed |
| Vectors.RotationFixesAxis | include/geom-core/Vector3.hpp:135-146 | the Rodrigues matrix fixes its axis whenever the axis is zero or of unit length, for any cosine and sine |
| Meshes.Volume | src/Mesh.cpp:117-143 | the volume is never negative and is 0 for a mesh without faces |
| Meshes.SignedSumPermutation | src/Mesh.cpp:122-139 | the signed tetrahedron sum does not depend on the order of the faces |
| Meshes.VolumeFaceOrder | src/Mesh.cpp:117-143 | reordering the faces leaves the volume unchanged |
| Meshes.SignedSumFlipAll | src/Mesh.cpp:122-139 | reversing every face's winding negates the signed sum |
| Meshes.VolumeFlipAll | src/Mesh.cpp:117-143 | reversing every face's winding leaves the volume unchanged |
| Meshes.UnitTetrahedronVolume | src/Mesh.cpp:117-143 | the unit right tetrahedron has volume 1/6 |
| Meshes.CountEdges | src/Mesh.cpp:150-173 | the counting loop maps each undirected (min, max) edge to its number of occurrences among the faces' three edges |
| Meshes.AllCountsTwo | src/Mesh.cpp:175-183 | the final scan answers true exactly when every counted edge occurs twice |
| Meshes.IsWatertight | src/Mesh.cpp:145-184 | true iff there is at least one face and every undirected edge is shared by exactly two face edges |
| Meshes.EdgeBagPermutation | src/Mesh.cpp:150-173 | the edge multiset does not depend on the order of the faces |
| Meshes.WatertightFaceOrder | src/Mesh.cpp:145-184 | reordering the faces does not change watertightness |
| Meshes.WatertightFlipAll | src/Mesh.cpp:145-184 | reversing every face's winding does not change watertightness |
| Meshes.WatertightFlipOne | src/Mesh.cpp:153-171 | reversing the winding of any one face does not change watertightness, so the test does not check consistent orientation |
| Meshes.TwoSidedTriangleWatertight | src/Mesh.cpp:145-184 | a triangle glued to its reverse is watertight |
| Meshes.SingleTriangleNotWatertight | src/Mesh.cpp:145-184 | a lone triangle is never watertight |
| Meshes.MinCoord | src/Mesh.cpp:191-205 | the running minimum is below every vertex coordinate and, for in-range coordinates, is attained by a vertex |
| Meshes.MaxCoord | src/Mesh.cpp:194-205 | the running maximum is above every vertex coordinate and, for in-range coordinates, is attained by a vertex |
| Meshes.Extent | src/Mesh.cpp:198-207 | the extent is non-negative, bounds every coordinate difference and, for in-range coordinates, equals one |
| Meshes.BoundingBox | src/Mesh.cpp:186-208 | the zero vector without vertices, otherwise the per-axis extents (dimensions, not corners) |
| StlLoader.TriangleCount | src/Mesh.cpp:50-53 | the count read from bytes 80..83 is a 32-bit unsigned value |
| StlLoader.Stream | src/Mesh.cpp:71-109 | reading n records yields 3n vertices |
| StlLoader.StreamAt | src/Mesh.cpp:81-88 | vertex j of record t sits at position 3t + j of the vertex stream, and record t lies inside the buffer |
| StlLoader.DedupAllCorrect | src/Mesh.cpp:63-101 | deduplication yields a table of distinct vertices, no longer than the stream, holding exactly the stream's vertices, and one in-range index per stream vertex that points back to it |
| StlLoader.DedupPrefix | src/Mesh.cpp:90-101 | the table built from a prefix is a prefix of the final table (first-seen order) |
| StlLoader.FacesOf | src/Mesh.cpp:104-105 | face t is the index triple at positions 3t, 3t+1 and 3t+2 |
| StlLoader.FittingRecords | src/Mesh.cpp:71-76 | the number of records parsed before the per-record guard fires is at most the count, fits in the buffer, and is short of the count only when the next record does not fit |
| StlLoader.MapsTableFacts | src/Mesh.cpp:63-65 | the lookup map and the vertex table agree: a vertex is in the map iff it is in the table, at the index the map gives |
| StlLoader.LookupVertex | src/Mesh.cpp:90-101 | one map lookup performs exactly one deduplication step and keeps the map consistent with the table |
| StlLoader.LookupRecord | src/Mesh.cpp:83-102 | the three lookups of one record perform three deduplication steps in order |
| StlLoader.ReadRecord | src/Mesh.cpp:71-109 | one loop iteration extends the parsed prefix by one record |
| StlLoader.ParseRecords | src/Mesh.cpp:63-109 | the loop succeeds iff all `count` records fit, and the mesh it leaves is the deduplicated mesh of exactly the records that fit |
| StlLoader.LoadFromStlBufferAsWritten | src/Mesh.cpp:37-115 | as written: fewer than 84 bytes fails with an empty mesh; otherwise the outcome is the parse bounded by the 32-bit wrapped expected size |
| StlLoader.LoadFromStlBuffer | src/Mesh.cpp:37-115 | corrected: the same parser with the expected size computed without wrap-around |
| StlLoader.MeshOfStream | src/Mesh.cpp:63-109 | the mesh of a stream has one face per triple and at most as many vertices as the stream, is well formed, has distinct vertices, and its face corners reproduce the stream |
| StlLoader.MeshOfCorrect | src/Mesh.cpp:64-109 | the mesh loaded from n records has n faces and at most 3n distinct vertices, all indices are valid, and face t's corners are record t's three vertices in order (the normal and attribute bytes are ignored) |
| StlLoader.RoundTripAt | src/Mesh.cpp:79-108 | replacing face t's indices by their vertices gives back record t's vertex triple |
| StlLoader.LoadFailureLeavesEmpty | src/Mesh.cpp:55-61 | with the corrected size check every failure leaves the mesh empty |
| StlLoader.LoadSucceedsIff | src/Mesh.cpp:55-76 | under either size check, loading succeeds iff the buffer really holds 84 + 50·count bytes, and then there are exactly `count` faces |
| StlLoader.AsWrittenKeepsPartialMesh | src/Mesh.cpp:56-76 | a 184-byte buffer whose count is 85899346 passes the wrapped size check (bound 88), then fails with two triangles left in the mesh |
| Sorting.Merge | src/Spatial.cpp:169-181 | merging two sorted sequences gives a sorted permutation of their concatenation |
| Sorting.MergeSort | src/Spatial.cpp:169-181 | the centroid sort returns a sorted permutation of the triangle indices |
| Sorting.SortedHalves | src/Spatial.cpp:169-187 | cutting a sorted list anywhere, and rearranging each part, leaves no key on the left above any key on the right |
| Spatial.AtZero | include/geom-core/Spatial.hpp:20-22 | the point at parameter 0 is the ray's origin |
| Spatial.ExpandPoint | include/geom-core/Spatial.hpp:44-51 | the expanded box contains the point and the old box, and each of its corner coordinates is the old coordinate or the point's |
| Spatial.ExpandPointInside | include/geom-core/Spatial.hpp:44-51 | expanding by a point that is already inside leaves the box unchanged |
| Spatial.ExpandEmptyBox | include/geom-core/Spatial.hpp:32-51 | expanding the default (inverted) box by an in-range point gives the degenerate box at that point |
| Spatial.EnclosesTransitive | include/geom-core/Spatial.hpp:44-59 | box containment is transitive |
| Spatial.ExpandBox | include/geom-core/Spatial.hpp:56-59 | expanding by another box gives a box that contains both |
| Spatial.Center | include/geom-core/Spatial.hpp:64-68 | the centre of a proper box lies inside it |
| Spatial.SurfaceArea | include/geom-core/Spatial.hpp:73-78 | the surface area of a proper box is non-negative |
| Spatial.SurfaceAreaMonotone | include/geom-core/Spatial.hpp:73-78 | a box enclosing a proper box has at least its surface area |
| Spatial.SlabAxis | src/Spatial.cpp:17-41 | one slab step fails on a parallel axis whose origin is outside the slab, and on success only narrows the interval |
| Spatial.Intersect | src/Spatial.cpp:12-45 | a reported intersection has `0 <= tMin <= tMax`, and any parallel axis with the origin outside the slab makes the test fail |
| Spatial.SlabAxisSound | src/Spatial.cpp:23-40 | a parameter at which the ray lies inside the slab survives the slab step |
| Spatial.SlabLoopSound | src/Spatial.cpp:17-42 | a parameter inside every remaining slab survives the remaining steps |
| Spatial.IntersectSound | src/Spatial.cpp:12-45 | if the ray is inside the box at some t in [0, max double], the slab test reports a hit with t in [tMin, tMax] |
| Spatial.Decide | src/Spatial.cpp:69-95 | a determinant below 1e-8 in magnitude misses; a hit has `t > 1e-8` and barycentric coordinates in the triangle, each the Cramer quotient by the determinant |
| Spatial.IntersectRayTriangle | src/Spatial.cpp:51-96 | a near-parallel ray misses; a hit has `t > 1e-8`, `u, v >= 0` and `u + v <= 1` |
| Spatial.HitIsOnRayAndTriangle | src/Spatial.cpp:60-96 | a reported hit is on the ray at t and is the barycentric point (u, v) of the triangle |
| Spatial.HitIsReported | src/Spatial.cpp:51-96 | conversely, a point of the triangle at `t > 1e-8` along a ray whose determinant is at least 1e-8 is reported with exactly that (t, u, v) |
| Spatial.TriangleNormal | src/Spatial.cpp:102-106 | the normal is zero or of unit length, and perpendicular to both edges; it is zero when the edges' cross product is shorter than the tolerance, and otherwise scaling it by that product's length gives the product back, so it points along (v1 − v0) × (v2 − v0) |
| Spatial.TriangleArea | src/Spatial.cpp:108-112 | the area is non-negative and four times its square is the squared length of the edge cross product |
| Spatial.AreaFromEdges | src/Spatial.cpp:108-112 | the area satisfies `4·A² = |e1|²·|e2|² − (e1·e2)²` (Lagrange's identity) |
| Spatial.CollinearTriangle | src/Spatial.cpp:102-112 | collinear vertices give area 0 and the zero normal |
| Spatial.BarycentricInBox | src/Spatial.cpp:133-144 | a barycentric point of a triangle lies in every box holding its three vertices |
| Bvh.ComputeBounds | src/Spatial.cpp:133-144 | the bounds of no triangles are the default (inverted) box |
| Bvh.ExpandTriangle | src/Spatial.cpp:137-140 | expanding by a triangle's three vertices keeps the old box and contains all three |
| Bvh.BoundsContainTriangles | src/Spatial.cpp:133-144 | the computed bounds contain every vertex of every listed triangle |
| Bvh.BoundsLeast | src/Spatial.cpp:133-144 | the computed bounds lie inside every box that holds all the listed triangles (they are the tightest) |
| Bvh.SplitAxis | src/Spatial.cpp:162-166 | the split axis has the largest extent; ties go to x before y before z |
| Bvh.BuildNode | src/Spatial.cpp:146-193 | the leaves hold a permutation of the input indices; a node is a leaf iff it has at most 10 triangles or depth ≥ 32; every node's bounds contain its subtree's triangles; inner nodes split at n/2; no leaf lies below depth 32. Every inner node splits at the median (`Bvh.MedianSplits`): along the longest axis of its box, no `Bvh.Centroid` on the left lies beyond one on the right |
| Bvh.InnerMedian | src/Spatial.cpp:169-187 | two halves of a list sorted along the node's split axis make an inner node that splits at the median |
| Bvh.InnerProperties | src/Spatial.cpp:183-190 | joining two children built from the two halves of the sorted indices keeps every node invariant |
| Bvh.Range | src/Spatial.cpp:124-127 | the initial index list is 0, 1, …, n−1 |
| Bvh.Build | src/Spatial.cpp:118-131 | the built tree is marked built over its mesh, its leaves hold each triangle index exactly once, and the bounds, leaf-size, halving, median-split and depth invariants hold |
| RayCasting.TestTriangle | src/Spatial.cpp:224-239 | the leaf test replaces the best hit iff the triangle is hit within (1e-6, maxDistance) and strictly nearer, recording its distance, point and normal |
| RayCasting.ScanLeaf | src/Spatial.cpp:222-240 | a leaf scan either keeps the best hit or replaces it with a nearer valid hit on one of the leaf's triangles |
| RayCasting.ScanLeafNearest | src/Spatial.cpp:222-240 | after a leaf scan the distance is the nearest candidate distance below the incoming best |
| RayCasting.CastNode | src/Spatial.cpp:206-246 | a subtree visit either keeps the best hit or replaces it with a nearer valid hit on a triangle of that subtree |
| RayCasting.PruneSound | src/Spatial.cpp:212-220 | a box that the slab test rejects, or whose entry exceeds a hit, holds no candidate nearer than that hit, so pruning loses nothing |
| RayCasting.CastNodeNearest | src/Spatial.cpp:206-246 | the branch-and-bound visit finds the nearest candidate distance in the subtree |
| RayCasting.RayCast | src/Spatial.cpp:195-204 | without a root the result is the default hit; otherwise it is the default or a valid hit (within (1e-6, maxDistance), point = ray.at(distance)) |
| RayCasting.TestAll | src/Spatial.cpp:224-239 | brute-force reference: the nearest hit over all triangles is the default or a valid hit on a face |
| RayCasting.NearestUnique | src/Spatial.cpp:232-237 | the nearest distance over a set of triangles does not depend on their order |
| RayCasting.RayCastNearest | src/Spatial.cpp:195-246 | ray casting through the built tree yields the nearest candidate distance over all faces |
| RayCasting.RayCastMatchesTestAll | src/Spatial.cpp:195-246 | the tree ray cast and the brute-force scan agree on hit, distance and point |
| RayCasting.RayCastHitsIffCandidate | src/Spatial.cpp:195-246 | the ray cast hits iff some face is hit within (1e-6, maxDistance) |
| Analysis.FaceArea | src/Analyzer.cpp:328 | every face area is non-negative |
| Analysis.OverhangSums | src/Analyzer.cpp:319-339 | the running sums satisfy `0 <= overhang <= total` |
| Analysis.AnalyzeOverhangs | src/Analyzer.cpp:301-343 | both areas are 0 for a mesh without vertices, and `0 <= overhang <= total`; a face's area counts as overhang (`Analysis.IsOverhang`) when its normal (`Analysis.FaceNormal`) dotted with up is below −cos of the angle |
| Analysis.TotalIndependent | src/Analyzer.cpp:319-339 | the total area does not depend on the up vector or the threshold |
| Analysis.OverhangMonotone | src/Analyzer.cpp:333-338 | lowering the cosine threshold never decreases the overhang area |
| Analysis.OverhangExtremes | src/Analyzer.cpp:319-339 | if every face is an overhang the overhang area is the total; if none is, it is 0 |
| Analysis.OverhangAngleMonotone | src/Analyzer.cpp:309-338 | for critical angles in [0°, 180°] a larger angle flags at least as much area |
| Analysis.Percentage | src/Analyzer.cpp:128-130 | the overhang percentage is in [0, 100] when `0 <= overhang <= total`, and 0 when the total is not positive |
| Analysis.SampleRate | src/Analyzer.cpp:141 | the sampling stride is 1 or 10 |
| Analysis.AdjacentNormals | src/Analyzer.cpp:146-160 | the number of adjacent faces counted is zero iff no face uses the vertex, and then the summed normal is zero |
| Analysis.InwardRay | src/Analyzer.cpp:166-167 | the inward ray returns to the vertex after the 0.001 offset |
| Analysis.ThinHitMatchesTestAll | src/Analyzer.cpp:170-174 | the thin-wall verdict from the tree equals the verdict from the brute-force scan |
| Analysis.SamplesCount | src/Analyzer.cpp:141-143 | stride 1 visits every vertex; stride 10 visits ⌈n/10⌉ of them |
| Analysis.ThinWallsFrom | src/Analyzer.cpp:143-176 | the number of sampled vertices that pass the thin-wall test (`Analysis.ThinWallAt`: the vertex has adjacent faces and the cast of its inward ray, `Analysis.VertexRay`, hits nearer than the minimum) is at most the number of sampled vertices |
| Analysis.Samples | src/Analyzer.cpp:141-143 | the number of vertices the loop from `i` visits with a positive stride is at most the number of vertices left |
| Analysis.ThinWallCount | src/Analyzer.cpp:136-182 | without a built tree the count is 0; it never exceeds the vertex count |
| Analysis.Score | src/Analyzer.cpp:188-199 | the score is non-negative, and at most 100 for non-negative inputs |
| Analysis.ScoreUnclamped | src/Analyzer.cpp:188-199 | before the clamp the score is 100 minus the two capped penalties |
| Analysis.ScoreMonotone | src/Analyzer.cpp:188-199 | more overhang or more thin walls never raises the score |
| Analysis.ScorePerfect | src/Analyzer.cpp:188-199 | the score is 100 iff there is no overhang and no thin wall |
| Analysis.ScoreWorst | src/Analyzer.cpp:188-199 | full overhang with every vertex thin scores 0 |
| Analysis.GetPrintabilityReport | src/Analyzer.cpp:106-202 | a mesh without vertices gives the default report (score 100, rest 0); otherwise `0 <= overhang <= total`, percentage in [0, 100], thin count at most the vertex count and 0 without a built tree, score in [0, 100] |
| Analysis.NormalizeAll | src/Analyzer.cpp:234-258 | every candidate direction is normalised in place |
| Analysis.Candidates | src/Analyzer.cpp:222-258 | there are exactly 26 candidate directions |
| Analysis.CandidatesAreUnit | src/Analyzer.cpp:222-258 | every candidate is a unit vector, and the last 20 are the normalised diagonals in source order |
| Analysis.Search | src/Analyzer.cpp:260-274 | the search returns Z-up (index −1) or the candidate at the index it reports |
| Analysis.SearchMinimal | src/Analyzer.cpp:260-274 | the chosen area is at most Z-up's and every candidate's; Z-up stays unless a candidate is strictly better, and the chosen candidate is strictly better than every earlier one (the earliest minimiser) |
| Analysis.Improvement | src/Analyzer.cpp:280-286 | the improvement is in [0, 100] when `0 <= optimized <= original`, 0 when the original is not positive, and 0 exactly when nothing improved |
| Analysis.AutoOrient | src/Analyzer.cpp:208-295 | a mesh without vertices gives the default result; otherwise the original area is Z-up's, the optimised area is at most it and at most every candidate's, either the up vector is Z-up with the original area, or it is the first candidate whose area is the optimum and strictly below both Z-up's and every earlier candidate's; Z-up is kept when no candidate is strictly better; the improvement is `Improvement(original, optimised)` and lies in [0, 100] |
| CadTypes.Size | include/geom-core/cad/Types.hpp:48-54 | the minimum corner plus the size is the maximum corner, and the size is zero iff the corners coincide |
| CadTypes.Center | include/geom-core/cad/Types.hpp:40-46 | the centre is equidistant from both corners |
| CadTypes.BoxVolume | include/geom-core/cad/Types.hpp:56-59 | the volume of an ordered box is non-negative, and is 0 when any side is flat |
| CadTypes.CenterInside | include/geom-core/cad/Types.hpp:40-46 | the centre and both corners of an ordered box lie inside it |
| CadTypes.TranslationInvariant | include/geom-core/cad/Types.hpp:40-59 | translating a box keeps its size and volume and moves its centre by the same offset |
| CadTypes.IsValid | include/geom-core/cad/Types.hpp:78 | a handle is valid iff its id is non-empty |
| CadTypes.VertexCount | include/geom-core/cad/Types.hpp:93 | the vertex count is the number of positions divided by 3, rounded down |
| CadTypes.TriangleCount | include/geom-core/cad/Types.hpp:94 | the triangle count is the number of indices divided by 3, rounded down |
| CadTypes.ByteSize | include/geom-core/cad/Types.hpp:97-102 | the byte size is a multiple of 4, covers 12 bytes per vertex and per triangle, and is 0 iff all four arrays are empty |
| CadTypes.ByteSizeAdditive | include/geom-core/cad/Types.hpp:97-102 | the byte size of concatenated mesh data is the sum of the parts' sizes |
| CadTypes.Ok | include/geom-core/cad/Types.hpp:131-136 | `ok` marks success, stores the value and leaves the error fields empty |
| CadTypes.Error | include/geom-core/cad/Types.hpp:138-144 | `error` marks failure, keeps the default value and stores the code and message |
| CadTypes.OkIsNotError | include/geom-core/cad/Types.hpp:131-144 | a success result never equals an error result |
| Registry.HexDigit | src/cad/ShapeRegistry.cpp:26 | each digit is a lower-case hex character that reads back as its value |
| Registry.Hex | src/cad/ShapeRegistry.cpp:26 | the hex rendering is non-empty and uses only lower-case hex digits |
| Registry.ZeroPad | src/cad/ShapeRegistry.cpp:26 | padding yields at least `width` characters: leading zeros followed by the original text |
| Registry.IdFor | src/cad/ShapeRegistry.cpp:21-28 | an id starts with "shape_" and has at least six digits |
| Registry.HexRoundTrip | src/cad/ShapeRegistry.cpp:26 | parsing the hex rendering of n gives back n |
| Registry.IdRoundTrip | src/cad/ShapeRegistry.cpp:21-28 | parsing the id of counter n gives back n |
| Registry.IdsDistinct | src/cad/ShapeRegistry.cpp:21-28 | distinct counter values give distinct ids |
| Registry.InitialValid | src/cad/ShapeRegistry.cpp:18 | the freshly constructed registry is empty and satisfies the registry invariant |
| Registry.NextIdFresh | src/cad/ShapeRegistry.cpp:21-28 | under the invariant, the next id is not registered yet |
| Registry.GenerateId | src/cad/ShapeRegistry.cpp:21-28 | the id encodes the current counter, the counter advances by one, and under the invariant the id is fresh |
| Registry.RegisterShape | src/cad/ShapeRegistry.cpp:30-60 | a null shape returns "" and changes nothing; otherwise exactly one entry is added under a fresh id, with a valid handle carrying that id and type, and the invariant is kept |
| Registry.GetShape | src/cad/ShapeRegistry.cpp:67-77 | the lookup finds the shape iff it is registered and restamps only that entry as the most recent; an absent id changes nothing |
| Registry.PeekShape | src/cad/ShapeRegistry.cpp:79-86 | the const lookup finds a shape iff it is registered, and finds the same one as the restamping lookup |
| Registry.GetHandle | src/cad/ShapeRegistry.cpp:88-95 | an unregistered id gives the empty, invalid handle; a registered one gives its stored handle |
| Registry.HandleValidIffRegistered | src/cad/ShapeRegistry.cpp:62-95 | under the invariant, a handle is valid iff its id is registered, and then it carries that id |
| Registry.InvalidateCacheFor | src/cad/ShapeRegistry.cpp:238-249 | exactly the cache entries whose value is the id or whose key contains it are removed; the rest are kept unchanged |
| Registry.CacheResult | src/cad/ShapeRegistry.cpp:210-213 | the key now maps to the id, and every other entry is untouched |
| Registry.GetCachedResult | src/cad/ShapeRegistry.cpp:215-231 | a result is returned iff the key is cached and its shape is still registered; each call adds exactly one hit or one miss |
| Registry.CacheRoundTrip | src/cad/ShapeRegistry.cpp:210-231 | looking a key up right after caching it returns the id iff that shape is registered |
| Registry.InvalidateCache | src/cad/ShapeRegistry.cpp:233-236 | after clearing, every lookup misses |
| Registry.DisposeShape | src/cad/ShapeRegistry.cpp:97-116 | an absent id returns false and changes nothing; otherwise the entry and every cache entry referring to it are removed |
| Registry.DisposedIsForgotten | src/cad/ShapeRegistry.cpp:97-116 | after disposal, the shape is gone from every lookup and no cached result returns it |
| Registry.DisposeAll | src/cad/ShapeRegistry.cpp:118-135 | the shape map and the cache are both empty afterwards, and the id counter is kept |
| Registry.NoReuseAfterDisposeAll | src/cad/ShapeRegistry.cpp:118-135 | registering after disposing everything never reissues an earlier id |
| Registry.TotalRemove | src/cad/ShapeRegistry.cpp:162-169 | the total of a map is one entry's bytes plus the total of the rest |
| Registry.EstimatedMemoryBytes | src/cad/ShapeRegistry.cpp:162-169 | the loop returns the sum of the entries' estimated bytes |
| Registry.KeysOf | src/cad/ShapeRegistry.cpp:147-155 | the listed ids are exactly the registered ids, each listed once (no duplicates, as many as there are entries), in an unspecified order |
| Registry.EvictLRU | src/cad/ShapeRegistry.cpp:176-208 | no-op when the total is within the target; otherwise only shapes are removed (the cache is untouched), the total ends within the target, and every evicted shape is no newer than every kept one. Eviction stops as soon as the total fits (`Registry.StoppedAtTarget`): keeping the newest evicted shape as well would leave the total above the target |
| Registry.EvictInOrder | src/cad/ShapeRegistry.cpp:196-207 | evicting along the access-time order leaves the total within the target and removes oldest first. It stops at the first point where the total fits: the newest evicted entry was still needed to get there |
| Registry.OlderEvicted | src/cad/ShapeRegistry.cpp:188-207 | evicting a prefix of the access-time order removes only shapes no newer than those kept |
| Registry.Window | src/cad/ShapeRegistry.cpp:291-299 | appending to a full window drops the oldest duration |
| Registry.RecordOperation | src/cad/ShapeRegistry.cpp:291-299 | recording keeps the window at no more than 1000 durations |
| Registry.RecordAllKeepsLatest | src/cad/ShapeRegistry.cpp:291-299 | after any run of recordings the window holds exactly the latest 1000 durations, in order |
| Registry.AverageWithin | src/cad/ShapeRegistry.cpp:263-268 | the average of a non-empty window lies between its lower and upper bounds |
| Registry.GetStats | src/cad/ShapeRegistry.cpp:251-274 | the statistics report the shape count, the byte total, the hit and miss counters and the window average |
| Registry.ResetStats | src/cad/ShapeRegistry.cpp:276-281 | the counters and the window are cleared; shapes, cache and counter are kept |
| Registry.SetMemoryLimit | src/cad/ShapeRegistry.cpp:171-174 | the limit is recorded but not enforced: no shape or cache entry is evicted, even when the new limit is below the current total; counters and ids are kept, and the registry invariant holds after iff it held before |
| Registry.MemoryLimitRoundTrip | src/cad/ShapeRegistry.cpp:171-174 | restoring the previous limit gives back the same registry, and of two limits set in a row the last one wins |
| CadEngine.WeightsInRange | src/cad/Engine.cpp:285-293 | every tabulated weight is in [0.02, 0.6] |
| CadEngine.BaseWeight | src/cad/Engine.cpp:295-296 | a known operation gets its table weight; an unknown one gets 0.5 |
| CadEngine.ShapeLoad | src/cad/Engine.cpp:300-307 | the added load is non-negative, and 0 when none of the ids is registered |
| CadEngine.Multiplier | src/cad/Engine.cpp:299-307 | looking the ids up one after another keeps every registered id and its shape, changes nothing but access stamps and the clock, and keeps the registry invariant |
| CadEngine.MultiplierIsLoad | src/cad/Engine.cpp:299-307 | the multiplier is 1 plus each registered shape's bytes / 100000; unknown ids add nothing |
| CadEngine.EstimatedMs | src/cad/Engine.cpp:312-323 | the time estimate is one of 5, 50, 200, 500 or 2000, and 2000 iff the score is at least 0.8 |
| CadEngine.EstimatedMsMonotone | src/cad/Engine.cpp:312-323 | the time estimate never decreases as the score grows |
| CadEngine.EstimatedBytes | src/cad/Engine.cpp:325 | for a non-negative score the byte estimate is `n × 50000 × score` truncated to an integer (the largest integer not above it); it is non-negative, at most 50000 per shape for scores in [0, 1], and 0 for no shapes |
| CadEngine.EstimateComplexity | src/cad/Engine.cpp:274-328 | `0 < score <= 1`; the estimate depends only on the weight, the summed load and the number of ids; lookups keep the registered shapes |
| CadEngine.Estimate | src/cad/Engine.cpp:309-325 | the score is `min(1, weight × multiplier)` and positive; remote is recommended iff the score is at least 0.8; the duration follows the score bands; the bytes are the truncated `n × 50000 × score`, in [0, 50000·n] |
| CadEngine.ScoreGrowsWithShapes | src/cad/Engine.cpp:299-309 | adding an id to the list never lowers the score |
| CadEngine.UnknownOperationAlone | src/cad/Engine.cpp:295-325 | an unknown operation on no shapes scores 0.5, takes 200 ms, 0 bytes, and stays local |
| CadEngine.OperationKey | src/cad/Engine.cpp:373-383 | the key starts with the operation name, and is just that name when there are no ids |
| CadEngine.LastColon | src/cad/Engine.cpp:373-383 | the position found is the last colon of the string, or −1 when there is none |
| CadEngine.KeyRoundTrip | src/cad/Engine.cpp:373-383 | for colon-free names and ids, splitting the key at colons gives back the operation followed by the ids in order |
| CadEngine.KeyMentionsIds | src/cad/Engine.cpp:373-383 | every id occurs as a substring of the key |
| CadEngine.DisposeDropsOperationsOnShape | src/cad/ShapeRegistry.cpp:238-249 | disposing any shape named in an operation key drops that key from the cache |
| CadEngine.SubstringMatchOverreaches | src/cad/ShapeRegistry.cpp:238-249 | disposing `shape_100000` also drops the cached key of the still-registered `shape_1000000`, whose id extends it |
| CadEngine.OnSlowOperation | src/cad/Engine.cpp:361-363 | registering a callback appends its threshold and keeps the earlier ones in order |
| CadEngine.RegisterThenFire | src/cad/Engine.cpp:361-371 | after registering a callback, the callbacks that fire for a duration are the ones that fired before, followed by the new one exactly when the duration reaches its threshold |
| CadEngine.FiredCallbacks | src/cad/Engine.cpp:365-371 | exactly the callbacks whose threshold is at most the duration fire, in registration order |
| CadEngine.FiringMonotone | src/cad/Engine.cpp:365-371 | a callback that fires for a duration also fires for any longer one |
| CadEngine.CacheHitRate | src/cad/Engine.cpp:346-352 | the hit rate is in [0, 1], 0 with no lookups, equal to hits / lookups otherwise, and 1 iff there were hits and no misses |
| CadEngine.HitRateMonotone | src/cad/Engine.cpp:346-352 | a hit never lowers the rate and a miss never raises it |

## Left out

- `Mesh::loadFromSTL` (src/Mesh.cpp:13-35) is file I/O and is not modelled; the buffer parser is.
- All console and error logging is left out. So are the created and disposed callbacks of the registry: they are calls into code the model cannot see.
- IEEE rounding is not modelled; doubles are exact reals.
- The float32 decoding of the STL vertices and `sqrt`, `cos` and `sin` are parameters, constrained only by `SqrtLaw`.
- The registry's mutex and singleton are left out, since the model is sequential.
- `std::chrono` time stamps are replaced by a logical clock: stamps are ordered like the events, not like wall time.
- `size_t` wrap-around in byte totals is not modelled; totals are unbounded naturals. The 32-bit wrap in the STL size check is modelled (see Findings).
- `std::sort` tie order is unspecified; `Sorting.MergeSort` (a stable sort on the centroid key) stands in. Every tree property proved holds for any sorted permutation.
- The Analyzer owns its mesh, so the null-mesh test reduces to the empty-vertex test. `buildSpatialIndex` is not modelled as a separate step: the spatial tree is passed in explicitly, and `Bvh.Build` builds it.
- A stale tree is excluded. After the mesh is reloaded, the C++ tree still holds pointers and triangle indices into the old arrays, which is undefined behaviour. The thin-wall and report functions require that a built tree was built over the mesh they analyse.
- `autoOrient`'s `sampleResolution` argument is accepted and, as in the source, unused.
- `memoryLimit` is stored by `Registry.SetMemoryLimit` but, as in the source, nothing reads it.
- The `healthCheck` fields other than the cache hit rate are left out (version, OCCT availability, counts). They are plain reads.
- `getAllHandles` and `getShapeCount` are plain reads of the map, so they are not modelled separately; `Registry.KeysOf` and `Registry.GetStats` cover the same data.
- `Engine::cancelPrecompute` is an empty placeholder and is not modelled.
- The OpenCASCADE-backed CAD operations (primitives, booleans, features, transforms, tessellation) and the STL reader of the CAD side are not part of this model.
- The default `Triangle` constructor and the mesh count accessors are plain field reads and have no rows of their own.
- Spatial.IntersectSound: proved only for rays whose direction components are each 0 or at least 1e-8 in magnitude (`ClearOfTolerance`). For a component strictly between 0 and 1e-8 the slab test treats the ray as parallel and can reject a box the ray does enter.
- RayCasting.RayCastMatchesTestAll: same `ClearOfTolerance` assumption. The triangle index agrees only up to ties between equally near triangles, because replacement uses strict `<`.
- RayCasting.RayCastNearest: same `ClearOfTolerance` assumption, and `maxDistance` at most the largest double.
- RayCasting.RayCastHitsIffCandidate: same `ClearOfTolerance` assumption, and `maxDistance` at most the largest double.
- RayCasting.PruneSound: same `ClearOfTolerance` assumption, and `maxDistance` at most the largest double.
- Analysis.ThinHitMatchesTestAll: same `ClearOfTolerance` assumption on the inward ray.
- Analysis.AutoOrient: requires `SqrtLaw`, because the candidate directions are normalised through `sqrt`; the source uses the real square root.
- Analysis.OverhangAngleMonotone: requires that the `cos` parameter is non-increasing on [0, π]. The source relies on the real cosine.
- Meshes.MinCoord: attainment is stated only when every coordinate lies within the double range, since the running minimum starts at the largest double. The same applies to Meshes.MaxCoord and Meshes.Extent.

## Findings

| source | as written | input that shows it | evidently intended | confidence | as-written member | corrected member |
|---|---|---|---|---|---|---|
| src/Mesh.cpp:56 | `84 + triangleCount * 50` is evaluated in 32-bit unsigned arithmetic before widening to `size_t`, so a huge count wraps to a small expected size and passes the size check. The per-record guard at src/Mesh.cpp:73-76 then fails, and the call returns false with the triangles parsed so far left in the mesh. | a 184-byte buffer whose bytes 80..83 are 0x52 0xB8 0x1E 0x05 (count 85899346): the expected size wraps to 88, two records are parsed, and the load fails holding two faces | the expected size computed without wrap-around, so every failure leaves the mesh empty | not executed | StlLoader.LoadFromStlBufferAsWritten, StlLoader.AsWrittenKeepsPartialMesh | StlLoader.LoadFromStlBuffer, StlLoader.LoadFailureLeavesEmpty |
