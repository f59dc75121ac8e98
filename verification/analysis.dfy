/**
 * The printability analysis of src/Analyzer.cpp: overhang area for an up
 * direction, the printability report (overhang percentage, sampled thin-wall
 * count and a 0-100 score) and the 26-direction search for the up vector
 * with the least overhang.
 *
 * The analyzer's mesh and spatial index are passed in explicitly. The mesh
 * owned by the C++ `Analyzer` is never null after construction, so the
 * null-mesh guards reduce to the empty-vertex-table tests kept below.
 */
module Analysis {
  import opened RealMath
  import opened Vectors
  import opened Meshes
  import opened Spatial
  import opened Bvh
  import opened RayCasting

  /** The value of PI written in `analyzeOverhangs`. */
  const Pi: real := 3.14159265358979323846

  /** cos of the critical angle, given in degrees. */
  function CosThreshold(lib: Libm, angleDegrees: real): real {
    lib.cos(angleDegrees * Pi / 180.0)
  }

  function FaceNormal(lib: Libm, m: Mesh, t: nat): Vec3
    requires WellFormed(m) && t < |m.faces|
  {
    var f := m.faces[t];
    TriangleNormal(lib, m.vertices[f.v0], m.vertices[f.v1], m.vertices[f.v2])
  }

  function FaceArea(lib: Libm, m: Mesh, t: nat): (r: real)
    requires WellFormed(m) && t < |m.faces|
    ensures SqrtLaw(lib) ==> 0.0 <= r
  {
    var f := m.faces[t];
    TriangleArea(lib, m.vertices[f.v0], m.vertices[f.v1], m.vertices[f.v2])
  }

  /** A face overhangs when its normal points down past the threshold: normal · up < -cos(angle). */
  predicate IsOverhang(lib: Libm, m: Mesh, up: Vec3, c: real, t: nat)
    requires WellFormed(m) && t < |m.faces|
  {
    Dot(FaceNormal(lib, m, t), up) < -c
  }

  /** Overhang area and total surface area. */
  datatype Areas = Areas(overhang: real, total: real)

  /** The face loop of `analyzeOverhangs` over the first `n` faces, with cosine threshold `c`. */
  function OverhangSums(lib: Libm, m: Mesh, up: Vec3, c: real, n: nat): (r: Areas)
    requires WellFormed(m) && n <= |m.faces|
    ensures SqrtLaw(lib) ==> 0.0 <= r.overhang <= r.total
    decreases n
  {
    if n == 0 then Areas(0.0, 0.0)
    else
      var prev := OverhangSums(lib, m, up, c, n - 1);
      var a := FaceArea(lib, m, n - 1);
      Areas(if IsOverhang(lib, m, up, c, n - 1) then prev.overhang + a else prev.overhang, prev.total + a)
  }

  /**
   * `analyzeOverhangs`: both areas are 0 for a mesh without vertices;
   * otherwise the face loop with threshold cos(angle).
   */
  function AnalyzeOverhangs(lib: Libm, m: Mesh, up: Vec3, angleDegrees: real): (r: Areas)
    requires WellFormed(m)
    ensures |m.vertices| == 0 ==> r == Areas(0.0, 0.0)
    ensures SqrtLaw(lib) ==> 0.0 <= r.overhang <= r.total
  {
    if |m.vertices| == 0 then Areas(0.0, 0.0)
    else OverhangSums(lib, m, up, CosThreshold(lib, angleDegrees), |m.faces|)
  }

  /** The total area does not depend on the up vector or the threshold. */
  lemma {:induction false} TotalIndependent(lib: Libm, m: Mesh, up1: Vec3, c1: real, up2: Vec3, c2: real, n: nat)
    requires WellFormed(m) && n <= |m.faces|
    ensures OverhangSums(lib, m, up1, c1, n).total == OverhangSums(lib, m, up2, c2, n).total
  {
    if n > 0 {
      TotalIndependent(lib, m, up1, c1, up2, c2, n - 1);
    }
  }

  /** A lower cosine threshold (a larger critical angle) flags every face flagged before, so never less area. */
  lemma {:induction false} OverhangMonotone(lib: Libm, m: Mesh, up: Vec3, c1: real, c2: real, n: nat)
    requires SqrtLaw(lib)
    requires WellFormed(m) && n <= |m.faces|
    requires c2 <= c1
    ensures OverhangSums(lib, m, up, c1, n).overhang <= OverhangSums(lib, m, up, c2, n).overhang
  {
    if n > 0 {
      OverhangMonotone(lib, m, up, c1, c2, n - 1);
    }
  }

  /** Faces that all overhang make the overhang area the whole area; faces that none do make it 0. */
  lemma {:induction false} OverhangExtremes(lib: Libm, m: Mesh, up: Vec3, c: real, n: nat)
    requires WellFormed(m) && n <= |m.faces|
    ensures (forall t :: 0 <= t < n ==> IsOverhang(lib, m, up, c, t)) ==>
              OverhangSums(lib, m, up, c, n).overhang == OverhangSums(lib, m, up, c, n).total
    ensures (forall t :: 0 <= t < n ==> !IsOverhang(lib, m, up, c, t)) ==>
              OverhangSums(lib, m, up, c, n).overhang == 0.0
  {
    if n > 0 {
      OverhangExtremes(lib, m, up, c, n - 1);
    }
  }

  /** std::cos does not increase on [0, PI]. */
  ghost predicate CosNonIncreasing(lib: Libm) {
    forall x: real, y: real :: 0.0 <= x <= y <= Pi ==> lib.cos(y) <= lib.cos(x)
  }

  /**
   * Raising the critical angle within [0, 180] degrees never lowers the
   * overhang area: the test is `dot < -cos(angle)`, and cos falls as the
   * angle rises.
   */
  lemma OverhangAngleMonotone(lib: Libm, m: Mesh, up: Vec3, a1: real, a2: real)
    requires SqrtLaw(lib) && CosNonIncreasing(lib)
    requires WellFormed(m)
    requires 0.0 <= a1 <= a2 <= 180.0
    ensures AnalyzeOverhangs(lib, m, up, a1).overhang <= AnalyzeOverhangs(lib, m, up, a2).overhang
  {
    if |m.vertices| > 0 {
      assert 0.0 <= a1 * Pi / 180.0 <= a2 * Pi / 180.0 <= Pi;
      OverhangMonotone(lib, m, up, CosThreshold(lib, a1), CosThreshold(lib, a2), |m.faces|);
    }
  }

  // ----- the printability report -----

  datatype PrintabilityReport = PrintabilityReport(
    overhangArea: real,
    overhangPercentage: real,
    thinWallVertexCount: int,
    score: real,
    totalSurfaceArea: real)

  /** A default-constructed report: score 100, every other field 0. */
  const DefaultReport: PrintabilityReport := PrintabilityReport(0.0, 0.0, 0, 100.0, 0.0)

  /** `overhangArea / totalSurfaceArea * 100`, or 0 when the total area is not positive. */
  function Percentage(overhang: real, total: real): (r: real)
    ensures 0.0 <= overhang <= total ==> 0.0 <= r <= 100.0
    ensures total <= 0.0 ==> r == 0.0
  {
    if total > 0.0 then
      FractionBounds(overhang, total);
      overhang / total * 100.0
    else 0.0
  }

  lemma FractionBounds(p: real, q: real)
    requires 0.0 < q
    ensures 0.0 <= p <= q ==> 0.0 <= p / q <= 1.0
  {
    if 0.0 <= p <= q {
      assert p / q * q == p;
    }
  }

  /** Every vertex below 10,001 vertices; every 10th above. */
  function SampleRate(vertexCount: nat): (r: nat)
    ensures r == 1 || r == 10
  {
    if vertexCount > 10000 then 10 else 1
  }

  /** The sum of the normals of the first `n` faces that use vertex `i`, and how many there are. */
  function AdjacentNormals(lib: Libm, m: Mesh, i: int, n: nat): (r: (Vec3, nat))
    requires WellFormed(m) && n <= |m.faces|
    ensures r.1 <= n
    ensures r.1 == 0 ==> r.0 == Zero
    ensures (forall t :: 0 <= t < n ==> !UsesVertex(m.faces[t], i)) <==> r.1 == 0
    decreases n
  {
    if n == 0 then (Zero, 0)
    else
      var prev := AdjacentNormals(lib, m, i, n - 1);
      if UsesVertex(m.faces[n - 1], i) then (Add(prev.0, FaceNormal(lib, m, n - 1)), prev.1 + 1)
      else prev
  }

  predicate UsesVertex(f: Triangle, i: int) {
    f.v0 == i || f.v1 == i || f.v2 == i
  }

  /** Offset of the ray origin along the vertex normal, to avoid hitting the vertex's own faces. */
  const SelfHitOffset: real := 0.001

  /** The inward ray from vertex `i`: from vertex + normal * 0.001 along -normal. */
  function InwardRay(v: Vec3, normal: Vec3): (r: Ray)
    ensures At(r, SelfHitOffset) == v
  {
    var r := Ray(Add(v, Scale(normal, SelfHitOffset)), Scale(normal, -1.0));
    assert At(r, SelfHitOffset) == Add(r.origin, Scale(r.direction, SelfHitOffset));
    r
  }

  /** The inward ray of vertex `i`, along its normalized summed face normal. */
  function VertexRay(lib: Libm, m: Mesh, i: nat): Ray
    requires WellFormed(m) && i < |m.vertices|
  {
    InwardRay(m.vertices[i], Normalized(lib, AdjacentNormals(lib, m, i, |m.faces|).0))
  }

  /** A cast result that counts as a thin wall: a hit nearer than the minimum thickness. */
  predicate ThinHit(hit: RayHit, minWall: real) {
    hit.hit && hit.distance < minWall
  }

  /**
   * The index, once built, was built over the analysed mesh: a tree left
   * over from an earlier mesh, whose indices would address the new arrays,
   * is excluded.
   */
  predicate IndexOver(tree: Tree, m: Mesh) {
    tree.Built? ==> tree.mesh == m
  }

  /**
   * The thin-wall test of one vertex: it has adjacent faces, and the inward
   * ray along its averaged normal, searched up to 10 times the minimum
   * thickness, hits a triangle nearer than the minimum thickness.
   */
  predicate ThinWallAt(lib: Libm, m: Mesh, tree: Tree, i: nat, minWall: real)
    requires WellFormed(m) && ValidTree(tree) && IndexOver(tree, m) && i < |m.vertices|
  {
    && AdjacentNormals(lib, m, i, |m.faces|).1 > 0
    && ThinHit(RayCast(lib, tree, VertexRay(lib, m, i), minWall * 10.0), minWall)
  }

  /**
   * With the index built from the mesh itself, the thin-wall decision for a
   * ray is the one testing every triangle gives, whatever the search bound,
   * provided no component of the ray direction is nonzero yet below the
   * slab test's parallel tolerance.
   */
  lemma ThinHitMatchesTestAll(lib: Libm, m: Mesh, ray: Ray, maxD: real, minWall: real)
    requires WellFormed(m)
    requires forall a: Axis :: ClearOfTolerance(ray, a)
    requires maxD <= MaxDouble
    ensures ThinHit(RayCast(lib, Build(m), ray, maxD), minWall) == ThinHit(TestAll(lib, m, ray, maxD), minWall)
  {
    RayCastMatchesTestAll(lib, m, ray, maxD);
  }

  /** How many of the sampled vertices i, i + stride, i + 2 stride, ... are below the vertex count. */
  function Samples(count: nat, stride: nat, i: nat): (r: nat)
    requires 1 <= stride
    ensures r <= count - i || i > count
    decreases count - i
  {
    if i >= count then 0 else 1 + Samples(count, stride, i + stride)
  }

  /** With stride 1 every vertex is sampled; with stride 10, one in ten (rounded up). */
  lemma {:induction false} SamplesCount(count: nat, i: nat)
    requires i <= count
    ensures Samples(count, 1, i) == count - i
    ensures Samples(count, 10, i) == (count - i + 9) / 10
    decreases count - i
  {
    if i < count {
      SamplesCount(count, i + 1);
      if i + 10 <= count {
        SamplesCount(count, i + 10);
      }
    }
  }

  /** The sampled loop of the wall-thickness pass, from vertex `i` on. */
  function ThinWallsFrom(lib: Libm, m: Mesh, tree: Tree, minWall: real, stride: nat, i: nat): (r: nat)
    requires WellFormed(m) && ValidTree(tree) && IndexOver(tree, m) && 1 <= stride
    ensures r <= Samples(|m.vertices|, stride, i)
    decreases |m.vertices| - i
  {
    if i >= |m.vertices| then 0
    else (if ThinWallAt(lib, m, tree, i, minWall) then 1 else 0) + ThinWallsFrom(lib, m, tree, minWall, stride, i + stride)
  }

  /** The wall-thickness pass: skipped (0) without a built index, otherwise the sampled count. */
  function ThinWallCount(lib: Libm, m: Mesh, tree: Tree, minWall: real): (r: nat)
    requires WellFormed(m) && ValidTree(tree) && IndexOver(tree, m)
    ensures !IsBuilt(tree) ==> r == 0
    ensures r <= |m.vertices|
  {
    if !tree.Built? then 0
    else
      SamplesCount(|m.vertices|, 0);
      ThinWallsFrom(lib, m, tree, minWall, SampleRate(|m.vertices|), 0)
  }

  /**
   * The score: 100, minus at most 50 for the overhang percentage (half a
   * point per percent), minus at most 50 for the thin-wall ratio (none when
   * there are no vertices), floored at 0.
   */
  function Score(pct: real, thin: int, vertexCount: nat): (r: real)
    ensures 0.0 <= r
    ensures 0.0 <= pct && 0 <= thin ==> r <= 100.0
  {
    var s := 100.0 - Min(pct * 0.5, 50.0);
    var s' := if vertexCount > 0 then s - Min(thin as real / vertexCount as real * 50.0, 50.0) else s;
    Max(0.0, s')
  }

  /** Each penalty is capped at 50, so the floor at 0 never applies. */
  lemma ScoreUnclamped(pct: real, thin: int, vertexCount: nat)
    ensures Score(pct, thin, vertexCount) ==
      100.0 - Min(pct * 0.5, 50.0) - (if vertexCount > 0 then Min(thin as real / vertexCount as real * 50.0, 50.0) else 0.0)
  {
  }

  /** More overhang or more thin walls never raise the score. */
  lemma ScoreMonotone(pct1: real, thin1: int, pct2: real, thin2: int, vertexCount: nat)
    requires pct1 <= pct2 && thin1 <= thin2
    ensures Score(pct2, thin2, vertexCount) <= Score(pct1, thin1, vertexCount)
  {
    if vertexCount > 0 {
      DivideMonotone(thin1 as real, thin2 as real, vertexCount as real);
    }
  }

  lemma DivideMonotone(a: real, b: real, d: real)
    requires a <= b && 0.0 < d
    ensures a / d <= b / d
  {
    assert b / d - a / d == (b - a) / d;
  }

  /** For non-negative inputs the score is 100 exactly when there is no overhang and no thin wall. */
  lemma ScorePerfect(pct: real, thin: int, vertexCount: nat)
    requires 0.0 <= pct && 0 <= thin && thin <= vertexCount
    ensures Score(pct, thin, vertexCount) == 100.0 <==> pct == 0.0 && (vertexCount == 0 || thin == 0)
  {
    if vertexCount > 0 && thin > 0 {
      assert 0.0 < thin as real / vertexCount as real by {
        PositiveQuotient(thin as real, vertexCount as real);
      }
    }
  }

  lemma PositiveQuotient(a: real, d: real)
    requires 0.0 < a && 0.0 < d
    ensures 0.0 < a / d
  {
  }

  /** Full overhang and every vertex thin give the score 0. */
  lemma ScoreWorst(pct: real, vertexCount: nat)
    requires 100.0 <= pct && 0 < vertexCount
    ensures Score(pct, vertexCount, vertexCount) == 0.0
  {
    assert vertexCount as real / vertexCount as real == 1.0;
  }

  /**
   * `getPrintabilityReport`: the default report for a mesh without
   * vertices; otherwise overhangs against up (0, 0, 1), the wall-thickness
   * pass when the index is built, and the score.
   */
  function GetPrintabilityReport(lib: Libm, m: Mesh, tree: Tree, angleDegrees: real, minWall: real): (r: PrintabilityReport)
    requires WellFormed(m) && ValidTree(tree) && IndexOver(tree, m)
    ensures |m.vertices| == 0 ==> r == DefaultReport
    ensures 0 <= r.thinWallVertexCount <= |m.vertices|
    ensures !IsBuilt(tree) ==> r.thinWallVertexCount == 0
    ensures SqrtLaw(lib) ==> 0.0 <= r.overhangArea <= r.totalSurfaceArea && 0.0 <= r.overhangPercentage <= 100.0
    ensures 0.0 <= r.score && (SqrtLaw(lib) ==> r.score <= 100.0)
  {
    if |m.vertices| == 0 then DefaultReport
    else
      var areas := AnalyzeOverhangs(lib, m, Vec3(0.0, 0.0, 1.0), angleDegrees);
      var pct := Percentage(areas.overhang, areas.total);
      var thin := ThinWallCount(lib, m, tree, minWall);
      PrintabilityReport(areas.overhang, pct, thin, Score(pct, thin, |m.vertices|), areas.total)
  }

  // ----- automatic orientation -----

  /** The original up vector, (0, 0, 1). */
  const ZUp: Vec3 := Vec3(0.0, 0.0, 1.0)

  /** The six axis directions. */
  const Cardinals: seq<Vec3> := [Vec3(1.0, 0.0, 0.0), Vec3(-1.0, 0.0, 0.0), Vec3(0.0, 1.0, 0.0),
                                 Vec3(0.0, -1.0, 0.0), Vec3(0.0, 0.0, 1.0), Vec3(0.0, 0.0, -1.0)]

  /**
   * The 12 edge diagonals, components ±1/sqrt(2) on two axes, then the 8
   * corner diagonals, components ±1/sqrt(3), in the order they are listed.
   */
  function Diagonals(lib: Libm): (r: seq<Vec3>)
    requires SqrtLaw(lib)
    ensures |r| == 20
  {
    SqrtPositive(lib, 2.0);
    SqrtPositive(lib, 3.0);
    DiagonalsOf(1.0 / lib.sqrt(2.0), 1.0 / lib.sqrt(3.0))
  }

  /** The diagonal pattern with edge component `a` and corner component `b`. */
  function DiagonalsOf(a: real, b: real): (r: seq<Vec3>)
    ensures |r| == 20
  {
    [Vec3(a, a, 0.0), Vec3(a, -a, 0.0), Vec3(-a, a, 0.0), Vec3(-a, -a, 0.0),
     Vec3(a, 0.0, a), Vec3(a, 0.0, -a), Vec3(-a, 0.0, a), Vec3(-a, 0.0, -a),
     Vec3(0.0, a, a), Vec3(0.0, a, -a), Vec3(0.0, -a, a), Vec3(0.0, -a, -a),
     Vec3(b, b, b), Vec3(b, b, -b), Vec3(b, -b, b), Vec3(b, -b, -b),
     Vec3(-b, b, b), Vec3(-b, b, -b), Vec3(-b, -b, b), Vec3(-b, -b, -b)]
  }

  function NormalizeAll(lib: Libm, vs: seq<Vec3>): (r: seq<Vec3>)
    ensures |r| == |vs| && forall j :: 0 <= j < |vs| ==> r[j] == Normalized(lib, vs[j])
  {
    if |vs| == 0 then [] else [Normalized(lib, vs[0])] + NormalizeAll(lib, vs[1..])
  }

  /** The 26 candidate up vectors: the axis directions, then the diagonals, each normalized. */
  function Candidates(lib: Libm): (r: seq<Vec3>)
    requires SqrtLaw(lib)
    ensures |r| == 26
  {
    Cardinals + NormalizeAll(lib, Diagonals(lib))
  }

  /** 1 / sqrt(x), squared, is 1 / x. */
  lemma InverseRootSquared(lib: Libm, x: real)
    requires SqrtLaw(lib) && 0.0 < x
    ensures (1.0 / lib.sqrt(x)) * (1.0 / lib.sqrt(x)) == 1.0 / x
  {
    SqrtPositive(lib, x);
    var r := lib.sqrt(x);
    assert r * r == x;
    assert (1.0 / r) * (1.0 / r) == 1.0 / (r * r);
  }

  /** A vector of unit length is left as it is by `normalized()`. */
  lemma NormalizeUnit(lib: Libm, v: Vec3)
    requires SqrtLaw(lib) && SquaredLength(v) == 1.0
    ensures Normalized(lib, v) == v
  {
    var r := lib.sqrt(1.0);
    assert 0.0 <= r && r * r == 1.0;
    assert r <= 1.0 by {
      if 1.0 < r {
        ProductMonotone(r, 1.0, r, r);
      }
    }
    assert 1.0 <= r by {
      if r < 1.0 {
        ProductMonotone(r, r, r, 1.0);
      }
    }
    assert Length(lib, v) == 1.0;
    var n := Normalized(lib, v);
    assert Scale(n, 1.0) == v;
  }

  /** Every diagonal already has unit length. */
  lemma DiagonalsAreUnit(lib: Libm)
    requires SqrtLaw(lib)
    ensures forall j :: 0 <= j < 20 ==> SquaredLength(Diagonals(lib)[j]) == 1.0
  {
    InverseRootSquared(lib, 2.0);
    InverseRootSquared(lib, 3.0);
    DiagonalsOfUnit(1.0 / lib.sqrt(2.0), 1.0 / lib.sqrt(3.0));
  }

  /** The pattern gives unit vectors when two squared `a`s and three squared `b`s each sum to 1. */
  lemma DiagonalsOfUnit(a: real, b: real)
    requires a * a == 0.5 && b * b == 1.0 / 3.0
    ensures forall j :: 0 <= j < 20 ==> SquaredLength(DiagonalsOf(a, b)[j]) == 1.0
  {
    assert (-a) * (-a) == 0.5;
    assert (-b) * (-b) == 1.0 / 3.0;
  }

  /** Each candidate is a unit vector, so each is the direction it names. */
  lemma CandidatesAreUnit(lib: Libm)
    requires SqrtLaw(lib)
    ensures forall k :: 0 <= k < 26 ==> SquaredLength(Candidates(lib)[k]) == 1.0
    ensures forall j :: 0 <= j < 20 ==> Candidates(lib)[6 + j] == Diagonals(lib)[j]
  {
    var d := Diagonals(lib);
    var c := Candidates(lib);
    DiagonalsAreUnit(lib);
    forall j | 0 <= j < 20 ensures c[6 + j] == d[j] {
      NormalizeUnit(lib, d[j]);
    }
  }

  /** The best so far: its overhang area, its up vector, and its candidate index (-1 for the original). */
  datatype Best = Best(area: real, up: Vec3, index: int)

  /**
   * The search loop over the first `n` candidates, starting from the
   * original: a candidate replaces the best only when strictly smaller.
   * `area` gives the overhang area for an up vector.
   */
  function Search(area: Vec3 -> real, cands: seq<Vec3>, n: nat): (r: Best)
    requires n <= |cands|
    ensures -1 <= r.index < n
    ensures r.up == if r.index == -1 then ZUp else cands[r.index]
    decreases n
  {
    if n == 0 then Best(area(ZUp), ZUp, -1)
    else
      var prev := Search(area, cands, n - 1);
      if area(cands[n - 1]) < prev.area then Best(area(cands[n - 1]), cands[n - 1], n - 1) else prev
  }

  /**
   * The search finds a minimum over the original and the first `n`
   * candidates, and the earliest one: the original unless a candidate is
   * strictly smaller, otherwise the first candidate strictly smaller than
   * everything before it.
   */
  lemma {:induction false} SearchMinimal(area: Vec3 -> real, cands: seq<Vec3>, n: nat)
    requires n <= |cands|
    ensures var r := Search(area, cands, n);
      && r.area <= area(ZUp)
      && (forall k :: 0 <= k < n ==> r.area <= area(cands[k]))
      && (r.index == -1 ==> r.area == area(ZUp))
      && (r.index >= 0 ==>
            && r.area == area(cands[r.index])
            && r.area < area(ZUp)
            && forall k :: 0 <= k < r.index ==> r.area < area(cands[k]))
    decreases n
  {
    if n > 0 {
      SearchMinimal(area, cands, n - 1);
    }
  }

  datatype OrientationResult = OrientationResult(
    optimalUpVector: Vec3,
    originalOverhangArea: real,
    optimizedOverhangArea: real,
    improvementPercent: real)

  /** A default-constructed result: a zero up vector and zero areas. */
  const DefaultOrientation: OrientationResult := OrientationResult(Zero, 0.0, 0.0, 0.0)

  /** `(original - optimized) / original * 100`, or 0 when the original overhang area is not positive. */
  function Improvement(original: real, optimized: real): (r: real)
    ensures 0.0 <= optimized <= original ==> 0.0 <= r <= 100.0
    ensures original <= 0.0 ==> r == 0.0
    ensures 0.0 < original ==> (r == 0.0 <==> optimized == original)
  {
    if original > 0.0 then
      FractionBounds(original - optimized, original);
      ZeroFraction(original - optimized, original);
      (original - optimized) / original * 100.0
    else 0.0
  }

  lemma ZeroFraction(p: real, q: real)
    requires 0.0 < q
    ensures p / q == 0.0 <==> p == 0.0
  {
    if p / q == 0.0 {
      assert p == p / q * q;
    }
  }

  /**
   * `autoOrient`: the default result for a mesh without vertices; otherwise
   * the search over the 26 candidates. `sampleResolution` is not used.
   */
  function AutoOrient(lib: Libm, m: Mesh, sampleResolution: int, angleDegrees: real): (r: OrientationResult)
    requires SqrtLaw(lib) && WellFormed(m)
    ensures |m.vertices| == 0 ==> r == DefaultOrientation
    ensures |m.vertices| > 0 ==>
      && r.originalOverhangArea == AnalyzeOverhangs(lib, m, ZUp, angleDegrees).overhang
      && r.optimizedOverhangArea <= r.originalOverhangArea
      && (forall k :: 0 <= k < 26 ==> r.optimizedOverhangArea <= AnalyzeOverhangs(lib, m, Candidates(lib)[k], angleDegrees).overhang)
      && ((r.optimalUpVector == ZUp && r.optimizedOverhangArea == r.originalOverhangArea) ||
          exists k :: 0 <= k < 26 && r.optimalUpVector == Candidates(lib)[k] &&
                      r.optimizedOverhangArea == AnalyzeOverhangs(lib, m, Candidates(lib)[k], angleDegrees).overhang &&
                      r.optimizedOverhangArea < r.originalOverhangArea &&
                      forall j :: 0 <= j < k ==> r.optimizedOverhangArea < AnalyzeOverhangs(lib, m, Candidates(lib)[j], angleDegrees).overhang)
      && ((forall k :: 0 <= k < 26 ==> r.originalOverhangArea <= AnalyzeOverhangs(lib, m, Candidates(lib)[k], angleDegrees).overhang) ==>
            r.optimalUpVector == ZUp && r.optimizedOverhangArea == r.originalOverhangArea)
      && r.improvementPercent == Improvement(r.originalOverhangArea, r.optimizedOverhangArea)
    ensures 0.0 <= r.improvementPercent <= 100.0
  {
    if |m.vertices| == 0 then DefaultOrientation
    else
      var original := AnalyzeOverhangs(lib, m, ZUp, angleDegrees).overhang;
      var cands := Candidates(lib);
      var area := (up: Vec3) => AnalyzeOverhangs(lib, m, up, angleDegrees).overhang;
      var best := Search(area, cands, |cands|);
      SearchMinimal(area, cands, |cands|);
      OrientationResult(best.up, original, best.area, Improvement(original, best.area))
  }
}
