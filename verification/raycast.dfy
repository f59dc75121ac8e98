/**
 * Ray casting through the bounding volume hierarchy of src/Spatial.cpp
 * (`AABBTree::rayCast`, `rayCastRecursive`), and its correctness: the
 * traversal finds the nearest admissible triangle hit, the same distance a
 * test of every triangle of the mesh would find.
 */
module RayCasting {
  import opened RealMath
  import opened Vectors
  import opened Meshes
  import opened Spatial
  import opened Bvh

  /** Hits at or below this distance from the origin are ignored (self-intersection guard). */
  const MinHitDistance: real := 0.000001

  /** `RayHit`: whether something was hit, how far, which triangle, where, and its normal. */
  datatype RayHit = RayHit(hit: bool, distance: real, tri: int, point: Vec3, normal: Vec3)

  /** The default `RayHit`: no hit, the largest double as distance, triangle -1, zero vectors. */
  const NoHit: RayHit := RayHit(false, MaxDouble, -1, Zero, Zero)

  /** `intersectRayTriangle` on triangle `t` of the mesh. */
  function TriangleHit(m: Mesh, ray: Ray, t: int): TriHit
    requires 0 <= t < |m.faces| && ValidFace(m.vertices, m.faces[t])
  {
    var f := m.faces[t];
    IntersectRayTriangle(ray, m.vertices[f.v0], m.vertices[f.v1], m.vertices[f.v2])
  }

  function TriangleNormalOf(lib: Libm, m: Mesh, t: int): Vec3
    requires 0 <= t < |m.faces| && ValidFace(m.vertices, m.faces[t])
  {
    var f := m.faces[t];
    TriangleNormal(lib, m.vertices[f.v0], m.vertices[f.v1], m.vertices[f.v2])
  }

  /** Triangle `t` is hit by the ray strictly between `MinHitDistance` and `maxD`. */
  predicate Candidate(m: Mesh, ray: Ray, maxD: real, t: int) {
    && 0 <= t < |m.faces| && ValidFace(m.vertices, m.faces[t])
    && TriangleHit(m, ray, t).Hit?
    && MinHitDistance < TriangleHit(m, ray, t).t < maxD
  }

  /** A reported hit: a candidate triangle, its distance, the point at that distance and its normal. */
  predicate GoodHit(lib: Libm, m: Mesh, ray: Ray, maxD: real, r: RayHit) {
    && r.hit
    && Candidate(m, ray, maxD, r.tri)
    && r.distance == TriangleHit(m, ray, r.tri).t
    && r.point == At(ray, r.distance)
    && r.normal == TriangleNormalOf(lib, m, r.tri)
  }

  /** The test applied to one triangle of a leaf: replace `best` when the triangle is hit nearer. */
  function TestTriangle(lib: Libm, m: Mesh, ray: Ray, maxD: real, t: int, best: RayHit): (r: RayHit)
    requires 0 <= t < |m.faces| && ValidFace(m.vertices, m.faces[t])
    ensures r == best || (GoodHit(lib, m, ray, maxD, r) && r.tri == t && r.distance < best.distance)
    ensures r != best <==> Candidate(m, ray, maxD, t) && TriangleHit(m, ray, t).t < best.distance
  {
    var h := TriangleHit(m, ray, t);
    if h.Hit? && h.t < best.distance && h.t < maxD && h.t > MinHitDistance then
      RayHit(true, h.t, t, At(ray, h.t), TriangleNormalOf(lib, m, t))
    else best
  }

  /** The loop over a leaf's triangles, in order. */
  function ScanLeaf(lib: Libm, m: Mesh, ray: Ray, maxD: real, tris: seq<int>, best: RayHit): (r: RayHit)
    requires WellFormed(m) && ValidIndices(m, tris)
    ensures r == best || (GoodHit(lib, m, ray, maxD, r) && r.tri in tris && r.distance < best.distance)
    decreases |tris|
  {
    if |tris| == 0 then best
    else
      var n := |tris| - 1;
      var prev := ScanLeaf(lib, m, ray, maxD, tris[..n], best);
      var r := TestTriangle(lib, m, ray, maxD, tris[n], prev);
      assert prev != best ==> prev.tri in tris by {
        if prev != best {
          var k :| 0 <= k < n && tris[..n][k] == prev.tri;
          assert tris[k] == prev.tri;
        }
      }
      r
  }

  /**
   * `rayCastRecursive`: skip a node whose box the ray misses or whose entry
   * parameter lies beyond `maxD` or the best hit so far; scan a leaf; visit
   * an inner node's left child, then its right child.
   */
  function CastNode(lib: Libm, m: Mesh, ray: Ray, maxD: real, node: Node, best: RayHit): (r: RayHit)
    requires WellFormed(m) && ValidIndices(m, Leaves(node))
    ensures r == best || (GoodHit(lib, m, ray, maxD, r) && r.tri in Leaves(node) && r.distance < best.distance)
    decreases node
  {
    var slab := Intersect(node.bounds, ray);
    if !slab.hit then best
    else if slab.tMin > maxD || slab.tMin > best.distance then best
    else
      match node
      case Leaf(_, tris) => ScanLeaf(lib, m, ray, maxD, tris, best)
      case Inner(_, l, r) =>
        assert Leaves(node) == Leaves(l) + Leaves(r);
        assert ValidIndices(m, Leaves(l)) by {
          forall k | 0 <= k < |Leaves(l)| ensures 0 <= Leaves(l)[k] < |m.faces| {
            assert Leaves(l)[k] == Leaves(node)[k];
          }
        }
        assert ValidIndices(m, Leaves(r)) by {
          forall k | 0 <= k < |Leaves(r)| ensures 0 <= Leaves(r)[k] < |m.faces| {
            assert Leaves(r)[k] == Leaves(node)[|Leaves(l)| + k];
          }
        }
        CastNode(lib, m, ray, maxD, r, CastNode(lib, m, ray, maxD, l, best))
  }

  /** A tree `build` could have produced: a well-formed mesh and boxes that hold their triangles. */
  predicate ValidTree(t: Tree) {
    t.Built? ==> WellFormed(t.mesh) && BoundsHold(t.mesh, t.root)
  }

  /** `BoundsHold` implies every leaf index is a triangle of the mesh. */
  lemma BoundsHoldValid(m: Mesh, n: Node)
    requires BoundsHold(m, n)
    ensures ValidIndices(m, Leaves(n))
  {
    forall k | 0 <= k < |Leaves(n)| ensures 0 <= Leaves(n)[k] < |m.faces| {
      assert TriangleIn(n.bounds, m, Leaves(n)[k]);
    }
  }

  /**
   * `AABBTree::rayCast`: the default `RayHit` when the tree was never built,
   * and otherwise the traversal from the root starting from that default.
   */
  function RayCast(lib: Libm, tree: Tree, ray: Ray, maxD: real): (r: RayHit)
    requires ValidTree(tree)
    ensures !IsBuilt(tree) ==> r == NoHit
    ensures r == NoHit || (GoodHit(lib, tree.mesh, ray, maxD, r) && r.distance < MaxDouble)
  {
    if !tree.Built? then NoHit
    else
      BoundsHoldValid(tree.mesh, tree.root);
      CastNode(lib, tree.mesh, ray, maxD, tree.root, NoHit)
  }

  // ----- the traversal finds the nearest hit -----

  /**
   * `d` is the nearest admissible hit among the triangles `ts`, capped at
   * `bound`: no candidate is nearer, and `d` is `bound` or some candidate's
   * distance.
   */
  predicate IsNearest(m: Mesh, ray: Ray, maxD: real, ts: seq<int>, bound: real, d: real) {
    && d <= bound
    && (forall k :: 0 <= k < |ts| && Candidate(m, ray, maxD, ts[k]) ==> d <= TriangleHit(m, ray, ts[k]).t)
    && (d == bound || exists k :: 0 <= k < |ts| && Candidate(m, ray, maxD, ts[k]) && d == TriangleHit(m, ray, ts[k]).t)
  }

  /** Two lists with the same triangles have the same nearest distance. */
  lemma NearestUnique(m: Mesh, ray: Ray, maxD: real, ts: seq<int>, us: seq<int>, bound: real, d: real, e: real)
    requires multiset(ts) == multiset(us)
    requires IsNearest(m, ray, maxD, ts, bound, d) && IsNearest(m, ray, maxD, us, bound, e)
    ensures d == e
  {
    if d != bound {
      var k :| 0 <= k < |ts| && Candidate(m, ray, maxD, ts[k]) && d == TriangleHit(m, ray, ts[k]).t;
      assert ts[k] in multiset(us);
      var j :| 0 <= j < |us| && us[j] == ts[k];
      assert e <= d;
    }
    if e != bound {
      var j :| 0 <= j < |us| && Candidate(m, ray, maxD, us[j]) && e == TriangleHit(m, ray, us[j]).t;
      assert us[j] in multiset(ts);
      var k :| 0 <= k < |ts| && ts[k] == us[j];
      assert d <= e;
    }
  }

  /** The leaf loop finds the nearest candidate of the leaf below the incoming best distance. */
  lemma {:induction false} ScanLeafNearest(lib: Libm, m: Mesh, ray: Ray, maxD: real, tris: seq<int>, best: RayHit)
    requires WellFormed(m) && ValidIndices(m, tris)
    ensures IsNearest(m, ray, maxD, tris, best.distance, ScanLeaf(lib, m, ray, maxD, tris, best).distance)
    decreases |tris|
  {
    if |tris| > 0 {
      var n := |tris| - 1;
      var pre := tris[..n];
      ScanLeafNearest(lib, m, ray, maxD, pre, best);
      var prev := ScanLeaf(lib, m, ray, maxD, pre, best);
      var r := ScanLeaf(lib, m, ray, maxD, tris, best);
      ScanLeafStep(lib, m, ray, maxD, tris, best);
      assert tris == pre + [tris[n]];
      NearestSnoc(m, ray, maxD, pre, tris[n], best.distance, prev.distance, r.distance);
    }
  }

  /**
   * The last triangle of the leaf keeps the best distance found before it,
   * or lowers it to that triangle's candidate hit.
   */
  lemma ScanLeafStep(lib: Libm, m: Mesh, ray: Ray, maxD: real, tris: seq<int>, best: RayHit)
    requires WellFormed(m) && ValidIndices(m, tris) && |tris| > 0
    ensures var x, prev, r := tris[|tris| - 1], ScanLeaf(lib, m, ray, maxD, tris[..|tris| - 1], best), ScanLeaf(lib, m, ray, maxD, tris, best);
      && r.distance <= prev.distance
      && (Candidate(m, ray, maxD, x) ==> r.distance <= TriangleHit(m, ray, x).t)
      && (r.distance == prev.distance || (Candidate(m, ray, maxD, x) && r.distance == TriangleHit(m, ray, x).t))
  {
    var n := |tris| - 1;
    assert ScanLeaf(lib, m, ray, maxD, tris, best) == TestTriangle(lib, m, ray, maxD, tris[n], ScanLeaf(lib, m, ray, maxD, tris[..n], best));
  }

  /** One more triangle: the new best is the old one or this triangle's nearer hit. */
  lemma NearestSnoc(m: Mesh, ray: Ray, maxD: real, ts: seq<int>, x: int, b: real, d: real, e: real)
    requires IsNearest(m, ray, maxD, ts, b, d)
    requires e <= d
    requires Candidate(m, ray, maxD, x) ==> e <= TriangleHit(m, ray, x).t
    requires e == d || (Candidate(m, ray, maxD, x) && e == TriangleHit(m, ray, x).t)
    ensures IsNearest(m, ray, maxD, ts + [x], b, e)
  {
    var all := ts + [x];
    forall k | 0 <= k < |all| && Candidate(m, ray, maxD, all[k])
      ensures e <= TriangleHit(m, ray, all[k]).t
    {
      if k < |ts| {
        assert all[k] == ts[k];
      }
    }
    if e != b {
      if e == d {
        var k :| 0 <= k < |ts| && Candidate(m, ray, maxD, ts[k]) && d == TriangleHit(m, ray, ts[k]).t;
        assert all[k] == ts[k];
      } else {
        assert all[|ts|] == x;
      }
    }
  }

  /** Visiting two lists in turn finds the nearest over both. */
  lemma NearestAppend(m: Mesh, ray: Ray, maxD: real, ls: seq<int>, rs: seq<int>, b: real, d1: real, d2: real)
    requires IsNearest(m, ray, maxD, ls, b, d1) && IsNearest(m, ray, maxD, rs, d1, d2)
    ensures IsNearest(m, ray, maxD, ls + rs, b, d2)
  {
    var all := ls + rs;
    forall k | 0 <= k < |all| && Candidate(m, ray, maxD, all[k])
      ensures d2 <= TriangleHit(m, ray, all[k]).t
    {
      if k < |ls| {
        assert all[k] == ls[k];
      } else {
        assert all[k] == rs[k - |ls|];
      }
    }
    if d2 != b {
      if d2 == d1 {
        var k :| 0 <= k < |ls| && Candidate(m, ray, maxD, ls[k]) && d1 == TriangleHit(m, ray, ls[k]).t;
        assert all[k] == ls[k];
      } else {
        var k :| 0 <= k < |rs| && Candidate(m, ray, maxD, rs[k]) && d2 == TriangleHit(m, ray, rs[k]).t;
        assert all[|ls| + k] == rs[k];
      }
    }
  }

  /** With no candidate below the bound, the bound itself is the nearest. */
  lemma NothingNearer(m: Mesh, ray: Ray, maxD: real, ts: seq<int>, bound: real)
    requires forall k :: 0 <= k < |ts| && Candidate(m, ray, maxD, ts[k]) ==> bound <= TriangleHit(m, ray, ts[k]).t
    ensures IsNearest(m, ray, maxD, ts, bound, bound)
  {
  }

  /** Reordering the triangles does not change which distance is nearest. */
  lemma NearestPermuted(m: Mesh, ray: Ray, maxD: real, ts: seq<int>, us: seq<int>, bound: real, d: real)
    requires multiset(ts) == multiset(us)
    requires IsNearest(m, ray, maxD, ts, bound, d)
    ensures IsNearest(m, ray, maxD, us, bound, d)
  {
    forall j | 0 <= j < |us| && Candidate(m, ray, maxD, us[j])
      ensures d <= TriangleHit(m, ray, us[j]).t
    {
      assert us[j] in multiset(ts);
      var k :| 0 <= k < |ts| && ts[k] == us[j];
    }
    if d != bound {
      var k :| 0 <= k < |ts| && Candidate(m, ray, maxD, ts[k]) && d == TriangleHit(m, ray, ts[k]).t;
      assert ts[k] in multiset(us);
      var j :| 0 <= j < |us| && us[j] == ts[k];
    }
  }

  /** The point where the ray meets a candidate triangle lies in every box holding the triangle. */
  lemma CandidateInBox(m: Mesh, ray: Ray, maxD: real, b: Box, t: int)
    requires TriangleIn(b, m, t) && Candidate(m, ray, maxD, t)
    ensures Contains(b, At(ray, TriangleHit(m, ray, t).t))
  {
    var f := m.faces[t];
    var v0, v1, v2 := m.vertices[f.v0], m.vertices[f.v1], m.vertices[f.v2];
    HitIsOnRayAndTriangle(ray, v0, v1, v2);
    var h := TriangleHit(m, ray, t);
    BarycentricInBox(b, v0, v1, v2, h.u, h.v);
  }

  /**
   * Pruning is sound: when no direction component lies strictly between 0
   * and the parallel tolerance, the slab test reports every box holding a
   * candidate triangle, entered no later than the candidate's distance.
   */
  lemma PruneSound(m: Mesh, ray: Ray, maxD: real, node: Node)
    requires BoundsHold(m, node)
    requires forall a: Axis :: ClearOfTolerance(ray, a)
    requires maxD <= MaxDouble
    ensures forall k :: 0 <= k < |Leaves(node)| && Candidate(m, ray, maxD, Leaves(node)[k]) ==>
      Intersect(node.bounds, ray).hit && Intersect(node.bounds, ray).tMin <= TriangleHit(m, ray, Leaves(node)[k]).t
  {
    forall k | 0 <= k < |Leaves(node)| && Candidate(m, ray, maxD, Leaves(node)[k])
      ensures Intersect(node.bounds, ray).hit && Intersect(node.bounds, ray).tMin <= TriangleHit(m, ray, Leaves(node)[k]).t
    {
      var t := Leaves(node)[k];
      CandidateInBox(m, ray, maxD, node.bounds, t);
      IntersectSound(node.bounds, ray, TriangleHit(m, ray, t).t);
    }
  }

  /** The traversal of a subtree yields the nearest candidate among its triangles below the incoming best distance. */
  lemma {:induction false} CastNodeNearest(lib: Libm, m: Mesh, ray: Ray, maxD: real, node: Node, best: RayHit)
    requires WellFormed(m) && BoundsHold(m, node) && ValidIndices(m, Leaves(node))
    requires forall a: Axis :: ClearOfTolerance(ray, a)
    requires maxD <= MaxDouble
    ensures IsNearest(m, ray, maxD, Leaves(node), best.distance, CastNode(lib, m, ray, maxD, node, best).distance)
    decreases node
  {
    var slab := Intersect(node.bounds, ray);
    PruneSound(m, ray, maxD, node);
    if !slab.hit || slab.tMin > maxD || slab.tMin > best.distance {
      NothingNearer(m, ray, maxD, Leaves(node), best.distance);
    } else {
      match node
      case Leaf(_, tris) =>
        ScanLeafNearest(lib, m, ray, maxD, tris, best);
      case Inner(_, l, r) =>
        BoundsHoldValid(m, l);
        BoundsHoldValid(m, r);
        CastNodeNearest(lib, m, ray, maxD, l, best);
        var mid := CastNode(lib, m, ray, maxD, l, best);
        CastNodeNearest(lib, m, ray, maxD, r, mid);
        NearestAppend(m, ray, maxD, Leaves(l), Leaves(r), best.distance, mid.distance,
                      CastNode(lib, m, ray, maxD, r, mid).distance);
    }
  }

  /**
   * The reference the tree must agree with: every triangle of the mesh
   * examined in index order, starting from the default `RayHit`.
   */
  function TestAll(lib: Libm, m: Mesh, ray: Ray, maxD: real): (r: RayHit)
    requires WellFormed(m)
    ensures r == NoHit || (GoodHit(lib, m, ray, maxD, r) && 0 <= r.tri < |m.faces|)
  {
    ScanLeaf(lib, m, ray, maxD, Range(|m.faces|), NoHit)
  }

  /** Casting against the built tree finds the nearest candidate triangle of the whole mesh. */
  lemma RayCastNearest(lib: Libm, m: Mesh, ray: Ray, maxD: real)
    requires WellFormed(m)
    requires forall a: Axis :: ClearOfTolerance(ray, a)
    requires maxD <= MaxDouble
    ensures IsNearest(m, ray, maxD, Range(|m.faces|), MaxDouble, RayCast(lib, Build(m), ray, maxD).distance)
  {
    var tree := Build(m);
    BoundsHoldValid(m, tree.root);
    CastNodeNearest(lib, m, ray, maxD, tree.root, NoHit);
    NearestPermuted(m, ray, maxD, Leaves(tree.root), Range(|m.faces|), MaxDouble,
                    CastNode(lib, m, ray, maxD, tree.root, NoHit).distance);
  }

  /**
   * The tree changes nothing observable up to ties: the cast reports a hit
   * exactly when testing every triangle does, at the same distance and point.
   */
  lemma RayCastMatchesTestAll(lib: Libm, m: Mesh, ray: Ray, maxD: real)
    requires WellFormed(m)
    requires forall a: Axis :: ClearOfTolerance(ray, a)
    requires maxD <= MaxDouble
    ensures var r := RayCast(lib, Build(m), ray, maxD); var s := TestAll(lib, m, ray, maxD);
      r.hit == s.hit && r.distance == s.distance && r.point == s.point
  {
    var r := RayCast(lib, Build(m), ray, maxD);
    var s := TestAll(lib, m, ray, maxD);
    RayCastNearest(lib, m, ray, maxD);
    ScanLeafNearest(lib, m, ray, maxD, Range(|m.faces|), NoHit);
    NearestUnique(m, ray, maxD, Range(|m.faces|), Range(|m.faces|), MaxDouble, r.distance, s.distance);
  }

  /** The cast hits something exactly when some triangle of the mesh is a candidate. */
  lemma RayCastHitsIffCandidate(lib: Libm, m: Mesh, ray: Ray, maxD: real)
    requires WellFormed(m)
    requires forall a: Axis :: ClearOfTolerance(ray, a)
    requires maxD <= MaxDouble
    ensures RayCast(lib, Build(m), ray, maxD).hit <==> exists t :: 0 <= t < |m.faces| && Candidate(m, ray, maxD, t)
  {
    var r := RayCast(lib, Build(m), ray, maxD);
    var all := Range(|m.faces|);
    RayCastNearest(lib, m, ray, maxD);
    if r.hit {
      assert Candidate(m, ray, maxD, r.tri);
    } else {
      forall t | 0 <= t < |m.faces| ensures !Candidate(m, ray, maxD, t) {
        assert all[t] == t;
      }
    }
  }
}
