/**
 * Construction of the bounding volume hierarchy of src/Spatial.cpp
 * (`AABBTree::build`, `computeBounds`, `buildNode`): a binary tree of boxes
 * whose leaves list triangle indices, split at the median centroid along the
 * longest axis of each node's box.
 */
module Bvh {
  import opened RealMath
  import opened Vectors
  import opened Meshes
  import opened Spatial
  import opened Sorting

  /** `MAX_LEAF_TRIANGLES`: a node with at most this many triangles is a leaf. */
  const MaxLeafTriangles: nat := 10
  /** `MAX_DEPTH`: a node at this depth is a leaf whatever its size. */
  const MaxDepth: nat := 32

  /**
   * A tree node. The source's node has optional children and a triangle list
   * that only leaves fill; `buildNode` always gives an inner node both
   * children, so the two shapes are the two constructors here.
   */
  datatype Node =
    | Leaf(bounds: Box, tris: seq<int>)
    | Inner(bounds: Box, left: Node, right: Node)

  /** `Node::isLeaf`: no children. */
  predicate IsLeaf(n: Node) {
    n.Leaf?
  }

  /** The tree: no root before `build`, afterwards the mesh it was built over and the root. */
  datatype Tree = Unbuilt | Built(mesh: Mesh, root: Node)

  /** `AABBTree::isBuilt`: the root exists. */
  predicate IsBuilt(t: Tree) {
    t.Built?
  }

  /** The triangle indices of the leaves, left to right. */
  function Leaves(n: Node): seq<int> {
    match n
    case Leaf(_, tris) => tris
    case Inner(_, l, r) => Leaves(l) + Leaves(r)
  }

  function Height(n: Node): nat {
    match n
    case Leaf(_, _) => 0
    case Inner(_, l, r) => 1 + (if Height(l) < Height(r) then Height(r) else Height(l))
  }

  predicate ValidIndices(m: Mesh, idx: seq<int>) {
    forall k :: 0 <= k < |idx| ==> 0 <= idx[k] < |m.faces|
  }

  /** Triangle `t` of a well-formed mesh has all three corners in box `b`. */
  predicate TriangleIn(b: Box, m: Mesh, t: int) {
    && 0 <= t < |m.faces|
    && ValidFace(m.vertices, m.faces[t])
    && Contains(b, m.vertices[m.faces[t].v0])
    && Contains(b, m.vertices[m.faces[t].v1])
    && Contains(b, m.vertices[m.faces[t].v2])
  }

  /** `computeBounds`: the default (empty) box expanded by the corners of each listed triangle in turn. */
  function ComputeBounds(m: Mesh, idx: seq<int>): (r: Box)
    requires WellFormed(m) && ValidIndices(m, idx)
    ensures |idx| == 0 ==> r == EmptyBox
    decreases |idx|
  {
    if |idx| == 0 then EmptyBox
    else
      var n := |idx| - 1;
      var f := m.faces[idx[n]];
      ExpandTriangle(ComputeBounds(m, idx[..n]), m, f)
  }

  /** The three `expand` calls for one triangle. */
  function ExpandTriangle(b: Box, m: Mesh, f: Triangle): (r: Box)
    requires ValidFace(m.vertices, f)
    ensures Encloses(r, b)
    ensures Contains(r, m.vertices[f.v0]) && Contains(r, m.vertices[f.v1]) && Contains(r, m.vertices[f.v2])
  {
    var b1 := ExpandPoint(b, m.vertices[f.v0]);
    var b2 := ExpandPoint(b1, m.vertices[f.v1]);
    var r := ExpandPoint(b2, m.vertices[f.v2]);
    EnclosedPoint(b2, b1, m.vertices[f.v0]);
    EnclosedPoint(r, b2, m.vertices[f.v0]);
    EnclosedPoint(r, b2, m.vertices[f.v1]);
    EnclosesTransitive(r, b2, b1);
    EnclosesTransitive(r, b1, b);
    r
  }

  /** The box of a list of triangles holds every corner of every one of them. */
  lemma {:induction false} BoundsContainTriangles(m: Mesh, idx: seq<int>)
    requires WellFormed(m) && ValidIndices(m, idx)
    ensures forall k :: 0 <= k < |idx| ==> TriangleIn(ComputeBounds(m, idx), m, idx[k])
    decreases |idx|
  {
    if |idx| > 0 {
      var n := |idx| - 1;
      BoundsContainTriangles(m, idx[..n]);
      var b := ComputeBounds(m, idx[..n]);
      var r := ComputeBounds(m, idx);
      assert r == ExpandTriangle(b, m, m.faces[idx[n]]);
      forall k | 0 <= k < n
        ensures TriangleIn(r, m, idx[k])
      {
        assert idx[..n][k] == idx[k];
        var f := m.faces[idx[k]];
        EnclosedPoint(r, b, m.vertices[f.v0]);
        EnclosedPoint(r, b, m.vertices[f.v1]);
        EnclosedPoint(r, b, m.vertices[f.v2]);
      }
    }
  }

  /** Every corner of the listed triangles is a finite double. */
  predicate CornersInRange(m: Mesh, idx: seq<int>) {
    forall k :: 0 <= k < |idx| && 0 <= idx[k] < |m.faces| && ValidFace(m.vertices, m.faces[idx[k]]) ==>
      && InDoubleRangeVec(m.vertices[m.faces[idx[k]].v0])
      && InDoubleRangeVec(m.vertices[m.faces[idx[k]].v1])
      && InDoubleRangeVec(m.vertices[m.faces[idx[k]].v2])
  }

  /** Expanding a box inside `outer` by a point inside `outer` stays inside `outer`. */
  lemma ExpandWithin(outer: Box, b: Box, p: Vec3)
    requires Encloses(outer, b) && Contains(outer, p)
    ensures Encloses(outer, ExpandPoint(b, p))
  {
    var r := ExpandPoint(b, p);
    forall a: Axis
      ensures Coord(outer.lo, a) <= Coord(r.lo, a) && Coord(r.hi, a) <= Coord(outer.hi, a)
    {
      assert Coord(outer.lo, a) <= Coord(b.lo, a) && Coord(b.hi, a) <= Coord(outer.hi, a);
      assert Coord(outer.lo, a) <= Coord(p, a) <= Coord(outer.hi, a);
    }
  }

  /**
   * The box `computeBounds` returns for a non-empty list of finite triangles is
   * the smallest one holding them: any box holding all their corners encloses it.
   */
  lemma {:induction false} BoundsLeast(m: Mesh, idx: seq<int>, outer: Box)
    requires WellFormed(m) && ValidIndices(m, idx) && CornersInRange(m, idx) && |idx| > 0
    requires forall k :: 0 <= k < |idx| ==> TriangleIn(outer, m, idx[k])
    ensures Encloses(outer, ComputeBounds(m, idx))
    decreases |idx|
  {
    var n := |idx| - 1;
    var f := m.faces[idx[n]];
    assert TriangleIn(outer, m, idx[n]);
    var b := ComputeBounds(m, idx[..n]);
    if n == 0 {
      var p := m.vertices[f.v0];
      assert InDoubleRangeVec(p) && Contains(outer, p);
      assert Coord(outer.lo, X) <= Coord(p, X) <= Coord(outer.hi, X);
      assert Coord(outer.lo, Y) <= Coord(p, Y) <= Coord(outer.hi, Y);
      assert Coord(outer.lo, Z) <= Coord(p, Z) <= Coord(outer.hi, Z);
      assert Encloses(outer, b);
    } else {
      forall k | 0 <= k < n
        ensures TriangleIn(outer, m, idx[..n][k])
      {
        assert idx[..n][k] == idx[k];
      }
      assert CornersInRange(m, idx[..n]) by {
        forall k | 0 <= k < n
          ensures idx[..n][k] == idx[k]
        {
        }
      }
      BoundsLeast(m, idx[..n], outer);
    }
    var b1 := ExpandPoint(b, m.vertices[f.v0]);
    var b2 := ExpandPoint(b1, m.vertices[f.v1]);
    ExpandWithin(outer, b, m.vertices[f.v0]);
    ExpandWithin(outer, b1, m.vertices[f.v1]);
    ExpandWithin(outer, b2, m.vertices[f.v2]);
  }

  /** The centroid of a triangle: the corner sum times 1/3, as the sort comparator computes it. */
  function Centroid(m: Mesh, t: int): Vec3
    requires WellFormed(m) && 0 <= t < |m.faces|
  {
    var f := m.faces[t];
    Scale(Add(Add(m.vertices[f.v0], m.vertices[f.v1]), m.vertices[f.v2]), 1.0 / 3.0)
  }

  /** The sort key of `buildNode`: the centroid coordinate along the split axis. */
  function CentroidKey(m: Mesh, axis: Axis): int -> real {
    (t: int) => if WellFormed(m) && 0 <= t < |m.faces| then Coord(Centroid(m, t), axis) else 0.0
  }

  /**
   * The split axis of `buildNode`: the longest extent, and on ties the first
   * of x, y, z among the longest.
   */
  function SplitAxis(extent: Vec3): (a: Axis)
    ensures forall b: Axis :: Coord(extent, b) <= Coord(extent, a)
    ensures a == Y ==> extent.x < extent.y
    ensures a == Z ==> extent.x < extent.z && extent.y < extent.z
  {
    var a := if extent.y > extent.x then Y else X;
    if extent.z > extent.x && extent.z > extent.y then Z else a
  }

  /** Every leaf holds at most `MaxLeafTriangles` triangles unless it sits at `MaxDepth` or deeper. */
  predicate SmallLeaves(n: Node, depth: nat) {
    match n
    case Leaf(_, tris) => |tris| <= MaxLeafTriangles || MaxDepth <= depth
    case Inner(_, l, r) => SmallLeaves(l, depth + 1) && SmallLeaves(r, depth + 1)
  }

  /** Each inner node splits its triangles in half, the right half taking the odd one out. */
  predicate Halved(n: Node) {
    match n
    case Leaf(_, _) => true
    case Inner(_, l, r) => |Leaves(r)| - |Leaves(l)| in {0, 1} && Halved(l) && Halved(r)
  }

  /**
   * Each inner node splits its triangles at the median along its split
   * axis: no centroid coordinate on the left exceeds any on the right.
   */
  predicate MedianSplits(m: Mesh, n: Node) {
    match n
    case Leaf(_, _) => true
    case Inner(b, l, r) =>
      && (var key := CentroidKey(m, SplitAxis(Sub(b.hi, b.lo)));
          forall i, j :: 0 <= i < |Leaves(l)| && 0 <= j < |Leaves(r)| ==> key(Leaves(l)[i]) <= key(Leaves(r)[j]))
      && MedianSplits(m, l) && MedianSplits(m, r)
  }

  /** Every node's box holds every corner of every triangle below it. */
  predicate BoundsHold(m: Mesh, n: Node) {
    && (forall k :: 0 <= k < |Leaves(n)| ==> TriangleIn(n.bounds, m, Leaves(n)[k]))
    && (n.Inner? ==> BoundsHold(m, n.left) && BoundsHold(m, n.right))
  }

  /** Elements of a permutation of valid indices are valid. */
  lemma PermutedIndices(m: Mesh, a: seq<int>, b: seq<int>)
    requires ValidIndices(m, a) && multiset(a) == multiset(b)
    ensures ValidIndices(m, b)
  {
    forall k | 0 <= k < |b|
      ensures 0 <= b[k] < |m.faces|
    {
      assert b[k] in multiset(b);
      assert b[k] in a;
    }
  }

  /** A triangle listed anywhere in a permutation of `idx` is one whose corners the box of `idx` holds. */
  lemma PermutedTriangles(m: Mesh, idx: seq<int>, b: Box, s: seq<int>)
    requires forall k :: 0 <= k < |idx| ==> TriangleIn(b, m, idx[k])
    requires multiset(s) <= multiset(idx)
    ensures forall k :: 0 <= k < |s| ==> TriangleIn(b, m, s[k])
  {
    forall k | 0 <= k < |s|
      ensures TriangleIn(b, m, s[k])
    {
      assert s[k] in multiset(s);
      assert s[k] in idx;
    }
  }

  /**
   * `buildNode`: the node's box is that of its triangles; a leaf when there
   * are at most ten of them or the depth limit is reached, and otherwise the
   * triangles sorted by centroid along the split axis and halved between two
   * children one level deeper.
   */
  function BuildNode(m: Mesh, idx: seq<int>, depth: nat): (r: Node)
    requires WellFormed(m) && ValidIndices(m, idx)
    ensures multiset(Leaves(r)) == multiset(idx)
    ensures r.Leaf? <==> |idx| <= MaxLeafTriangles || MaxDepth <= depth
    ensures BoundsHold(m, r)
    ensures SmallLeaves(r, depth)
    ensures Halved(r)
    ensures MedianSplits(m, r)
    ensures depth + Height(r) <= if depth < MaxDepth then MaxDepth else depth
    decreases |idx|
  {
    var bounds := ComputeBounds(m, idx);
    BoundsContainTriangles(m, idx);
    if |idx| <= MaxLeafTriangles || MaxDepth <= depth then
      LeafProperties(m, idx, depth, bounds);
      Leaf(bounds, idx)
    else
      var axis := SplitAxis(Sub(bounds.hi, bounds.lo));
      var sorted := MergeSort(idx, CentroidKey(m, axis));
      var mid := |sorted| / 2;
      PermutedIndices(m, idx, sorted);
      HalvesValid(m, sorted);
      var left := BuildNode(m, sorted[..mid], depth + 1);
      var right := BuildNode(m, sorted[mid..], depth + 1);
      InnerProperties(m, idx, depth, bounds, sorted, left, right);
      InnerMedian(m, bounds, sorted, left, right);
      Inner(bounds, left, right)
  }

  /** The properties `BuildNode` promises, for a leaf. */
  lemma LeafProperties(m: Mesh, idx: seq<int>, depth: nat, bounds: Box)
    requires forall k :: 0 <= k < |idx| ==> TriangleIn(bounds, m, idx[k])
    requires |idx| <= MaxLeafTriangles || MaxDepth <= depth
    ensures var r := Leaf(bounds, idx);
      BoundsHold(m, r) && SmallLeaves(r, depth) && Halved(r) && MedianSplits(m, r) && Height(r) == 0
  {
  }

  /** Both halves of valid indices are valid. */
  lemma HalvesValid(m: Mesh, s: seq<int>)
    requires ValidIndices(m, s)
    ensures ValidIndices(m, s[..|s| / 2]) && ValidIndices(m, s[|s| / 2..])
  {
  }

  /** The properties `BuildNode` promises, for an inner node assembled from its two halves. */
  lemma InnerProperties(m: Mesh, idx: seq<int>, depth: nat, bounds: Box, sorted: seq<int>, left: Node, right: Node)
    requires forall k :: 0 <= k < |idx| ==> TriangleIn(bounds, m, idx[k])
    requires multiset(sorted) == multiset(idx) && MaxLeafTriangles < |idx| && depth < MaxDepth
    requires multiset(Leaves(left)) == multiset(sorted[..|sorted| / 2])
    requires multiset(Leaves(right)) == multiset(sorted[|sorted| / 2..])
    requires BoundsHold(m, left) && BoundsHold(m, right)
    requires SmallLeaves(left, depth + 1) && SmallLeaves(right, depth + 1)
    requires Halved(left) && Halved(right)
    requires depth + 1 + Height(left) <= MaxDepth && depth + 1 + Height(right) <= MaxDepth
    ensures var r := Inner(bounds, left, right);
      && multiset(Leaves(r)) == multiset(idx)
      && BoundsHold(m, r) && SmallLeaves(r, depth) && Halved(r)
      && depth + Height(r) <= MaxDepth
  {
    var mid := |sorted| / 2;
    assert sorted == sorted[..mid] + sorted[mid..];
    var r := Inner(bounds, left, right);
    assert multiset(Leaves(r)) == multiset(sorted[..mid]) + multiset(sorted[mid..]);
    PermutedTriangles(m, idx, bounds, Leaves(r));
    assert |Leaves(left)| == mid && |Leaves(right)| == |sorted| - mid by {
      assert |multiset(Leaves(left))| == |multiset(sorted[..mid])|;
      assert |multiset(Leaves(right))| == |multiset(sorted[mid..])|;
    }
  }

  /** An inner node whose halves come from a list sorted along its split axis splits at the median. */
  lemma InnerMedian(m: Mesh, bounds: Box, sorted: seq<int>, left: Node, right: Node)
    requires SortedBy(sorted, CentroidKey(m, SplitAxis(Sub(bounds.hi, bounds.lo))))
    requires multiset(Leaves(left)) == multiset(sorted[..|sorted| / 2])
    requires multiset(Leaves(right)) == multiset(sorted[|sorted| / 2..])
    requires MedianSplits(m, left) && MedianSplits(m, right)
    ensures MedianSplits(m, Inner(bounds, left, right))
  {
    SortedHalves(sorted, CentroidKey(m, SplitAxis(Sub(bounds.hi, bounds.lo))), |sorted| / 2, Leaves(left), Leaves(right));
  }

  /** The indices 0 .. n-1, the list `build` starts from. */
  function Range(n: nat): (r: seq<int>)
    ensures |r| == n && forall k :: 0 <= k < n ==> r[k] == k
  {
    seq(n, k => k)
  }

  /** `AABBTree::build`: a tree over every triangle of the mesh, rooted at depth 0. */
  function Build(m: Mesh): (t: Tree)
    requires WellFormed(m)
    ensures IsBuilt(t) && t.mesh == m
    ensures multiset(Leaves(t.root)) == multiset(Range(|m.faces|))
    ensures BoundsHold(m, t.root)
    ensures SmallLeaves(t.root, 0) && Halved(t.root) && Height(t.root) <= MaxDepth
    ensures MedianSplits(m, t.root)
  {
    Built(m, BuildNode(m, Range(|m.faces|), 0))
  }
}
