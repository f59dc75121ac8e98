/**
 * The indexed triangle mesh of include/geom-core/Mesh.hpp and src/Mesh.cpp:
 * a vertex table, faces that index into it, and the three whole-mesh
 * measurements (signed-tetrahedron volume, edge-count watertightness and the
 * bounding-box extents).
 */
module Meshes {
  import opened RealMath
  import opened Vectors
  import opened SeqFacts

  /** A face: three indices into the vertex table, in winding order. */
  datatype Triangle = Triangle(v0: int, v1: int, v2: int)

  /** `Triangle()`: all three indices zero. */
  const DefaultTriangle: Triangle := Triangle(0, 0, 0)

  datatype Mesh = Mesh(vertices: seq<Vec3>, faces: seq<Triangle>)

  /** The mesh after `clear()`, and a default-constructed mesh. */
  const EmptyMesh: Mesh := Mesh([], [])

  function VertexCount(m: Mesh): nat {
    |m.vertices|
  }

  function TriangleCount(m: Mesh): nat {
    |m.faces|
  }

  predicate ValidFace(verts: seq<Vec3>, f: Triangle) {
    0 <= f.v0 < |verts| && 0 <= f.v1 < |verts| && 0 <= f.v2 < |verts|
  }

  predicate ValidFaces(verts: seq<Vec3>, faces: seq<Triangle>) {
    forall i :: 0 <= i < |faces| ==> ValidFace(verts, faces[i])
  }

  /** Every face index points into the vertex table (what `getVolume` dereferences). */
  predicate WellFormed(m: Mesh) {
    ValidFaces(m.vertices, m.faces)
  }

  // ----- volume -----

  /** Six times the signed volume of the tetrahedron (origin, p1, p2, p3). */
  function TetTerm(verts: seq<Vec3>, f: Triangle): real
    requires ValidFace(verts, f)
  {
    Dot(verts[f.v0], Cross(verts[f.v1], verts[f.v2]))
  }

  /** The running sum of the volume loop after the given faces, in order. */
  function SignedSum(verts: seq<Vec3>, faces: seq<Triangle>): real
    requires ValidFaces(verts, faces)
    decreases |faces|
  {
    if |faces| == 0 then 0.0
    else SignedSum(verts, faces[..|faces| - 1]) + TetTerm(verts, faces[|faces| - 1])
  }

  /** `getVolume()`: |sum / 6|, and 0 for a mesh without faces. */
  function Volume(m: Mesh): (r: real)
    requires WellFormed(m)
    ensures 0.0 <= r
    ensures |m.faces| == 0 ==> r == 0.0
  {
    if |m.faces| == 0 then 0.0 else Abs(SignedSum(m.vertices, m.faces) / 6.0)
  }

  lemma SignedSumAppend(verts: seq<Vec3>, a: seq<Triangle>, b: seq<Triangle>)
    requires ValidFaces(verts, a) && ValidFaces(verts, b)
    ensures ValidFaces(verts, a + b)
    ensures SignedSum(verts, a + b) == SignedSum(verts, a) + SignedSum(verts, b)
    decreases |b|
  {
    if |b| == 0 {
      assert a + b == a;
    } else {
      var b' := b[..|b| - 1];
      assert (a + b)[..|a + b| - 1] == a + b';
      SignedSumAppend(verts, a, b');
    }
  }

  /** The volume sum does not depend on the order in which the faces are stored. */
  lemma {:induction false} SignedSumPermutation(verts: seq<Vec3>, a: seq<Triangle>, b: seq<Triangle>)
    requires ValidFaces(verts, a) && ValidFaces(verts, b)
    requires multiset(a) == multiset(b)
    ensures SignedSum(verts, a) == SignedSum(verts, b)
    decreases |a|
  {
    if |a| == 0 {
      assert |b| == |multiset(b)| == 0;
    } else {
      var j := SplitLast(a, b);
      var f, a' := a[|a| - 1], a[..|a| - 1];
      var b1, b2 := b[..j], b[j + 1..];
      assert ValidFaces(verts, a') && ValidFaces(verts, b1) && ValidFaces(verts, b2);
      assert ValidFaces(verts, [f]);
      SignedSumAppend(verts, b1, b2);
      SignedSumPermutation(verts, a', b1 + b2);
      SignedSumAppend(verts, b1 + [f], b2);
      SignedSumAppend(verts, b1, [f]);
    }
  }

  lemma VolumeFaceOrder(m: Mesh, faces: seq<Triangle>)
    requires WellFormed(m)
    requires multiset(faces) == multiset(m.faces)
    ensures WellFormed(Mesh(m.vertices, faces))
    ensures Volume(Mesh(m.vertices, faces)) == Volume(m)
  {
    forall i | 0 <= i < |faces|
      ensures ValidFace(m.vertices, faces[i])
    {
      assert faces[i] in multiset(m.faces);
    }
    assert |faces| == |multiset(faces)| == |m.faces|;
    SignedSumPermutation(m.vertices, faces, m.faces);
  }

  /** The same face with the opposite winding. */
  function Flip(f: Triangle): Triangle {
    Triangle(f.v0, f.v2, f.v1)
  }

  function FlipAll(faces: seq<Triangle>): (r: seq<Triangle>)
    ensures |r| == |faces|
    ensures forall i :: 0 <= i < |faces| ==> r[i] == Flip(faces[i])
  {
    seq(|faces|, i requires 0 <= i < |faces| => Flip(faces[i]))
  }

  /** Swapping the last two vertices negates the tetrahedron term. */
  lemma TetTermFlip(verts: seq<Vec3>, f: Triangle)
    requires ValidFace(verts, f)
    ensures ValidFace(verts, Flip(f))
    ensures TetTerm(verts, Flip(f)) == -TetTerm(verts, f)
  {
    var p, q, r := verts[f.v0], verts[f.v1], verts[f.v2];
    assert TetTerm(verts, Flip(f)) == Dot(p, Cross(r, q));
    assert Dot(p, Cross(r, q)) == -Dot(p, Cross(q, r));
  }

  lemma {:induction false} SignedSumFlipAll(verts: seq<Vec3>, faces: seq<Triangle>)
    requires ValidFaces(verts, faces)
    ensures ValidFaces(verts, FlipAll(faces))
    ensures SignedSum(verts, FlipAll(faces)) == -SignedSum(verts, faces)
    decreases |faces|
  {
    var fl := FlipAll(faces);
    forall i | 0 <= i < |fl|
      ensures ValidFace(verts, fl[i])
    {
      TetTermFlip(verts, faces[i]);
    }
    if |faces| > 0 {
      var n := |faces| - 1;
      assert fl[..n] == FlipAll(faces[..n]);
      SignedSumFlipAll(verts, faces[..n]);
      TetTermFlip(verts, faces[n]);
      assert SignedSum(verts, fl) == SignedSum(verts, fl[..n]) + TetTerm(verts, fl[n]);
    }
  }

  /** Reversing the winding of every face leaves the (absolute) volume unchanged. */
  lemma VolumeFlipAll(m: Mesh)
    requires WellFormed(m)
    ensures WellFormed(Mesh(m.vertices, FlipAll(m.faces)))
    ensures Volume(Mesh(m.vertices, FlipAll(m.faces))) == Volume(m)
  {
    SignedSumFlipAll(m.vertices, m.faces);
  }

  /** The corner tetrahedron with unit legs, wound outwards. */
  const UnitTetrahedron: Mesh := Mesh(
    [Zero, Vec3(1.0, 0.0, 0.0), Vec3(0.0, 1.0, 0.0), Vec3(0.0, 0.0, 1.0)],
    [Triangle(0, 2, 1), Triangle(0, 1, 3), Triangle(0, 3, 2), Triangle(1, 2, 3)])

  lemma SignedSumOfFour(v: seq<Vec3>, a: Triangle, b: Triangle, c: Triangle, d: Triangle)
    requires ValidFace(v, a) && ValidFace(v, b) && ValidFace(v, c) && ValidFace(v, d)
    ensures ValidFaces(v, [a, b, c, d])
    ensures SignedSum(v, [a, b, c, d]) == TetTerm(v, a) + TetTerm(v, b) + TetTerm(v, c) + TetTerm(v, d)
  {
    assert [a][..0] == [];
    assert SignedSum(v, [a]) == TetTerm(v, a);
    assert [a, b][..1] == [a];
    assert SignedSum(v, [a, b]) == TetTerm(v, a) + TetTerm(v, b);
    assert [a, b, c][..2] == [a, b];
    assert SignedSum(v, [a, b, c]) == TetTerm(v, a) + TetTerm(v, b) + TetTerm(v, c);
    assert [a, b, c, d][..3] == [a, b, c];
  }

  lemma UnitTetrahedronVolume()
    ensures WellFormed(UnitTetrahedron)
    ensures Volume(UnitTetrahedron) == 1.0 / 6.0
  {
    var v := UnitTetrahedron.vertices;
    var o, ex, ey, ez := v[0], v[1], v[2], v[3];
    assert TetTerm(v, Triangle(0, 2, 1)) == Dot(o, Cross(ey, ex)) == 0.0;
    assert TetTerm(v, Triangle(0, 1, 3)) == Dot(o, Cross(ex, ez)) == 0.0;
    assert TetTerm(v, Triangle(0, 3, 2)) == Dot(o, Cross(ez, ey)) == 0.0;
    assert TetTerm(v, Triangle(1, 2, 3)) == Dot(ex, Cross(ey, ez)) == 1.0;
    SignedSumOfFour(v, Triangle(0, 2, 1), Triangle(0, 1, 3), Triangle(0, 3, 2), Triangle(1, 2, 3));
  }

  // ----- watertightness -----

  /** An undirected edge, smaller index first. */
  function EdgeKey(a: int, b: int): (int, int) {
    if a < b then (a, b) else (b, a)
  }

  function FaceEdges(f: Triangle): seq<(int, int)> {
    [EdgeKey(f.v0, f.v1), EdgeKey(f.v1, f.v2), EdgeKey(f.v2, f.v0)]
  }

  /** The edges of the faces in the order the counting loop visits them. */
  function EdgeList(faces: seq<Triangle>): seq<(int, int)>
    decreases |faces|
  {
    if |faces| == 0 then []
    else EdgeList(faces[..|faces| - 1]) + FaceEdges(faces[|faces| - 1])
  }

  /** How many faces use each undirected edge. */
  function EdgeBag(faces: seq<Triangle>): multiset<(int, int)> {
    multiset(EdgeList(faces))
  }

  /**
   * The documented contract of `isWatertight()`: the mesh has faces, and every
   * edge that occurs is shared by exactly two of them.
   */
  predicate Watertight(faces: seq<Triangle>) {
    |faces| > 0 && forall e :: e in EdgeBag(faces) ==> EdgeBag(faces)[e] == 2
  }

  /** `counts` maps exactly the edges of `bag` to their multiplicities. */
  ghost predicate CountsOf(counts: map<(int, int), nat>, bag: multiset<(int, int)>) {
    forall e :: (e in counts <==> e in bag) && (e in counts ==> counts[e] == bag[e])
  }

  /** The counting loop: one map increment per edge, in order. */
  method CountEdges(edges: seq<(int, int)>) returns (counts: map<(int, int), nat>)
    ensures CountsOf(counts, multiset(edges))
  {
    counts := map[];
    var i := 0;
    while i < |edges|
      invariant 0 <= i <= |edges|
      invariant CountsOf(counts, multiset(edges[..i]))
    {
      assert edges[..i + 1] == edges[..i] + [edges[i]];
      var c := if edges[i] in counts then counts[edges[i]] else 0;
      counts := counts[edges[i] := c + 1];
      i := i + 1;
    }
    assert edges[..i] == edges;
  }

  /** The checking loop: stops at the first count that is not 2. */
  method AllCountsTwo(counts: map<(int, int), nat>) returns (b: bool)
    ensures b <==> forall e :: e in counts ==> counts[e] == 2
  {
    var keys := counts.Keys;
    while keys != {}
      invariant keys <= counts.Keys
      invariant forall e :: e in counts && e !in keys ==> counts[e] == 2
      decreases keys
    {
      var e :| e in keys;
      if counts[e] != 2 {
        return false;
      }
      keys := keys - {e};
    }
    return true;
  }

  /**
   * `isWatertight()`: counts every normalised edge of every face in a map, in
   * face order, then reports whether every count is exactly 2.
   */
  method IsWatertight(m: Mesh) returns (b: bool)
    ensures b <==> Watertight(m.faces)
  {
    if |m.faces| == 0 {
      return false;
    }
    var counts := CountEdges(EdgeList(m.faces));
    b := AllCountsTwo(counts);
    if !b {
      var e :| e in counts && counts[e] != 2;
      assert e in EdgeBag(m.faces) && EdgeBag(m.faces)[e] != 2;
    } else {
      forall e | e in EdgeBag(m.faces)
        ensures EdgeBag(m.faces)[e] == 2
      {
        assert e in counts;
      }
    }
  }

  lemma EdgeBagAppend(a: seq<Triangle>, b: seq<Triangle>)
    ensures EdgeBag(a + b) == EdgeBag(a) + EdgeBag(b)
    decreases |b|
  {
    if |b| == 0 {
      assert a + b == a;
    } else {
      var b' := b[..|b| - 1];
      assert (a + b)[..|a + b| - 1] == a + b';
      EdgeBagAppend(a, b');
    }
  }

  /** Reordering the faces does not change how often each edge is used. */
  lemma {:induction false} EdgeBagPermutation(a: seq<Triangle>, b: seq<Triangle>)
    requires multiset(a) == multiset(b)
    ensures EdgeBag(a) == EdgeBag(b)
    decreases |a|
  {
    if |a| == 0 {
      assert |b| == |multiset(b)| == 0;
    } else {
      var j := SplitLast(a, b);
      var f, a' := a[|a| - 1], a[..|a| - 1];
      var b1, b2 := b[..j], b[j + 1..];
      EdgeBagPermutation(a', b1 + b2);
      EdgeBagAppend(b1, b2);
      EdgeBagAppend(b1 + [f], b2);
      EdgeBagAppend(b1, [f]);
      EdgeBagAppend(a', [f]);
    }
  }

  lemma WatertightFaceOrder(a: seq<Triangle>, b: seq<Triangle>)
    requires multiset(a) == multiset(b)
    ensures Watertight(a) <==> Watertight(b)
  {
    EdgeBagPermutation(a, b);
    assert |a| == |multiset(a)| == |b|;
  }

  lemma FlipSameEdges(f: Triangle)
    ensures multiset(FaceEdges(Flip(f))) == multiset(FaceEdges(f))
  {
  }

  lemma {:induction false} EdgeBagFlipAll(faces: seq<Triangle>)
    ensures EdgeBag(FlipAll(faces)) == EdgeBag(faces)
    decreases |faces|
  {
    if |faces| > 0 {
      var n := |faces| - 1;
      var fl := FlipAll(faces);
      assert fl[..n] == FlipAll(faces[..n]);
      EdgeBagFlipAll(faces[..n]);
      FlipSameEdges(faces[n]);
      assert EdgeList(fl) == EdgeList(fl[..n]) + FaceEdges(Flip(faces[n]));
      assert EdgeBag(fl) == EdgeBag(fl[..n]) + multiset(FaceEdges(Flip(faces[n])));
      assert EdgeBag(faces) == EdgeBag(faces[..n]) + multiset(FaceEdges(faces[n]));
    }
  }

  /** Reversing the winding of the faces does not change watertightness. */
  lemma WatertightFlipAll(faces: seq<Triangle>)
    ensures Watertight(FlipAll(faces)) <==> Watertight(faces)
  {
    EdgeBagFlipAll(faces);
  }

  /** The edges of a single face are its three edges. */
  lemma EdgeBagSingle(f: Triangle)
    ensures EdgeBag([f]) == multiset(FaceEdges(f))
  {
    assert [f][..0] == [];
    assert EdgeList([f]) == [] + FaceEdges(f);
  }

  /** Flipping one face, anywhere in the list, keeps every edge's count. */
  lemma EdgeBagFlipOne(faces: seq<Triangle>, i: nat)
    requires i < |faces|
    ensures EdgeBag(faces[i := Flip(faces[i])]) == EdgeBag(faces)
  {
    var f, pre, post := faces[i], faces[..i], faces[i + 1..];
    assert faces == pre + [f] + post;
    assert faces[i := Flip(f)] == pre + [Flip(f)] + post;
    EdgeBagAppend(pre + [f], post);
    EdgeBagAppend(pre, [f]);
    EdgeBagAppend(pre + [Flip(f)], post);
    EdgeBagAppend(pre, [Flip(f)]);
    EdgeBagSingle(f);
    EdgeBagSingle(Flip(f));
    FlipSameEdges(f);
  }

  /**
   * Reversing the winding of any single face does not change watertightness,
   * because edges are counted without their direction: a mesh with
   * inconsistent winding can still be watertight.
   */
  lemma WatertightFlipOne(faces: seq<Triangle>, i: nat)
    requires i < |faces|
    ensures Watertight(faces[i := Flip(faces[i])]) <==> Watertight(faces)
  {
    EdgeBagFlipOne(faces, i);
  }

  /**
   * A triangle with three distinct corners glued to its own flipped copy is
   * closed: each of its three edges is used exactly twice.
   */
  lemma TwoSidedTriangleWatertight(f: Triangle)
    requires f.v0 != f.v1 && f.v1 != f.v2 && f.v2 != f.v0
    ensures Watertight([f, Flip(f)])
  {
    assert [f, Flip(f)][..1] == [f];
    assert [f][..0] == [];
    assert EdgeList([f]) == [] + FaceEdges(f) == FaceEdges(f);
    assert EdgeList([f, Flip(f)]) == FaceEdges(f) + FaceEdges(Flip(f));
    FlipSameEdges(f);
    var one := multiset(FaceEdges(f));
    assert EdgeBag([f, Flip(f)]) == one + one;
    var e0, e1, e2 := EdgeKey(f.v0, f.v1), EdgeKey(f.v1, f.v2), EdgeKey(f.v2, f.v0);
    assert e0 != e1 && e1 != e2 && e2 != e0;
    assert one == multiset{e0} + multiset{e1} + multiset{e2};
    forall e | e in one + one
      ensures (one + one)[e] == 2
    {
      assert e == e0 || e == e1 || e == e2;
    }
  }

  /** A single triangle has three boundary edges. */
  lemma SingleTriangleNotWatertight(f: Triangle)
    ensures !Watertight([f])
  {
    assert [f][..0] == [];
    assert EdgeList([f]) == FaceEdges(f);
    var e := EdgeKey(f.v0, f.v1);
    assert e in EdgeBag([f]);
  }

  // ----- bounding box -----

  /** The running minimum of one coordinate, seeded with the largest double. */
  function MinCoord(vs: seq<Vec3>, a: Axis): (r: real)
    ensures forall i :: 0 <= i < |vs| ==> r <= Coord(vs[i], a)
    ensures r <= MaxDouble
    ensures (forall i :: 0 <= i < |vs| ==> InDoubleRange(Coord(vs[i], a))) && |vs| > 0 ==>
              exists i :: 0 <= i < |vs| && r == Coord(vs[i], a)
    decreases |vs|
  {
    if |vs| == 0 then MaxDouble
    else
      var acc := MinCoord(vs[..|vs| - 1], a);
      assert forall i :: 0 <= i < |vs| - 1 ==> vs[..|vs| - 1][i] == vs[i];
      Min(acc, Coord(vs[|vs| - 1], a))
  }

  /** The running maximum of one coordinate, seeded with the lowest double. */
  function MaxCoord(vs: seq<Vec3>, a: Axis): (r: real)
    ensures forall i :: 0 <= i < |vs| ==> Coord(vs[i], a) <= r
    ensures LowestDouble <= r
    ensures (forall i :: 0 <= i < |vs| ==> InDoubleRange(Coord(vs[i], a))) && |vs| > 0 ==>
              exists i :: 0 <= i < |vs| && r == Coord(vs[i], a)
    decreases |vs|
  {
    if |vs| == 0 then LowestDouble
    else
      var acc := MaxCoord(vs[..|vs| - 1], a);
      assert forall i :: 0 <= i < |vs| - 1 ==> vs[..|vs| - 1][i] == vs[i];
      Max(acc, Coord(vs[|vs| - 1], a))
  }

  /**
   * The extent of the vertices along one axis: it covers the spread of every
   * pair of vertices, is never negative, and for coordinates a double can hold
   * it is the spread of some pair.
   */
  function Extent(vs: seq<Vec3>, a: Axis): (r: real)
    requires |vs| > 0
    ensures 0.0 <= r
    ensures forall i, j :: 0 <= i < |vs| && 0 <= j < |vs| ==> Coord(vs[i], a) - Coord(vs[j], a) <= r
    ensures (forall i :: 0 <= i < |vs| ==> InDoubleRange(Coord(vs[i], a))) ==>
              exists i, j :: 0 <= i < |vs| && 0 <= j < |vs| && r == Coord(vs[i], a) - Coord(vs[j], a)
  {
    assert MinCoord(vs, a) <= Coord(vs[0], a) <= MaxCoord(vs, a);
    MaxCoord(vs, a) - MinCoord(vs, a)
  }

  /** `getBoundingBox()`: the extents (width, height, depth), not the corners. */
  function BoundingBox(m: Mesh): (r: Vec3)
    ensures |m.vertices| == 0 ==> r == Zero
    ensures |m.vertices| > 0 ==>
              r.x == Extent(m.vertices, X) && r.y == Extent(m.vertices, Y) && r.z == Extent(m.vertices, Z)
  {
    var vs := m.vertices;
    if |vs| == 0 then Zero
    else Vec3(Extent(vs, X), Extent(vs, Y), Extent(vs, Z))
  }
}
