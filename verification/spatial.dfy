/**
 * The geometric primitives of include/geom-core/Spatial.hpp and the first half
 * of src/Spatial.cpp: rays, axis-aligned boxes with the slab test, the
 * Möller–Trumbore ray/triangle test, and triangle normal and area.
 */
module Spatial {
  import opened RealMath
  import opened Vectors

  /** The tolerance of both the slab test and the ray/triangle test. */
  const ParallelEpsilon: real := 0.00000001

  datatype Ray = Ray(origin: Vec3, direction: Vec3)

  /** `Ray::at`: origin + direction * t. */
  function At(ray: Ray, t: real): Vec3 {
    Add(ray.origin, Scale(ray.direction, t))
  }

  lemma AtZero(ray: Ray)
    ensures At(ray, 0.0) == ray.origin
  {
  }

  // ----- axis-aligned boxes -----

  /** AABB: the corners `lo` (min) and `hi` (max). */
  datatype Box = Box(lo: Vec3, hi: Vec3)

  /** `AABB()`: min at the largest double and max at the lowest, so it contains nothing. */
  const EmptyBox: Box := Box(Vec3(MaxDouble, MaxDouble, MaxDouble), Vec3(LowestDouble, LowestDouble, LowestDouble))

  predicate Contains(b: Box, p: Vec3) {
    forall a: Axis :: Coord(b.lo, a) <= Coord(p, a) <= Coord(b.hi, a)
  }

  /** Every point of `inner` lies in `outer` (stated on the corners, so it also holds when `inner` is empty). */
  predicate Encloses(outer: Box, inner: Box) {
    forall a: Axis :: Coord(outer.lo, a) <= Coord(inner.lo, a) && Coord(inner.hi, a) <= Coord(outer.hi, a)
  }

  predicate InDoubleRangeVec(p: Vec3) {
    InDoubleRange(p.x) && InDoubleRange(p.y) && InDoubleRange(p.z)
  }

  /** `AABB::expand(point)`: the box grows just enough to contain the point. */
  function ExpandPoint(b: Box, p: Vec3): (r: Box)
    ensures Contains(r, p)
    ensures Encloses(r, b)
    ensures forall a: Axis :: Coord(r.lo, a) == Coord(b.lo, a) || Coord(r.lo, a) == Coord(p, a)
    ensures forall a: Axis :: Coord(r.hi, a) == Coord(b.hi, a) || Coord(r.hi, a) == Coord(p, a)
  {
    Box(Vec3(Min(b.lo.x, p.x), Min(b.lo.y, p.y), Min(b.lo.z, p.z)),
        Vec3(Max(b.hi.x, p.x), Max(b.hi.y, p.y), Max(b.hi.z, p.z)))
  }

  /** Expanding by a point already inside changes nothing. */
  lemma ExpandPointInside(b: Box, p: Vec3)
    requires Contains(b, p)
    ensures ExpandPoint(b, p) == b
  {
    assert Coord(b.lo, X) <= Coord(p, X) <= Coord(b.hi, X);
    assert Coord(b.lo, Y) <= Coord(p, Y) <= Coord(b.hi, Y);
    assert Coord(b.lo, Z) <= Coord(p, Z) <= Coord(b.hi, Z);
  }

  /** Expanding the default box by one point gives the degenerate box at that point. */
  lemma ExpandEmptyBox(p: Vec3)
    requires InDoubleRangeVec(p)
    ensures ExpandPoint(EmptyBox, p) == Box(p, p)
  {
  }

  /** A point inside a box stays inside any box that encloses it. */
  lemma EnclosedPoint(outer: Box, inner: Box, p: Vec3)
    requires Encloses(outer, inner) && Contains(inner, p)
    ensures Contains(outer, p)
  {
    forall a: Axis
      ensures Coord(outer.lo, a) <= Coord(p, a) <= Coord(outer.hi, a)
    {
      assert Coord(outer.lo, a) <= Coord(inner.lo, a) && Coord(inner.hi, a) <= Coord(outer.hi, a);
      assert Coord(inner.lo, a) <= Coord(p, a) <= Coord(inner.hi, a);
    }
  }

  lemma EnclosesTransitive(a: Box, b: Box, c: Box)
    requires Encloses(a, b) && Encloses(b, c)
    ensures Encloses(a, c)
  {
    forall x: Axis
      ensures Coord(a.lo, x) <= Coord(c.lo, x) && Coord(c.hi, x) <= Coord(a.hi, x)
    {
      assert Coord(a.lo, x) <= Coord(b.lo, x) && Coord(b.hi, x) <= Coord(a.hi, x);
      assert Coord(b.lo, x) <= Coord(c.lo, x) && Coord(c.hi, x) <= Coord(b.hi, x);
    }
  }

  /** `AABB::expand(other)`: expand by both corners of the other box. */
  function ExpandBox(b: Box, other: Box): (r: Box)
    ensures Encloses(r, b)
    ensures Encloses(r, other)
  {
    var r1 := ExpandPoint(b, other.lo);
    var r := ExpandPoint(r1, other.hi);
    assert Contains(r1, other.lo) && Encloses(r, r1);
    r
  }

  /** `AABB::center`: the midpoint, which lies in any non-empty box. */
  function Center(b: Box): (c: Vec3)
    ensures Proper(b) ==> Contains(b, c)
  {
    Vec3((b.lo.x + b.hi.x) * 0.5, (b.lo.y + b.hi.y) * 0.5, (b.lo.z + b.hi.z) * 0.5)
  }

  /** The box is non-empty: its low corner is below its high corner on every axis. */
  predicate Proper(b: Box) {
    forall a: Axis :: Coord(b.lo, a) <= Coord(b.hi, a)
  }

  /** `AABB::surfaceArea`: 2(dx·dy + dy·dz + dz·dx) of the box's extents. */
  function SurfaceArea(b: Box): (r: real)
    ensures Proper(b) ==> 0.0 <= r
  {
    var dx := b.hi.x - b.lo.x;
    var dy := b.hi.y - b.lo.y;
    var dz := b.hi.z - b.lo.z;
    if Proper(b) then
      assert Coord(b.lo, X) <= Coord(b.hi, X) && Coord(b.lo, Y) <= Coord(b.hi, Y) && Coord(b.lo, Z) <= Coord(b.hi, Z);
      ProductMonotone(0.0, 0.0, dx, dy);
      ProductMonotone(0.0, 0.0, dy, dz);
      ProductMonotone(0.0, 0.0, dz, dx);
      2.0 * (dx * dy + dy * dz + dz * dx)
    else 2.0 * (dx * dy + dy * dz + dz * dx)
  }

  lemma ProductMonotone(a: real, b: real, c: real, d: real)
    requires 0.0 <= a <= c && 0.0 <= b <= d
    ensures a * b <= c * d
  {
    assert a * b <= c * b;
    assert c * b <= c * d;
  }

  /** A proper box enclosed in another has no larger surface area. */
  lemma SurfaceAreaMonotone(outer: Box, inner: Box)
    requires Proper(inner) && Encloses(outer, inner)
    ensures SurfaceArea(inner) <= SurfaceArea(outer)
  {
    assert Coord(inner.lo, X) <= Coord(inner.hi, X) && Coord(inner.lo, Y) <= Coord(inner.hi, Y) && Coord(inner.lo, Z) <= Coord(inner.hi, Z);
    assert Coord(outer.lo, X) <= Coord(inner.lo, X) && Coord(inner.hi, X) <= Coord(outer.hi, X);
    assert Coord(outer.lo, Y) <= Coord(inner.lo, Y) && Coord(inner.hi, Y) <= Coord(outer.hi, Y);
    assert Coord(outer.lo, Z) <= Coord(inner.lo, Z) && Coord(inner.hi, Z) <= Coord(outer.hi, Z);
    ExtentsMonotone(inner.hi.x - inner.lo.x, inner.hi.y - inner.lo.y, inner.hi.z - inner.lo.z,
                    outer.hi.x - outer.lo.x, outer.hi.y - outer.lo.y, outer.hi.z - outer.lo.z);
  }

  lemma ExtentsMonotone(ix: real, iy: real, iz: real, ox: real, oy: real, oz: real)
    requires 0.0 <= ix <= ox && 0.0 <= iy <= oy && 0.0 <= iz <= oz
    ensures 2.0 * (ix * iy + iy * iz + iz * ix) <= 2.0 * (ox * oy + oy * oz + oz * ox)
  {
    ProductMonotone(ix, iy, ox, oy);
    ProductMonotone(iy, iz, oy, oz);
    ProductMonotone(iz, ix, oz, ox);
  }

  // ----- slab test -----

  /** The state of the slab loop: whether the ray is still in, and the interval. */
  datatype Slab = Slab(hit: bool, tMin: real, tMax: real)

  /** One axis of `AABB::intersect`. */
  function SlabAxis(acc: Slab, o: real, d: real, lo: real, hi: real): (r: Slab)
    requires acc.tMin <= acc.tMax
    ensures Abs(d) < ParallelEpsilon && (o < lo || o > hi) ==> !r.hit
    ensures r.hit ==> acc.tMin <= r.tMin <= r.tMax
  {
    if Abs(d) < ParallelEpsilon then
      if o < lo || o > hi then Slab(false, acc.tMin, acc.tMax) else acc
    else
      var invD := 1.0 / d;
      var t1 := (lo - o) * invD;
      var t2 := (hi - o) * invD;
      var near := if t1 > t2 then t2 else t1;
      var far := if t1 > t2 then t1 else t2;
      var tMin := Max(acc.tMin, near);
      var tMax := Min(acc.tMax, far);
      Slab(!(tMin > tMax), tMin, tMax)
  }

  /** The axis handled by iteration `i` of the slab loop. */
  function AxisAt(i: nat): Axis
    requires i < 3
  {
    if i == 0 then X else if i == 1 then Y else Z
  }

  /** The slab along axis `a` of a ray that is parallel to it and starts outside it. */
  predicate MissesParallel(b: Box, ray: Ray, a: Axis) {
    Abs(Coord(ray.direction, a)) < ParallelEpsilon &&
    (Coord(ray.origin, a) < Coord(b.lo, a) || Coord(ray.origin, a) > Coord(b.hi, a))
  }

  /** Iterations `i` to 2 of the slab loop, stopping at the first axis that rules the ray out. */
  function SlabLoop(acc: Slab, b: Box, ray: Ray, i: nat): (r: Slab)
    requires i <= 3 && acc.tMin <= acc.tMax
    ensures r.hit ==> acc.tMin <= r.tMin <= r.tMax
    ensures (exists j :: i <= j < 3 && MissesParallel(b, ray, AxisAt(j))) ==> !r.hit
    decreases 3 - i
  {
    if i == 3 then acc
    else
      var a := AxisAt(i);
      var next := SlabAxis(acc, Coord(ray.origin, a), Coord(ray.direction, a), Coord(b.lo, a), Coord(b.hi, a));
      if !next.hit then next else SlabLoop(next, b, ray, i + 1)
  }

  /**
   * `AABB::intersect` (slab method): `hit` is false as soon as one axis rules
   * the ray out; on a hit, [tMin, tMax] is the parameter interval inside the box.
   */
  function Intersect(b: Box, ray: Ray): (r: Slab)
    ensures r.hit ==> 0.0 <= r.tMin <= r.tMax
    ensures (exists a: Axis :: MissesParallel(b, ray, a)) ==> !r.hit
  {
    assert AxisAt(0) == X && AxisAt(1) == Y && AxisAt(2) == Z;
    SlabLoop(Slab(true, 0.0, MaxDouble), b, ray, 0)
  }

  /** Dividing an inequality by the nonzero `d`, written as multiplication by `1.0 / d` as the slab loop does. */
  lemma DivideBound(a: real, d: real, t: real)
    requires d != 0.0
    ensures 0.0 < d && a <= d * t ==> a * (1.0 / d) <= t
    ensures 0.0 < d && d * t <= a ==> t <= a * (1.0 / d)
    ensures d < 0.0 && a <= d * t ==> t <= a * (1.0 / d)
    ensures d < 0.0 && d * t <= a ==> a * (1.0 / d) <= t
  {
    var inv := 1.0 / d;
    assert d * inv == 1.0;
    assert a * inv - t == (a - d * t) * inv;
    if 0.0 < d {
      assert 0.0 < inv;
    } else {
      assert inv < 0.0;
    }
  }

  /** One axis keeps a parameter `t` whose point lies in that axis's slab. */
  lemma SlabAxisSound(acc: Slab, o: real, d: real, lo: real, hi: real, t: real)
    requires acc.hit && acc.tMin <= t <= acc.tMax
    requires d == 0.0 || ParallelEpsilon <= Abs(d)
    requires lo <= o + d * t <= hi
    ensures SlabAxis(acc, o, d, lo, hi).hit
    ensures SlabAxis(acc, o, d, lo, hi).tMin <= t <= SlabAxis(acc, o, d, lo, hi).tMax
  {
    if d != 0.0 {
      var t1 := (lo - o) * (1.0 / d);
      var t2 := (hi - o) * (1.0 / d);
      EntryExitAround(o, d, lo, hi, t);
      var near := if t1 > t2 then t2 else t1;
      var far := if t1 > t2 then t1 else t2;
      SlabKeeps(acc, near, far, t);
      assert SlabAxis(acc, o, d, lo, hi) == Slab(!(Max(acc.tMin, near) > Min(acc.tMax, far)), Max(acc.tMin, near), Min(acc.tMax, far));
    }
  }

  /** A parameter whose point lies in the slab is between the slab's entry and exit parameters. */
  lemma EntryExitAround(o: real, d: real, lo: real, hi: real, t: real)
    requires d != 0.0 && lo <= o + d * t <= hi
    ensures var t1 := (lo - o) * (1.0 / d); var t2 := (hi - o) * (1.0 / d);
      (t1 <= t <= t2) || (t2 <= t <= t1)
  {
    DivideBound(lo - o, d, t);
    DivideBound(hi - o, d, t);
  }

  /** Narrowing an interval holding `t` by another interval holding `t` keeps `t`. */
  lemma SlabKeeps(acc: Slab, near: real, far: real, t: real)
    requires acc.hit && acc.tMin <= t <= acc.tMax && near <= t <= far
    ensures !(Max(acc.tMin, near) > Min(acc.tMax, far))
    ensures Max(acc.tMin, near) <= t <= Min(acc.tMax, far)
  {
  }

  /** The direction along `a` is exactly zero or not below the tolerance. */
  predicate ClearOfTolerance(ray: Ray, a: Axis) {
    Coord(ray.direction, a) == 0.0 || ParallelEpsilon <= Abs(Coord(ray.direction, a))
  }

  lemma {:induction false} SlabLoopSound(acc: Slab, b: Box, ray: Ray, i: nat, t: real)
    requires i <= 3 && acc.hit && acc.tMin <= t <= acc.tMax
    requires forall j :: i <= j < 3 ==> ClearOfTolerance(ray, AxisAt(j))
    requires forall j :: i <= j < 3 ==>
      Coord(b.lo, AxisAt(j)) <= Coord(At(ray, t), AxisAt(j)) <= Coord(b.hi, AxisAt(j))
    ensures SlabLoop(acc, b, ray, i).hit
    ensures SlabLoop(acc, b, ray, i).tMin <= t <= SlabLoop(acc, b, ray, i).tMax
    decreases 3 - i
  {
    if i < 3 {
      var a := AxisAt(i);
      assert ClearOfTolerance(ray, a);
      assert Coord(At(ray, t), a) == Coord(ray.origin, a) + Coord(ray.direction, a) * t;
      SlabAxisSound(acc, Coord(ray.origin, a), Coord(ray.direction, a), Coord(b.lo, a), Coord(b.hi, a), t);
      var next := SlabAxis(acc, Coord(ray.origin, a), Coord(ray.direction, a), Coord(b.lo, a), Coord(b.hi, a));
      SlabLoopSound(next, b, ray, i + 1, t);
    }
  }

  /**
   * The slab test never misses a point of the ray inside the box: if
   * `At(ray, t)` lies in `b` for some admissible `t`, the test reports a hit
   * whose interval contains `t`. Direction components are exactly zero or at
   * least the tolerance, since for tiny nonzero components the source treats
   * the ray as parallel although it is not.
   */
  lemma IntersectSound(b: Box, ray: Ray, t: real)
    requires 0.0 <= t <= MaxDouble
    requires forall a: Axis :: ClearOfTolerance(ray, a)
    requires Contains(b, At(ray, t))
    ensures Intersect(b, ray).hit
    ensures Intersect(b, ray).tMin <= t <= Intersect(b, ray).tMax
  {
    SlabLoopSound(Slab(true, 0.0, MaxDouble), b, ray, 0, t);
  }

  // ----- ray/triangle (Möller–Trumbore) -----

  /** The outcome of `intersectRayTriangle`: the out-parameters t, u, v are meaningful on a hit. */
  datatype TriHit = Miss | Hit(t: real, u: real, v: real)

  /** The determinant `a` of the Möller–Trumbore system: edge1 · (direction × edge2). */
  function Determinant(ray: Ray, v0: Vec3, v1: Vec3, v2: Vec3): real {
    Dot(Sub(v1, v0), Cross(ray.direction, Sub(v2, v0)))
  }

  /** The point with barycentric coordinates (1 - u - v, u, v): v0 + u·edge1 + v·edge2. */
  function Barycentric(v0: Vec3, v1: Vec3, v2: Vec3, u: real, v: real): Vec3 {
    Add(v0, Add(Scale(Sub(v1, v0), u), Scale(Sub(v2, v0), v)))
  }

  /**
   * The branching of `intersectRayTriangle` once the four products are known:
   * the determinant `a` and the triple products that, divided by `a`, give u,
   * v and t. Each test rejects as early as the source does.
   */
  function Decide(a: real, su: real, dq: real, w: real): (r: TriHit)
    ensures Abs(a) < ParallelEpsilon ==> r == Miss
    ensures r.Hit? ==> ParallelEpsilon < r.t && 0.0 <= r.u && 0.0 <= r.v && r.u + r.v <= 1.0
    ensures r.Hit? ==> a != 0.0 && r.t == (1.0 / a) * w && r.u == (1.0 / a) * su && r.v == (1.0 / a) * dq
  {
    if Abs(a) < ParallelEpsilon then Miss
    else
      var f := 1.0 / a;
      var u := f * su;
      if u < 0.0 || u > 1.0 then Miss
      else
        var v := f * dq;
        if v < 0.0 || u + v > 1.0 then Miss
        else
          var t := f * w;
          if t > ParallelEpsilon then Hit(t, u, v) else Miss
  }

  /**
   * `intersectRayTriangle`: a hit lies strictly in front of the origin, inside
   * the closed triangle, and is reported only when the ray is not (nearly)
   * parallel to the triangle's plane.
   */
  function IntersectRayTriangle(ray: Ray, v0: Vec3, v1: Vec3, v2: Vec3): (r: TriHit)
    ensures Abs(Determinant(ray, v0, v1, v2)) < ParallelEpsilon ==> r == Miss
    ensures r.Hit? ==> ParallelEpsilon < r.t && 0.0 <= r.u && 0.0 <= r.v && r.u + r.v <= 1.0
  {
    var edge1 := Sub(v1, v0);
    var edge2 := Sub(v2, v0);
    var h := Cross(ray.direction, edge2);
    var s := Sub(ray.origin, v0);
    var q := Cross(s, edge1);
    Decide(Dot(edge1, h), Dot(s, h), Dot(ray.direction, q), Dot(edge2, q))
  }

  /** When dividing the products by a usable determinant gives u, v and t inside the triangle, `Decide` reports that hit. */
  lemma DecideSolved(a: real, su: real, dq: real, w: real, t: real, u: real, v: real)
    requires ParallelEpsilon <= Abs(a)
    requires ParallelEpsilon < t && 0.0 <= u && 0.0 <= v && u + v <= 1.0
    requires (1.0 / a) * su == u && (1.0 / a) * dq == v && (1.0 / a) * w == t
    ensures Decide(a, su, dq, w) == Hit(t, u, v)
  {
  }

  /**
   * Cramer's rule for s = u·e1 + v·e2 - t·d along one axis, multiplied through by the
   * determinant e1 · (d × e2) and written out with h = d × e2 and q = s × e1.
   */
  lemma CramerComponent(dx: real, dy: real, dz: real, ax: real, ay: real, az: real,
                        cx: real, cy: real, cz: real, sx: real, sy: real, sz: real)
    ensures
      var hx := dy * cz - dz * cy; var hy := dz * cx - dx * cz; var hz := dx * cy - dy * cx;
      var qx := sy * az - sz * ay; var qy := sz * ax - sx * az; var qz := sx * ay - sy * ax;
      sx * (ax * hx + ay * hy + az * hz) + dx * (cx * qx + cy * qy + cz * qz)
        == ax * (sx * hx + sy * hy + sz * hz) + cx * (dx * qx + dy * qy + dz * qz)
  {
  }

  /** Dividing one coordinate of the Cramer identity by the determinant. */
  lemma SolveComponent(s: real, d: real, e1: real, e2: real, a: real, w: real, su: real, dq: real,
                        t: real, u: real, v: real)
    requires a != 0.0
    requires s * a + d * w == e1 * su + e2 * dq
    requires t == (1.0 / a) * w && u == (1.0 / a) * su && v == (1.0 / a) * dq
    ensures s + d * t == e1 * u + e2 * v
  {
    var f := 1.0 / a;
    assert f * a == 1.0;
    calc {
      s + d * (f * w);
      f * (s * a) + f * (d * w);
      f * (s * a + d * w);
      f * (e1 * su + e2 * dq);
      e1 * (f * su) + e2 * (f * dq);
    }
  }

  /** The parameters Möller–Trumbore computes for a nonzero determinant solve the ray/plane system. */
  lemma SolvedPoint(ray: Ray, v0: Vec3, v1: Vec3, v2: Vec3, t: real, u: real, v: real)
    requires Determinant(ray, v0, v1, v2) != 0.0
    requires var a := Determinant(ray, v0, v1, v2); var s := Sub(ray.origin, v0);
      var h := Cross(ray.direction, Sub(v2, v0)); var q := Cross(s, Sub(v1, v0));
      t == (1.0 / a) * Dot(Sub(v2, v0), q) && u == (1.0 / a) * Dot(s, h) && v == (1.0 / a) * Dot(ray.direction, q)
    ensures At(ray, t) == Barycentric(v0, v1, v2, u, v)
  {
    var d := ray.direction;
    var e1 := Sub(v1, v0);
    var e2 := Sub(v2, v0);
    var s := Sub(ray.origin, v0);
    SolvedXOf(d, e1, e2, s, t, u, v);
    SolvedYOf(d, e1, e2, s, t, u, v);
    SolvedZOf(d, e1, e2, s, t, u, v);
    ComponentsGivePoint(ray.origin, d, v0, v1, v2, t, u, v);
  }

  /** The x coordinate of `SolvedPoint`, for s = origin - v0, e1 = v1 - v0 and e2 = v2 - v0. */
  lemma SolvedXOf(d: Vec3, e1: Vec3, e2: Vec3, s: Vec3, t: real, u: real, v: real)
    requires Dot(e1, Cross(d, e2)) != 0.0
    requires var a := Dot(e1, Cross(d, e2));
      t == (1.0 / a) * Dot(e2, Cross(s, e1)) && u == (1.0 / a) * Dot(s, Cross(d, e2)) && v == (1.0 / a) * Dot(d, Cross(s, e1))
    ensures s.x + d.x * t == e1.x * u + e2.x * v
  {
    TripleProduct(e1, d, e2);
    TripleProduct(e2, s, e1);
    TripleProduct(s, d, e2);
    TripleProduct(d, s, e1);
    SolvedAxis(d.x, d.y, d.z, e1.x, e1.y, e1.z, e2.x, e2.y, e2.z, s.x, s.y, s.z,
               Dot(e1, Cross(d, e2)), Dot(e2, Cross(s, e1)), Dot(s, Cross(d, e2)), Dot(d, Cross(s, e1)), t, u, v);
  }

  /** The y coordinate of `SolvedPoint`. */
  lemma SolvedYOf(d: Vec3, e1: Vec3, e2: Vec3, s: Vec3, t: real, u: real, v: real)
    requires Dot(e1, Cross(d, e2)) != 0.0
    requires var a := Dot(e1, Cross(d, e2));
      t == (1.0 / a) * Dot(e2, Cross(s, e1)) && u == (1.0 / a) * Dot(s, Cross(d, e2)) && v == (1.0 / a) * Dot(d, Cross(s, e1))
    ensures s.y + d.y * t == e1.y * u + e2.y * v
  {
    TripleProduct(e1, d, e2);
    TripleProduct(e2, s, e1);
    TripleProduct(s, d, e2);
    TripleProduct(d, s, e1);
    SolvedAxis(d.y, d.z, d.x, e1.y, e1.z, e1.x, e2.y, e2.z, e2.x, s.y, s.z, s.x,
               Dot(e1, Cross(d, e2)), Dot(e2, Cross(s, e1)), Dot(s, Cross(d, e2)), Dot(d, Cross(s, e1)), t, u, v);
  }

  /** The z coordinate of `SolvedPoint`. */
  lemma SolvedZOf(d: Vec3, e1: Vec3, e2: Vec3, s: Vec3, t: real, u: real, v: real)
    requires Dot(e1, Cross(d, e2)) != 0.0
    requires var a := Dot(e1, Cross(d, e2));
      t == (1.0 / a) * Dot(e2, Cross(s, e1)) && u == (1.0 / a) * Dot(s, Cross(d, e2)) && v == (1.0 / a) * Dot(d, Cross(s, e1))
    ensures s.z + d.z * t == e1.z * u + e2.z * v
  {
    TripleProduct(e1, d, e2);
    TripleProduct(e2, s, e1);
    TripleProduct(s, d, e2);
    TripleProduct(d, s, e1);
    SolvedAxis(d.z, d.x, d.y, e1.z, e1.x, e1.y, e2.z, e2.x, e2.y, s.z, s.x, s.y,
               Dot(e1, Cross(d, e2)), Dot(e2, Cross(s, e1)), Dot(s, Cross(d, e2)), Dot(d, Cross(s, e1)), t, u, v);
  }

  /**
   * One coordinate of `SolvedPoint`, over the coordinates of d, e1, e2 and s:
   * Cramer's rule for the system s = u·e1 + v·e2 - t·d, multiplied through by
   * its determinant a = e1 · (d × e2) and then divided by it.
   */
  lemma SolvedAxis(dx: real, dy: real, dz: real, ax: real, ay: real, az: real,
                   cx: real, cy: real, cz: real, sx: real, sy: real, sz: real,
                   a: real, w: real, su: real, dq: real, t: real, u: real, v: real)
    requires a == ax * (dy * cz - dz * cy) + ay * (dz * cx - dx * cz) + az * (dx * cy - dy * cx)
    requires w == cx * (sy * az - sz * ay) + cy * (sz * ax - sx * az) + cz * (sx * ay - sy * ax)
    requires su == sx * (dy * cz - dz * cy) + sy * (dz * cx - dx * cz) + sz * (dx * cy - dy * cx)
    requires dq == dx * (sy * az - sz * ay) + dy * (sz * ax - sx * az) + dz * (sx * ay - sy * ax)
    requires a != 0.0 && t == (1.0 / a) * w && u == (1.0 / a) * su && v == (1.0 / a) * dq
    ensures sx + dx * t == ax * u + cx * v
  {
    assert sx * a + dx * w == ax * su + cx * dq by {
      CramerComponent(dx, dy, dz, ax, ay, az, cx, cy, cz, sx, sy, sz);
    }
    SolveComponent(sx, dx, ax, cx, a, w, su, dq, t, u, v);
  }

  /** The triple product a · (b × c), written out. */
  lemma TripleProduct(a: Vec3, b: Vec3, c: Vec3)
    ensures Dot(a, Cross(b, c)) == a.x * (b.y * c.z - b.z * c.y) + a.y * (b.z * c.x - b.x * c.z) + a.z * (b.x * c.y - b.y * c.x)
  {
  }

  /** Three coordinate equations of the ray/plane system give the point equation. */
  lemma ComponentsGivePoint(o: Vec3, d: Vec3, v0: Vec3, v1: Vec3, v2: Vec3, t: real, u: real, v: real)
    requires Sub(o, v0).x + d.x * t == Sub(v1, v0).x * u + Sub(v2, v0).x * v
    requires Sub(o, v0).y + d.y * t == Sub(v1, v0).y * u + Sub(v2, v0).y * v
    requires Sub(o, v0).z + d.z * t == Sub(v1, v0).z * u + Sub(v2, v0).z * v
    ensures At(Ray(o, d), t) == Barycentric(v0, v1, v2, u, v)
  {
    MoveBase(o.x, v0.x, d.x * t, Sub(v1, v0).x * u, Sub(v2, v0).x * v);
    MoveBase(o.y, v0.y, d.y * t, Sub(v1, v0).y * u, Sub(v2, v0).y * v);
    MoveBase(o.z, v0.z, d.z * t, Sub(v1, v0).z * u, Sub(v2, v0).z * v);
  }

  lemma MoveBase(o: real, b: real, dt: real, pu: real, pv: real)
    requires (o - b) + dt == pu + pv
    ensures o + dt == b + (pu + pv)
  {
  }

  /**
   * A reported hit is where the ray meets the triangle: the point at parameter
   * t is the point with barycentric coordinates (1 - u - v, u, v).
   */
  lemma HitIsOnRayAndTriangle(ray: Ray, v0: Vec3, v1: Vec3, v2: Vec3)
    requires IntersectRayTriangle(ray, v0, v1, v2).Hit?
    ensures var r := IntersectRayTriangle(ray, v0, v1, v2);
      At(ray, r.t) == Barycentric(v0, v1, v2, r.u, r.v)
  {
    var r := IntersectRayTriangle(ray, v0, v1, v2);
    SolvedPoint(ray, v0, v1, v2, r.t, r.u, r.v);
  }

  /**
   * The first triple-product identity for s = u·e1 + v·e2 - t·d, written out
   * per coordinate, with h = d × e2 and the determinant a = e1 · h.
   */
  lemma TripleU(dx: real, dy: real, dz: real, ax: real, ay: real, az: real, cx: real, cy: real, cz: real,
                u: real, v: real, t: real, sx: real, sy: real, sz: real)
    requires sx == ax * u + cx * v - dx * t && sy == ay * u + cy * v - dy * t && sz == az * u + cz * v - dz * t
    ensures sx * (dy * cz - dz * cy) + sy * (dz * cx - dx * cz) + sz * (dx * cy - dy * cx)
         == u * (ax * (dy * cz - dz * cy) + ay * (dz * cx - dx * cz) + az * (dx * cy - dy * cx))
  {
  }

  /** The other two triple-product identities, with q = s × e1. */
  lemma TripleVT(dx: real, dy: real, dz: real, ax: real, ay: real, az: real, cx: real, cy: real, cz: real,
                 u: real, v: real, t: real, sx: real, sy: real, sz: real, qx: real, qy: real, qz: real, a: real)
    requires sx == ax * u + cx * v - dx * t && sy == ay * u + cy * v - dy * t && sz == az * u + cz * v - dz * t
    requires a == ax * (dy * cz - dz * cy) + ay * (dz * cx - dx * cz) + az * (dx * cy - dy * cx)
    requires qx == sy * az - sz * ay && qy == sz * ax - sx * az && qz == sx * ay - sy * ax
    ensures dx * qx + dy * qy + dz * qz == v * a
    ensures cx * qx + cy * qy + cz * qz == t * a
  {
  }

  /**
   * When s = u·e1 + v·e2 - t·d, the triple product Möller–Trumbore turns into
   * u is u times the determinant.
   */
  lemma TripleProductU(d: Vec3, e1: Vec3, e2: Vec3, u: real, v: real, t: real, s: Vec3)
    requires s == Sub(Add(Scale(e1, u), Scale(e2, v)), Scale(d, t))
    ensures Dot(s, Cross(d, e2)) == u * Dot(e1, Cross(d, e2))
  {
    TripleU(d.x, d.y, d.z, e1.x, e1.y, e1.z, e2.x, e2.y, e2.z, u, v, t, s.x, s.y, s.z);
  }

  /** Likewise, the triple products turned into v and t are v and t times the determinant. */
  lemma TripleProductVT(d: Vec3, e1: Vec3, e2: Vec3, u: real, v: real, t: real, s: Vec3)
    requires s == Sub(Add(Scale(e1, u), Scale(e2, v)), Scale(d, t))
    ensures Dot(d, Cross(s, e1)) == v * Dot(e1, Cross(d, e2))
    ensures Dot(e2, Cross(s, e1)) == t * Dot(e1, Cross(d, e2))
  {
    var q := Cross(s, e1);
    TripleVT(d.x, d.y, d.z, e1.x, e1.y, e1.z, e2.x, e2.y, e2.z, u, v, t, s.x, s.y, s.z, q.x, q.y, q.z, Dot(e1, Cross(d, e2)));
  }

  /** Multiplying by a nonzero determinant and then by its reciprocal gives the value back. */
  lemma CancelDeterminant(a: real, x: real, p: real)
    requires a != 0.0 && p == x * a
    ensures (1.0 / a) * p == x
  {
    assert (1.0 / a) * a == 1.0;
    assert (1.0 / a) * (x * a) == x * ((1.0 / a) * a);
  }

  /** A ray point at parameter t with barycentric coordinates (u, v) makes the origin offset u·e1 + v·e2 - t·d. */
  lemma OffsetSolves(ray: Ray, v0: Vec3, v1: Vec3, v2: Vec3, t: real, u: real, v: real)
    requires At(ray, t) == Barycentric(v0, v1, v2, u, v)
    ensures Sub(ray.origin, v0) == Sub(Add(Scale(Sub(v1, v0), u), Scale(Sub(v2, v0), v)), Scale(ray.direction, t))
  {
    assert At(ray, t).x == Barycentric(v0, v1, v2, u, v).x;
    assert At(ray, t).y == Barycentric(v0, v1, v2, u, v).y;
    assert At(ray, t).z == Barycentric(v0, v1, v2, u, v).z;
  }

  /**
   * The converse of `HitIsOnRayAndTriangle`: when the ray is not nearly
   * parallel to the triangle and meets it at parameter t beyond the tolerance,
   * at the point with barycentric coordinates (1 - u - v, u, v) inside the
   * triangle, the test reports exactly that hit.
   */
  lemma HitIsReported(ray: Ray, v0: Vec3, v1: Vec3, v2: Vec3, t: real, u: real, v: real)
    requires ParallelEpsilon <= Abs(Determinant(ray, v0, v1, v2))
    requires ParallelEpsilon < t && 0.0 <= u && 0.0 <= v && u + v <= 1.0
    requires At(ray, t) == Barycentric(v0, v1, v2, u, v)
    ensures IntersectRayTriangle(ray, v0, v1, v2) == Hit(t, u, v)
  {
    var d := ray.direction;
    var e1 := Sub(v1, v0);
    var e2 := Sub(v2, v0);
    var h := Cross(d, e2);
    var a := Dot(e1, h);
    var s := Sub(ray.origin, v0);
    var q := Cross(s, e1);
    OffsetSolves(ray, v0, v1, v2, t, u, v);
    TripleProductU(d, e1, e2, u, v, t, s);
    TripleProductVT(d, e1, e2, u, v, t, s);
    SolvedHit(a, Dot(s, h), Dot(d, q), Dot(e2, q), t, u, v);
  }

  /** Products equal to u, v and t times a usable determinant make `Decide` report the hit (t, u, v). */
  lemma SolvedHit(a: real, su: real, dq: real, w: real, t: real, u: real, v: real)
    requires ParallelEpsilon <= Abs(a)
    requires ParallelEpsilon < t && 0.0 <= u && 0.0 <= v && u + v <= 1.0
    requires su == u * a && dq == v * a && w == t * a
    ensures Decide(a, su, dq, w) == Hit(t, u, v)
  {
    CancelDeterminant(a, u, su);
    CancelDeterminant(a, v, dq);
    CancelDeterminant(a, t, w);
    DecideSolved(a, su, dq, w, t, u, v);
  }

  // ----- triangle normal and area -----

  /**
   * `calculateTriangleNormal`: the normalized cross product of the two edges
   * from v0. It points along e1 x e2, and is zero when that product is
   * shorter than the normalisation tolerance.
   */
  function TriangleNormal(m: Libm, v0: Vec3, v1: Vec3, v2: Vec3): (r: Vec3)
    ensures SqrtLaw(m) ==> r == Zero || SquaredLength(r) == 1.0
    ensures SqrtLaw(m) ==> Dot(r, Sub(v1, v0)) == 0.0 && Dot(r, Sub(v2, v0)) == 0.0
    ensures var c := Cross(Sub(v1, v0), Sub(v2, v0));
      && (Length(m, c) < NormalizeEpsilon ==> r == Zero)
      && (SqrtLaw(m) && NormalizeEpsilon <= Length(m, c) ==> Scale(r, Length(m, c)) == c)
  {
    NormalProperties(m, v0, v1, v2);
    Normalized(m, Cross(Sub(v1, v0), Sub(v2, v0)))
  }

  lemma NormalProperties(m: Libm, v0: Vec3, v1: Vec3, v2: Vec3)
    ensures var r := Normalized(m, Cross(Sub(v1, v0), Sub(v2, v0)));
      SqrtLaw(m) ==> (r == Zero || SquaredLength(r) == 1.0) &&
                     Dot(r, Sub(v1, v0)) == 0.0 && Dot(r, Sub(v2, v0)) == 0.0
  {
    var c := Cross(Sub(v1, v0), Sub(v2, v0));
    var r := Normalized(m, c);
    if SqrtLaw(m) {
      NormalizedUnitOrZero(m, c);
      if r != Zero {
        LengthNonNegative(m, c);
        PerpendicularAfterScaling(r, Length(m, c), Sub(v1, v0));
        PerpendicularAfterScaling(r, Length(m, c), Sub(v2, v0));
      }
    }
  }

  /** A vector whose positive multiple is perpendicular to `e` is itself perpendicular to `e`. */
  lemma PerpendicularAfterScaling(r: Vec3, k: real, e: Vec3)
    requires 0.0 < k && Dot(Scale(r, k), e) == 0.0
    ensures Dot(r, e) == 0.0
  {
    assert Dot(Scale(r, k), e) == k * Dot(r, e);
  }

  /** `calculateTriangleArea`: half the length of the edges' cross product. */
  function TriangleArea(m: Libm, v0: Vec3, v1: Vec3, v2: Vec3): (r: real)
    ensures SqrtLaw(m) ==> 0.0 <= r && 4.0 * (r * r) == SquaredLength(Cross(Sub(v1, v0), Sub(v2, v0)))
  {
    AreaProperties(m, Cross(Sub(v1, v0), Sub(v2, v0)));
    Length(m, Cross(Sub(v1, v0), Sub(v2, v0))) * 0.5
  }

  lemma AreaProperties(m: Libm, c: Vec3)
    ensures SqrtLaw(m) ==> 0.0 <= Length(m, c) * 0.5 && 4.0 * ((Length(m, c) * 0.5) * (Length(m, c) * 0.5)) == SquaredLength(c)
  {
    if SqrtLaw(m) {
      LengthNonNegative(m, c);
    }
  }

  /** Lagrange's identity, one side written out: |a × b|² = |a|²|b|² - (a · b)². */
  lemma LagrangeScalar(ax: real, ay: real, az: real, bx: real, b2: real, bz: real)
    ensures (ay * bz - az * b2) * (ay * bz - az * b2) + (az * bx - ax * bz) * (az * bx - ax * bz)
              + (ax * b2 - ay * bx) * (ax * b2 - ay * bx)
            == (ax * ax + ay * ay + az * az) * (bx * bx + b2 * b2 + bz * bz)
               - (ax * bx + ay * b2 + az * bz) * (ax * bx + ay * b2 + az * bz)
  {
  }

  /**
   * The area reported for a triangle agrees with its edge lengths and the angle
   * between them: 4·area² = |e1|²|e2|² - (e1 · e2)².
   */
  lemma AreaFromEdges(m: Libm, v0: Vec3, v1: Vec3, v2: Vec3)
    requires SqrtLaw(m)
    ensures var e1 := Sub(v1, v0); var e2 := Sub(v2, v0); var r := TriangleArea(m, v0, v1, v2);
      4.0 * (r * r) == SquaredLength(e1) * SquaredLength(e2) - Dot(e1, e2) * Dot(e1, e2)
  {
    var e1 := Sub(v1, v0);
    var e2 := Sub(v2, v0);
    LagrangeScalar(e1.x, e1.y, e1.z, e2.x, e2.y, e2.z);
  }

  /** The edges of a triangle whose third corner lies on the line through the first two have a zero cross product. */
  lemma CollinearCross(v0: Vec3, v1: Vec3, k: real)
    ensures var v2 := Add(v0, Scale(Sub(v1, v0), k)); Cross(Sub(v1, v0), Sub(v2, v0)) == Zero
  {
    var e := Sub(v1, v0);
    var v2 := Add(v0, Scale(e, k));
    assert Sub(v2, v0) == Scale(e, k);
    CrossParallel(e, k);
  }

  /** A triangle whose edges have a zero cross product has zero area ... */
  lemma DegenerateArea(m: Libm, v0: Vec3, v1: Vec3, v2: Vec3)
    requires SqrtLaw(m)
    requires Cross(Sub(v1, v0), Sub(v2, v0)) == Zero
    ensures TriangleArea(m, v0, v1, v2) == 0.0
  {
    assert SquaredLength(Zero) == 0.0;
  }

  /** ... and the zero vector as normal. */
  lemma DegenerateNormal(m: Libm, v0: Vec3, v1: Vec3, v2: Vec3)
    requires SqrtLaw(m)
    requires Cross(Sub(v1, v0), Sub(v2, v0)) == Zero
    ensures TriangleNormal(m, v0, v1, v2) == Zero
  {
    assert SquaredLength(Zero) == 0.0;
  }

  /** In particular when the third corner lies on the line through the first two. */
  lemma CollinearTriangle(m: Libm, v0: Vec3, v1: Vec3, k: real)
    requires SqrtLaw(m)
    ensures TriangleArea(m, v0, v1, Add(v0, Scale(Sub(v1, v0), k))) == 0.0
    ensures TriangleNormal(m, v0, v1, Add(v0, Scale(Sub(v1, v0), k))) == Zero
  {
    CollinearCross(v0, v1, k);
    DegenerateArea(m, v0, v1, Add(v0, Scale(Sub(v1, v0), k)));
    DegenerateNormal(m, v0, v1, Add(v0, Scale(Sub(v1, v0), k)));
  }

  /** A vector crossed with a multiple of itself is zero. */
  lemma CrossParallel(e: Vec3, k: real)
    ensures Cross(e, Scale(e, k)) == Zero
  {
    assert e.y * (e.z * k) - e.z * (e.y * k) == 0.0;
    assert e.z * (e.x * k) - e.x * (e.z * k) == 0.0;
    assert e.x * (e.y * k) - e.y * (e.x * k) == 0.0;
  }

  /** A convex combination of three numbers in [lo, hi] stays in [lo, hi]. */
  lemma ConvexScalar(lo: real, hi: real, a0: real, a1: real, a2: real, u: real, v: real)
    requires lo <= a0 <= hi && lo <= a1 <= hi && lo <= a2 <= hi
    requires 0.0 <= u && 0.0 <= v && u + v <= 1.0
    ensures lo <= a0 + ((a1 - a0) * u + (a2 - a0) * v) <= hi
  {
    var p := a0 + ((a1 - a0) * u + (a2 - a0) * v);
    Offset(lo, a0, a1, a2, u, v, p);
    Offset(hi, a0, a1, a2, u, v, p);
    NonNegativeTerm(a0 - lo, 1.0 - u - v);
    NonNegativeTerm(a1 - lo, u);
    NonNegativeTerm(a2 - lo, v);
    NonNegativeTerm(hi - a0, 1.0 - u - v);
    NonNegativeTerm(hi - a1, u);
    NonNegativeTerm(hi - a2, v);
  }

  /** The distance of the combination from any `c`, as weighted distances of its terms. */
  lemma Offset(c: real, a0: real, a1: real, a2: real, u: real, v: real, p: real)
    requires p == a0 + ((a1 - a0) * u + (a2 - a0) * v)
    ensures p - c == (a0 - c) * (1.0 - u - v) + (a1 - c) * u + (a2 - c) * v
  {
  }

  lemma NonNegativeTerm(x: real, c: real)
    requires 0.0 <= x && 0.0 <= c
    ensures 0.0 <= x * c
  {
  }

  /** A point of a triangle (barycentric coordinates all non-negative) lies in any box holding its corners. */
  lemma BarycentricInBox(b: Box, v0: Vec3, v1: Vec3, v2: Vec3, u: real, v: real)
    requires Contains(b, v0) && Contains(b, v1) && Contains(b, v2)
    requires 0.0 <= u && 0.0 <= v && u + v <= 1.0
    ensures Contains(b, Barycentric(v0, v1, v2, u, v))
  {
    forall a: Axis
      ensures Coord(b.lo, a) <= Coord(Barycentric(v0, v1, v2, u, v), a) <= Coord(b.hi, a)
    {
      BarycentricCoord(v0, v1, v2, u, v, a);
      ConvexScalar(Coord(b.lo, a), Coord(b.hi, a), Coord(v0, a), Coord(v1, a), Coord(v2, a), u, v);
    }
  }

  /** One coordinate of a barycentric point. */
  lemma BarycentricCoord(v0: Vec3, v1: Vec3, v2: Vec3, u: real, v: real, a: Axis)
    ensures Coord(Barycentric(v0, v1, v2, u, v), a)
      == Coord(v0, a) + ((Coord(v1, a) - Coord(v0, a)) * u + (Coord(v2, a) - Coord(v0, a)) * v)
  {
  }
}
