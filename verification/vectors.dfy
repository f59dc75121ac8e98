/**
 * Vector3 and Matrix3 from include/geom-core/Vector3.hpp: 3-D vectors over the
 * reals, the tolerant equality, the exact lexicographic order used as the key
 * order of std::map, and 3x3 matrices stored by rows.
 */
module Vectors {
  import opened RealMath

  datatype Vec3 = Vec3(x: real, y: real, z: real)

  /** The coordinate axes; the C++ code selects them with an int 0, 1, 2. */
  datatype Axis = X | Y | Z

  const Zero: Vec3 := Vec3(0.0, 0.0, 0.0)

  /** Below this length `Normalized` returns the zero vector. */
  const NormalizeEpsilon: real := 0.0000000001

  /** Tolerance of the component-wise equality operator. */
  const EqualityEpsilon: real := 0.000000001

  function Coord(v: Vec3, a: Axis): real {
    match a
    case X => v.x
    case Y => v.y
    case Z => v.z
  }

  function Add(a: Vec3, b: Vec3): Vec3 {
    Vec3(a.x + b.x, a.y + b.y, a.z + b.z)
  }

  function Sub(a: Vec3, b: Vec3): Vec3 {
    Vec3(a.x - b.x, a.y - b.y, a.z - b.z)
  }

  function Scale(a: Vec3, s: real): Vec3 {
    Vec3(a.x * s, a.y * s, a.z * s)
  }

  function Dot(a: Vec3, b: Vec3): real {
    a.x * b.x + a.y * b.y + a.z * b.z
  }

  /** The cross product (operator% in the source). */
  function Cross(a: Vec3, b: Vec3): Vec3 {
    Vec3(a.y * b.z - a.z * b.y,
         a.z * b.x - a.x * b.z,
         a.x * b.y - a.y * b.x)
  }

  /**
   * The operators' algebra: subtraction undoes addition, the dot product is
   * symmetric, and the cross product is anti-commutative, so it vanishes on
   * equal operands.
   */
  lemma OperatorLaws(a: Vec3, b: Vec3)
    ensures Sub(Add(a, b), b) == a && Add(Sub(a, b), b) == a
    ensures Dot(a, b) == Dot(b, a)
    ensures Cross(a, b) == Scale(Cross(b, a), -1.0)
    ensures Cross(a, a) == Zero
  {
  }

  /** The cross product is orthogonal to both operands. */
  lemma CrossOrthogonal(a: Vec3, b: Vec3)
    ensures Dot(a, Cross(a, b)) == 0.0 && Dot(b, Cross(a, b)) == 0.0
  {
  }

  /** The argument std::sqrt receives in `length()`; never negative. */
  function SquaredLength(v: Vec3): (r: real)
    ensures 0.0 <= r
  {
    SquareNonNegative(v.x);
    SquareNonNegative(v.y);
    SquareNonNegative(v.z);
    v.x * v.x + v.y * v.y + v.z * v.z
  }

  lemma SquareNonNegative(a: real)
    ensures 0.0 <= a * a
  {
    if a < 0.0 {
      var b := -a;
      assert 0.0 <= b * b;
      assert a * a == b * b;
    }
  }

  function Length(m: Libm, v: Vec3): real {
    m.sqrt(SquaredLength(v))
  }

  lemma LengthNonNegative(m: Libm, v: Vec3)
    requires SqrtLaw(m)
    ensures 0.0 <= Length(m, v)
    ensures Length(m, v) * Length(m, v) == SquaredLength(v)
  {
  }

  /**
   * `normalized()`: the zero vector when the length is below 1e-10, and otherwise a
   * unit vector that, scaled by the length, gives back the input.
   */
  function Normalized(m: Libm, v: Vec3): (r: Vec3)
    ensures Length(m, v) < NormalizeEpsilon ==> r == Zero
    ensures SqrtLaw(m) && NormalizeEpsilon <= Length(m, v) ==>
              Scale(r, Length(m, v)) == v && SquaredLength(r) == 1.0
  {
    var len := Length(m, v);
    if len < NormalizeEpsilon then Zero
    else
      var r := Vec3(v.x / len, v.y / len, v.z / len);
      NormalizedProperties(m, v, len, r);
      r
  }

  lemma NormalizedProperties(m: Libm, v: Vec3, len: real, r: Vec3)
    requires len == Length(m, v) && NormalizeEpsilon <= len
    requires r == Vec3(v.x / len, v.y / len, v.z / len)
    ensures SqrtLaw(m) ==> Scale(r, len) == v && SquaredLength(r) == 1.0
  {
    if SqrtLaw(m) {
      var s := SquaredLength(v);
      assert len * len == s;
      assert r.x * len == v.x && r.y * len == v.y && r.z * len == v.z;
      calc {
        SquaredLength(r) * (len * len);
        (r.x * len) * (r.x * len) + (r.y * len) * (r.y * len) + (r.z * len) * (r.z * len);
        s;
      }
    }
  }

  /** The normalized vector of anything is either exactly zero or of unit length. */
  lemma NormalizedUnitOrZero(m: Libm, v: Vec3)
    requires SqrtLaw(m)
    ensures Normalized(m, v) == Zero || SquaredLength(Normalized(m, v)) == 1.0
  {
  }

  // ----- equality and ordering -----

  /** operator==: every component differs by less than 1e-9. */
  predicate ApproxEq(a: Vec3, b: Vec3) {
    Abs(a.x - b.x) < EqualityEpsilon &&
    Abs(a.y - b.y) < EqualityEpsilon &&
    Abs(a.z - b.z) < EqualityEpsilon
  }

  /** operator!= */
  predicate NotApproxEq(a: Vec3, b: Vec3) {
    !ApproxEq(a, b)
  }

  lemma ApproxEqReflexiveSymmetric(a: Vec3, b: Vec3)
    ensures ApproxEq(a, a)
    ensures ApproxEq(a, b) <==> ApproxEq(b, a)
    ensures NotApproxEq(a, b) <==> !ApproxEq(a, b)
  {
  }

  /**
   * The tolerant equality is not transitive, so it cannot serve as the key
   * equivalence of an ordered map; the loader keys its map by `Less` instead.
   */
  lemma ApproxEqNotTransitive()
    ensures ApproxEq(Zero, Vec3(0.0000000006, 0.0, 0.0))
    ensures ApproxEq(Vec3(0.0000000006, 0.0, 0.0), Vec3(0.0000000012, 0.0, 0.0))
    ensures !ApproxEq(Zero, Vec3(0.0000000012, 0.0, 0.0))
  {
  }

  /** operator<: exact lexicographic comparison on (x, y, z). */
  predicate Less(a: Vec3, b: Vec3) {
    if a.x != b.x then a.x < b.x
    else if a.y != b.y then a.y < b.y
    else a.z < b.z
  }

  lemma LessIrreflexive(a: Vec3)
    ensures !Less(a, a)
  {
  }

  lemma LessTransitive(a: Vec3, b: Vec3, c: Vec3)
    requires Less(a, b) && Less(b, c)
    ensures Less(a, c)
  {
  }

  /**
   * Exactly one of a < b, b < a, a == b holds; in particular two vectors are
   * equivalent under the order only when they are exactly equal.
   */
  lemma LessTrichotomy(a: Vec3, b: Vec3)
    ensures Less(a, b) || Less(b, a) || a == b
    ensures !(Less(a, b) && Less(b, a))
    ensures a == b ==> !Less(a, b) && !Less(b, a)
  {
  }

  // ----- 3x3 matrices -----

  /** Matrix3, stored as its three rows. */
  datatype Mat3 = Mat3(r0: Vec3, r1: Vec3, r2: Vec3)

  function Col(a: Mat3, j: Axis): Vec3 {
    Vec3(Coord(a.r0, j), Coord(a.r1, j), Coord(a.r2, j))
  }

  /** Matrix3 * Vector3. */
  function MulVec(a: Mat3, v: Vec3): Vec3 {
    Vec3(Dot(a.r0, v), Dot(a.r1, v), Dot(a.r2, v))
  }

  /** The default Matrix3 is the identity: it maps every vector to itself. */
  function Identity(): (r: Mat3)
    ensures forall v {:trigger MulVec(r, v)} :: MulVec(r, v) == v
  {
    Mat3(Vec3(1.0, 0.0, 0.0), Vec3(0.0, 1.0, 0.0), Vec3(0.0, 0.0, 1.0))
  }

  /** Row `ra` of the left factor times the right factor: one row of the product, each entry summed from 0. */
  function RowTimes(ra: Vec3, b: Mat3): Vec3 {
    Vec3(0.0 + ra.x * b.r0.x + ra.y * b.r1.x + ra.z * b.r2.x,
         0.0 + ra.x * b.r0.y + ra.y * b.r1.y + ra.z * b.r2.y,
         0.0 + ra.x * b.r0.z + ra.y * b.r1.z + ra.z * b.r2.z)
  }

  /** Matrix3 * Matrix3 agrees with composing the two linear maps. */
  function MulMat(a: Mat3, b: Mat3): (r: Mat3)
    ensures forall v {:trigger MulVec(r, v)} :: MulVec(r, v) == MulVec(a, MulVec(b, v))
  {
    var r := Mat3(RowTimes(a.r0, b), RowTimes(a.r1, b), RowTimes(a.r2, b));
    forall v
      ensures MulVec(r, v) == MulVec(a, MulVec(b, v))
    {
      MulMatRow(a.r0, b, v);
      MulMatRow(a.r1, b, v);
      MulMatRow(a.r2, b, v);
    }
    r
  }

  lemma MulMatRow(ra: Vec3, b: Mat3, v: Vec3)
    ensures Dot(RowTimes(ra, b), v) == Dot(ra, MulVec(b, v))
  {
    calc {
      Dot(RowTimes(ra, b), v);
      ra.x * (b.r0.x * v.x + b.r0.y * v.y + b.r0.z * v.z)
        + ra.y * (b.r1.x * v.x + b.r1.y * v.y + b.r1.z * v.z)
        + ra.z * (b.r2.x * v.x + b.r2.y * v.y + b.r2.z * v.z);
      Dot(ra, MulVec(b, v));
    }
  }

  /** transpose() is the adjoint: u . (M^T v) == (M u) . v for all u, v. */
  function Transpose(a: Mat3): (r: Mat3)
    ensures forall u, v {:trigger Dot(u, MulVec(r, v))} :: Dot(u, MulVec(r, v)) == Dot(MulVec(a, u), v)
  {
    Mat3(Col(a, X), Col(a, Y), Col(a, Z))
  }

  lemma TransposeInvolution(a: Mat3)
    ensures Transpose(Transpose(a)) == a
  {
  }

  /**
   * Matrix3::rotation (Rodrigues' formula) about the normalized axis k, with
   * c = cos(angle), s = sin(angle), t = 1 - c.
   */
  function Rotation(m: Libm, axis: Vec3, angle: real): (r: Mat3)
    ensures SqrtLaw(m) ==> MulVec(r, Normalized(m, axis)) == Normalized(m, axis)
  {
    var k := Normalized(m, axis);
    var c := m.cos(angle);
    var s := m.sin(angle);
    var t := 1.0 - c;
    var r := Mat3(
      Vec3(t * k.x * k.x + c, t * k.x * k.y - s * k.z, t * k.x * k.z + s * k.y),
      Vec3(t * k.x * k.y + s * k.z, t * k.y * k.y + c, t * k.y * k.z - s * k.x),
      Vec3(t * k.x * k.z - s * k.y, t * k.y * k.z + s * k.x, t * k.z * k.z + c));
    RotationFixesAxis(k, c, s, t, r);
    r
  }

  lemma RotationFixesAxis(k: Vec3, c: real, s: real, t: real, r: Mat3)
    requires t == 1.0 - c
    requires r == Mat3(
      Vec3(t * k.x * k.x + c, t * k.x * k.y - s * k.z, t * k.x * k.z + s * k.y),
      Vec3(t * k.x * k.y + s * k.z, t * k.y * k.y + c, t * k.y * k.z - s * k.x),
      Vec3(t * k.x * k.z - s * k.y, t * k.y * k.z + s * k.x, t * k.z * k.z + c))
    ensures k == Zero || SquaredLength(k) == 1.0 ==> MulVec(r, k) == k
  {
    var q := k.x * k.x + k.y * k.y + k.z * k.z;
    RotationApplied(k, c, s, t, r);
    if q == 1.0 {
      ScaleByOne(t, c, k.x, q);
      ScaleByOne(t, c, k.y, q);
      ScaleByOne(t, c, k.z, q);
    }
  }

  /** R k expanded: t k (k . k) + c k, the s-terms cancelling. */
  lemma RotationApplied(k: Vec3, c: real, s: real, t: real, r: Mat3)
    requires r == Mat3(
      Vec3(t * k.x * k.x + c, t * k.x * k.y - s * k.z, t * k.x * k.z + s * k.y),
      Vec3(t * k.x * k.y + s * k.z, t * k.y * k.y + c, t * k.y * k.z - s * k.x),
      Vec3(t * k.x * k.z - s * k.y, t * k.y * k.z + s * k.x, t * k.z * k.z + c))
    ensures MulVec(r, k).x == t * k.x * (k.x * k.x + k.y * k.y + k.z * k.z) + c * k.x
    ensures MulVec(r, k).y == t * k.y * (k.x * k.x + k.y * k.y + k.z * k.z) + c * k.y
    ensures MulVec(r, k).z == t * k.z * (k.x * k.x + k.y * k.y + k.z * k.z) + c * k.z
  {
  }

  lemma ScaleByOne(t: real, c: real, a: real, q: real)
    requires q == 1.0 && t == 1.0 - c
    ensures t * a * q + c * a == a
  {
  }
}
