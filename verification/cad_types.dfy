/**
 * The plain value types of the CAD layer: shape classification, the
 * min/max bounding box with its derived size, centre and volume, the shape
 * handle that crosses the language boundary, tessellated mesh data with its
 * counts and byte size, and the success-or-error result record.
 */
module CadTypes {
  import opened Vectors

  datatype Option<T> = None | Some(value: T)

  datatype ShapeType = Solid | Surface | Curve | Point | Compound | Wire | Edge | Face | Shell | Unknown

  /** A box given by two corners; both default to the origin. */
  datatype BoundingBox = BoundingBox(min: Vec3, max: Vec3)

  const OriginBox: BoundingBox := BoundingBox(Zero, Zero)

  /** Extent along each axis: adding it to the lower corner gives the upper corner. */
  function Size(b: BoundingBox): (r: Vec3)
    ensures Add(b.min, r) == b.max
    ensures b.min == b.max <==> r == Zero
  {
    Vec3(b.max.x - b.min.x, b.max.y - b.min.y, b.max.z - b.min.z)
  }

  /** The midpoint: equally far from both corners. */
  function Center(b: BoundingBox): (r: Vec3)
    ensures Sub(r, b.min) == Sub(b.max, r)
    ensures Add(r, r) == Add(b.min, b.max)
  {
    Vec3((b.min.x + b.max.x) / 2.0, (b.min.y + b.max.y) / 2.0, (b.min.z + b.max.z) / 2.0)
  }

  predicate Ordered(b: BoundingBox) {
    b.min.x <= b.max.x && b.min.y <= b.max.y && b.min.z <= b.max.z
  }

  predicate Inside(p: Vec3, b: BoundingBox) {
    b.min.x <= p.x <= b.max.x && b.min.y <= p.y <= b.max.y && b.min.z <= p.z <= b.max.z
  }

  /** Product of the three extents. */
  function BoxVolume(b: BoundingBox): (r: real)
    ensures Ordered(b) ==> r >= 0.0
    ensures b.min.x == b.max.x || b.min.y == b.max.y || b.min.z == b.max.z ==> r == 0.0
  {
    var s := Size(b);
    NonNegativeProduct(b);
    s.x * s.y * s.z
  }

  lemma NonNegativeProduct(b: BoundingBox)
    ensures Ordered(b) ==> Size(b).x * Size(b).y * Size(b).z >= 0.0
  {
    var s := Size(b);
    if Ordered(b) {
      assert s.x * s.y >= 0.0;
    }
  }

  /** The centre of an ordered box lies inside it, and both corners do. */
  lemma CenterInside(b: BoundingBox)
    requires Ordered(b)
    ensures Inside(Center(b), b) && Inside(b.min, b) && Inside(b.max, b)
  {
  }

  /**
   * Translating a box moves its centre by the same offset and leaves its
   * size and volume unchanged.
   */
  lemma TranslationInvariant(b: BoundingBox, d: Vec3)
    ensures Size(BoundingBox(Add(b.min, d), Add(b.max, d))) == Size(b)
    ensures Center(BoundingBox(Add(b.min, d), Add(b.max, d))) == Add(Center(b), d)
    ensures BoxVolume(BoundingBox(Add(b.min, d), Add(b.max, d))) == BoxVolume(b)
  {
    var t := BoundingBox(Add(b.min, d), Add(b.max, d));
    assert Size(t) == Size(b);
  }

  /**
   * Handle for a registered shape: id, classification, cached box, content
   * hash and lazily filled properties.
   */
  datatype ShapeHandle = ShapeHandle(
    id: string,
    shapeType: ShapeType,
    bbox: BoundingBox,
    hash: string,
    volume: Option<real>,
    surfaceArea: Option<real>,
    centerOfMass: Option<Vec3>)

  /** A value-initialised handle: empty id, first enumerator, origin box, nothing computed. */
  const EmptyHandle: ShapeHandle := ShapeHandle("", Solid, OriginBox, "", None, None, None)

  function IsValid(h: ShapeHandle): (b: bool)
    ensures b <==> h.id != ""
  {
    |h.id| > 0
  }

  /**
   * Tessellation output: flat position/normal/uv float arrays and a flat
   * index array, three entries per vertex or triangle.
   */
  datatype MeshData = MeshData(positions: seq<real>, normals: seq<real>, indices: seq<nat>, uvs: seq<real>)

  /** Whole vertices in the position array; a trailing partial vertex is dropped. */
  function VertexCount(d: MeshData): (r: nat)
    ensures 3 * r <= |d.positions| < 3 * r + 3
  {
    |d.positions| / 3
  }

  /** Whole triangles in the index array; a trailing partial triangle is dropped. */
  function TriangleCount(d: MeshData): (r: nat)
    ensures 3 * r <= |d.indices| < 3 * r + 3
  {
    |d.indices| / 3
  }

  /** Bytes held by the four arrays: four per float and four per 32-bit index. */
  function ByteSize(d: MeshData): (r: nat)
    ensures r % 4 == 0
    ensures r >= 12 * VertexCount(d) + 12 * TriangleCount(d)
    ensures r == 0 <==> d.positions == [] && d.normals == [] && d.indices == [] && d.uvs == []
  {
    4 * |d.positions| + 4 * |d.normals| + 4 * |d.indices| + 4 * |d.uvs|
  }

  function Concat(a: MeshData, b: MeshData): MeshData {
    MeshData(a.positions + b.positions, a.normals + b.normals, a.indices + b.indices, a.uvs + b.uvs)
  }

  /** Byte size is additive over concatenation, and whole-element counts never shrink. */
  lemma ByteSizeAdditive(a: MeshData, b: MeshData)
    ensures ByteSize(Concat(a, b)) == ByteSize(a) + ByteSize(b)
    ensures VertexCount(Concat(a, b)) >= VertexCount(a) + VertexCount(b)
    ensures TriangleCount(Concat(a, b)) >= TriangleCount(a) + TriangleCount(b)
  {
  }

  /**
   * An operation result. A fresh record is a failure with empty error
   * fields, zero metrics and a default value.
   */
  datatype Result<T> = Result(
    success: bool,
    value: T,
    errorCode: string,
    errorMessage: string,
    durationMs: real,
    memoryUsedBytes: nat,
    wasCached: bool)

  function Blank<T>(default: T): Result<T> {
    Result(false, default, "", "", 0.0, 0, false)
  }

  /** A success carrying the value; every other field keeps its fresh default. */
  function Ok<T>(default: T, val: T): (r: Result<T>)
    ensures r.success && r.value == val
    ensures r.errorCode == "" && r.errorMessage == ""
    ensures r == Blank(default).(success := true, value := val)
  {
    Result(true, val, "", "", 0.0, 0, false)
  }

  /** A failure carrying the code and message and the default value. */
  function Error<T>(default: T, code: string, msg: string): (r: Result<T>)
    ensures !r.success && r.value == default
    ensures r.errorCode == code && r.errorMessage == msg
    ensures r == Blank(default).(errorCode := code, errorMessage := msg)
  {
    Result(false, default, code, msg, 0.0, 0, false)
  }

  /** The two constructors are told apart by the success flag alone. */
  lemma OkIsNotError<T>(default: T, val: T, code: string, msg: string)
    ensures Ok(default, val) != Error(default, code, msg)
    ensures Ok(default, val).success != Error(default, code, msg).success
  {
  }
}
