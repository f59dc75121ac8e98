/**
 * `Mesh::loadFromSTLBuffer` (src/Mesh.cpp:37-115): the binary STL parser.
 *
 * A binary STL buffer is an 80-byte header, a little-endian uint32 triangle
 * count at bytes 80..83, then 50 bytes per triangle: a 12-byte normal, three
 * 12-byte vertices of three float32 each, and a 2-byte attribute count. The
 * parser ignores the normal and the attribute bytes and deduplicates the
 * vertices exactly (through a std::map keyed by the lexicographic `<`, whose
 * induced equivalence is exact equality, see `Vectors.LessTrichotomy`).
 *
 * float32 decoding is a parameter `f32` from four bytes to a real.
 */
module StlLoader {
  import opened Vectors
  import opened Meshes

  type Byte = bv8

  const HeaderSize: nat := 80
  const PreambleSize: nat := 84
  const TriangleRecordSize: nat := 50
  const Two32: nat := 0x1_0000_0000

  /** The triangle count as the host reads it: bytes 80..83, little-endian. */
  function TriangleCount(buf: seq<Byte>): (count: nat)
    requires |buf| >= PreambleSize
    ensures count < Two32
  {
    ByteValue(buf[80]) + 0x100 * ByteValue(buf[81]) + 0x1_0000 * ByteValue(buf[82]) + 0x100_0000 * ByteValue(buf[83])
  }

  function ByteValue(b: Byte): (n: nat)
    ensures n < 0x100
  {
    b as nat
  }

  /** `84 + triangleCount * 50` evaluated in 32-bit unsigned arithmetic, as written. */
  function ExpectedSize32(count: nat): nat {
    (PreambleSize + TriangleRecordSize * count) % Two32
  }

  /** The same bound without wrap-around: the bytes the triangles really need. */
  function ExpectedSizeWide(count: nat): nat {
    PreambleSize + TriangleRecordSize * count
  }

  /** Three float32 values starting at `off`. */
  function ReadVertex(buf: seq<Byte>, f32: seq<Byte> -> real, off: nat): Vec3
    requires off + 12 <= |buf|
  {
    Vec3(f32(buf[off..off + 4]), f32(buf[off + 4..off + 8]), f32(buf[off + 8..off + 12]))
  }

  /** Where triangle record `t` starts. */
  function RecordStart(t: nat): nat {
    PreambleSize + TriangleRecordSize * t
  }

  /** The three vertices of triangle record `t`, skipping its 12-byte normal. */
  function RecordVertices(buf: seq<Byte>, f32: seq<Byte> -> real, t: nat): seq<Vec3>
    requires RecordStart(t + 1) <= |buf|
  {
    var off := RecordStart(t) + 12;
    [ReadVertex(buf, f32, off), ReadVertex(buf, f32, off + 12), ReadVertex(buf, f32, off + 24)]
  }

  /** The vertex stream of the first `n` triangle records, in file order. */
  function Stream(buf: seq<Byte>, f32: seq<Byte> -> real, n: nat): (s: seq<Vec3>)
    requires RecordStart(n) <= |buf|
    ensures |s| == 3 * n
    decreases n
  {
    if n == 0 then [] else Stream(buf, f32, n - 1) + RecordVertices(buf, f32, n - 1)
  }

  lemma {:induction false} StreamAt(buf: seq<Byte>, f32: seq<Byte> -> real, n: nat, t: nat, j: nat)
    requires RecordStart(n) <= |buf|
    requires t < n && j < 3
    ensures RecordStart(t + 1) <= |buf|
    ensures Stream(buf, f32, n)[3 * t + j] == RecordVertices(buf, f32, t)[j]
    decreases n
  {
    var prev := Stream(buf, f32, n - 1);
    var last := RecordVertices(buf, f32, n - 1);
    assert Stream(buf, f32, n) == prev + last;
    if t < n - 1 {
      assert 3 * t + j < |prev|;
      assert (prev + last)[3 * t + j] == prev[3 * t + j];
      StreamAt(buf, f32, n - 1, t, j);
    } else {
      assert t == n - 1 && 3 * t + j == |prev| + j;
      assert (prev + last)[|prev| + j] == last[j];
    }
  }

  // ----- exact deduplication, first-seen order -----

  /** The vertex table built so far and the index assigned to each vertex read. */
  datatype Dedup = Dedup(table: seq<Vec3>, idx: seq<int>)

  predicate Distinct(s: seq<Vec3>) {
    forall a, b :: 0 <= a < b < |s| ==> s[a] != s[b]
  }

  function IndexOf(s: seq<Vec3>, v: Vec3): (k: int)
    requires v in s
    ensures 0 <= k < |s| && s[k] == v
    ensures forall j :: 0 <= j < k ==> s[j] != v
  {
    if s[0] == v then 0 else 1 + IndexOf(s[1..], v)
  }

  /** One lookup in the vertex map: reuse the index of a known vertex, else append it. */
  function DedupStep(d: Dedup, v: Vec3): Dedup {
    if v in d.table then Dedup(d.table, d.idx + [IndexOf(d.table, v)])
    else Dedup(d.table + [v], d.idx + [|d.table|])
  }

  function DedupAll(s: seq<Vec3>): Dedup
    decreases |s|
  {
    if |s| == 0 then Dedup([], []) else DedupStep(DedupAll(s[..|s| - 1]), s[|s| - 1])
  }

  /**
   * The table holds each vertex of the stream exactly once, and the index of
   * every position of the stream points at a copy of the vertex read there.
   */
  lemma {:induction false} DedupAllCorrect(s: seq<Vec3>)
    ensures Distinct(DedupAll(s).table)
    ensures |DedupAll(s).idx| == |s|
    ensures |DedupAll(s).table| <= |s|
    ensures forall k :: 0 <= k < |s| ==>
              0 <= DedupAll(s).idx[k] < |DedupAll(s).table| && DedupAll(s).table[DedupAll(s).idx[k]] == s[k]
    ensures forall v :: v in DedupAll(s).table <==> v in s
    decreases |s|
  {
    if |s| > 0 {
      var s' := s[..|s| - 1];
      DedupAllCorrect(s');
      var d := DedupAll(s');
      assert s == s' + [s[|s| - 1]];
      if s[|s| - 1] !in d.table {
        var t := d.table + [s[|s| - 1]];
        assert forall a :: 0 <= a < |d.table| ==> t[a] == d.table[a];
      }
    }
  }

  /**
   * First-seen order: the table after any prefix of the stream is a prefix of
   * the final table, so vertices appear in the order they were first read.
   */
  lemma {:induction false} DedupPrefix(s: seq<Vec3>, k: nat)
    requires k <= |s|
    ensures DedupAll(s[..k]).table <= DedupAll(s).table
    decreases |s| - k
  {
    if k < |s| {
      var n := |s| - 1;
      assert s[..n][..k] == s[..k];
      DedupPrefix(s[..n], k);
      assert s[..|s|] == s;
    } else {
      assert s[..k] == s;
    }
  }

  // ----- the mesh the parser builds -----

  /** Groups the index stream three by three into faces. */
  function FacesOf(idx: seq<int>): (faces: seq<Triangle>)
    requires |idx| % 3 == 0
    ensures |faces| == |idx| / 3
    ensures forall t :: 0 <= t < |faces| ==> faces[t] == Triangle(idx[3 * t], idx[3 * t + 1], idx[3 * t + 2])
  {
    seq(|idx| / 3, t requires 0 <= t < |idx| / 3 => Triangle(idx[3 * t], idx[3 * t + 1], idx[3 * t + 2]))
  }

  lemma FacesOfAppend(idx: seq<int>, a: int, b: int, c: int)
    requires |idx| % 3 == 0
    ensures FacesOf(idx + [a, b, c]) == FacesOf(idx) + [Triangle(a, b, c)]
  {
  }

  /** The mesh obtained from a vertex stream: deduplicated table plus faces. */
  function MeshOf(s: seq<Vec3>): Mesh
    requires |s| % 3 == 0
  {
    DedupAllCorrect(s);
    Mesh(DedupAll(s).table, FacesOf(DedupAll(s).idx))
  }

  /** How many triangle records fit in the buffer, capped at the declared count. */
  function FittingRecords(size: nat, count: nat): (k: nat)
    requires size >= PreambleSize
    ensures k <= count && RecordStart(k) <= size
    ensures k < count ==> size < RecordStart(k + 1)
  {
    var room := (size - PreambleSize) / TriangleRecordSize;
    if count <= room then count else room
  }

  /**
   * What the parser returns for a given up-front bound `expected`: false with an
   * empty mesh when the buffer is shorter than the preamble or than `expected`;
   * otherwise it parses records until the count is reached or a record would run
   * past the end, returning true only in the first case, and keeps what it parsed.
   */
  function LoadResult(buf: seq<Byte>, f32: seq<Byte> -> real, expected: nat): (bool, Mesh) {
    if |buf| < PreambleSize then (false, EmptyMesh)
    else if |buf| < expected then (false, EmptyMesh)
    else
      var count := TriangleCount(buf);
      var k := FittingRecords(|buf|, count);
      (k == count, MeshOf(Stream(buf, f32, k)))
  }

  /** The vertex map of the parser: each vertex of the table maps to its position. */
  ghost predicate MapsTable(vmap: map<Vec3, int>, table: seq<Vec3>) {
    && (forall v :: v in vmap ==> 0 <= vmap[v] < |table| && table[vmap[v]] == v)
    && (forall k :: 0 <= k < |table| ==> table[k] in vmap && vmap[table[k]] == k)
  }

  /** A table that a map indexes this way holds no vertex twice. */
  lemma MapsTableFacts(vmap: map<Vec3, int>, table: seq<Vec3>, v: Vec3)
    requires MapsTable(vmap, table)
    ensures Distinct(table)
    ensures v in vmap <==> v in table
    ensures v in vmap ==> IndexOf(table, v) == vmap[v]
  {
    if v in table {
      var k :| 0 <= k < |table| && table[k] == v;
      assert v in vmap;
    }
  }

  /** One iteration of the inner loop: `vertexMap.find`, then reuse or insert. */
  method LookupVertex(vmap: map<Vec3, int>, table: seq<Vec3>, ghost idx: seq<int>, v: Vec3)
    returns (vmap': map<Vec3, int>, table': seq<Vec3>, k: int)
    requires MapsTable(vmap, table)
    ensures MapsTable(vmap', table')
    ensures Dedup(table', idx + [k]) == DedupStep(Dedup(table, idx), v)
  {
    MapsTableFacts(vmap, table, v);
    if v in vmap {
      k := vmap[v];
      vmap', table' := vmap, table;
    } else {
      k := |table|;
      vmap' := vmap[v := k];
      table' := table + [v];
      assert forall a :: 0 <= a < |table| ==> table'[a] == table[a];
    }
  }

  /** Appending a vertex to the stream is one more lookup. */
  lemma DedupAllSnoc(s: seq<Vec3>, v: Vec3)
    ensures DedupAll(s + [v]) == DedupStep(DedupAll(s), v)
  {
    assert (s + [v])[..|s|] == s;
  }

  /** Reading one more record feeds its three vertices to the map in order. */
  lemma DedupStreamStep(buf: seq<Byte>, f32: seq<Byte> -> real, i: nat, d: Dedup)
    requires RecordStart(i + 1) <= |buf|
    requires DedupAll(Stream(buf, f32, i)) == d
    ensures var rv := RecordVertices(buf, f32, i);
            DedupAll(Stream(buf, f32, i + 1)) == DedupStep(DedupStep(DedupStep(d, rv[0]), rv[1]), rv[2])
  {
    var s := Stream(buf, f32, i);
    var rv := RecordVertices(buf, f32, i);
    assert Stream(buf, f32, i + 1) == ((s + [rv[0]]) + [rv[1]]) + [rv[2]];
    DedupAllSnoc(s, rv[0]);
    DedupAllSnoc(s + [rv[0]], rv[1]);
    DedupAllSnoc((s + [rv[0]]) + [rv[1]], rv[2]);
  }

  /** The three vertex lookups of one record (the inner loop over its corners). */
  method LookupRecord(buf: seq<Byte>, f32: seq<Byte> -> real, i: nat,
                      vmap: map<Vec3, int>, vertices: seq<Vec3>, ghost idx: seq<int>)
    returns (vmap': map<Vec3, int>, vertices': seq<Vec3>, k0: int, k1: int, k2: int)
    requires RecordStart(i + 1) <= |buf|
    requires MapsTable(vmap, vertices)
    ensures MapsTable(vmap', vertices')
    ensures var rv := RecordVertices(buf, f32, i);
            Dedup(vertices', idx + [k0, k1, k2])
            == DedupStep(DedupStep(DedupStep(Dedup(vertices, idx), rv[0]), rv[1]), rv[2])
  {
    ghost var rv := RecordVertices(buf, f32, i);
    var off := RecordStart(i) + 12;
    var vm1, t1, vm2, t2;
    vm1, t1, k0 := LookupVertex(vmap, vertices, idx, ReadVertex(buf, f32, off));
    vm2, t2, k1 := LookupVertex(vm1, t1, idx + [k0], ReadVertex(buf, f32, off + 12));
    vmap', vertices', k2 := LookupVertex(vm2, t2, idx + [k0] + [k1], ReadVertex(buf, f32, off + 24));
    assert idx + [k0] + [k1] + [k2] == idx + [k0, k1, k2];
  }

  /** The parser's state after the first `i` records: map, table, faces and the ghost index stream. */
  ghost predicate Parsed(buf: seq<Byte>, f32: seq<Byte> -> real, i: nat,
                         vmap: map<Vec3, int>, vertices: seq<Vec3>, faces: seq<Triangle>, idx: seq<int>)
  {
    && RecordStart(i) <= |buf|
    && MapsTable(vmap, vertices)
    && |idx| == 3 * i
    && DedupAll(Stream(buf, f32, i)) == Dedup(vertices, idx)
    && faces == FacesOf(idx)
  }

  /** One pass of the record loop: the three corners of record `i`, then its face. */
  method ReadRecord(buf: seq<Byte>, f32: seq<Byte> -> real, i: nat,
                    vmap: map<Vec3, int>, vertices: seq<Vec3>, faces: seq<Triangle>, ghost idx: seq<int>)
    returns (vmap': map<Vec3, int>, vertices': seq<Vec3>, faces': seq<Triangle>, ghost idx': seq<int>)
    requires RecordStart(i + 1) <= |buf|
    requires Parsed(buf, f32, i, vmap, vertices, faces, idx)
    ensures Parsed(buf, f32, i + 1, vmap', vertices', faces', idx')
  {
    var k0, k1, k2;
    vmap', vertices', k0, k1, k2 := LookupRecord(buf, f32, i, vmap, vertices, idx);
    idx' := idx + [k0, k1, k2];
    faces' := faces + [Triangle(k0, k1, k2)];
    ParsedStep(buf, f32, i, vertices, faces, idx, vmap', vertices', k0, k1, k2);
  }

  /** The invariant of the record loop carries over one record. */
  lemma ParsedStep(buf: seq<Byte>, f32: seq<Byte> -> real, i: nat,
                   vertices: seq<Vec3>, faces: seq<Triangle>, idx: seq<int>,
                   vmap': map<Vec3, int>, vertices': seq<Vec3>, k0: int, k1: int, k2: int)
    requires RecordStart(i + 1) <= |buf|
    requires |idx| == 3 * i && DedupAll(Stream(buf, f32, i)) == Dedup(vertices, idx) && faces == FacesOf(idx)
    requires MapsTable(vmap', vertices')
    requires var rv := RecordVertices(buf, f32, i);
      Dedup(vertices', idx + [k0, k1, k2]) == DedupStep(DedupStep(DedupStep(Dedup(vertices, idx), rv[0]), rv[1]), rv[2])
    ensures Parsed(buf, f32, i + 1, vmap', vertices', faces + [Triangle(k0, k1, k2)], idx + [k0, k1, k2])
  {
    DedupStreamStep(buf, f32, i, Dedup(vertices, idx));
    FacesOfAppend(idx, k0, k1, k2);
  }

  /** The loop's result once it stops at record `i`. */
  lemma StopAt(buf: seq<Byte>, f32: seq<Byte> -> real, count: nat, i: nat,
               vmap: map<Vec3, int>, vertices: seq<Vec3>, faces: seq<Triangle>, idx: seq<int>)
    requires |buf| >= PreambleSize && i <= count
    requires Parsed(buf, f32, i, vmap, vertices, faces, idx)
    requires i == count || |buf| < RecordStart(i + 1)
    ensures FittingRecords(|buf|, count) == i
    ensures Mesh(vertices, faces) == MeshOf(Stream(buf, f32, i))
  {
    FittingRecordsAt(|buf|, count, i);
    MeshOfDedup(Stream(buf, f32, i), vertices, idx);
  }

  /**
   * The record loop (src/Mesh.cpp:64-109), entered after both size checks have
   * passed. `ok` is false when a record would run past the end of the buffer; the
   * mesh then holds the records read before it.
   */
  method ParseRecords(buf: seq<Byte>, f32: seq<Byte> -> real, count: nat) returns (ok: bool, m: Mesh)
    requires |buf| >= PreambleSize
    ensures var k := FittingRecords(|buf|, count);
            ok == (k == count) && m == MeshOf(Stream(buf, f32, k))
  {
    var vmap: map<Vec3, int> := map[];
    var vertices: seq<Vec3> := [];
    var faces: seq<Triangle> := [];
    ghost var idx: seq<int> := [];
    var offset := PreambleSize;
    var i := 0;
    while i < count
      invariant 0 <= i <= count
      invariant offset == RecordStart(i)
      invariant Parsed(buf, f32, i, vmap, vertices, faces, idx)
    {
      if offset + TriangleRecordSize > |buf| {
        StopAt(buf, f32, count, i, vmap, vertices, faces, idx);
        return false, Mesh(vertices, faces);
      }
      vmap, vertices, faces, idx := ReadRecord(buf, f32, i, vmap, vertices, faces, idx);
      offset := offset + 12 + 3 * 12 + 2;
      i := i + 1;
    }
    StopAt(buf, f32, count, i, vmap, vertices, faces, idx);
    return true, Mesh(vertices, faces);
  }

  /** The loop stops at record `i` exactly when `i` records are all that fit. */
  lemma FittingRecordsAt(size: nat, count: nat, i: nat)
    requires size >= PreambleSize && i <= count && RecordStart(i) <= size
    requires i == count || size < RecordStart(i + 1)
    ensures FittingRecords(size, count) == i
  {
  }

  lemma MeshOfDedup(s: seq<Vec3>, vertices: seq<Vec3>, idx: seq<int>)
    requires |s| % 3 == 0 && DedupAll(s) == Dedup(vertices, idx)
    ensures |idx| % 3 == 0 && MeshOf(s) == Mesh(vertices, FacesOf(idx))
  {
    DedupAllCorrect(s);
  }

  /** The loader as written: the up-front bound wraps modulo 2^32 (src/Mesh.cpp:56). */
  method LoadFromStlBufferAsWritten(buf: seq<Byte>, f32: seq<Byte> -> real) returns (ok: bool, m: Mesh)
    ensures |buf| >= PreambleSize ==> (ok, m) == LoadResult(buf, f32, ExpectedSize32(TriangleCount(buf)))
    ensures |buf| < PreambleSize ==> !ok && m == EmptyMesh
  {
    if |buf| < PreambleSize {
      return false, EmptyMesh;
    }
    var count := TriangleCount(buf);
    if |buf| < ExpectedSize32(count) {
      return false, EmptyMesh;
    }
    ok, m := ParseRecords(buf, f32, count);
  }

  /** The loader with the up-front bound computed without wrap-around. */
  method LoadFromStlBuffer(buf: seq<Byte>, f32: seq<Byte> -> real) returns (ok: bool, m: Mesh)
    ensures |buf| >= PreambleSize ==> (ok, m) == LoadResult(buf, f32, ExpectedSizeWide(TriangleCount(buf)))
    ensures |buf| < PreambleSize ==> !ok && m == EmptyMesh
  {
    if |buf| < PreambleSize {
      return false, EmptyMesh;
    }
    var count := TriangleCount(buf);
    if |buf| < ExpectedSizeWide(count) {
      return false, EmptyMesh;
    }
    ok, m := ParseRecords(buf, f32, count);
  }

  // ----- what the parsed mesh satisfies -----

  /**
   * The mesh of any vertex stream: one face per three vertices, every index
   * valid, no vertex stored twice, and each face's corners are the three
   * vertices of the stream it was built from.
   */
  lemma MeshOfStream(s: seq<Vec3>)
    requires |s| % 3 == 0
    ensures var m := MeshOf(s);
            && |m.faces| == |s| / 3
            && |m.vertices| <= |s|
            && WellFormed(m)
            && Distinct(m.vertices)
            && forall t :: 0 <= t < |s| / 3 ==>
                 && m.vertices[m.faces[t].v0] == s[3 * t]
                 && m.vertices[m.faces[t].v1] == s[3 * t + 1]
                 && m.vertices[m.faces[t].v2] == s[3 * t + 2]
  {
    MeshOfShape(s);
    forall t | 0 <= t < |s| / 3
      ensures MeshOf(s).vertices[MeshOf(s).faces[t].v0] == s[3 * t]
      ensures MeshOf(s).vertices[MeshOf(s).faces[t].v1] == s[3 * t + 1]
      ensures MeshOf(s).vertices[MeshOf(s).faces[t].v2] == s[3 * t + 2]
    {
      MeshOfCornersAt(s, t);
    }
  }

  /** The counts, index validity and distinctness half of `MeshOfStream`. */
  lemma MeshOfShape(s: seq<Vec3>)
    requires |s| % 3 == 0
    ensures var m := MeshOf(s);
            |m.faces| == |s| / 3 && |m.vertices| <= |s| && WellFormed(m) && Distinct(m.vertices)
  {
    DedupAllCorrect(s);
    var d := DedupAll(s);
    var m := MeshOf(s);
    forall t | 0 <= t < |m.faces|
      ensures ValidFace(m.vertices, m.faces[t])
    {
      assert m.faces[t] == Triangle(d.idx[3 * t], d.idx[3 * t + 1], d.idx[3 * t + 2]);
    }
  }

  /** The corner half of `MeshOfStream`, for one face. */
  lemma MeshOfCornersAt(s: seq<Vec3>, t: nat)
    requires |s| % 3 == 0 && t < |s| / 3
    ensures |MeshOf(s).faces| == |s| / 3
    ensures ValidFace(MeshOf(s).vertices, MeshOf(s).faces[t])
    ensures MeshOf(s).vertices[MeshOf(s).faces[t].v0] == s[3 * t]
    ensures MeshOf(s).vertices[MeshOf(s).faces[t].v1] == s[3 * t + 1]
    ensures MeshOf(s).vertices[MeshOf(s).faces[t].v2] == s[3 * t + 2]
  {
    DedupAllCorrect(s);
    var d := DedupAll(s);
    assert MeshOf(s).faces[t] == Triangle(d.idx[3 * t], d.idx[3 * t + 1], d.idx[3 * t + 2]);
  }

  /** The corners of face `t`, looked up in the vertex table. */
  function Corners(m: Mesh, t: nat): seq<Vec3>
    requires t < |m.faces| && ValidFace(m.vertices, m.faces[t])
  {
    [m.vertices[m.faces[t].v0], m.vertices[m.faces[t].v1], m.vertices[m.faces[t].v2]]
  }

  lemma ThirdOfTriple(n: nat)
    ensures (3 * n) / 3 == n && (3 * n) % 3 == 0
  {
  }

  /** Round trip for one face: its corners are the vertices of record `t`. */
  lemma RoundTripAt(buf: seq<Byte>, f32: seq<Byte> -> real, n: nat, t: nat)
    requires RecordStart(n) <= |buf| && t < n
    ensures |MeshOf(Stream(buf, f32, n)).faces| == n
    ensures ValidFace(MeshOf(Stream(buf, f32, n)).vertices, MeshOf(Stream(buf, f32, n)).faces[t])
    ensures RecordStart(t + 1) <= |buf|
    ensures Corners(MeshOf(Stream(buf, f32, n)), t) == RecordVertices(buf, f32, t)
  {
    var s := Stream(buf, f32, n);
    ThirdOfTriple(n);
    CornersOfStream(s, t);
    StreamSlice(buf, f32, n, t);
  }

  /** The corners of face `t` of a stream's mesh are the stream's `t`-th triple. */
  lemma CornersOfStream(s: seq<Vec3>, t: nat)
    requires |s| % 3 == 0 && t < |s| / 3
    ensures |MeshOf(s).faces| == |s| / 3
    ensures ValidFace(MeshOf(s).vertices, MeshOf(s).faces[t])
    ensures Corners(MeshOf(s), t) == s[3 * t .. 3 * t + 3]
  {
    MeshOfCornersAt(s, t);
  }

  /** The `t`-th triple of the stream is record `t`'s vertices. */
  lemma StreamSlice(buf: seq<Byte>, f32: seq<Byte> -> real, n: nat, t: nat)
    requires RecordStart(n) <= |buf| && t < n
    ensures RecordStart(t + 1) <= |buf|
    ensures Stream(buf, f32, n)[3 * t .. 3 * t + 3] == RecordVertices(buf, f32, t)
  {
    StreamAt(buf, f32, n, t, 0);
    StreamAt(buf, f32, n, t, 1);
    StreamAt(buf, f32, n, t, 2);
  }

  /**
   * The mesh of the first n records: n faces, at most 3n vertices, all face
   * indices valid, the vertices pairwise distinct, and replacing each face's
   * indices by their vertices gives back the vertex triples of the buffer
   * (normals and attribute bytes play no part).
   */
  lemma MeshOfCorrect(buf: seq<Byte>, f32: seq<Byte> -> real, n: nat)
    requires RecordStart(n) <= |buf|
    ensures var m := MeshOf(Stream(buf, f32, n));
            && |m.faces| == n
            && |m.vertices| <= 3 * n
            && WellFormed(m)
            && Distinct(m.vertices)
            && forall t :: 0 <= t < n ==> Corners(m, t) == RecordVertices(buf, f32, t)
  {
    var s := Stream(buf, f32, n);
    var m := MeshOf(s);
    ThirdOfTriple(n);
    MeshOfShape(s);
    assert |m.faces| == n && |m.vertices| <= 3 * n;
    forall t | 0 <= t < n
      ensures Corners(m, t) == RecordVertices(buf, f32, t)
    {
      RoundTripAt(buf, f32, n, t);
    }
  }

  /** With the wide bound, a failed load always leaves the mesh empty. */
  lemma LoadFailureLeavesEmpty(buf: seq<Byte>, f32: seq<Byte> -> real)
    requires |buf| >= PreambleSize
    ensures var (ok, m) := LoadResult(buf, f32, ExpectedSizeWide(TriangleCount(buf)));
            !ok ==> m == EmptyMesh
  {
  }

  /**
   * Under either bound the load succeeds exactly when the buffer holds the
   * preamble and every declared record, and then yields `count` faces.
   */
  lemma LoadSucceedsIff(buf: seq<Byte>, f32: seq<Byte> -> real, wide: bool)
    requires |buf| >= PreambleSize
    ensures var count := TriangleCount(buf);
            var expected := if wide then ExpectedSizeWide(count) else ExpectedSize32(count);
            var (ok, m) := LoadResult(buf, f32, expected);
            (ok <==> ExpectedSizeWide(count) <= |buf|) && (ok ==> |m.faces| == count)
  {
    var count := TriangleCount(buf);
    MeshOfCorrect(buf, f32, FittingRecords(|buf|, count));
    if ExpectedSizeWide(count) <= |buf| {
      assert ExpectedSize32(count) <= ExpectedSizeWide(count);
    }
  }

  /**
   * The wrap-around as written: a 184-byte buffer declaring 85899346 triangles
   * passes the up-front check (the bound wraps to 88), reads two records, and
   * returns false with those two triangles left in the mesh.
   */
  lemma AsWrittenKeepsPartialMesh(buf: seq<Byte>, f32: seq<Byte> -> real)
    requires |buf| == 184
    requires buf[80] == 0x52 && buf[81] == 0xB8 && buf[82] == 0x1E && buf[83] == 0x05
    ensures TriangleCount(buf) == 85899346
    ensures ExpectedSize32(TriangleCount(buf)) == 88
    ensures var (ok, m) := LoadResult(buf, f32, ExpectedSize32(TriangleCount(buf)));
            !ok && |m.faces| == 2
  {
    MeshOfCorrect(buf, f32, 2);
  }
}
