/**
 * The shape registry of the CAD layer, as an immutable state and pure
 * transitions. Each operation takes the registry state and returns the new
 * state next to its result. The steady clock that stamps `lastAccess` is a
 * logical counter: every event that stamps an entry takes the current
 * counter value and advances it, so stamps are distinct and ordered like
 * the events.
 */
module Registry {
  import opened CadTypes
  import opened Sorting

  /**
   * What an internal shape reports about itself: its box, its content hash
   * and its memory estimate. The registry snapshots the estimate when the
   * shape is registered; the model treats a shape's report as fixed, so the
   * snapshot and the live value agree.
   */
  datatype ShapeInfo = ShapeInfo(bbox: BoundingBox, hash: string, estimatedBytes: nat)

  datatype Entry = Entry(shape: ShapeInfo, handle: ShapeHandle, lastAccess: nat)

  datatype State = State(
    shapes: map<string, Entry>,
    cache: map<string, string>,   // operation key -> result shape id
    nextId: nat,
    memoryLimit: nat,
    hits: nat,
    misses: nat,
    durations: seq<real>,
    clock: nat)

  const DefaultMemoryLimit: nat := 512 * 1024 * 1024

  const Initial: State := State(map[], map[], 1, DefaultMemoryLimit, 0, 0, [], 0)

  function Bytes(e: Entry): nat {
    e.shape.estimatedBytes
  }

  // ---------------------------------------------------------------------
  // Identifiers: "shape_" followed by the counter in lower-case hex,
  // zero-padded to at least six digits.
  // ---------------------------------------------------------------------

  const IdPrefix: string := "shape_"

  const IdWidth: nat := 6

  predicate IsHexDigit(c: char) {
    '0' <= c <= '9' || 'a' <= c <= 'f'
  }

  function DigitValue(c: char): nat {
    if '0' <= c <= '9' then c as int - '0' as int
    else if 'a' <= c <= 'f' then c as int - 'a' as int + 10
    else 0
  }

  function HexDigit(d: nat): (c: char)
    requires d < 16
    ensures IsHexDigit(c) && DigitValue(c) == d
  {
    if d < 10 then ('0' as int + d) as char else ('a' as int + d - 10) as char
  }

  /** Lower-case hexadecimal without leading zeros ("0" for zero). */
  function Hex(n: nat): (s: string)
    ensures |s| >= 1
    ensures forall i :: 0 <= i < |s| ==> IsHexDigit(s[i])
    decreases n
  {
    if n < 16 then [HexDigit(n)] else Hex(n / 16) + [HexDigit(n % 16)]
  }

  function Zeros(k: nat): (r: string)
    ensures |r| == k
    ensures forall i :: 0 <= i < k ==> r[i] == '0'
  {
    seq(k, _ => '0')
  }

  /** Right-aligns `s` in a field of `width` characters filled with '0'. */
  function ZeroPad(s: string, width: nat): (r: string)
    ensures |r| == if |s| >= width then |s| else width
    ensures r[|r| - |s|..] == s
    ensures forall i :: 0 <= i < |r| - |s| ==> r[i] == '0'
  {
    if |s| >= width then s else Zeros(width - |s|) + s
  }

  function IdFor(n: nat): (id: string)
    ensures |id| >= |IdPrefix| + IdWidth
    ensures id[..|IdPrefix|] == IdPrefix
  {
    IdPrefix + ZeroPad(Hex(n), IdWidth)
  }

  /** Reads a hexadecimal numeral; leading zeros contribute nothing. */
  function ParseHex(s: string): nat
    decreases |s|
  {
    if |s| == 0 then 0 else ParseHex(s[..|s| - 1]) * 16 + DigitValue(s[|s| - 1])
  }

  /** The counter value an identifier was made from. */
  function ParseId(id: string): nat {
    if |id| < |IdPrefix| then 0 else ParseHex(id[|IdPrefix|..])
  }

  lemma {:induction false} HexRoundTrip(n: nat)
    ensures ParseHex(Hex(n)) == n
    decreases n
  {
    if n >= 16 {
      var s := Hex(n);
      assert s[..|s| - 1] == Hex(n / 16);
      HexRoundTrip(n / 16);
    }
  }

  lemma {:induction false} ZerosParse(k: nat)
    ensures ParseHex(Zeros(k)) == 0
  {
    if k > 0 {
      assert Zeros(k)[..k - 1] == Zeros(k - 1);
      ZerosParse(k - 1);
    }
  }

  lemma {:induction false} LeadingZeros(k: nat, s: string)
    ensures ParseHex(Zeros(k) + s) == ParseHex(s)
    decreases |s|
  {
    if |s| == 0 {
      assert Zeros(k) + s == Zeros(k);
      ZerosParse(k);
    } else {
      var t := Zeros(k) + s;
      assert t[..|t| - 1] == Zeros(k) + s[..|s| - 1];
      LeadingZeros(k, s[..|s| - 1]);
    }
  }

  /** Every identifier reads back as the counter value it was made from. */
  lemma IdRoundTrip(n: nat)
    ensures ParseId(IdFor(n)) == n
  {
    var h := Hex(n);
    var id := IdFor(n);
    assert id[|IdPrefix|..] == ZeroPad(h, IdWidth);
    if |h| < IdWidth {
      LeadingZeros(IdWidth - |h|, h);
    }
    HexRoundTrip(n);
  }

  /** Distinct counter values give distinct identifiers. */
  lemma IdsDistinct(a: nat, b: nat)
    requires a != b
    ensures IdFor(a) != IdFor(b)
  {
    IdRoundTrip(a);
    IdRoundTrip(b);
  }

  // ---------------------------------------------------------------------
  // The registry invariant
  // ---------------------------------------------------------------------

  /**
   * Every entry sits under its own handle's id, which is non-empty and
   * reads back as a counter value below `nextId`; stamps are older than the
   * clock and pairwise distinct.
   */
  predicate Valid(r: State) {
    && r.nextId >= 1
    && (forall id :: id in r.shapes ==>
          && r.shapes[id].handle.id == id
          && id != ""
          && ParseId(id) < r.nextId
          && r.shapes[id].lastAccess < r.clock)
    && (forall a, b :: a in r.shapes && b in r.shapes && a != b ==>
          r.shapes[a].lastAccess != r.shapes[b].lastAccess)
  }

  lemma InitialValid()
    ensures Valid(Initial) && |Initial.shapes| == 0 && |Initial.cache| == 0
  {
  }

  /** Dropping entries (and nothing else) keeps the invariant. */
  lemma ValidSubmap(r: State, shapes: map<string, Entry>)
    requires forall k :: k in shapes ==> k in r.shapes && shapes[k] == r.shapes[k]
    ensures Valid(r) ==> Valid(r.(shapes := shapes))
  {
  }

  /** An id issued now is not held by any registered entry. */
  lemma NextIdFresh(r: State)
    ensures Valid(r) ==> IdFor(r.nextId) !in r.shapes
  {
    IdRoundTrip(r.nextId);
  }

  // ---------------------------------------------------------------------
  // Lifecycle
  // ---------------------------------------------------------------------

  /** Issues the next identifier and advances the counter. */
  function GenerateId(r: State): (res: (string, State))
    ensures res.1 == r.(nextId := r.nextId + 1)
    ensures ParseId(res.0) == r.nextId && |res.0| >= |IdPrefix| + IdWidth
    ensures Valid(r) ==> res.0 !in r.shapes && Valid(res.1)
  {
    IdRoundTrip(r.nextId);
    NextIdFresh(r);
    (IdFor(r.nextId), r.(nextId := r.nextId + 1))
  }

  function HandleFor(id: string, info: ShapeInfo, t: ShapeType): ShapeHandle {
    ShapeHandle(id, t, info.bbox, info.hash, None, None, None)
  }

  /**
   * A null shape (`None`) yields the empty id and no change. Otherwise one
   * entry is added under a fresh id; its handle carries that id, the given
   * type and the shape's box and hash, and it is stamped as most recent.
   */
  function RegisterShape(r: State, shape: Option<ShapeInfo>, t: ShapeType): (res: (string, State))
    ensures shape.None? ==> res == ("", r)
    ensures shape.Some? ==>
      && res.0 == IdFor(r.nextId)
      && res.1 == r.(shapes := res.1.shapes, nextId := r.nextId + 1, clock := r.clock + 1)
      && res.1.shapes == r.shapes[res.0 := Entry(shape.value, HandleFor(res.0, shape.value, t), r.clock)]
    ensures Valid(r) && shape.Some? ==>
      && res.0 !in r.shapes
      && |res.1.shapes| == |r.shapes| + 1
      && IsValid(res.1.shapes[res.0].handle)
      && res.1.shapes[res.0].handle.shapeType == t
    ensures Valid(r) ==> Valid(res.1)
  {
    match shape
    case None => ("", r)
    case Some(info) =>
      var (id, r1) := GenerateId(r);
      (id, r1.(shapes := r1.shapes[id := Entry(info, HandleFor(id, info, t), r1.clock)], clock := r1.clock + 1))
  }

  function HasShape(r: State, id: string): bool {
    id in r.shapes
  }

  /**
   * Looks a shape up for use: a hit restamps the entry as the most recent
   * one; a miss returns null and changes nothing.
   */
  function GetShape(r: State, id: string): (res: (Option<ShapeInfo>, State))
    ensures res.0.Some? <==> id in r.shapes
    ensures id !in r.shapes ==> res.1 == r
    ensures id in r.shapes ==>
      && res.0.value == r.shapes[id].shape
      && res.1 == r.(shapes := r.shapes[id := r.shapes[id].(lastAccess := r.clock)], clock := r.clock + 1)
    ensures res.1.shapes.Keys == r.shapes.Keys
    ensures forall k :: k in r.shapes ==> res.1.shapes[k].shape == r.shapes[k].shape
    ensures Valid(r) ==> Valid(res.1)
    ensures Valid(r) && id in r.shapes ==>
      forall k :: k in res.1.shapes && k != id ==> res.1.shapes[k].lastAccess < res.1.shapes[id].lastAccess
  {
    if id in r.shapes then
      var e := r.shapes[id];
      (Some(e.shape), r.(shapes := r.shapes[id := e.(lastAccess := r.clock)], clock := r.clock + 1))
    else
      (None, r)
  }

  /** The read-only lookup: no restamp. */
  function PeekShape(r: State, id: string): (res: Option<ShapeInfo>)
    ensures res.Some? <==> HasShape(r, id)
    ensures res.Some? ==> res == GetShape(r, id).0
  {
    if id in r.shapes then Some(r.shapes[id].shape) else None
  }

  /** The stored handle, or a value-initialised (invalid) one for an unknown id. */
  function GetHandle(r: State, id: string): (h: ShapeHandle)
    ensures id !in r.shapes ==> h == EmptyHandle && !IsValid(h)
    ensures id in r.shapes ==> h == r.shapes[id].handle
  {
    if id in r.shapes then r.shapes[id].handle else EmptyHandle
  }

  /** In a valid registry, a handle is valid exactly when its id is registered. */
  lemma HandleValidIffRegistered(r: State, id: string)
    requires Valid(r)
    ensures IsValid(GetHandle(r, id)) <==> HasShape(r, id)
    ensures HasShape(r, id) ==> GetHandle(r, id).id == id
  {
  }

  // ---------------------------------------------------------------------
  // Cache
  // ---------------------------------------------------------------------

  /** `sub` occurs in `s` at some position (the empty string occurs everywhere). */
  predicate ContainsSub(s: string, sub: string) {
    exists i :: 0 <= i <= |s| - |sub| && OccursAt(s, sub, i)
  }

  predicate OccursAt(s: string, sub: string, i: int) {
    0 <= i <= |s| - |sub| && s[i..i + |sub|] == sub
  }

  /** A cache entry refers to a shape if it maps to it or its key mentions it. */
  predicate References(key: string, value: string, id: string) {
    value == id || ContainsSub(key, id)
  }

  /** Removes every cache entry that refers to the shape. */
  function InvalidateCacheFor(cache: map<string, string>, id: string): (c: map<string, string>)
    ensures forall k :: k in c ==> k in cache && c[k] == cache[k]
    ensures forall k :: k in cache ==> (k in c <==> !References(k, cache[k], id))
    ensures forall k :: k in c ==> c[k] != id
  {
    map k | k in cache && !References(k, cache[k], id) :: cache[k]
  }

  function CacheResult(r: State, key: string, id: string): (r': State)
    ensures r' == r.(cache := r'.cache)
    ensures key in r'.cache && r'.cache[key] == id
    ensures forall k :: k != key ==> (k in r'.cache <==> k in r.cache)
    ensures forall k :: k != key && k in r.cache ==> r'.cache[k] == r.cache[k]
    ensures Valid(r) ==> Valid(r')
  {
    r.(cache := r.cache[key := id])
  }

  /**
   * A cached result is returned only if the key is cached and the shape it
   * names is still registered; every lookup counts exactly one hit or one
   * miss and changes nothing else.
   */
  function GetCachedResult(r: State, key: string): (res: (Option<string>, State))
    ensures res.0.Some? <==> key in r.cache && r.cache[key] in r.shapes
    ensures res.0.Some? ==> res.0.value == r.cache[key] && res.0.value in r.shapes
    ensures res.1.hits + res.1.misses == r.hits + r.misses + 1
    ensures res.1.hits == if res.0.Some? then r.hits + 1 else r.hits
    ensures res.1 == r.(hits := res.1.hits, misses := res.1.misses)
    ensures Valid(r) ==> Valid(res.1)
  {
    if key !in r.cache then (None, r.(misses := r.misses + 1))
    else if r.cache[key] !in r.shapes then (None, r.(misses := r.misses + 1))
    else (Some(r.cache[key]), r.(hits := r.hits + 1))
  }

  /** Caching a result and looking it up again hits exactly when the shape is registered. */
  lemma CacheRoundTrip(r: State, key: string, id: string)
    ensures GetCachedResult(CacheResult(r, key, id), key).0 == (if id in r.shapes then Some(id) else None)
  {
  }

  function InvalidateCache(r: State): (r': State)
    ensures r' == r.(cache := map[])
    ensures forall key :: GetCachedResult(r', key).0 == None
    ensures Valid(r) ==> Valid(r')
  {
    r.(cache := map[])
  }

  // ---------------------------------------------------------------------
  // Disposal
  // ---------------------------------------------------------------------

  /**
   * Disposing an unknown id reports false and changes nothing. Otherwise
   * the entry goes, and so does every cache entry that refers to it.
   */
  function DisposeShape(r: State, id: string): (res: (bool, State))
    ensures res.0 <==> id in r.shapes
    ensures !res.0 ==> res.1 == r
    ensures res.0 ==> res.1 == r.(shapes := r.shapes - {id}, cache := InvalidateCacheFor(r.cache, id))
    ensures res.0 ==> id !in res.1.shapes && |res.1.shapes| == |r.shapes| - 1
    ensures res.0 ==> forall k :: k in res.1.cache ==> res.1.cache[k] != id && !ContainsSub(k, id)
    ensures Valid(r) ==> Valid(res.1)
  {
    if id !in r.shapes then (false, r)
    else
      var r' := r.(shapes := r.shapes - {id}, cache := InvalidateCacheFor(r.cache, id));
      ValidSubmap(r, r.shapes - {id});
      (true, r')
  }

  /** After disposal the shape is gone from every lookup. */
  lemma DisposedIsForgotten(r: State, id: string, key: string)
    requires Valid(r) && id in r.shapes
    ensures var r' := DisposeShape(r, id).1;
      && !HasShape(r', id)
      && !IsValid(GetHandle(r', id))
      && GetShape(r', id).0 == None
      && GetCachedResult(r', key).0 != Some(id)
  {
  }

  /** Empties both the shape map and the operation cache; counters and statistics stay. */
  function DisposeAll(r: State): (r': State)
    ensures |r'.shapes| == 0 && |r'.cache| == 0
    ensures r' == r.(shapes := map[], cache := map[])
    ensures Valid(r) ==> Valid(r')
  {
    r.(shapes := map[], cache := map[])
  }

  /**
   * Identifiers are never reused: after disposing everything, the next
   * registration still gets an id that no earlier registration produced.
   */
  lemma NoReuseAfterDisposeAll(r: State, info: ShapeInfo, t: ShapeType, n: nat)
    requires Valid(r) && 1 <= n < r.nextId
    ensures RegisterShape(DisposeAll(r), Some(info), t).0 != IdFor(n)
    ensures RegisterShape(DisposeAll(r), Some(info), t).0 !in r.shapes
  {
    IdsDistinct(r.nextId, n);
    NextIdFresh(r);
  }

  // ---------------------------------------------------------------------
  // Memory accounting
  // ---------------------------------------------------------------------

  /** Sum of the entries' memory estimates (unbounded: no size_t wrap). */
  ghost function Pick(s: set<string>): (k: string)
    requires s != {}
    ensures k in s
  {
    var k :| k in s; k
  }

  ghost function TotalBytes(m: map<string, Entry>): nat
    decreases |m|
  {
    if |m| == 0 then 0
    else
      var k := Pick(m.Keys);
      assert (m - {k}).Keys == m.Keys - {k};
      Bytes(m[k]) + TotalBytes(m - {k})
  }

  /** The sum does not depend on which entry is taken first. */
  lemma {:induction false} TotalRemove(m: map<string, Entry>, k: string)
    requires k in m
    ensures TotalBytes(m) == Bytes(m[k]) + TotalBytes(m - {k})
    decreases |m|
  {
    var j := Pick(m.Keys);
    assert TotalBytes(m) == Bytes(m[j]) + TotalBytes(m - {j});
    if j != k {
      assert (m - {j}).Keys == m.Keys - {j};
      assert (m - {k}).Keys == m.Keys - {k};
      TotalRemove(m - {j}, k);
      TotalRemove(m - {k}, j);
      assert (m - {j}) - {k} == (m - {k}) - {j};
    }
  }

  /** Sums the estimates of all registered entries. */
  method EstimatedMemoryBytes(r: State) returns (total: nat)
    ensures total == TotalBytes(r.shapes)
    ensures |r.shapes| == 0 ==> total == 0
  {
    total := 0;
    var rest := r.shapes;
    while |rest| > 0
      invariant total + TotalBytes(rest) == TotalBytes(r.shapes)
      decreases |rest|
    {
      var k :| k in rest;
      TotalRemove(rest, k);
      assert (rest - {k}).Keys == rest.Keys - {k};
      total := total + Bytes(rest[k]);
      rest := rest - {k};
    }
  }

  /** The entries' keys, in the map's unspecified order, each exactly once. */
  method KeysOf(m: map<string, Entry>) returns (s: seq<string>)
    ensures forall k :: k in m <==> k in s
    ensures forall i, j :: 0 <= i < j < |s| ==> s[i] != s[j]
    ensures |s| == |m|
  {
    s := [];
    var rest := m.Keys;
    while rest != {}
      invariant rest <= m.Keys
      invariant forall k :: k in m <==> k in s || k in rest
      invariant forall k :: k in s ==> k !in rest
      invariant forall i, j :: 0 <= i < j < |s| ==> s[i] != s[j]
      invariant |s| + |rest| == |m.Keys|
      decreases |rest|
    {
      var k :| k in rest;
      s := s + [k];
      rest := rest - {k};
    }
  }

  lemma TailSplit(s: seq<string>, i: nat)
    requires i < |s|
    ensures forall x :: x in s[i..] ==> x == s[i] || x in s[i + 1..]
  {
    assert s[i..] == [s[i]] + s[i + 1..];
  }

  /** Eviction order: an entry's last-access stamp (unknown keys sort first). */
  /**
   * Eviction stopped as soon as it could: if anything was evicted, the
   * newest evicted entry was still needed, since keeping it as well would
   * leave the total above the target.
   */
  ghost predicate StoppedAtTarget(m: map<string, Entry>, kept: map<string, Entry>, target: nat) {
    kept != m ==>
      exists e :: && e in m && e !in kept
                  && (forall d :: d in m && d !in kept ==> m[d].lastAccess <= m[e].lastAccess)
                  && TotalBytes(kept) + Bytes(m[e]) > target
  }

  function Stamp(m: map<string, Entry>, k: string): real {
    if k in m then m[k].lastAccess as real else 0.0
  }

  /**
   * Least-recently-used eviction down to `target` bytes. Nothing happens if
   * the total is already within the target. Otherwise entries are removed in
   * order of their stamps, oldest first, and removal stops as soon as the
   * total is within the target, so the result is always within it. The
   * operation cache is left alone.
   */
  method EvictLRU(r: State, target: nat) returns (r': State)
    ensures TotalBytes(r.shapes) <= target ==> r' == r
    ensures TotalBytes(r'.shapes) <= target
    ensures r' == r.(shapes := r'.shapes)
    ensures forall k :: k in r'.shapes ==> k in r.shapes && r'.shapes[k] == r.shapes[k]
    ensures forall e, k :: e in r.shapes && e !in r'.shapes && k in r'.shapes ==>
      r.shapes[e].lastAccess <= r.shapes[k].lastAccess
    ensures StoppedAtTarget(r.shapes, r'.shapes, target)
    ensures Valid(r) ==> Valid(r')
  {
    var current := EstimatedMemoryBytes(r);
    if current <= target {
      return r;
    }
    var keys := KeysOf(r.shapes);
    var sorted := MergeSort(keys, k => Stamp(r.shapes, k));
    forall k | k in r.shapes
      ensures k in sorted
    {
      assert k in multiset(keys);
    }
    var shapes := EvictInOrder(r.shapes, sorted, current, target);
    r' := r.(shapes := shapes);
    ValidSubmap(r, shapes);
  }

  /**
   * The eviction loop: walks the keys in stamp order and removes each
   * registered one while the running total exceeds the target.
   */
  method EvictInOrder(m: map<string, Entry>, sorted: seq<string>, total: nat, target: nat)
    returns (shapes: map<string, Entry>)
    requires total == TotalBytes(m)
    requires forall k :: k in m ==> k in sorted
    requires forall a, b :: 0 <= a < b < |sorted| ==> Stamp(m, sorted[a]) <= Stamp(m, sorted[b])
    ensures TotalBytes(shapes) <= target
    ensures total <= target ==> shapes == m
    ensures forall k :: k in shapes ==> k in m && shapes[k] == m[k]
    ensures forall e, k :: e in m && e !in shapes && k in shapes ==> m[e].lastAccess <= m[k].lastAccess
    ensures StoppedAtTarget(m, shapes, target)
  {
    var current := total;
    shapes := m;
    var i := 0;
    ghost var evicted := false;
    ghost var lastKey: string := "";
    ghost var newest: real := 0.0;
    while i < |sorted| && current > target
      invariant 0 <= i <= |sorted|
      invariant current == TotalBytes(shapes) && current <= total
      invariant total <= target ==> !evicted
      invariant forall k :: k in shapes ==> k in m && shapes[k] == m[k]
      invariant forall k :: k in shapes ==> k in sorted[i..]
      invariant !evicted ==> shapes == m
      invariant evicted ==> lastKey in m && lastKey !in shapes && current + Bytes(m[lastKey]) > target
      invariant evicted ==> Stamp(m, lastKey) == newest
      invariant forall e :: e in m && e !in shapes ==> Stamp(m, e) <= newest
      invariant evicted ==> forall j :: i <= j < |sorted| ==> newest <= Stamp(m, sorted[j])
      invariant shapes != m ==> evicted
      decreases |sorted| - i
    {
      var k := sorted[i];
      TailSplit(sorted, i);
      if k in shapes {
        TotalRemove(shapes, k);
        assert (shapes - {k}).Keys == shapes.Keys - {k};
        current := current - Bytes(shapes[k]);
        lastKey := k;
        evicted := true;
        newest := Stamp(m, k);
        shapes := shapes - {k};
      }
      i := i + 1;
    }
    if i == |sorted| {
      assert forall k :: k !in shapes;
      assert shapes == map[];
    }
    OlderEvicted(m, shapes, sorted, i, newest);
    if shapes != m {
      NewestEvictedWitness(m, shapes, lastKey, newest, target);
    }
  }

  /** The last key evicted, stamped newest, witnesses `StoppedAtTarget`. */
  lemma NewestEvictedWitness(m: map<string, Entry>, kept: map<string, Entry>, last: string, newest: real, target: nat)
    requires last in m && last !in kept && Stamp(m, last) == newest
    requires forall e :: e in m && e !in kept ==> Stamp(m, e) <= newest
    requires TotalBytes(kept) + Bytes(m[last]) > target
    ensures StoppedAtTarget(m, kept, target)
  {
    forall d | d in m && d !in kept
      ensures m[d].lastAccess <= m[last].lastAccess
    {
      assert Stamp(m, d) <= Stamp(m, last);
    }
  }

  /** Everything evicted is stamped no later than everything kept. */
  lemma OlderEvicted(m: map<string, Entry>, shapes: map<string, Entry>, sorted: seq<string>, i: nat, newest: real)
    requires i <= |sorted|
    requires forall k :: k in shapes ==> k in m && k in sorted[i..]
    requires forall e :: e in m && e !in shapes ==> Stamp(m, e) <= newest
    requires shapes != m ==> forall j :: i <= j < |sorted| ==> newest <= Stamp(m, sorted[j])
    ensures forall e, k :: e in m && e !in shapes && k in shapes ==> m[e].lastAccess <= m[k].lastAccess
  {
    forall e, k | e in m && e !in shapes && k in shapes
      ensures m[e].lastAccess <= m[k].lastAccess
    {
      var j :| i <= j < |sorted| && sorted[j] == k;
    }
  }

  // ---------------------------------------------------------------------
  // Statistics
  // ---------------------------------------------------------------------

  /** How many recent durations are kept for the rolling average. */
  const WindowSize: nat := 1000

  /** Appends a duration, dropping the oldest one when the window overflows. */
  function Window(ds: seq<real>, d: real): (w: seq<real>)
    ensures |ds| < WindowSize ==> w == ds + [d]
    ensures |ds| >= WindowSize ==> w == ds[1..] + [d]
  {
    var a := ds + [d];
    if |a| > WindowSize then a[1..] else a
  }

  function RecordOperation(r: State, d: real): (r': State)
    ensures r' == r.(durations := Window(r.durations, d))
    ensures |r.durations| <= WindowSize ==> |r'.durations| <= WindowSize
    ensures Valid(r) ==> Valid(r')
  {
    r.(durations := Window(r.durations, d))
  }

  /** Records a run of durations one after another. */
  function RecordAll(ds: seq<real>, xs: seq<real>): seq<real>
    decreases |xs|
  {
    if |xs| == 0 then ds else RecordAll(Window(ds, xs[0]), xs[1..])
  }

  /** The last `n` elements of `s` (all of them if there are fewer). */
  function Last(s: seq<real>, n: nat): (r: seq<real>)
    ensures |r| == if |s| <= n then |s| else n
  {
    if |s| <= n then s else s[|s| - n..]
  }

  /**
   * Starting from a window that is not over-full, recording any run of
   * durations leaves exactly the most recent `WindowSize` durations of the
   * whole history, oldest first.
   */
  lemma {:induction false} RecordAllKeepsLatest(ds: seq<real>, xs: seq<real>)
    requires |ds| <= WindowSize
    ensures RecordAll(ds, xs) == Last(ds + xs, WindowSize)
    decreases |xs|
  {
    if |xs| == 0 {
      assert ds + xs == ds;
    } else {
      var w := Window(ds, xs[0]);
      RecordAllKeepsLatest(w, xs[1..]);
      if |ds| < WindowSize {
        assert w + xs[1..] == ds + xs;
      } else {
        assert w + xs[1..] == (ds + xs)[1..];
        var h := ds + xs;
        assert Last(h[1..], WindowSize) == Last(h, WindowSize);
      }
    }
  }

  function Sum(ds: seq<real>): real
    decreases |ds|
  {
    if |ds| == 0 then 0.0 else Sum(ds[..|ds| - 1]) + ds[|ds| - 1]
  }

  /** Mean of the recorded durations, 0 when there are none. */
  function Average(ds: seq<real>): real {
    if |ds| == 0 then 0.0 else Sum(ds) / (|ds| as real)
  }

  lemma {:induction false} SumBounds(ds: seq<real>, lo: real, hi: real)
    requires forall i :: 0 <= i < |ds| ==> lo <= ds[i] <= hi
    ensures (|ds| as real) * lo <= Sum(ds) <= (|ds| as real) * hi
    decreases |ds|
  {
    if |ds| > 0 {
      SumBounds(ds[..|ds| - 1], lo, hi);
      var n := (|ds| - 1) as real;
      assert |ds| as real == n + 1.0;
      assert (n + 1.0) * lo == n * lo + lo;
      assert (n + 1.0) * hi == n * hi + hi;
    }
  }

  /** The average lies between any lower and upper bound of the durations. */
  lemma AverageWithin(ds: seq<real>, lo: real, hi: real)
    requires |ds| > 0
    requires forall i :: 0 <= i < |ds| ==> lo <= ds[i] <= hi
    ensures lo <= Average(ds) <= hi
  {
    SumBounds(ds, lo, hi);
    var n := |ds| as real;
    QuotientBetween(Sum(ds), n, lo, hi);
  }

  lemma QuotientBetween(s: real, n: real, lo: real, hi: real)
    requires n > 0.0 && n * lo <= s <= n * hi
    ensures lo <= s / n <= hi
  {
    assert s / n * n == s;
  }

  datatype Stats = Stats(totalShapes: nat, totalMemoryBytes: nat, cacheHits: nat, cacheMisses: nat, averageOperationMs: real)

  method GetStats(r: State) returns (s: Stats)
    ensures s.totalShapes == |r.shapes| && s.totalMemoryBytes == TotalBytes(r.shapes)
    ensures s.cacheHits == r.hits && s.cacheMisses == r.misses
    ensures s.averageOperationMs == Average(r.durations)
  {
    var bytes := EstimatedMemoryBytes(r);
    s := Stats(|r.shapes|, bytes, r.hits, r.misses, Average(r.durations));
  }

  /** Clears the counters and the duration window; shapes and cache stay. */
  function ResetStats(r: State): (r': State)
    ensures r'.hits == 0 && r'.misses == 0 && r'.durations == []
    ensures r'.shapes == r.shapes && r'.cache == r.cache && r'.nextId == r.nextId
    ensures Valid(r) ==> Valid(r')
  {
    r.(hits := 0, misses := 0, durations := [])
  }

  /**
   * Records a memory limit. The limit is not enforced: even a limit below
   * the current total evicts nothing, and the invariant is unaffected.
   */
  function SetMemoryLimit(r: State, bytes: nat): (r': State)
    ensures r'.memoryLimit == bytes
    ensures r'.shapes == r.shapes && r'.cache == r.cache && TotalBytes(r'.shapes) == TotalBytes(r.shapes)
    ensures r'.hits == r.hits && r'.misses == r.misses && r'.durations == r.durations
    ensures r'.nextId == r.nextId && r'.clock == r.clock
    ensures Valid(r) <==> Valid(r')
  {
    r.(memoryLimit := bytes)
  }

  /** Restoring the previous limit undoes a change; the last limit set wins. */
  lemma MemoryLimitRoundTrip(r: State, a: nat, b: nat)
    ensures SetMemoryLimit(SetMemoryLimit(r, a), r.memoryLimit) == r
    ensures SetMemoryLimit(SetMemoryLimit(r, a), b) == SetMemoryLimit(r, b)
  {
  }
}
