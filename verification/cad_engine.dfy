/**
 * The engine's own bookkeeping logic: the complexity estimate that decides
 * whether an operation should be offloaded, the operation-key format used
 * for result caching, the slow-operation notification rule and the cache
 * hit rate of the health report. The estimate looks shapes up through the
 * registry's restamping lookup, so it returns the registry state as well.
 */
module CadEngine {
  import opened RealMath
  import opened CadTypes
  import opened Registry

  /** Base complexity per operation name. */
  const OpWeights: map<string, real> := map[
    "makeBox" := 0.05, "makeSphere" := 0.05, "makeCylinder" := 0.05,
    "makeCone" := 0.05, "makeTorus" := 0.05,
    "translate" := 0.02, "rotate" := 0.02, "scale" := 0.02, "mirror" := 0.02,
    "booleanUnion" := 0.4, "booleanSubtract" := 0.45, "booleanIntersect" := 0.4,
    "extrude" := 0.2, "revolve" := 0.25, "sweep" := 0.5, "loft" := 0.6,
    "fillet" := 0.5, "chamfer" := 0.4, "shell" := 0.6, "offset" := 0.5,
    "tessellate" := 0.3]

  /** Weight of an operation the table does not know. */
  const UnknownWeight: real := 0.5

  /** Every tabulated weight lies in [0.02, 0.6]. */
  lemma WeightsInRange()
    ensures forall op :: op in OpWeights ==> 0.02 <= OpWeights[op] <= 0.6
  {
  }

  function BaseWeight(op: string): (w: real)
    ensures op !in OpWeights ==> w == UnknownWeight
    ensures op in OpWeights ==> w == OpWeights[op]
    ensures 0.02 <= w <= 0.6
  {
    WeightsInRange();
    if op in OpWeights then OpWeights[op] else UnknownWeight
  }

  /** Bytes of registered shapes that add one unit to the multiplier. */
  const BytesPerUnit: real := 100000.0

  /**
   * What the listed shapes add to the multiplier, read from the registry as
   * it is: each registered id adds its estimate over 100000; unknown ids add
   * nothing; a repeated id counts each time.
   */
  function ShapeLoad(shapes: map<string, Entry>, ids: seq<string>): (load: real)
    ensures load >= 0.0
    ensures (forall i :: 0 <= i < |ids| ==> ids[i] !in shapes) ==> load == 0.0
    decreases |ids|
  {
    if |ids| == 0 then 0.0
    else
      var last := ids[|ids| - 1];
      ShapeLoad(shapes, ids[..|ids| - 1]) + (if last in shapes then Bytes(shapes[last]) as real / BytesPerUnit else 0.0)
  }

  /**
   * The shape multiplier as the engine computes it: starting from 1, each id
   * is looked up through the restamping lookup, one after the other.
   */
  function Multiplier(r: State, ids: seq<string>): (res: (real, State))
    ensures res.1 == r.(shapes := res.1.shapes, clock := res.1.clock)
    ensures res.1.shapes.Keys == r.shapes.Keys
    ensures forall k :: k in r.shapes ==> res.1.shapes[k].shape == r.shapes[k].shape
    ensures Valid(r) ==> Valid(res.1)
    decreases |ids|
  {
    if |ids| == 0 then (1.0, r)
    else
      var prev := Multiplier(r, ids[..|ids| - 1]);
      var got := GetShape(prev.1, ids[|ids| - 1]);
      var m := if got.0.Some? then prev.0 + got.0.value.estimatedBytes as real / BytesPerUnit else prev.0;
      (m, got.1)
  }

  /**
   * Restamping during the lookups does not change what the shapes report:
   * the multiplier is one plus the load read from the registry before the
   * call.
   */
  lemma {:induction false} MultiplierIsLoad(r: State, ids: seq<string>)
    ensures Multiplier(r, ids).0 == 1.0 + ShapeLoad(r.shapes, ids)
    decreases |ids|
  {
    if |ids| > 0 {
      MultiplierIsLoad(r, ids[..|ids| - 1]);
    }
  }

  /** The offloading threshold. */
  const RemoteThreshold: real := 0.8

  /** Expected duration in milliseconds, by score band. */
  function EstimatedMs(score: real): (ms: nat)
    ensures ms == 5 || ms == 50 || ms == 200 || ms == 500 || ms == 2000
    ensures ms == 2000 <==> score >= RemoteThreshold
  {
    if score < 0.1 then 5
    else if score < 0.3 then 50
    else if score < 0.6 then 200
    else if score < 0.8 then 500
    else 2000
  }

  /** A higher score never predicts a shorter duration. */
  lemma EstimatedMsMonotone(s1: real, s2: real)
    requires s1 <= s2
    ensures EstimatedMs(s1) <= EstimatedMs(s2)
  {
  }

  /**
   * Expected memory: ids times 50000 times the score, converted to an
   * unsigned integer by truncation.
   */
  function EstimatedBytes(n: nat, score: real): (b: int)
    ensures 0.0 <= score ==> b as real <= (n * 50000) as real * score < b as real + 1.0
    ensures 0.0 <= score ==> b >= 0
    ensures 0.0 <= score <= 1.0 ==> b <= n * 50000
    ensures n == 0 ==> b == 0
  {
    var x := (n * 50000) as real * score;
    FloorBounds(n, score, x);
    x.Floor
  }

  lemma FloorBounds(n: nat, score: real, x: real)
    requires x == (n * 50000) as real * score
    ensures 0.0 <= score ==> x.Floor >= 0
    ensures 0.0 <= score <= 1.0 ==> x.Floor <= n * 50000
  {
    var c := n * 50000;
    ScaleBetween(c as real, score, x);
    FloorBetween(x, 0, c);
  }

  /** Scaling a non-negative amount by a fraction in [0, 1] stays within [0, amount]. */
  lemma ScaleBetween(c: real, score: real, x: real)
    requires 0.0 <= c && x == c * score
    ensures 0.0 <= score ==> 0.0 <= x
    ensures score <= 1.0 ==> x <= c
  {
    if score <= 1.0 {
      assert c - x == c * (1.0 - score);
    }
  }

  lemma FloorBetween(x: real, lo: int, hi: int)
    ensures lo as real <= x ==> lo <= x.Floor
    ensures x <= hi as real ==> x.Floor <= hi
  {
  }

  datatype ComplexityEstimate = ComplexityEstimate(score: real, estimatedMs: nat, estimatedBytes: int, recommendRemote: bool)

  /**
   * The routing estimate: the score is min(1, weight * multiplier); the
   * duration follows the score bands; offloading is recommended exactly
   * from a score of 0.8 up; the memory guess scales with the id count.
   */
  function EstimateComplexity(r: State, op: string, ids: seq<string>): (res: (ComplexityEstimate, State))
    ensures 0.0 < res.0.score <= 1.0
    ensures res.0 == Estimate(BaseWeight(op), 1.0 + ShapeLoad(r.shapes, ids), |ids|)
    ensures res.1.shapes.Keys == r.shapes.Keys
    ensures res.1 == r.(shapes := res.1.shapes, clock := res.1.clock)
    ensures Valid(r) ==> Valid(res.1)
  {
    var mult := Multiplier(r, ids);
    MultiplierIsLoad(r, ids);
    (Estimate(BaseWeight(op), mult.0, |ids|), mult.1)
  }

  /** The estimate for a weight, a multiplier and a number of ids. */
  function Estimate(w: real, mult: real, n: nat): (e: ComplexityEstimate)
    requires w > 0.0 && mult >= 1.0
    ensures 0.0 < e.score <= 1.0
    ensures e.score == Min(1.0, w * mult)
    ensures e.recommendRemote <==> e.score >= RemoteThreshold
    ensures e.estimatedMs == EstimatedMs(e.score)
    ensures e.estimatedBytes == EstimatedBytes(n, e.score)
    ensures 0 <= e.estimatedBytes <= n * 50000
    ensures n == 0 ==> e.estimatedBytes == 0
  {
    ScorePositive(w, mult);
    var score := Min(1.0, w * mult);
    ComplexityEstimate(score, EstimatedMs(score), EstimatedBytes(n, score), score >= RemoteThreshold)
  }

  lemma ScorePositive(w: real, m: real)
    requires w > 0.0 && m >= 1.0
    ensures 0.0 < Min(1.0, w * m) <= 1.0
  {
    assert w * m >= w * 1.0;
  }

  /**
   * Naming one more shape never lowers the score: the weight is positive
   * and the added load is not negative.
   */
  lemma ScoreGrowsWithShapes(r: State, op: string, ids: seq<string>, id: string)
    ensures EstimateComplexity(r, op, ids).0.score <= EstimateComplexity(r, op, ids + [id]).0.score
  {
    var more := ids + [id];
    var e1 := EstimateComplexity(r, op, ids).0;
    var e2 := EstimateComplexity(r, op, more).0;
    LoadGrows(r.shapes, ids, id);
    EstimateMonotone(BaseWeight(op), 1.0 + ShapeLoad(r.shapes, ids), 1.0 + ShapeLoad(r.shapes, more), |ids|, |more|);
    assert e1.score <= e2.score;
  }

  lemma EstimateMonotone(w: real, a: real, b: real, n1: nat, n2: nat)
    requires w > 0.0 && 1.0 <= a <= b
    ensures Estimate(w, a, n1).score <= Estimate(w, b, n2).score
  {
    ScoreMonotone(w, a, b);
  }

  lemma LoadGrows(shapes: map<string, Entry>, ids: seq<string>, id: string)
    ensures ShapeLoad(shapes, ids) <= ShapeLoad(shapes, ids + [id])
  {
    var more := ids + [id];
    assert more[..|more| - 1] == ids;
    if id in shapes {
      var b := Bytes(shapes[id]) as real;
      assert b / BytesPerUnit >= 0.0;
    }
  }

  lemma ScoreMonotone(w: real, a: real, b: real)
    requires w > 0.0 && a <= b
    ensures Min(1.0, w * a) <= Min(1.0, w * b)
  {
    assert w * a <= w * b;
  }

  /** With no shapes, an unknown operation scores 0.5: 200 ms, run locally. */
  lemma UnknownOperationAlone(r: State, op: string)
    requires op !in OpWeights
    ensures var e := EstimateComplexity(r, op, []).0;
      e.score == 0.5 && e.estimatedMs == 200 && !e.recommendRemote && e.estimatedBytes == 0
  {
  }

  // ---------------------------------------------------------------------
  // Operation keys
  // ---------------------------------------------------------------------

  /** The operation name followed by ":" and each id, in order. */
  function OperationKey(op: string, ids: seq<string>): (key: string)
    ensures |key| >= |op| && key[..|op|] == op
    ensures |ids| == 0 ==> key == op
    decreases |ids|
  {
    if |ids| == 0 then op
    else OperationKey(op, ids[..|ids| - 1]) + ":" + ids[|ids| - 1]
  }

  /** Position of the last ':' in `s`, or -1. */
  function LastColon(s: string): (p: int)
    ensures -1 <= p < |s|
    ensures p >= 0 ==> s[p] == ':' && forall i :: p < i < |s| ==> s[i] != ':'
    ensures p == -1 ==> forall i :: 0 <= i < |s| ==> s[i] != ':'
    decreases |s|
  {
    if |s| == 0 then -1
    else if s[|s| - 1] == ':' then |s| - 1
    else LastColon(s[..|s| - 1])
  }

  /** Cuts a key back into its ':'-separated fields. */
  function SplitKey(s: string): (parts: seq<string>)
    ensures |parts| >= 1
    decreases |s|
  {
    var p := LastColon(s);
    if p < 0 then [s] else SplitKey(s[..p]) + [s[p + 1..]]
  }

  predicate NoColon(s: string) {
    forall i :: 0 <= i < |s| ==> s[i] != ':'
  }

  /**
   * When neither the operation name nor any id contains ':', the key splits
   * back into exactly the name followed by the ids.
   */
  lemma {:induction false} KeyRoundTrip(op: string, ids: seq<string>)
    requires NoColon(op)
    requires forall i :: 0 <= i < |ids| ==> NoColon(ids[i])
    ensures SplitKey(OperationKey(op, ids)) == [op] + ids
    decreases |ids|
  {
    if |ids| == 0 {
      assert LastColon(op) == -1;
    } else {
      var front := ids[..|ids| - 1];
      var last := ids[|ids| - 1];
      var k := OperationKey(op, front);
      var key := k + ":" + last;
      assert key[|k|] == ':';
      assert forall i :: |k| < i < |key| ==> key[i] == last[i - |k| - 1];
      assert LastColon(key) == |k| by {
        LastColonAt(key, |k|);
      }
      assert key[..|k|] == k;
      assert key[|k| + 1..] == last;
      KeyRoundTrip(op, front);
      assert ids == front + [last];
    }
  }

  lemma {:induction false} LastColonAt(s: string, p: int)
    requires 0 <= p < |s| && s[p] == ':'
    requires forall i :: p < i < |s| ==> s[i] != ':'
    ensures LastColon(s) == p
    decreases |s|
  {
    if |s| - 1 != p {
      assert s[..|s| - 1][p] == ':';
      LastColonAt(s[..|s| - 1], p);
    }
  }

  lemma OccursInLonger(s: string, t: string, sub: string)
    requires ContainsSub(s, sub)
    ensures ContainsSub(s + t, sub)
  {
    var i :| 0 <= i <= |s| - |sub| && OccursAt(s, sub, i);
    assert (s + t)[i..i + |sub|] == s[i..i + |sub|];
    assert OccursAt(s + t, sub, i);
  }

  /** Every id named in an operation key occurs in it as a substring. */
  lemma {:induction false} KeyMentionsIds(op: string, ids: seq<string>, j: int)
    requires 0 <= j < |ids|
    ensures ContainsSub(OperationKey(op, ids), ids[j])
    decreases |ids|
  {
    var front := ids[..|ids| - 1];
    var last := ids[|ids| - 1];
    var k := OperationKey(op, front);
    var key := k + ":" + last;
    if j == |ids| - 1 {
      assert key[|k| + 1..|k| + 1 + |last|] == last;
      assert OccursAt(key, last, |k| + 1);
    } else {
      KeyMentionsIds(op, front, j);
      OccursInLonger(k, ":" + last, ids[j]);
      assert k + (":" + last) == key;
    }
  }

  /**
   * Disposing a shape drops every cached operation whose key was built
   * from an id list that names it.
   */
  lemma DisposeDropsOperationsOnShape(r: State, op: string, ids: seq<string>, j: int)
    requires 0 <= j < |ids| && ids[j] in r.shapes
    ensures OperationKey(op, ids) !in DisposeShape(r, ids[j]).1.cache
  {
    KeyMentionsIds(op, ids, j);
  }

  function Pow16(k: nat): nat {
    if k == 0 then 1 else 16 * Pow16(k - 1)
  }

  /** A number of at least 16^k has at least k + 1 hex digits. */
  lemma {:induction false} HexDigits(n: nat, k: nat)
    requires n >= Pow16(k)
    ensures |Hex(n)| >= k + 1
  {
    if k > 0 {
      HexDigits(n / 16, k - 1);
    }
  }

  lemma SixDigits(n: nat)
    requires n >= 0x100000
    ensures |Hex(n)| >= IdWidth
  {
    assert Pow16(2) == 0x100;
    assert Pow16(4) == 0x10000;
    assert Pow16(5) == 0x100000;
    HexDigits(n, 5);
  }

  /**
   * Matching by substring reaches beyond the disposed shape once ids fill
   * the six-digit field: the id of counter n is a prefix of the id of
   * counter 16n (for instance "shape_100000" and "shape_1000000"), so
   * disposing the first also drops a cached result keyed only by the
   * second, although that shape stays registered. Lookups stay correct
   * (they recheck registration); only a cache entry is lost.
   */
  lemma SubstringMatchOverreaches(r: State, op: string, n: nat)
    requires n >= 0x100000
    requires IdFor(n) in r.shapes && IdFor(16 * n) in r.shapes
    ensures IdFor(16 * n) != IdFor(n)
    ensures OperationKey(op, [IdFor(16 * n)]) !in DisposeShape(r, IdFor(n)).1.cache
    ensures IdFor(16 * n) in DisposeShape(r, IdFor(n)).1.shapes
  {
    IdsDistinct(n, 16 * n);
    ScaledIdExtends(n);
    KeyMentionsPrefix(op, IdFor(n), "0");
  }

  /** Past six digits, multiplying the counter by 16 appends a '0' to the id. */
  lemma ScaledIdExtends(n: nat)
    requires n >= 0x100000
    ensures IdFor(16 * n) == IdFor(n) + "0"
  {
    SixDigits(n);
    assert Hex(16 * n) == Hex(n) + "0";
  }

  /** A key built from the id `a + b` mentions `a`. */
  lemma KeyMentionsPrefix(op: string, a: string, b: string)
    ensures ContainsSub(OperationKey(op, [a + b]), a)
  {
    var key := OperationKey(op, [a + b]);
    assert key == op + ":" + (a + b);
    assert key[|op| + 1..|op| + 1 + |a|] == a;
    assert OccursAt(key, a, |op| + 1);
  }

  // ---------------------------------------------------------------------
  // Slow-operation notification and the hit rate
  // ---------------------------------------------------------------------

  /** Threshold of a callback registered without one, in milliseconds. */
  const DefaultSlowThreshold: real := 100.0

  function OnSlowOperation(thresholds: seq<real>, threshold: real): (r: seq<real>)
    ensures |r| == |thresholds| + 1 && r[..|thresholds|] == thresholds && r[|thresholds|] == threshold
  {
    thresholds + [threshold]
  }

  /**
   * Positions of the callbacks invoked for an operation of the given
   * duration: exactly those whose threshold is at most the duration, in
   * registration order.
   */
  function FiredCallbacks(thresholds: seq<real>, duration: real): (fired: seq<nat>)
    ensures forall k :: 0 <= k < |fired| ==> fired[k] < |thresholds| && thresholds[fired[k]] <= duration
    ensures forall i :: 0 <= i < |thresholds| && thresholds[i] <= duration ==> i in fired
    ensures forall a, b :: 0 <= a < b < |fired| ==> fired[a] < fired[b]
    decreases |thresholds|
  {
    if |thresholds| == 0 then []
    else
      var n := |thresholds| - 1;
      var prev := FiredCallbacks(thresholds[..n], duration);
      if thresholds[n] <= duration then prev + [n] else prev
  }

  /**
   * Registering a callback leaves who fires for earlier callbacks as it
   * was, and adds the new one exactly when the duration reaches its
   * threshold.
   */
  lemma RegisterThenFire(thresholds: seq<real>, threshold: real, duration: real)
    ensures FiredCallbacks(OnSlowOperation(thresholds, threshold), duration)
         == FiredCallbacks(thresholds, duration) + (if threshold <= duration then [|thresholds|] else [])
  {
  }

  /** A longer operation fires every callback a shorter one fires. */
  lemma FiringMonotone(thresholds: seq<real>, d1: real, d2: real, i: nat)
    requires d1 <= d2
    requires i in FiredCallbacks(thresholds, d1)
    ensures i in FiredCallbacks(thresholds, d2)
  {
    var f := FiredCallbacks(thresholds, d1);
    var k :| 0 <= k < |f| && f[k] == i;
  }

  /** Fraction of cache lookups that hit; 0 before the first lookup. */
  function CacheHitRate(hits: nat, misses: nat): (rate: real)
    ensures 0.0 <= rate <= 1.0
    ensures hits + misses == 0 ==> rate == 0.0
    ensures hits + misses > 0 ==> rate * (hits + misses) as real == hits as real
    ensures rate == 1.0 <==> hits > 0 && misses == 0
  {
    if hits + misses > 0 then
      var n := (hits + misses) as real;
      RateBounds(hits as real, n);
      hits as real / n
    else 0.0
  }

  lemma RateBounds(h: real, n: real)
    requires 0.0 <= h <= n && n > 0.0
    ensures 0.0 <= h / n <= 1.0
    ensures h / n == 1.0 <==> h == n
  {
    assert h / n * n == h;
  }

  /** One more hit never lowers the hit rate; one more miss never raises it. */
  lemma HitRateMonotone(hits: nat, misses: nat)
    ensures CacheHitRate(hits, misses) <= CacheHitRate(hits + 1, misses)
    ensures CacheHitRate(hits, misses + 1) <= CacheHitRate(hits, misses)
  {
    var h := hits as real;
    var m := misses as real;
    if hits + misses > 0 {
      CrossMultiply(h, h + m, h + 1.0, h + m + 1.0);
      CrossMultiply(h, h + m + 1.0, h, h + m);
    }
  }

  /** a/b <= c/d for positive denominators when a*d <= c*b. */
  lemma CrossMultiply(a: real, b: real, c: real, d: real)
    requires b > 0.0 && d > 0.0 && a >= 0.0
    requires a * d <= c * b
    ensures a / b <= c / d
  {
    assert a / b * b == a;
    assert c / d * d == c;
    assert (a / b) * (b * d) == a * d;
    assert (c / d) * (b * d) == c * b;
  }
}
