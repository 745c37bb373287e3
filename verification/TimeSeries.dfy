// Light-curve series: sanitizing, validating, preparing an update, and the in-database merge.
// Source: src/alert/base.rs (trait TimeSeries) and src/utils/db.rs (update_timeseries_op).
module TimeSeries {
  import opened Wrappers
  import opened JulianTime

  /** A light-curve point: its time and the rest of its document. */
  datatype Point = Point(jd: Time, body: string)

  predicate HasValue(p: Point, v: real) {
    IsFinite(p.jd) && Value(p.jd) == v
  }

  /** The earliest point of `s` at the finite time `v`. */
  function At(s: seq<Point>, v: real): Option<Point> {
    if s == [] then None
    else if HasValue(s[0], v) then Some(s[0])
    else At(s[1..], v)
  }

  function OrElse<T>(a: Option<T>, b: Option<T>): Option<T> {
    if a.Some? then a else b
  }

  function Jds(s: seq<Point>): seq<Time> {
    seq(|s|, i requires 0 <= i < |s| => s[i].jd)
  }

  /** What `validate_monotonic_increasing` accepts: finite and strictly increasing. */
  predicate ValidTimes(ts: seq<Time>) {
    (forall i :: 0 <= i < |ts| ==> IsFinite(ts[i])) &&
    (forall i, j :: 0 <= i < j < |ts| ==> Value(ts[i]) < Value(ts[j]))
  }

  predicate Valid(s: seq<Point>) {
    (forall i :: 0 <= i < |s| ==> IsFinite(s[i].jd)) &&
    (forall i, j :: 0 <= i < j < |s| ==> Value(s[i].jd) < Value(s[j].jd))
  }

  lemma ValidJds(s: seq<Point>)
    ensures ValidTimes(Jds(s)) <==> Valid(s)
  {
    assert forall i :: 0 <= i < |s| ==> Jds(s)[i] == s[i].jd;
    if ValidTimes(Jds(s)) {
      forall i | 0 <= i < |s| ensures IsFinite(s[i].jd) {
        assert Jds(s)[i] == s[i].jd;
      }
    }
  }

  // ----- facts about At -----

  lemma {:induction false} AtConcat(a: seq<Point>, b: seq<Point>, v: real)
    ensures At(a + b, v) == OrElse(At(a, v), At(b, v))
  {
    if a == [] {
      assert a + b == b;
    } else {
      assert (a + b)[1..] == a[1..] + b;
      AtConcat(a[1..], b, v);
    }
  }

  lemma {:induction false} AtIsMember(s: seq<Point>, v: real)
    ensures At(s, v).Some? ==> At(s, v).value in s && HasValue(At(s, v).value, v)
    ensures At(s, v).None? ==> forall p :: p in s ==> !HasValue(p, v)
  {
    if s != [] {
      AtIsMember(s[1..], v);
    }
  }

  lemma {:induction false} AtOfValid(s: seq<Point>, k: nat)
    requires Valid(s) && k < |s|
    ensures At(s, Value(s[k].jd)) == Some(s[k])
  {
    if k > 0 {
      AtOfValid(s[1..], k - 1);
    }
  }

  lemma ValidTail(s: seq<Point>)
    requires Valid(s) && s != []
    ensures Valid(s[1..])
    ensures forall v :: At(s[1..], v) == if HasValue(s[0], v) then None else At(s, v)
  {
    forall v ensures At(s[1..], v) == if HasValue(s[0], v) then None else At(s, v) {
      AtIsMember(s[1..], v);
    }
  }

  /** A valid series is determined by which point it holds at each time. */
  lemma {:induction false} Extensionality(a: seq<Point>, b: seq<Point>)
    requires Valid(a) && Valid(b)
    requires forall v :: At(a, v) == At(b, v)
    ensures a == b
  {
    if a == [] {
      if b != [] {
        AtOfValid(b, 0);
      }
    } else {
      AtOfValid(a, 0);
      AtIsMember(b, Value(a[0].jd));
      AtOfValid(b, 0);
      AtIsMember(a, Value(b[0].jd));
      assert a[0] == b[0];
      ValidTail(a);
      ValidTail(b);
      Extensionality(a[1..], b[1..]);
    }
  }

  // ----- stable sorting (Rust's `sort_by`, MongoDB's `$sort` and `$sortArray`) -----

  function Insert(o: Order, p: Point, s: seq<Point>): seq<Point> {
    if s == [] || Le(o, p.jd, s[0].jd) then [p] + s
    else [s[0]] + Insert(o, p, s[1..])
  }

  function StableSort(o: Order, s: seq<Point>): seq<Point> {
    if s == [] then [] else Insert(o, s[0], StableSort(o, s[1..]))
  }

  predicate Sorted(o: Order, s: seq<Point>) {
    forall i, j :: 0 <= i < j < |s| ==> Le(o, s[i].jd, s[j].jd)
  }

  lemma {:induction false} InsertMembers(o: Order, p: Point, s: seq<Point>)
    ensures multiset(Insert(o, p, s)) == multiset{p} + multiset(s)
    ensures forall q :: q in Insert(o, p, s) <==> q == p || q in s
  {
    if s == [] || Le(o, p.jd, s[0].jd) {
    } else {
      InsertMembers(o, p, s[1..]);
      assert s == [s[0]] + s[1..];
    }
  }

  lemma {:induction false} InsertSorted(o: Order, p: Point, s: seq<Point>)
    requires Sorted(o, s)
    ensures Sorted(o, Insert(o, p, s))
  {
    if s == [] || Le(o, p.jd, s[0].jd) {
    } else {
      InsertSorted(o, p, s[1..]);
      InsertMembers(o, p, s[1..]);
      var t := Insert(o, p, s[1..]);
      forall j | 0 <= j < |t| ensures Le(o, s[0].jd, t[j].jd) {
        assert t[j] in t;
      }
    }
  }

  /** `StableSort` returns a sorted permutation of its input. */
  lemma {:induction false} SortIsSorted(o: Order, s: seq<Point>)
    ensures Sorted(o, StableSort(o, s))
    ensures multiset(StableSort(o, s)) == multiset(s)
    ensures forall p :: p in StableSort(o, s) <==> p in s
  {
    if s != [] {
      SortIsSorted(o, s[1..]);
      InsertSorted(o, s[0], StableSort(o, s[1..]));
      InsertMembers(o, s[0], StableSort(o, s[1..]));
      assert s == [s[0]] + s[1..];
    }
  }

  /** Sorting keeps the earliest point at a time.  `total_cmp` does so except at zero,
      where it moves a -0.0 in front of a +0.0. */
  lemma {:induction false} InsertAt(o: Order, p: Point, s: seq<Point>, v: real)
    requires o == Bson || v != 0.0
    ensures At(Insert(o, p, s), v) == At([p] + s, v)
  {
    if s == [] || Le(o, p.jd, s[0].jd) {
    } else {
      InsertAt(o, p, s[1..], v);
      assert ([p] + s)[1..] == s;
      assert ([p] + s[1..])[1..] == s[1..];
      assert ([s[0]] + Insert(o, p, s[1..]))[1..] == Insert(o, p, s[1..]);
    }
  }

  lemma {:induction false} SortAt(o: Order, s: seq<Point>, v: real)
    requires o == Bson || v != 0.0
    ensures At(StableSort(o, s), v) == At(s, v)
  {
    if s != [] {
      SortAt(o, s[1..], v);
      InsertAt(o, s[0], StableSort(o, s[1..]), v);
      assert ([s[0]] + StableSort(o, s[1..]))[1..] == StableSort(o, s[1..]);
    }
  }

  // ----- sanitize_timeseries -----

  /** `dedup_by` on IEEE equality: drops a point equal to the one kept before it. */
  function Dedup(s: seq<Point>): seq<Point>
    decreases |s|
  {
    if |s| <= 1 then s
    else if Same(s[1].jd, s[0].jd) then Dedup([s[0]] + s[2..])
    else [s[0]] + Dedup(s[1..])
  }

  function RetainFinite(s: seq<Point>): seq<Point> {
    if s == [] then []
    else (if IsFinite(s[0].jd) then [s[0]] else []) + RetainFinite(s[1..])
  }

  function Sanitized(s: seq<Point>): seq<Point> {
    RetainFinite(Dedup(StableSort(TotalCmp, s)))
  }

  /** The vector a series is held in; `sanitize_timeseries` edits it in place. */
  class PointVec {
    var points: seq<Point>

    constructor (points: seq<Point>)
      ensures this.points == points
    {
      this.points := points;
    }

    method SanitizeTimeseries()
      modifies this
      ensures points == Sanitized(old(points))
      ensures Valid(points)
    {
      points := StableSort(TotalCmp, points);
      points := Dedup(points);
      points := RetainFinite(points);
      SanitizedIsValid(old(points));
    }
  }

  lemma {:induction false} DedupKeepsOrder(s: seq<Point>)
    requires Sorted(TotalCmp, s)
    ensures Sorted(TotalCmp, Dedup(s))
    ensures forall p :: p in Dedup(s) ==> p in s
    ensures s != [] ==> Dedup(s) != [] && Dedup(s)[0] == s[0]
    ensures forall i :: 0 <= i < |Dedup(s)| - 1 ==> !Same(Dedup(s)[i + 1].jd, Dedup(s)[i].jd)
    decreases |s|
  {
    if |s| > 1 {
      if Same(s[1].jd, s[0].jd) {
        DedupKeepsOrder([s[0]] + s[2..]);
      } else {
        DedupKeepsOrder(s[1..]);
        forall p | p in Dedup(s[1..]) ensures Le(TotalCmp, s[0].jd, p.jd) {
          var k :| 0 <= k < |s[1..]| && s[1..][k] == p;
          assert s[k + 1] == p;
        }
      }
    }
  }

  predicate FiniteIncreasing(s: seq<Point>) {
    forall i, j :: 0 <= i < j < |s| && IsFinite(s[i].jd) && IsFinite(s[j].jd) ==>
      Value(s[i].jd) < Value(s[j].jd)
  }

  lemma {:induction false} RetainFiniteValid(s: seq<Point>)
    requires FiniteIncreasing(s)
    ensures Valid(RetainFinite(s))
    ensures forall p :: p in RetainFinite(s) <==> p in s && IsFinite(p.jd)
  {
    if s != [] {
      RetainFiniteValid(s[1..]);
      var t := RetainFinite(s[1..]);
      forall j | 0 <= j < |t| && IsFinite(s[0].jd) ensures Value(s[0].jd) < Value(t[j].jd) {
        assert t[j] in s[1..];
        var k :| 0 <= k < |s[1..]| && s[1..][k] == t[j];
        assert s[k + 1] == t[j];
      }
    }
  }

  /** A sanitized series is finite and strictly increasing. */
  lemma SanitizedIsValid(s: seq<Point>)
    ensures Valid(Sanitized(s))
  {
    SortIsSorted(TotalCmp, s);
    DedupKeepsOrder(StableSort(TotalCmp, s));
    var d := Dedup(StableSort(TotalCmp, s));
    forall i, j | 0 <= i < j < |d| && IsFinite(d[i].jd) && IsFinite(d[j].jd)
      ensures Value(d[i].jd) < Value(d[j].jd)
    {
      assert Le(TotalCmp, d[i].jd, d[i + 1].jd);
      assert i + 1 < j ==> Le(TotalCmp, d[i + 1].jd, d[j].jd);
      assert !Same(d[i + 1].jd, d[i].jd);
    }
    RetainFiniteValid(d);
  }

  lemma {:induction false} DedupAt(s: seq<Point>, v: real)
    ensures At(Dedup(s), v) == At(s, v)
    decreases |s|
  {
    if |s| > 1 {
      if Same(s[1].jd, s[0].jd) {
        DedupAt([s[0]] + s[2..], v);
        assert ([s[0]] + s[2..])[1..] == s[2..];
        assert s[1..][1..] == s[2..];
      } else {
        DedupAt(s[1..], v);
      }
    }
  }

  lemma {:induction false} RetainFiniteAt(s: seq<Point>, v: real)
    ensures At(RetainFinite(s), v) == At(s, v)
  {
    if s != [] {
      RetainFiniteAt(s[1..], v);
      if IsFinite(s[0].jd) {
        assert ([s[0]] + RetainFinite(s[1..]))[1..] == RetainFinite(s[1..]);
      } else {
        assert RetainFinite(s) == RetainFinite(s[1..]);
      }
    }
  }

  /** The earliest point of `s` at -0.0. */
  function AtNegativeZero(s: seq<Point>): Option<Point> {
    if s == [] then None
    else if s[0].jd.NegativeZero? then Some(s[0])
    else AtNegativeZero(s[1..])
  }

  lemma {:induction false} InsertAtZero(p: Point, s: seq<Point>)
    requires Sorted(TotalCmp, s)
    ensures At(Insert(TotalCmp, p, s), 0.0) == OrElse(AtNegativeZero([p] + s), At([p] + s, 0.0))
    ensures AtNegativeZero(Insert(TotalCmp, p, s)) == AtNegativeZero([p] + s)
  {
    assert ([p] + s)[1..] == s;
    SortedZero(s);
    if s == [] {
    } else if Le(TotalCmp, p.jd, s[0].jd) {
      if p.jd == Finite(0.0) {
        NoNegativeZero(s, 0);
      }
    } else {
      InsertAtZero(p, s[1..]);
      assert ([p] + s[1..])[1..] == s[1..];
      assert ([s[0]] + Insert(TotalCmp, p, s[1..]))[1..] == Insert(TotalCmp, p, s[1..]);
    }
  }

  lemma {:induction false} SortedZero(s: seq<Point>)
    requires Sorted(TotalCmp, s)
    ensures At(s, 0.0) == OrElse(AtNegativeZero(s), At(s, 0.0))
  {
    if s != [] {
      if s[0].jd == Finite(0.0) {
        NoNegativeZero(s, 0);
      } else {
        SortedZero(s[1..]);
      }
    }
  }

  lemma {:induction false} NoNegativeZero(s: seq<Point>, k: nat)
    requires k <= |s|
    requires forall i :: k <= i < |s| ==> Le(TotalCmp, Finite(0.0), s[i].jd)
    ensures AtNegativeZero(s[k..]) == None
    decreases |s| - k
  {
    if k < |s| {
      NoNegativeZero(s, k + 1);
      assert s[k..][1..] == s[k + 1..];
    }
  }

  lemma {:induction false} SortAtZero(s: seq<Point>)
    ensures At(StableSort(TotalCmp, s), 0.0) == OrElse(AtNegativeZero(s), At(s, 0.0))
    ensures AtNegativeZero(StableSort(TotalCmp, s)) == AtNegativeZero(s)
  {
    if s != [] {
      var t := StableSort(TotalCmp, s[1..]);
      SortAtZero(s[1..]);
      SortIsSorted(TotalCmp, s[1..]);
      InsertAtZero(s[0], t);
      assert ([s[0]] + t)[1..] == t;
      assert [s[0]] + s[1..] == s;
    }
  }

  /** Sanitizing keeps the earliest point at every time, except that at zero a -0.0
      beats an earlier +0.0.  The condition names exactly that exception. */
  predicate KeepsEarliest(s: seq<Point>, v: real) {
    v != 0.0 || At(s, v).None? || At(s, v).value.jd.NegativeZero? || AtNegativeZero(s).None?
  }

  lemma SanitizedAt(s: seq<Point>, v: real)
    ensures At(Sanitized(s), v) == At(s, v) <==> KeepsEarliest(s, v)
    ensures At(Sanitized(s), v).Some? <==> At(s, v).Some?
  {
    var t := StableSort(TotalCmp, s);
    DedupAt(t, v);
    RetainFiniteAt(Dedup(t), v);
    if v == 0.0 {
      SortAtZero(s);
      AtNegativeZeroIsZero(s);
    } else {
      SortAt(TotalCmp, s, v);
    }
  }

  lemma {:induction false} AtNegativeZeroIsZero(s: seq<Point>)
    ensures AtNegativeZero(s).Some? ==> AtNegativeZero(s).value.jd.NegativeZero? && At(s, 0.0).Some?
    ensures At(s, 0.0).Some? && At(s, 0.0).value.jd.NegativeZero? ==> At(s, 0.0) == AtNegativeZero(s)
  {
    if s != [] {
      AtNegativeZeroIsZero(s[1..]);
    }
  }

  /** The input on which the doc comment's "keeping the first occurrence" fails. */
  lemma SanitizeDropsTheFirstOccurrence(a: Point, b: Point)
    requires a.jd == Finite(0.0) && b.jd == NegativeZero
    ensures At(Sanitized([a, b]), 0.0) == Some(b) && At([a, b], 0.0) == Some(a)
  {
    var s := [a, b];
    assert s[1..] == [b] && s[1..][1..] == [];
    assert AtNegativeZero([b]) == Some(b) && AtNegativeZero(s) == Some(b);
    SortAtZero(s);
    var t := StableSort(TotalCmp, s);
    DedupAt(t, 0.0);
    RetainFiniteAt(Dedup(t), 0.0);
  }

  /** WINTER puts the current detection in front of the history, so it is the point kept
      at its time whatever the history holds there. */
  lemma CurrentDetectionWins(current: Point, history: seq<Point>)
    requires IsFinite(current.jd)
    requires current.jd == Finite(0.0) ==> AtNegativeZero(history).None?
    ensures At(Sanitized([current] + history), Value(current.jd)) == Some(current)
  {
    assert ([current] + history)[1..] == history;
    SanitizedAt([current] + history, Value(current.jd));
  }

  // ----- validate_monotonic_increasing -----

  datatype TimeseriesError = NonFinite(at: nat) | NotIncreasing(at: nat)

  /** Names the first point at which the series stops being valid. */
  predicate Faults(ts: seq<Time>, e: TimeseriesError) {
    e.at < |ts| && ValidTimes(ts[..e.at]) &&
    (e.NonFinite? <==> !IsFinite(ts[e.at])) &&
    (e.NotIncreasing? ==> e.at > 0 && !Less(ts[e.at - 1], ts[e.at]))
  }

  method ValidateMonotonicIncreasing(timeseries: seq<Time>) returns (error: Option<TimeseriesError>)
    ensures error.None? <==> ValidTimes(timeseries)
    ensures error.Some? ==> Faults(timeseries, error.value)
  {
    if |timeseries| == 0 {
      return None;
    }
    var prevTime := timeseries[0];
    if !IsFinite(prevTime) {
      return Some(NonFinite(0));
    }
    for k := 1 to |timeseries|
      invariant IsFinite(prevTime) && prevTime == timeseries[k - 1]
      invariant ValidTimes(timeseries[..k])
    {
      var time := timeseries[k];
      if !IsFinite(time) {
        return Some(NonFinite(k));
      }
      if Less(time, prevTime) || Same(time, prevTime) {
        return Some(NotIncreasing(k));
      }
      prevTime := time;
    }
    assert timeseries[..|timeseries|] == timeseries;
    return None;
  }

  // ----- prepare_timeseries_update -----

  datatype Prepared = Prepared(docs: seq<Point>, needSort: bool)

  predicate Holds(ts: seq<Time>, v: real) {
    exists i :: 0 <= i < |ts| && IsFinite(ts[i]) && Value(ts[i]) == v
  }

  /** The new points whose time the existing series does not hold yet. */
  function NewPoints(existing: seq<Time>, newData: seq<Point>): seq<Point> {
    if newData == [] then []
    else
      (if IsFinite(newData[0].jd) && Holds(existing, Value(newData[0].jd)) then [] else [newData[0]])
      + NewPoints(existing, newData[1..])
  }

  /** The update, without early returns, overlap window or hashing: the points not there yet,
      sorted in only when one of them is older than the newest existing point. */
  function PreparedUpdate(existing: seq<Time>, newData: seq<Point>): Prepared {
    var docs := NewPoints(existing, newData);
    Prepared(docs, docs != [] && existing != [] &&
                   !Less(existing[|existing| - 1], docs[0].jd))
  }

  /** `partition_point(|item| item.jd < bound)` on a sorted slice. */
  method PartitionPoint(ts: seq<Time>, bound: Time) returns (k: nat)
    requires ValidTimes(ts) && IsFinite(bound)
    ensures k <= |ts|
    ensures forall i :: 0 <= i < k ==> Less(ts[i], bound)
    ensures forall i :: k <= i < |ts| ==> !Less(ts[i], bound)
  {
    k := 0;
    var hi := |ts|;
    while k < hi
      invariant k <= hi <= |ts|
      invariant forall i :: 0 <= i < k ==> Less(ts[i], bound)
      invariant forall i :: hi <= i < |ts| ==> !Less(ts[i], bound)
    {
      var mid := (k + hi) / 2;
      if Less(ts[mid], bound) {
        k := mid + 1;
      } else {
        hi := mid;
      }
    }
  }

  lemma {:induction false} NewPointsConcat(existing: seq<Time>, a: seq<Point>, b: seq<Point>)
    ensures NewPoints(existing, a + b) == NewPoints(existing, a) + NewPoints(existing, b)
  {
    hide Holds, IsFinite;
    if a == [] {
      assert a + b == b;
    } else {
      assert (a + b)[1..] == a[1..] + b;
      NewPointsConcat(existing, a[1..], b);
      var x, y := NewPoints(existing, a[1..]), NewPoints(existing, b);
      assert [a[0]] + (x + y) == [a[0]] + x + y;
      assert [] + (x + y) == [] + x + y;
    }
  }

  lemma {:induction false} NewPointsMembers(existing: seq<Time>, newData: seq<Point>)
    ensures forall p :: p in NewPoints(existing, newData) <==>
                          p in newData && !(IsFinite(p.jd) && Holds(existing, Value(p.jd)))
  {
    if newData != [] {
      NewPointsMembers(existing, newData[1..]);
    }
  }

  lemma {:induction false} AllNew(existing: seq<Time>, newData: seq<Point>)
    requires forall i :: 0 <= i < |newData| ==>
               IsFinite(newData[i].jd) && !Holds(existing, Value(newData[i].jd))
    ensures NewPoints(existing, newData) == newData
  {
    if newData != [] {
      AllNew(existing, newData[1..]);
    }
  }

  /** When the oldest new point is newer than everything stored, nothing can collide. */
  lemma NewerCannotCollide(existing: seq<Time>, newData: seq<Point>)
    requires ValidTimes(existing) && Valid(newData) && newData != [] && existing != []
    requires Less(existing[|existing| - 1], newData[0].jd)
    ensures PreparedUpdate(existing, newData) == Prepared(newData, false)
  {
    forall i | 0 <= i < |newData| ensures !Holds(existing, Value(newData[i].jd)) {
      assert Value(newData[0].jd) <= Value(newData[i].jd);
    }
    AllNew(existing, newData);
  }

  /** The hash set of bit patterns answers exactly "is this time already stored?". */
  lemma BitsDecideMembership(existing: seq<Time>, from: nat, bits: set<Time>, jd: Time, bound: Time)
    requires ValidTimes(existing) && from <= |existing| && IsFinite(jd) && IsFinite(bound)
    requires Value(bound) <= Value(jd)
    requires forall i :: 0 <= i < from ==> Less(existing[i], bound)
    requires bits == set i | from <= i < |existing| :: Normalized(existing[i])
    ensures Normalized(jd) in bits <==> Holds(existing, Value(jd))
  {
    if Holds(existing, Value(jd)) {
      var i :| 0 <= i < |existing| && IsFinite(existing[i]) && Value(existing[i]) == Value(jd);
      assert Normalized(existing[i]) == Normalized(jd);
    }
  }

  lemma OneMorePoint(existing: seq<Time>, newData: seq<Point>, k: nat)
    requires k < |newData|
    ensures NewPoints(existing, newData[..k + 1]) ==
            NewPoints(existing, newData[..k]) + NewPoints(existing, [newData[k]])
  {
    hide *;
    assert newData[..k + 1] == newData[..k] + [newData[k]];
    NewPointsConcat(existing, newData[..k], [newData[k]]);
  }

  /** One more new point: it is kept exactly when its bit pattern is missing from the overlap window. */
  lemma NextNewPoint(existing: seq<Time>, newData: seq<Point>, from: nat, bits: set<Time>, k: nat)
    requires ValidTimes(existing) && Valid(newData) && k < |newData| && from <= |existing|
    requires forall i :: 0 <= i < from ==> Less(existing[i], newData[0].jd)
    requires bits == set i | from <= i < |existing| :: Normalized(existing[i])
    ensures NewPoints(existing, newData[..k + 1]) ==
            NewPoints(existing, newData[..k]) + if Normalized(newData[k].jd) in bits then [] else [newData[k]]
  {
    hide ValidTimes, Less, Normalized, Holds;
    assert Value(newData[0].jd) <= Value(newData[k].jd);
    hide Valid;
    BitsDecideMembership(existing, from, bits, newData[k].jd, newData[0].jd);
    OneMorePoint(existing, newData, k);
  }

  /** The new points come in the order of the series, so their first one is the oldest. */
  lemma FirstNewIsOldest(existing: seq<Time>, newData: seq<Point>, k: nat)
    requires Valid(newData) && k < |newData|
    ensures var docs := NewPoints(existing, newData[..k]);
            docs != [] ==> !Less(newData[k].jd, docs[0].jd)
  {
    NewPointsMembers(existing, newData[..k]);
    var docs := NewPoints(existing, newData[..k]);
    if docs != [] {
      assert docs[0] in docs;
      var i :| 0 <= i < k && newData[i] == docs[0];
      assert Value(newData[i].jd) < Value(newData[k].jd);
    }
  }

  method PrepareTimeseriesUpdate(newData: seq<Point>, existing: seq<Time>)
    returns (r: Result<Prepared, TimeseriesError>)
    ensures r.Err? <==> !(ValidTimes(existing) && Valid(newData))
    ensures r.Ok? ==> r.value == PreparedUpdate(existing, newData)
  {
    var fault := ValidateMonotonicIncreasing(existing);
    if fault.Some? {
      return Err(fault.value);
    }
    fault := ValidateMonotonicIncreasing(Jds(newData));
    ValidJds(newData);
    if fault.Some? {
      return Err(fault.value);
    }
    if |newData| == 0 {
      return Ok(Prepared([], false));
    }
    if |existing| == 0 {
      AllNew(existing, newData);
      return Ok(Prepared(newData, false));
    }
    var minNew := newData[0].jd;
    var maxExisting := existing[|existing| - 1];
    if Less(maxExisting, minNew) {
      NewerCannotCollide(existing, newData);
      return Ok(Prepared(newData, false));
    }
    var overlapStart := PartitionPoint(existing, minNew);
    var existingJds: set<Time> := {};
    for k := overlapStart to |existing|
      invariant existingJds == set i | overlapStart <= i < k :: Normalized(existing[i])
    {
      existingJds := existingJds + {Normalized(existing[k])};
    }
    var docs: seq<Point> := [];
    var minNewDeduped := Infinite(false);
    for k := 0 to |newData|
      invariant docs == NewPoints(existing, newData[..k])
      invariant docs == [] ==> minNewDeduped == Infinite(false)
      invariant docs != [] ==> minNewDeduped == docs[0].jd
    {
      var jd := newData[k].jd;
      NextNewPoint(existing, newData, overlapStart, existingJds, k);
      FirstNewIsOldest(existing, newData, k);
      if Normalized(jd) !in existingJds {
        docs := docs + [newData[k]];
        if Less(jd, minNewDeduped) {
          minNewDeduped := jd;
        }
      }
    }
    assert newData[..|newData|] == newData;
    NewPointsMembers(existing, newData);
    assert docs != [] ==> docs[0] in docs;
    if Less(maxExisting, minNewDeduped) {
      return Ok(Prepared(docs, false));
    }
    return Ok(Prepared(docs, true));
  }
}
