// Three ways to merge new points into a stored series: the `$push` built from a prepared update,
// the in-database pipeline of `update_timeseries_op`, and the plain definition both must meet.
module SeriesMerge {
  import opened Wrappers
  import opened JulianTime
  import opened TimeSeries

  /** `$push` with `$each`, and `$sort` when asked; nothing is pushed without documents. */
  function ApplyPush(existing: seq<Point>, update: Prepared): seq<Point> {
    if update.docs == [] then existing
    else if update.needSort then StableSort(Bson, existing + update.docs)
    else existing + update.docs
  }

  // ----- update_timeseries_op -----

  predicate InBson(t: Time, s: seq<Point>) {
    exists i :: 0 <= i < |s| && BsonEqual(t, s[i].jd)
  }

  /** The `$reduce`: a point joins the result unless its time is already `$in` it. */
  function KeepFirst(kept: seq<Point>, s: seq<Point>): seq<Point>
    decreases |s|
  {
    if s == [] then kept
    else if InBson(s[0].jd, kept) then KeepFirst(kept, s[1..])
    else KeepFirst(kept + [s[0]], s[1..])
  }

  /** The `$filter`: equal to itself, below +inf and above -inf, all in BSON order. */
  predicate PassesFilter(t: Time) {
    BsonEqual(t, t) && Le(Bson, t, Infinite(false)) && !BsonEqual(t, Infinite(false))
    && Le(Bson, Infinite(true), t) && !BsonEqual(t, Infinite(true))
  }

  function FilterPoints(s: seq<Point>): seq<Point> {
    if s == [] then [] else (if PassesFilter(s[0].jd) then [s[0]] else []) + FilterPoints(s[1..])
  }

  function UpdateOp(existing: seq<Point>, newData: seq<Point>): seq<Point> {
    StableSort(Bson, FilterPoints(KeepFirst([], existing + newData)))
  }

  /** The reference: keep every stored point, add each new point whose time is not stored, sort. */
  function Reference(existing: seq<Point>, newData: seq<Point>): seq<Point> {
    StableSort(Bson, existing + NewPoints(Jds(existing), newData))
  }

  // ----- the in-database pipeline -----

  predicate DistinctTimes(s: seq<Point>) {
    forall i, j :: 0 <= i < j < |s| ==> !BsonEqual(s[i].jd, s[j].jd)
  }

  lemma {:induction false} KeepFirstDistinct(kept: seq<Point>, s: seq<Point>)
    requires DistinctTimes(kept)
    ensures DistinctTimes(KeepFirst(kept, s))
    decreases |s|
  {
    if s != [] {
      KeepFirstDistinct(if InBson(s[0].jd, kept) then kept else kept + [s[0]], s[1..]);
    }
  }

  lemma {:induction false} KeepFirstAt(kept: seq<Point>, s: seq<Point>, v: real)
    ensures At(KeepFirst(kept, s), v) == OrElse(At(kept, v), At(s, v))
    decreases |s|
  {
    if s != [] {
      if InBson(s[0].jd, kept) {
        KeepFirstAt(kept, s[1..], v);
        if HasValue(s[0], v) {
          var i :| 0 <= i < |kept| && BsonEqual(s[0].jd, kept[i].jd);
          assert kept[i] in kept && HasValue(kept[i], v);
          AtIsMember(kept, v);
        }
      } else {
        KeepFirstAt(kept + [s[0]], s[1..], v);
        AtConcat(kept, [s[0]], v);
        assert [s[0]][1..] == [];
      }
    }
  }

  /** The filter is `is_finite`, even though NaN equals itself in BSON. */
  lemma FilterIsFinite(t: Time)
    ensures PassesFilter(t) <==> IsFinite(t)
  {
  }

  lemma {:induction false} FilterIsRetain(s: seq<Point>)
    ensures FilterPoints(s) == RetainFinite(s)
    ensures forall p :: p in FilterPoints(s) <==> p in s && IsFinite(p.jd)
  {
    if s != [] {
      FilterIsRetain(s[1..]);
      FilterIsFinite(s[0].jd);
    }
  }

  lemma {:induction false} FilterKeepsDistinct(s: seq<Point>)
    requires DistinctTimes(s)
    ensures DistinctTimes(FilterPoints(s))
  {
    if s != [] {
      var t := FilterPoints(s[1..]);
      FilterKeepsDistinct(s[1..]);
      FilterIsRetain(s[1..]);
      forall j | 0 <= j < |t| ensures !BsonEqual(s[0].jd, t[j].jd) {
        assert t[j] in s[1..];
        var k :| 0 <= k < |s[1..]| && s[1..][k] == t[j];
        assert s[k + 1] == t[j];
      }
    }
  }

  /** Sorting distinct finite times gives a valid series. */
  lemma {:induction false} SortDistinctValid(s: seq<Point>)
    requires DistinctTimes(s)
    requires forall p :: p in s ==> IsFinite(p.jd)
    ensures Valid(StableSort(Bson, s))
  {
    if s != [] {
      SortDistinctValid(s[1..]);
      SortIsSorted(Bson, s[1..]);
      var t := StableSort(Bson, s[1..]);
      forall q | q in t ensures Value(q.jd) != Value(s[0].jd) {
        var k :| 0 <= k < |s[1..]| && s[1..][k] == q;
        assert s[k + 1] == q && !BsonEqual(s[0].jd, q.jd);
      }
      InsertValid(s[0], t);
    }
  }

  lemma {:induction false} InsertValid(p: Point, s: seq<Point>)
    requires Valid(s) && IsFinite(p.jd)
    requires forall q :: q in s ==> Value(q.jd) != Value(p.jd)
    ensures Valid(Insert(Bson, p, s))
  {
    if s == [] {
    } else if Le(Bson, p.jd, s[0].jd) {
      assert s[0] in s;
    } else {
      InsertValid(p, s[1..]);
      InsertMembers(Bson, p, s[1..]);
      var t := Insert(Bson, p, s[1..]);
      forall j | 0 <= j < |t| ensures Value(s[0].jd) < Value(t[j].jd) {
        assert t[j] in t;
      }
    }
  }

  /** Whatever is stored, the pipeline leaves a valid series that holds, at each finite time,
      the stored point if there is one and otherwise the earliest new point. */
  lemma UpdateOpMeaning(existing: seq<Point>, newData: seq<Point>)
    ensures Valid(UpdateOp(existing, newData))
    ensures forall v :: At(UpdateOp(existing, newData), v) == OrElse(At(existing, v), At(newData, v))
  {
    var kept := KeepFirst([], existing + newData);
    KeepFirstDistinct([], existing + newData);
    FilterKeepsDistinct(kept);
    FilterIsRetain(kept);
    SortDistinctValid(FilterPoints(kept));
    forall v ensures At(UpdateOp(existing, newData), v) == OrElse(At(existing, v), At(newData, v)) {
      SortAt(Bson, FilterPoints(kept), v);
      RetainFiniteAt(kept, v);
      KeepFirstAt([], existing + newData, v);
      AtConcat(existing, newData, v);
    }
  }

  // ----- the prepared update -----

  lemma HoldsIsAt(s: seq<Point>, v: real)
    ensures Holds(Jds(s), v) <==> At(s, v).Some?
  {
    AtIsMember(s, v);
    if At(s, v).Some? {
      var i :| 0 <= i < |s| && s[i] == At(s, v).value;
      assert Jds(s)[i] == s[i].jd;
    }
    if Holds(Jds(s), v) {
      var i :| 0 <= i < |Jds(s)| && IsFinite(Jds(s)[i]) && Value(Jds(s)[i]) == v;
      assert s[i] in s && HasValue(s[i], v);
    }
  }

  lemma {:induction false} NewPointsAt(existing: seq<Time>, newData: seq<Point>, v: real)
    ensures At(NewPoints(existing, newData), v) == if Holds(existing, v) then None else At(newData, v)
  {
    if newData != [] {
      NewPointsAt(existing, newData[1..], v);
      var t := NewPoints(existing, newData[1..]);
      assert ([newData[0]] + t)[1..] == t;
      assert [] + t == t;
    }
  }

  lemma {:induction false} NewPointsValid(existing: seq<Time>, newData: seq<Point>)
    requires Valid(newData)
    ensures Valid(NewPoints(existing, newData))
  {
    hide Holds;
    if newData != [] {
      var rest := newData[1..];
      var t := NewPoints(existing, rest);
      NewPointsValid(existing, rest);
      NewPointsMembers(existing, rest);
      forall j | 0 <= j < |t| ensures Value(newData[0].jd) < Value(t[j].jd) {
        assert t[j] in rest;
        var k :| 0 <= k < |rest| && rest[k] == t[j];
        assert newData[k + 1] == t[j];
      }
      ConsValid(newData[0], t);
      hide Valid;
      assert NewPoints(existing, newData) == t || NewPoints(existing, newData) == [newData[0]] + t;
    }
  }

  lemma ConsValid(p: Point, s: seq<Point>)
    requires Valid(s) && IsFinite(p.jd) && forall j :: 0 <= j < |s| ==> Value(p.jd) < Value(s[j].jd)
    ensures Valid([p] + s)
  {
  }

  lemma ConcatDistinct(existing: seq<Point>, newData: seq<Point>)
    requires Valid(existing) && Valid(newData)
    ensures DistinctTimes(existing + NewPoints(Jds(existing), newData))
    ensures forall p :: p in existing + NewPoints(Jds(existing), newData) ==> IsFinite(p.jd)
  {
    var docs := NewPoints(Jds(existing), newData);
    NewPointsValid(Jds(existing), newData);
    NewPointsMembers(Jds(existing), newData);
    hide NewPoints;
    forall i, j | 0 <= i < |existing| && 0 <= j < |docs| ensures !BsonEqual(existing[i].jd, docs[j].jd) {
      assert docs[j] in docs;
      assert Jds(existing)[i] == existing[i].jd;
    }
  }

  lemma ReferenceMeaning(existing: seq<Point>, newData: seq<Point>)
    requires Valid(existing) && Valid(newData)
    ensures Valid(Reference(existing, newData))
    ensures forall v :: At(Reference(existing, newData), v) == OrElse(At(existing, v), At(newData, v))
  {
    var all := existing + NewPoints(Jds(existing), newData);
    ConcatDistinct(existing, newData);
    SortDistinctValid(all);
    forall v ensures At(Reference(existing, newData), v) == OrElse(At(existing, v), At(newData, v)) {
      SortAt(Bson, all, v);
      AtConcat(existing, NewPoints(Jds(existing), newData), v);
      NewPointsAt(Jds(existing), newData, v);
      HoldsIsAt(existing, v);
    }
  }

  /** Sorting a valid series changes nothing. */
  lemma {:induction false} SortValidIsIdentity(s: seq<Point>)
    requires Valid(s)
    ensures StableSort(Bson, s) == s
  {
    if s != [] {
      SortValidIsIdentity(s[1..]);
      assert |s| > 1 ==> Le(Bson, s[0].jd, s[1].jd);
      hide Valid, Le;
      assert s == [s[0]] + s[1..];
    }
  }

  /** A sort is asked for exactly when appending would leave the series out of order. */
  lemma SortsExactlyWhenNeeded(existing: seq<Point>, newData: seq<Point>)
    requires Valid(existing) && Valid(newData)
    ensures var update := PreparedUpdate(Jds(existing), newData);
            update.needSort <==> !Valid(existing + update.docs)
  {
    hide NewPoints, Valid;
    var docs := NewPoints(Jds(existing), newData);
    NewPointsValid(Jds(existing), newData);
    if docs == [] {
      assert existing + docs == existing;
    } else if existing == [] {
      assert existing + docs == docs;
    } else {
      NewestIsNotNew(existing, newData);
      AppendsInOrder(existing, docs);
    }
  }

  lemma NewestIsNotNew(existing: seq<Point>, newData: seq<Point>)
    requires Valid(existing) && Valid(newData) && existing != [] && NewPoints(Jds(existing), newData) != []
    ensures var newest, oldest := existing[|existing| - 1].jd, NewPoints(Jds(existing), newData)[0].jd;
            IsFinite(newest) && IsFinite(oldest) && Value(newest) != Value(oldest)
  {
    var docs := NewPoints(Jds(existing), newData);
    NewPointsMembers(Jds(existing), newData);
    hide NewPoints;
    assert docs[0] in docs;
    assert Jds(existing)[|existing| - 1] == existing[|existing| - 1].jd;
  }

  lemma AppendsInOrder(a: seq<Point>, b: seq<Point>)
    requires Valid(a) && Valid(b) && a != [] && b != []
    ensures Valid(a + b) <==> Value(a[|a| - 1].jd) < Value(b[0].jd)
  {
    if Valid(a + b) {
      assert (a + b)[|a| - 1] == a[|a| - 1] && (a + b)[|a|] == b[0];
    }
  }

  /** The fast form refines the simple one: on every path of `prepare_timeseries_update`,
      pushing the prepared documents gives exactly the reference series. */
  lemma PushRefinesReference(existing: seq<Point>, newData: seq<Point>)
    requires Valid(existing) && Valid(newData)
    ensures ValidTimes(Jds(existing))
    ensures ApplyPush(existing, PreparedUpdate(Jds(existing), newData)) == Reference(existing, newData)
  {
    ValidJds(existing);
    var update := PreparedUpdate(Jds(existing), newData);
    if update.docs == [] {
      assert existing + [] == existing;
      SortValidIsIdentity(existing);
    } else if !update.needSort {
      SortsExactlyWhenNeeded(existing, newData);
      SortValidIsIdentity(existing + update.docs);
    }
  }

  /** On a valid stored series the version-checked write and the fallback produce the same
      points, payloads included. */
  lemma PushEqualsUpdateOp(existing: seq<Point>, newData: seq<Point>)
    requires Valid(existing) && Valid(newData)
    ensures ValidTimes(Jds(existing))
    ensures ApplyPush(existing, PreparedUpdate(Jds(existing), newData)) == UpdateOp(existing, newData)
  {
    PushRefinesReference(existing, newData);
    ReferenceMeaning(existing, newData);
    UpdateOpMeaning(existing, newData);
    Extensionality(Reference(existing, newData), UpdateOp(existing, newData));
  }

  /** MongoDB does not say its sorts are stable; with distinct times it does not matter. */
  lemma AnySortWillDo(s: seq<Point>, t: seq<Point>)
    requires DistinctTimes(s) && forall p :: p in s ==> IsFinite(p.jd)
    requires Sorted(Bson, t) && multiset(t) == multiset(s)
    ensures t == StableSort(Bson, s)
  {
    SortIsSorted(Bson, s);
    SortDistinctValid(s);
    SortedPermutation(t, StableSort(Bson, s));
  }

  lemma SameHead(t: seq<Point>, u: seq<Point>)
    requires Sorted(Bson, t) && Valid(u) && multiset(t) == multiset(u) && u != []
    ensures t != [] && t[0] == u[0]
  {
    assert u[0] in multiset(t);
    var k :| 0 <= k < |t| && t[k] == u[0];
    assert t[0] in multiset(u);
    var m :| 0 <= m < |u| && u[m] == t[0];
    assert k > 0 ==> Le(Bson, t[0].jd, t[k].jd);
  }

  lemma {:induction false} SortedPermutation(t: seq<Point>, u: seq<Point>)
    requires Sorted(Bson, t) && Valid(u) && multiset(t) == multiset(u)
    ensures t == u
  {
    if u == [] {
      assert |t| == |multiset(t)| == |u|;
    } else {
      SameHead(t, u);
      RemoveHead(t);
      RemoveHead(u);
      SortedPermutation(t[1..], u[1..]);
    }
  }

  lemma RemoveHead(s: seq<Point>)
    requires s != []
    ensures s == [s[0]] + s[1..]
    ensures multiset(s[1..]) == multiset(s) - multiset{s[0]}
  {
    assert s == [s[0]] + s[1..];
  }
}
