// The per-object auxiliary document and the writes made to it.
// Source: src/alert/base.rs (finalize_aux_update, db_only_aux_update, insert_aux) and the
// update_aux* methods of src/alert/{ztf,lsst,decam,winter}.rs.
module AuxDocument {
  import opened Wrappers
  import opened JulianTime
  import opened TimeSeries
  import opened SeriesMerge

  type Aliases = map<string, seq<string>>

  /** `series` has one entry per survey field (ZTF three, LSST and DECam two, WINTER one).
      A missing `version` field and a null one are both `None`. */
  datatype Aux = Aux(series: seq<seq<Point>>, version: Option<int>, aliases: Option<Aliases>,
                     designation: Option<string>, updatedAt: Time)

  /** What a worker reads before an update: the times of every series, and the version. */
  datatype Snapshot = Snapshot(jds: seq<seq<Time>>, version: Option<int>)

  /** One alert's contribution. */
  datatype Update = Update(series: seq<seq<Point>>, aliases: Option<Aliases>,
                           designation: Option<string>, now: Time)

  datatype AuxError =
    | InvalidTimeseriesInput
    | ConcurrentAuxUpdate
    | AlertAuxExists
    | AlertAuxFallbackUpdateFailed

  function AllJds(series: seq<seq<Point>>): seq<seq<Time>> {
    seq(|series|, i requires 0 <= i < |series| => Jds(series[i]))
  }

  function ReadAux(aux: Aux): Snapshot {
    Snapshot(AllJds(aux.series), aux.version)
  }

  /** Every series of the update went through `sanitize_timeseries`. */
  predicate Clean(u: Update) {
    forall i :: 0 <= i < |u.series| ==> Valid(u.series[i])
  }

  predicate AllValid(series: seq<seq<Point>>) {
    forall i :: 0 <= i < |series| ==> Valid(series[i])
  }

  predicate AllValidTimes(jds: seq<seq<Time>>) {
    forall i :: 0 <= i < |jds| ==> ValidTimes(jds[i])
  }

  /** A version-checked write matches exactly the version it was prepared from. */
  predicate Matches(aux: Aux, version: Option<int>) {
    aux.version == version
  }

  /** A field of a document; a missing one counts as empty. */
  function Field<T>(fields: seq<seq<T>>, i: nat): seq<T> {
    if i < |fields| then fields[i] else []
  }

  function VersionNumber(version: Option<int>): int {
    if version.Some? then version.value else 0
  }

  // ----- the version-checked write -----

  /** The `$push` document: only series with something to push appear in it. */
  function PushesFor(existing: Snapshot, u: Update): map<nat, Prepared> {
    map i: nat | 0 <= i < |u.series| && PreparedUpdate(Field(existing.jds, i), u.series[i]).docs != []
      :: PreparedUpdate(Field(existing.jds, i), u.series[i])
  }

  function Pushed(series: seq<seq<Point>>, pushes: map<nat, Prepared>): seq<seq<Point>> {
    seq(|series|, i requires 0 <= i < |series| =>
      if i in pushes then ApplyPush(series[i], pushes[i]) else series[i])
  }

  /** `$set` and `$push` of a matching write. */
  function Written(aux: Aux, pushes: map<nat, Prepared>, u: Update, version: Option<int>): Aux {
    Aux(Pushed(aux.series, pushes), Some(VersionNumber(version) + 1), u.aliases,
        OrElse(u.designation, aux.designation), u.now)
  }

  // ----- the in-database write -----

  /** A `$set` stage sets an embedded document key by key: a stored key that the new document lacks
      stays. The `$set` of a plain update replaces the document. */
  function MergedAliases(stored: Option<Aliases>, new_: Option<Aliases>): Option<Aliases> {
    if stored.Some? && new_.Some? then Some(stored.value + new_.value) else new_
  }

  /** The pipeline of `db_only_aux_update`. */
  function Merged(aux: Aux, u: Update): Aux {
    Aux(seq(|aux.series|, i requires 0 <= i < |aux.series| =>
          UpdateOp(aux.series[i], Field(u.series, i))),
        Some(VersionNumber(aux.version) + 1), MergedAliases(aux.aliases, u.aliases),
        OrElse(u.designation, aux.designation), u.now)
  }

  /** The update names every survey the stored aliases do; the alias documents of one survey all
      have the same keys. */
  predicate CoversAliases(aux: Aux, u: Update) {
    aux.aliases.Some? && u.aliases.Some? ==> aux.aliases.value.Keys <= u.aliases.value.Keys
  }

  /** The document a first alert inserts: no version field yet. */
  function Fresh(u: Update): Aux {
    Aux(u.series, None, u.aliases, u.designation, u.now)
  }

  // ----- the alias link written by DECam -----

  predicate HasDecamAlias(aux: Aux) {
    aux.aliases.Some? && "DECAM" in aux.aliases.value && aux.aliases.value["DECAM"] != []
  }

  /** The conditional write of `link_counterparts`: it neither reads nor bumps the version. */
  function Linked(aux: Aux, otherSurvey: string, decamId: string): Aux {
    if HasDecamAlias(aux) then aux
    else
      aux.(aliases := Some(
        if aux.aliases.Some? then aux.aliases.value["DECAM" := [decamId]]
        else map[otherSurvey := [], "DECAM" := [decamId]]))
  }

  function LinkedDocs(docs: map<string, Aux>, ids: seq<string>, otherSurvey: string, decamId: string)
    : map<string, Aux>
  {
    if ids == [] || ids[0] !in docs then docs
    else docs[ids[0] := Linked(docs[ids[0]], otherSurvey, decamId)]
  }

  /** What the link of DECam's first match is for, whatever is stored: a document that is there
      without a DECam alias gains exactly this one, keeps its other aliases, or gets an empty list for
      the other survey when it had none, and nothing else anywhere changes. */
  ghost predicate LinksFirst(before: map<string, Aux>, after: map<string, Aux>, ids: seq<string>,
                             otherSurvey: string, decamId: string)
  {
    after.Keys == before.Keys &&
    (forall id :: id in before && !([id] <= ids && !HasDecamAlias(before[id])) ==> after[id] == before[id]) &&
    (forall id :: id in before && [id] <= ids && !HasDecamAlias(before[id]) ==>
       after[id] == before[id].(aliases := after[id].aliases) &&
       GainsDecam(before[id].aliases, after[id].aliases, otherSurvey, decamId))
  }

  ghost predicate GainsDecam(before: Option<Aliases>, after: Option<Aliases>, otherSurvey: string, decamId: string) {
    after.Some? && "DECAM" in after.value && after.value["DECAM"] == [decamId] &&
    match before
    case Some(stored) =>
      after.value.Keys == stored.Keys + {"DECAM"} &&
      forall key :: key in stored && key != "DECAM" ==> after.value[key] == stored[key]
    case None =>
      after.value.Keys == {"DECAM", otherSurvey} && (otherSurvey != "DECAM" ==> after.value[otherSurvey] == [])
  }

  lemma LinkedDocsMeaning(docs: map<string, Aux>, ids: seq<string>, otherSurvey: string, decamId: string)
    ensures LinksFirst(docs, LinkedDocs(docs, ids, otherSurvey, decamId), ids, otherSurvey, decamId)
  {
    if ids != [] && ids[0] in docs {
      var aux := docs[ids[0]];
      assert !HasDecamAlias(aux) ==>
          GainsDecam(aux.aliases, Linked(aux, otherSurvey, decamId).aliases, otherSurvey, decamId);
      hide GainsDecam;
      forall id | id in docs ensures [id] <= ids <==> id == ids[0] {
        assert [id] <= ids ==> [id][0] == ids[0];
        assert ids[..1] == [ids[0]];
      }
    }
  }

  // ----- facts about both writes -----

  /** One write of either kind leaves every series finite and strictly increasing, whatever
      was stored before. */
  lemma MergedIsValid(aux: Aux, u: Update)
    ensures AllValid(Merged(aux, u).series)
  {
    forall i | 0 <= i < |aux.series| ensures Valid(Merged(aux, u).series[i]) {
      UpdateOpMeaning(aux.series[i], Field(u.series, i));
    }
  }

  /** A version-checked write that lands on the series it was prepared from does what the
      in-database pipeline would have done, and exactly that when no stored alias key is missing
      from the update. */
  lemma WrittenIsMerged(aux: Aux, u: Update)
    requires |aux.series| == |u.series| && Clean(u)
    requires AllValidTimes(ReadAux(aux).jds)
    ensures var written := Written(aux, PushesFor(ReadAux(aux), u), u, aux.version);
            written == Merged(aux, u).(aliases := u.aliases) &&
            (written == Merged(aux, u) <==> CoversAliases(aux, u))
  {
    AliasesReplaced(aux, u);
    hide CoversAliases, MergedAliases, UpdateOp, PreparedUpdate, Valid, ValidTimes;
    var pushes := PushesFor(ReadAux(aux), u);
    forall i | 0 <= i < |aux.series|
      ensures Pushed(aux.series, pushes)[i] == UpdateOp(aux.series[i], u.series[i])
    {
      assert ReadAux(aux).jds[i] == Jds(aux.series[i]);
      ValidJds(aux.series[i]);
      PushEqualsUpdateOp(aux.series[i], u.series[i]);
    }
    assert Pushed(aux.series, pushes) == Merged(aux, u).series;
  }

  lemma AliasesReplaced(aux: Aux, u: Update)
    ensures MergedAliases(aux.aliases, u.aliases) == u.aliases <==> CoversAliases(aux, u)
  {
    if aux.aliases.Some? && u.aliases.Some? {
      var a, b := aux.aliases.value, u.aliases.value;
      assert (a + b).Keys == a.Keys + b.Keys;
      if a.Keys <= b.Keys {
        assert a + b == b;
      }
    }
  }

  // ----- the collection -----

  /** A survey's auxiliary collection.  Each method is one database round trip, except
      `UpdateAuxInner` and `UpdateAux`, which sequence them. */
  class AuxCollection {
    var docs: map<string, Aux>

    constructor ()
      ensures docs == map[]
    {
      docs := map[];
    }

    /** The projection a worker reads: the times of every series, and the version. */
    method GetExistingAux(objectId: string) returns (existing: Option<Snapshot>)
      ensures existing.Some? <==> objectId in docs
      ensures existing.Some? ==>
                existing.value.version == docs[objectId].version &&
                |existing.value.jds| == |docs[objectId].series| &&
                forall i :: 0 <= i < |existing.value.jds| ==> existing.value.jds[i] == Jds(docs[objectId].series[i])
    {
      if objectId in docs {
        return Some(ReadAux(docs[objectId]));
      }
      return None;
    }

    method InsertAux(objectId: string, u: Update) returns (error: Option<AuxError>)
      modifies this
      ensures old(objectId in docs) ==> error == Some(AlertAuxExists) && docs == old(docs)
      ensures old(objectId !in docs) ==> error == None && docs == old(docs)[objectId := Fresh(u)]
    {
      if objectId in docs {
        return Some(AlertAuxExists);
      }
      docs := docs[objectId := Fresh(u)];
      return None;
    }

    method FinalizeAuxUpdate(objectId: string, pushes: map<nat, Prepared>, u: Update,
                             currentVersion: Option<int>)
      returns (error: Option<AuxError>)
      modifies this
      ensures old(objectId in docs && Matches(docs[objectId], currentVersion)) ==>
                error == None &&
                docs == old(docs)[objectId := Written(old(docs[objectId]), pushes, u, currentVersion)]
      ensures !old(objectId in docs && Matches(docs[objectId], currentVersion)) ==>
                error == Some(ConcurrentAuxUpdate) && docs == old(docs)
    {
      if objectId !in docs || !Matches(docs[objectId], currentVersion) {
        return Some(ConcurrentAuxUpdate);
      }
      docs := docs[objectId := Written(docs[objectId], pushes, u, currentVersion)];
      return None;
    }

    method DbOnlyAuxUpdate(objectId: string, u: Update) returns (error: Option<AuxError>)
      modifies this
      ensures old(objectId in docs) ==>
                error == None && docs == old(docs)[objectId := Merged(old(docs[objectId]), u)]
      ensures old(objectId !in docs) ==>
                error == Some(AlertAuxFallbackUpdateFailed) && docs == old(docs)
    {
      if objectId !in docs {
        return Some(AlertAuxFallbackUpdateFailed);
      }
      docs := docs[objectId := Merged(docs[objectId], u)];
      return None;
    }

    method UpdateAuxInner(objectId: string, u: Update, existing: Snapshot)
      returns (error: Option<AuxError>)
      requires Clean(u) && |existing.jds| == |u.series|
      modifies this
      ensures error == Some(InvalidTimeseriesInput) <==> !AllValidTimes(existing.jds)
      ensures error.None? ==>
                AllValidTimes(existing.jds) && old(objectId in docs) &&
                old(Matches(docs[objectId], existing.version)) &&
                docs == old(docs)[objectId := Written(old(docs[objectId]), PushesFor(existing, u), u,
                                                      existing.version)]
      ensures error.Some? ==>
                docs == old(docs) &&
                !(AllValidTimes(existing.jds) && old(objectId in docs && Matches(docs[objectId], existing.version)))
    {
      hide Valid, ValidTimes, PreparedUpdate, Written;
      var pushUpdates: map<nat, Prepared> := map[];
      for k := 0 to |u.series|
        invariant AllValidTimes(existing.jds[..k])
        invariant pushUpdates.Keys ==
                  set i: nat | 0 <= i < k && PreparedUpdate(existing.jds[i], u.series[i]).docs != []
        invariant forall i :: i in pushUpdates ==>
                    i < k && pushUpdates[i] == PreparedUpdate(existing.jds[i], u.series[i])
        invariant docs == old(docs)
      {
        var prepared := PrepareTimeseriesUpdate(u.series[k], existing.jds[k]);
        if prepared.Err? {
          return Some(InvalidTimeseriesInput);
        }
        if prepared.value.docs != [] {
          pushUpdates := pushUpdates[k := prepared.value];
        }
      }
      assert existing.jds[..|u.series|] == existing.jds;
      assert pushUpdates == PushesFor(existing, u);
      error := FinalizeAuxUpdate(objectId, pushUpdates, u, existing.version);
    }

    /** The whole update of an existing object: version-checked first, in-database on any error.
        Provided a matching version means an unchanged document, the result is the in-database
        merge, whichever path was taken, but that the version-checked path replaces the aliases. */
    method UpdateAux(objectId: string, u: Update, existing: Snapshot) returns (error: Option<AuxError>)
      requires Clean(u) && |existing.jds| == |u.series|
      requires objectId in docs ==> |docs[objectId].series| == |u.series|
      requires objectId in docs && docs[objectId].version == existing.version ==>
                 existing == ReadAux(docs[objectId])
      modifies this
      ensures old(objectId in docs) ==>
                error == None &&
                docs == old(docs)[objectId :=
                          if AllValidTimes(existing.jds) && old(docs[objectId]).version == existing.version
                          then Merged(old(docs[objectId]), u).(aliases := u.aliases)
                          else Merged(old(docs[objectId]), u)] &&
                AllValid(docs[objectId].series)
      ensures old(objectId in docs && CoversAliases(docs[objectId], u)) ==>
                docs == old(docs)[objectId := Merged(old(docs[objectId]), u)]
      ensures old(objectId !in docs) ==> error.Some? && docs == old(docs)
    {
      if objectId in docs {
        AliasesReplaced(docs[objectId], u);
      }
      error := UpdateAuxInner(objectId, u, existing);
      if error.None? {
        WrittenIsMerged(old(docs[objectId]), u);
      } else {
        error := DbOnlyAuxUpdate(objectId, u);
      }
      if objectId in docs {
        MergedIsValid(old(docs[objectId]), u);
      }
    }

    /** The part of `process_alert` that stores an alert's lightcurves: read, then update, or insert
        and fall back when another worker inserted first. `rival` is what another worker may insert
        between this one's read and its insert. */
    method StoreAux(objectId: string, u: Update, rival: Option<Update>) returns (error: Option<AuxError>)
      requires Clean(u) && (objectId in docs ==> |docs[objectId].series| == |u.series|)
      modifies this
      ensures error == None && objectId in docs && AllValid(docs[objectId].series)
      ensures docs == old(docs)[objectId :=
                        if old(objectId in docs) then
                          if old(AllValid(docs[objectId].series))
                          then Merged(old(docs[objectId]), u).(aliases := u.aliases)
                          else Merged(old(docs[objectId]), u)
                        else if rival.Some? then Merged(Fresh(rival.value), u) else Fresh(u)]
      ensures old(objectId in docs && CoversAliases(docs[objectId], u)) ==>
                docs == old(docs)[objectId := Merged(old(docs[objectId]), u)]
    {
      var existing := GetExistingAux(objectId);
      if existing.Some? {
        assert existing.value.jds == ReadAux(docs[objectId]).jds;
        AllValidJds(docs[objectId].series);
        error := UpdateAux(objectId, u, existing.value);
        return;
      }
      if rival.Some? {
        docs := docs[objectId := Fresh(rival.value)];
        MergedIsValid(Fresh(rival.value), u);
      }
      error := InsertAux(objectId, u);
      if error == Some(AlertAuxExists) {
        error := DbOnlyAuxUpdate(objectId, u);
      }
    }
  }

  lemma AllValidJds(series: seq<seq<Point>>)
    ensures AllValidTimes(AllJds(series)) <==> AllValid(series)
  {
    forall i | 0 <= i < |series| ensures ValidTimes(AllJds(series)[i]) <==> Valid(series[i]) {
      ValidJds(series[i]);
    }
    hide Valid, ValidTimes;
  }

  /** DECam points its first ZTF and LSST match back at itself. */
  method LinkCounterparts(objectId: string, ztfIds: seq<string>, lsstIds: seq<string>,
                          ztf: AuxCollection, lsst: AuxCollection)
    requires ztf != lsst
    modifies ztf, lsst
    ensures ztf.docs == LinkedDocs(old(ztf.docs), ztfIds, "LSST", objectId)
    ensures lsst.docs == LinkedDocs(old(lsst.docs), lsstIds, "ZTF", objectId)
    ensures LinksFirst(old(ztf.docs), ztf.docs, ztfIds, "LSST", objectId)
    ensures LinksFirst(old(lsst.docs), lsst.docs, lsstIds, "ZTF", objectId)
  {
    LinkedDocsMeaning(ztf.docs, ztfIds, "LSST", objectId);
    LinkedDocsMeaning(lsst.docs, lsstIds, "ZTF", objectId);
    hide Linked, LinksFirst;
    if ztfIds != [] && ztfIds[0] in ztf.docs {
      ztf.docs := ztf.docs[ztfIds[0] := Linked(ztf.docs[ztfIds[0]], "LSST", objectId)];
    }
    if lsstIds != [] && lsstIds[0] in lsst.docs {
      lsst.docs := lsst.docs[lsstIds[0] := Linked(lsst.docs[lsstIds[0]], "ZTF", objectId)];
    }
  }
}
