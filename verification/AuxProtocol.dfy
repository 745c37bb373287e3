// Any number of alert workers updating one object's auxiliary document at the same time.
// Source: process_alert and update_aux* of src/alert/{ztf,lsst,decam,winter}.rs over the writes of
// src/alert/base.rs, with the repair task of src/tasks/repair_photometry.rs beside them.  Every
// action is one database round trip; any job may crash at any point, and a write may take effect
// although its worker sees an error, or fail without taking effect.
module AuxProtocol {
  import opened Wrappers
  import opened JulianTime
  import opened TimeSeries
  import opened SeriesMerge
  import opened AuxDocument

  /** Where one alert's handling of the document stands. */
  datatype Pc =
    | Reading
    | Preparing(existing: Snapshot)
    | Writing(pushes: map<nat, Prepared>, version: Option<int>)
    | Inserting
    | FallingBack
    | Finished
    | Failed(error: AuxError)
    | Crashed

  /** `readAt` counts the updates that had landed when the snapshot was taken, and `readRepaired` is
      the set of series that had been repaired by then. */
  datatype Job = Job(update: Update, pc: Pc, readAt: nat, readRepaired: set<nat>)

  /** `log` lists the updates whose write landed, in landing order; `first` is the document the
      run started from; `repaired` are the series the repair task ever rewrote. */
  datatype System = System(
    first: Option<Aux>, doc: Option<Aux>, jobs: seq<Job>, log: seq<Update>, repaired: set<nat>)

  datatype Action =
    | Spawn(update: Update)
    | Read(i: nat)
    | Prepare(i: nat)
    | Write(i: nat, acknowledged: bool)
    | WriteFails(i: nat)
    | TryInsert(i: nat, acknowledged: bool)
    | Fallback(i: nat, acknowledged: bool)
    | Crash(i: nat)
    | Link(otherSurvey: string, decamId: string)
    | Repair(fields: set<nat>)

  predicate Initial(s: System, width: nat) {
    s.doc == s.first && s.jobs == [] && s.log == [] && s.repaired == {} &&
    (s.first.Some? ==> |s.first.value.series| == width)
  }

  predicate Enabled(s: System, a: Action, width: nat) {
    match a
    case Spawn(u) => |u.series| == width && Clean(u)
    case Read(i) => i < |s.jobs| && s.jobs[i].pc.Reading?
    case Prepare(i) => i < |s.jobs| && s.jobs[i].pc.Preparing?
    case Write(i, _) => i < |s.jobs| && s.jobs[i].pc.Writing?
    case WriteFails(i) => i < |s.jobs| && s.jobs[i].pc.Writing?
    case TryInsert(i, _) => i < |s.jobs| && s.jobs[i].pc.Inserting?
    case Fallback(i, _) => i < |s.jobs| && s.jobs[i].pc.FallingBack?
    case Crash(i) => i < |s.jobs| && !s.jobs[i].pc.Finished? && !s.jobs[i].pc.Failed?
    case Link(_, _) => true
    case Repair(_) => s.doc.Some?
  }

  function SetPc(s: System, i: nat, pc: Pc): System
    requires i < |s.jobs|
  {
    s.(jobs := s.jobs[i := s.jobs[i].(pc := pc)])
  }

  /** The document after an update landed. */
  function Landed(s: System, i: nat, doc: Aux): System
    requires i < |s.jobs|
  {
    s.(doc := Some(doc), log := s.log + [s.jobs[i].update])
  }

  /** The repair task rebuilds the series it found broken from their own points, and touches
      neither the version nor anything else. */
  function Rebuilt(aux: Aux, fields: set<nat>): Aux {
    aux.(series := seq(|aux.series|, k requires 0 <= k < |aux.series| =>
      if k in fields then UpdateOp(aux.series[k], []) else aux.series[k]))
  }

  function Next(s: System, a: Action, width: nat): System
    requires Enabled(s, a, width)
  {
    match a
    case Spawn(u) => s.(jobs := s.jobs + [Job(u, Reading, 0, {})])
    case Read(i) =>
      if s.doc.None? then SetPc(s, i, Inserting)
      else s.(jobs := s.jobs[i := Job(s.jobs[i].update, Preparing(ReadAux(s.doc.value)), |s.log|, s.repaired)])
    case Prepare(i) =>
      var existing := s.jobs[i].pc.existing;
      if AllValidTimes(existing.jds)
      then SetPc(s, i, Writing(PushesFor(existing, s.jobs[i].update), existing.version))
      else SetPc(s, i, FallingBack)
    case Write(i, acknowledged) =>
      var job := s.jobs[i];
      if s.doc.Some? && Matches(s.doc.value, job.pc.version) then
        SetPc(Landed(s, i, Written(s.doc.value, job.pc.pushes, job.update, job.pc.version)), i,
              if acknowledged then Finished else FallingBack)
      else SetPc(s, i, FallingBack)
    case WriteFails(i) => SetPc(s, i, FallingBack)
    case TryInsert(i, acknowledged) =>
      if s.doc.Some? then SetPc(s, i, FallingBack)
      else SetPc(Landed(s, i, Fresh(s.jobs[i].update)), i, if acknowledged then Finished else Crashed)
    case Fallback(i, acknowledged) =>
      if s.doc.None? then SetPc(s, i, Failed(AlertAuxFallbackUpdateFailed))
      else SetPc(Landed(s, i, Merged(s.doc.value, s.jobs[i].update)), i,
                 if acknowledged then Finished else Crashed)
    case Crash(i) => SetPc(s, i, Crashed)
    case Link(other, id) =>
      if s.doc.None? then s else s.(doc := Some(Linked(s.doc.value, other, id)))
    case Repair(fields) =>
      s.(doc := Some(Rebuilt(s.doc.value, fields)), repaired := s.repaired + fields)
  }

  // ----- the sequential specification -----

  /** One series after the given updates, each applied by the in-database merge. */
  function Replay(start: seq<Point>, log: seq<Update>, k: nat): seq<Point>
    decreases |log|
  {
    if log == [] then start
    else UpdateOp(Replay(start, log[..|log| - 1], k), Field(log[|log| - 1].series, k))
  }

  /** Series k after the updates of the log, and after the repair task if it was there. */
  function SeriesAfter(start: seq<Point>, log: seq<Update>, repaired: set<nat>, k: nat): seq<Point> {
    if k in repaired then UpdateOp(Replay(start, log, k), []) else Replay(start, log, k)
  }

  function StartSeries(s: System, k: nat): seq<Point> {
    if s.first.Some? then Field(s.first.value.series, k) else []
  }

  /** The version after `n` landed updates: an insertion leaves it absent. */
  function VersionAfter(first: Option<Aux>, n: nat): Option<int> {
    if first.None? then if n <= 1 then None else Some(n - 1)
    else if n == 0 then first.value.version
    else Some(VersionNumber(first.value.version) + n)
  }

  /** What a reader saw after `n` landed updates and these repairs. */
  ghost predicate SeenAt(s: System, existing: Snapshot, n: nat, repaired: set<nat>, width: nat)
  {
    n <= |s.log| && (s.first.None? ==> n >= 1) && repaired <= s.repaired &&
    existing.version == VersionAfter(s.first, n) && |existing.jds| == width &&
    forall k :: 0 <= k < width ==>
      existing.jds[k] == Jds(SeriesAfter(StartSeries(s, k), s.log[..n], repaired, k))
  }

  ghost predicate JobInv(s: System, job: Job, width: nat)
  {
    |job.update.series| == width && Clean(job.update) &&
    match job.pc
    case Preparing(existing) => SeenAt(s, existing, job.readAt, job.readRepaired, width)
    case Writing(pushes, version) =>
      s.doc.Some? &&
      exists existing ::
        SeenAt(s, existing, job.readAt, job.readRepaired, width) && AllValidTimes(existing.jds) &&
        version == existing.version && pushes == PushesFor(existing, job.update)
    case FallingBack => s.doc.Some?
    case Finished => job.update in s.log
    case Failed(_) => false
    case _ => true
  }

  /** The latest designation any landed update carried, else the one stored first. */
  function LatestDesignation(first: Option<Aux>, log: seq<Update>): Option<string>
    decreases |log|
  {
    if log == [] then if first.Some? then first.value.designation else None
    else OrElse(log[|log| - 1].designation, LatestDesignation(first, log[..|log| - 1]))
  }

  ghost predicate DocInv(s: System, width: nat)
  {
    (s.doc.None? <==> s.first.None? && s.log == []) &&
    (s.doc.Some? ==>
       |s.doc.value.series| == width &&
       s.doc.value.version == VersionAfter(s.first, |s.log|) &&
       s.doc.value.designation == LatestDesignation(s.first, s.log) &&
       forall k :: 0 <= k < width ==>
         s.doc.value.series[k] == SeriesAfter(StartSeries(s, k), s.log, s.repaired, k))
  }

  ghost predicate Inv(s: System, width: nat) {
    (forall u :: u in s.log ==> |u.series| == width && Clean(u)) &&
    (s.first.Some? ==> |s.first.value.series| == width) &&
    DocInv(s, width) &&
    (forall i :: 0 <= i < |s.jobs| ==> JobInv(s, s.jobs[i], width))
  }

  /** Every state a run of actions goes through, ending in `t`. */
  ghost predicate Run(s: System, actions: seq<Action>, t: System, width: nat)
    decreases |actions|
  {
    if actions == [] then s == t
    else Enabled(s, actions[0], width) && Run(Next(s, actions[0], width), actions[1..], t, width)
  }

  // ----- the invariant is kept by every action -----

  lemma FirstReplay(u: Update, k: nat)
    requires k < |u.series| && Clean(u)
    ensures Replay([], [u], k) == u.series[k]
  {
    UpdateOpMeaning([], u.series[k]);
    assert [u][..0] == [];
    forall v ensures At(UpdateOp([], u.series[k]), v) == At(u.series[k], v) {
    }
    Extensionality(UpdateOp([], u.series[k]), u.series[k]);
  }

  lemma ReplayStep(start: seq<Point>, log: seq<Update>, u: Update, k: nat)
    ensures Replay(start, log + [u], k) == UpdateOp(Replay(start, log, k), Field(u.series, k))
  {
    assert (log + [u])[..|log|] == log;
  }

  // ----- repairs leave no trace on a valid series, and commute with updates -----

  lemma RepairOfValid(s: seq<Point>)
    requires Valid(s)
    ensures UpdateOp(s, []) == s
  {
    UpdateOpMeaning(s, []);
    Extensionality(UpdateOp(s, []), s);
  }

  lemma RepairThenUpdate(s: seq<Point>, newData: seq<Point>)
    ensures UpdateOp(UpdateOp(s, []), newData) == UpdateOp(s, newData)
  {
    UpdateOpMeaning(s, []);
    UpdateOpMeaning(s, newData);
    UpdateOpMeaning(UpdateOp(s, []), newData);
    Extensionality(UpdateOp(UpdateOp(s, []), newData), UpdateOp(s, newData));
  }

  lemma RepairTwice(s: seq<Point>)
    ensures UpdateOp(UpdateOp(s, []), []) == UpdateOp(s, [])
  {
    RepairThenUpdate(s, []);
  }

  /** An update lands on the repaired series as it would have on the other one. */
  lemma SeriesStep(start: seq<Point>, log: seq<Update>, repaired: set<nat>, u: Update, k: nat)
    ensures SeriesAfter(start, log + [u], repaired, k) ==
            UpdateOp(SeriesAfter(start, log, repaired, k), Field(u.series, k))
  {
    var before, points := Replay(start, log, k), Field(u.series, k);
    ReplayStep(start, log, u, k);
    RepairThenUpdate(before, points);
    UpdateOpMeaning(before, points);
    RepairOfValid(UpdateOp(before, points));
  }

  /** A series that was valid when read is still the one that was read, whatever was repaired since. */
  lemma RepairsKeepValid(start: seq<Point>, log: seq<Update>, before: set<nat>, after: set<nat>, k: nat)
    requires before <= after && Valid(SeriesAfter(start, log, before, k))
    ensures SeriesAfter(start, log, after, k) == SeriesAfter(start, log, before, k)
  {
    if k in after && k !in before {
      RepairOfValid(Replay(start, log, k));
    }
  }

  /** A snapshot stays true of the log position it was taken at. */
  lemma SeenStays(s: System, t: System, existing: Snapshot, n: nat, repaired: set<nat>, width: nat)
    requires SeenAt(s, existing, n, repaired, width)
    requires t.first == s.first && s.log <= t.log && s.repaired <= t.repaired
    ensures SeenAt(t, existing, n, repaired, width)
  {
    assert t.log[..n] == s.log[..n];
  }

  lemma JobStays(s: System, t: System, job: Job, width: nat)
    requires JobInv(s, job, width)
    requires t.first == s.first && s.log <= t.log && s.repaired <= t.repaired && (s.doc.Some? ==> t.doc.Some?)
    ensures JobInv(t, job, width)
  {
    match job.pc
    case Preparing(existing) => SeenStays(s, t, existing, job.readAt, job.readRepaired, width);
    case Writing(pushes, version) =>
      var existing :|
        SeenAt(s, existing, job.readAt, job.readRepaired, width) && AllValidTimes(existing.jds) &&
        version == existing.version && pushes == PushesFor(existing, job.update);
      SeenStays(s, t, existing, job.readAt, job.readRepaired, width);
    case _ =>
  }

  /** When the versions match, what was read is what is stored, and it is valid. */
  lemma SeenNow(s: System, existing: Snapshot, n: nat, repaired: set<nat>, width: nat)
    requires DocInv(s, width) && s.doc.Some? && SeenAt(s, existing, n, repaired, width)
    requires AllValidTimes(existing.jds) && s.doc.value.version == existing.version
    ensures n == |s.log| && existing == ReadAux(s.doc.value) && AllValid(s.doc.value.series)
  {
    VersionsAreDistinct(s.first, n, |s.log|);
    assert s.log[..|s.log|] == s.log;
    forall k | 0 <= k < width
      ensures existing.jds[k] == Jds(s.doc.value.series[k]) && Valid(s.doc.value.series[k])
    {
      ValidJds(SeriesAfter(StartSeries(s, k), s.log, repaired, k));
      RepairsKeepValid(StartSeries(s, k), s.log, repaired, s.repaired, k);
    }
    assert existing.jds == ReadAux(s.doc.value).jds;
  }

  /** No ABA: versions seen at different points of the log differ, so a matching version means
      that nothing landed since the snapshot. */
  lemma VersionsAreDistinct(first: Option<Aux>, m: nat, n: nat)
    requires first.None? ==> m >= 1 && n >= 1
    requires VersionAfter(first, m) == VersionAfter(first, n)
    ensures m == n
  {
  }

  /** A version-checked write that matches does what the in-database merge would do, but that it
      replaces the aliases. */
  lemma MatchingWriteIsMerge(s: System, i: nat, width: nat)
    requires Inv(s, width) && i < |s.jobs| && s.jobs[i].pc.Writing?
    requires s.doc.Some? && Matches(s.doc.value, s.jobs[i].pc.version)
    ensures s.jobs[i].readAt == |s.log|
    ensures Written(s.doc.value, s.jobs[i].pc.pushes, s.jobs[i].update, s.jobs[i].pc.version)
         == Merged(s.doc.value, s.jobs[i].update).(aliases := s.jobs[i].update.aliases)
  {
    var job := s.jobs[i];
    assert JobInv(s, job, width);
    var existing :|
      SeenAt(s, existing, job.readAt, job.readRepaired, width) && AllValidTimes(existing.jds) &&
      job.pc.version == existing.version && job.pc.pushes == PushesFor(existing, job.update);
    SeenNow(s, existing, job.readAt, job.readRepaired, width);
    WrittenIsMerged(s.doc.value, job.update);
  }

  /** Landing a merge keeps the document on the sequential specification. */
  lemma MergeKeepsDoc(s: System, t: System, u: Update, width: nat)
    requires DocInv(s, width) && s.doc.Some? && |u.series| == width
    requires t.first == s.first && t.log == s.log + [u] && t.repaired == s.repaired
    requires t.doc.Some? && t.doc == Some(Merged(s.doc.value, u).(aliases := t.doc.value.aliases))
    requires s.first.Some? ==> |s.first.value.series| == width
    ensures DocInv(t, width)
  {
    assert t.log[..|s.log|] == s.log;
    forall k | 0 <= k < width
      ensures t.doc.value.series[k] == SeriesAfter(StartSeries(t, k), t.log, t.repaired, k)
    {
      SeriesStep(StartSeries(s, k), s.log, s.repaired, u, k);
    }
  }

  lemma InsertKeepsDoc(s: System, t: System, u: Update, width: nat)
    requires DocInv(s, width) && s.doc.None? && |u.series| == width && Clean(u)
    requires t.first == s.first && t.log == s.log + [u] && t.doc == Some(Fresh(u)) && t.repaired == s.repaired
    ensures DocInv(t, width)
  {
    assert t.log == [u] && t.log[..0] == [];
    forall k | 0 <= k < width
      ensures t.doc.value.series[k] == SeriesAfter(StartSeries(t, k), t.log, t.repaired, k)
    {
      FirstReplay(u, k);
      RepairOfValid(u.series[k]);
    }
  }

  /** One job moves; the others keep their invariant because the log only grows. */
  lemma OneJobMoves(s: System, t: System, i: nat, width: nat)
    requires Inv(s, width) && i < |s.jobs|
    requires t.first == s.first && s.log <= t.log && s.repaired <= t.repaired && (s.doc.Some? ==> t.doc.Some?)
    requires |t.jobs| == |s.jobs| && forall j :: 0 <= j < |s.jobs| && j != i ==> t.jobs[j] == s.jobs[j]
    requires forall u :: u in t.log ==> |u.series| == width && Clean(u)
    requires DocInv(t, width) && JobInv(t, t.jobs[i], width)
    ensures Inv(t, width)
  {
    forall j | 0 <= j < |t.jobs| ensures JobInv(t, t.jobs[j], width) {
      if j != i {
        JobStays(s, t, s.jobs[j], width);
      }
    }
  }

  lemma SpawnKeepsInv(s: System, u: Update, width: nat)
    requires Inv(s, width) && Enabled(s, Spawn(u), width)
    ensures Inv(Next(s, Spawn(u), width), width)
  {
    var t := Next(s, Spawn(u), width);
    forall j | 0 <= j < |t.jobs| ensures JobInv(t, t.jobs[j], width) {
      if j < |s.jobs| {
        JobStays(s, t, s.jobs[j], width);
      }
    }
  }

  lemma ReadKeepsInv(s: System, i: nat, width: nat)
    requires Inv(s, width) && Enabled(s, Read(i), width)
    ensures Inv(Next(s, Read(i), width), width)
  {
    var t := Next(s, Read(i), width);
    assert JobInv(s, s.jobs[i], width);
    if s.doc.Some? {
      assert s.log[..|s.log|] == s.log;
      assert SeenAt(t, t.jobs[i].pc.existing, |s.log|, s.repaired, width);
    }
    OneJobMoves(s, t, i, width);
  }

  lemma PrepareKeepsInv(s: System, i: nat, width: nat)
    requires Inv(s, width) && Enabled(s, Prepare(i), width)
    ensures Inv(Next(s, Prepare(i), width), width)
  {
    var t := Next(s, Prepare(i), width);
    assert JobInv(s, s.jobs[i], width);
    var existing := s.jobs[i].pc.existing;
    assert s.doc.Some?;
    SeenStays(s, t, existing, s.jobs[i].readAt, s.jobs[i].readRepaired, width);
    OneJobMoves(s, t, i, width);
  }

  lemma WriteKeepsInv(s: System, i: nat, acknowledged: bool, width: nat)
    requires Inv(s, width) && Enabled(s, Write(i, acknowledged), width)
    ensures Inv(Next(s, Write(i, acknowledged), width), width)
  {
    hide Written, Merged, SeenAt, SeriesAfter;
    var t := Next(s, Write(i, acknowledged), width);
    assert JobInv(s, s.jobs[i], width);
    if Matches(s.doc.value, s.jobs[i].pc.version) {
      MatchingWriteIsMerge(s, i, width);
      assert t.doc == Some(Merged(s.doc.value, s.jobs[i].update).(aliases := s.jobs[i].update.aliases));
      MergeKeepsDoc(s, t, s.jobs[i].update, width);
    }
    hide DocInv, Matches;
    OneJobMoves(s, t, i, width);
  }

  lemma TryInsertKeepsInv(s: System, i: nat, acknowledged: bool, width: nat)
    requires Inv(s, width) && Enabled(s, TryInsert(i, acknowledged), width)
    ensures Inv(Next(s, TryInsert(i, acknowledged), width), width)
  {
    var t := Next(s, TryInsert(i, acknowledged), width);
    assert JobInv(s, s.jobs[i], width);
    if s.doc.None? {
      InsertKeepsDoc(s, t, s.jobs[i].update, width);
    }
    OneJobMoves(s, t, i, width);
  }

  lemma FallbackKeepsInv(s: System, i: nat, acknowledged: bool, width: nat)
    requires Inv(s, width) && Enabled(s, Fallback(i, acknowledged), width)
    ensures Inv(Next(s, Fallback(i, acknowledged), width), width)
  {
    var t := Next(s, Fallback(i, acknowledged), width);
    assert JobInv(s, s.jobs[i], width);
    MergeKeepsDoc(s, t, s.jobs[i].update, width);
    OneJobMoves(s, t, i, width);
  }

  /** Every action keeps the invariant. */
  lemma NextKeepsInv(s: System, a: Action, width: nat)
    requires Inv(s, width) && Enabled(s, a, width)
    ensures Inv(Next(s, a, width), width)
  {
    match a
    case Spawn(u) => SpawnKeepsInv(s, u, width);
    case Read(i) => ReadKeepsInv(s, i, width);
    case Prepare(i) => PrepareKeepsInv(s, i, width);
    case Write(i, acknowledged) => WriteKeepsInv(s, i, acknowledged, width);
    case WriteFails(i) =>
      assert JobInv(s, s.jobs[i], width);
      OneJobMoves(s, Next(s, a, width), i, width);
    case TryInsert(i, acknowledged) => TryInsertKeepsInv(s, i, acknowledged, width);
    case Fallback(i, acknowledged) => FallbackKeepsInv(s, i, acknowledged, width);
    case Crash(i) =>
      assert JobInv(s, s.jobs[i], width);
      OneJobMoves(s, Next(s, a, width), i, width);
    case Link(_, _) =>
      var t := Next(s, a, width);
      forall j | 0 <= j < |t.jobs| ensures JobInv(t, t.jobs[j], width) {
        JobStays(s, t, s.jobs[j], width);
      }
    case Repair(fields) => RepairKeepsInv(s, fields, width);
  }

  /** A repair between a worker's read and its write is harmless, although it does not change the
      version. */
  lemma RepairKeepsInv(s: System, fields: set<nat>, width: nat)
    requires Inv(s, width) && Enabled(s, Repair(fields), width)
    ensures Inv(Next(s, Repair(fields), width), width)
  {
    var t := Next(s, Repair(fields), width);
    forall k | 0 <= k < width
      ensures t.doc.value.series[k] == SeriesAfter(StartSeries(t, k), t.log, t.repaired, k)
    {
      RepairTwice(Replay(StartSeries(s, k), s.log, k));
    }
    forall j | 0 <= j < |t.jobs| ensures JobInv(t, t.jobs[j], width) {
      JobStays(s, t, s.jobs[j], width);
    }
  }

  lemma {:induction false} RunKeepsInv(s: System, actions: seq<Action>, t: System, width: nat)
    requires Inv(s, width) && Run(s, actions, t, width)
    ensures Inv(t, width) && t.first == s.first && s.log <= t.log && s.repaired <= t.repaired
    decreases |actions|
  {
    if actions != [] {
      NextKeepsInv(s, actions[0], width);
      RunKeepsInv(Next(s, actions[0], width), actions[1..], t, width);
    }
  }

  // ----- what every run guarantees -----

  /** The times an update brings to series `k`. */
  predicate Brings(u: Update, k: nat, v: real) {
    At(Field(u.series, k), v).Some?
  }

  ghost predicate BroughtBy(log: seq<Update>, k: nat, v: real) {
    exists u :: u in log && Brings(u, k, v)
  }

  lemma BroughtStep(log: seq<Update>, u: Update, k: nat, v: real)
    ensures BroughtBy(log + [u], k, v) <==> BroughtBy(log, k, v) || Brings(u, k, v)
  {
    if Brings(u, k, v) {
      assert u in log + [u];
    }
    if BroughtBy(log, k, v) {
      var w :| w in log && Brings(w, k, v);
      assert w in log + [u];
    }
  }

  lemma {:induction false} ReplayTimes(start: seq<Point>, log: seq<Update>, k: nat, v: real)
    ensures At(Replay(start, log, k), v).Some? <==> At(start, v).Some? || BroughtBy(log, k, v)
    decreases |log|
  {
    hide UpdateOp, At;
    if log == [] {
      assert !BroughtBy(log, k, v);
    } else {
      hide BroughtBy;
      var before, u := log[..|log| - 1], log[|log| - 1];
      ReplayTimes(start, before, k, v);
      UpdateOpMeaning(Replay(start, before, k), Field(u.series, k));
      BroughtStep(before, u, k, v);
      assert log == before + [u];
    }
  }

  lemma ReplayValid(start: seq<Point>, log: seq<Update>, k: nat)
    requires log != [] || Valid(start)
    ensures Valid(Replay(start, log, k))
  {
    if log != [] {
      UpdateOpMeaning(Replay(start, log[..|log| - 1], k), Field(log[|log| - 1].series, k));
    }
  }

  /** A repair adds and drops no point that counts: the series holds the same point at every time. */
  lemma RepairKeepsPoints(start: seq<Point>, log: seq<Update>, repaired: set<nat>, k: nat, v: real)
    ensures At(SeriesAfter(start, log, repaired, k), v) == At(Replay(start, log, k), v)
  {
    UpdateOpMeaning(Replay(start, log, k), []);
  }

  lemma RepairedExactly(start: seq<Point>, log: seq<Update>, repaired: set<nat>, k: nat)
    ensures Valid(SeriesAfter(start, log, repaired, k)) <==> log != [] || k in repaired || Valid(start)
    ensures log != [] ==> SeriesAfter(start, log, repaired, k) == Replay(start, log, k)
  {
    UpdateOpMeaning(Replay(start, log, k), []);
    if log != [] {
      ReplayValid(start, log, k);
      RepairOfValid(Replay(start, log, k));
    }
  }

  /** Linearizability: whatever the interleaving, crashes, lost replies and repairs, each stored
      series is the result of applying the landed updates one after the other with the plain merge;
      before the first of them, it is what was there, repaired if the repair task came by. */
  lemma Linearizable(s: System, actions: seq<Action>, t: System, width: nat, k: nat)
    requires Initial(s, width) && Run(s, actions, t, width) && t.doc.Some? && k < width
    ensures |t.doc.value.series| == width
    ensures t.log != [] ==> t.doc.value.series[k] == Replay(StartSeries(s, k), t.log, k)
    ensures t.log == [] ==>
              t.doc.value.series[k] ==
              if k in t.repaired then UpdateOp(StartSeries(s, k), []) else StartSeries(s, k)
  {
    RunKeepsInv(s, actions, t, width);
    RepairedExactly(StartSeries(s, k), t.log, t.repaired, k);
  }

  /** Convergence and self-stabilization: every series is finite and strictly increasing exactly
      when one update has landed, or each series started that way or was repaired, however corrupt
      the document was; and its times are exactly the finite times stored first together with those
      of the landed updates. */
  lemma Converges(s: System, actions: seq<Action>, t: System, width: nat)
    requires Initial(s, width) && Run(s, actions, t, width) && t.doc.Some?
    ensures AllValid(t.doc.value.series) <==>
            t.log != [] || forall k :: 0 <= k < width ==> k in t.repaired || Valid(StartSeries(s, k))
    ensures forall k: nat, v :: k < |t.doc.value.series| ==>
              (At(t.doc.value.series[k], v).Some? <==>
               At(StartSeries(s, k), v).Some? || BroughtBy(t.log, k, v))
  {
    RunKeepsInv(s, actions, t, width);
    forall k: nat | k < |t.doc.value.series|
      ensures Valid(t.doc.value.series[k]) <==> t.log != [] || k in t.repaired || Valid(StartSeries(s, k))
    {
      RepairedExactly(StartSeries(s, k), t.log, t.repaired, k);
    }
    forall k: nat, v | k < |t.doc.value.series|
      ensures At(t.doc.value.series[k], v).Some? <==>
              At(StartSeries(s, k), v).Some? || BroughtBy(t.log, k, v)
    {
      ReplayTimes(StartSeries(s, k), t.log, k, v);
      RepairKeepsPoints(StartSeries(s, k), t.log, t.repaired, k, v);
    }
  }

  /** No lost update: once a job has finished, every time it brought is stored in every later
      state, and a point stored at some time is never replaced afterwards. */
  lemma FinishedIsStored(s: System, before: seq<Action>, m: System, after: seq<Action>, t: System,
                         width: nat, i: nat, k: nat, v: real)
    requires Initial(s, width) && Run(s, before, m, width) && Run(m, after, t, width)
    requires i < |m.jobs| && m.jobs[i].pc.Finished? && k < width
    ensures t.doc.Some? && |t.doc.value.series| == width && m.doc.Some? && |m.doc.value.series| == width
    ensures Brings(m.jobs[i].update, k, v) ==> At(t.doc.value.series[k], v).Some?
    ensures At(m.doc.value.series[k], v).Some? ==>
              At(t.doc.value.series[k], v) == At(m.doc.value.series[k], v)
  {
    RunKeepsInv(s, before, m, width);
    RunKeepsInv(m, after, t, width);
    assert JobInv(m, m.jobs[i], width);
    assert m.jobs[i].update in t.log;
    hide Run, Inv, Replay;
    StoredPoint(s, m, width, k, v);
    StoredPoint(s, t, width, k, v);
    ReplayTimes(StartSeries(s, k), t.log, k, v);
    ReplayGrows(StartSeries(s, k), m.log, t.log, k, v);
  }

  lemma StoredPoint(s: System, t: System, width: nat, k: nat, v: real)
    requires DocInv(t, width) && t.doc.Some? && k < width && t.first == s.first
    ensures |t.doc.value.series| == width
    ensures At(t.doc.value.series[k], v) == At(Replay(StartSeries(s, k), t.log, k), v)
  {
    RepairKeepsPoints(StartSeries(s, k), t.log, t.repaired, k, v);
  }

  lemma {:induction false} ReplayGrows(start: seq<Point>, a: seq<Update>, b: seq<Update>, k: nat, v: real)
    requires a <= b
    ensures At(Replay(start, a, k), v).Some? ==> At(Replay(start, b, k), v) == At(Replay(start, a, k), v)
    decreases |b|
  {
    if |a| < |b| {
      ReplayGrows(start, a, b[..|b| - 1], k, v);
      UpdateOpMeaning(Replay(start, b[..|b| - 1], k), Field(b[|b| - 1].series, k));
    } else {
      assert a == b;
    }
  }

  /** The version counts the updates applied since the document came to be, and the fallback
      never misses its document. */
  lemma VersionCounts(s: System, actions: seq<Action>, t: System, width: nat)
    requires Initial(s, width) && Run(s, actions, t, width)
    ensures t.doc.Some? ==>
              VersionNumber(t.doc.value.version) ==
              if s.first.Some? then VersionNumber(s.first.value.version) + |t.log| else |t.log| - 1
    ensures forall i :: 0 <= i < |t.jobs| ==> !t.jobs[i].pc.Failed?
  {
    RunKeepsInv(s, actions, t, width);
    forall i | 0 <= i < |t.jobs| ensures !t.jobs[i].pc.Failed? {
      assert JobInv(t, t.jobs[i], width);
    }
  }

  /** The designation is sticky: it is the latest one any landed update carried, and an update
      without one never clears it. */
  lemma DesignationIsSticky(s: System, before: seq<Action>, m: System, after: seq<Action>, t: System,
                            width: nat)
    requires Initial(s, width) && Run(s, before, m, width) && Run(m, after, t, width)
    ensures t.doc.Some? ==> t.doc.value.designation == LatestDesignation(s.first, t.log)
    ensures forall i :: 0 <= i < |t.log| && LastNamed(t.log, i) ==>
              t.doc.Some? && t.doc.value.designation == t.log[i].designation
    ensures m.doc.Some? && m.doc.value.designation.Some? ==>
              t.doc.Some? && t.doc.value.designation.Some?
  {
    RunKeepsInv(s, before, m, width);
    RunKeepsInv(m, after, t, width);
    DesignationStays(s.first, m.log, t.log);
    forall i | 0 <= i < |t.log| && LastNamed(t.log, i)
      ensures t.doc.Some? && t.doc.value.designation == t.log[i].designation
    {
      LatestIsLastNamed(s.first, t.log, i);
    }
  }

  /** The i-th update is the last one that carries a designation. */
  predicate LastNamed(log: seq<Update>, i: nat)
    requires i < |log|
  {
    log[i].designation.Some? && forall j :: i < j < |log| ==> log[j].designation.None?
  }

  lemma {:induction false} LatestIsLastNamed(first: Option<Aux>, log: seq<Update>, i: nat)
    requires i < |log| && LastNamed(log, i)
    ensures LatestDesignation(first, log) == log[i].designation
    decreases |log|
  {
    if i < |log| - 1 {
      LatestIsLastNamed(first, log[..|log| - 1], i);
    }
  }

  lemma {:induction false} DesignationStays(first: Option<Aux>, a: seq<Update>, b: seq<Update>)
    requires a <= b
    ensures LatestDesignation(first, a).Some? ==> LatestDesignation(first, b).Some?
    decreases |b|
  {
    if |a| < |b| {
      DesignationStays(first, a, b[..|b| - 1]);
    } else {
      assert a == b;
    }
  }

  /** A write that matches was prepared from exactly the series it lands on. */
  lemma NoAba(s: System, actions: seq<Action>, t: System, width: nat, i: nat)
    requires Initial(s, width) && Run(s, actions, t, width)
    requires i < |t.jobs| && t.jobs[i].pc.Writing? && t.doc.Some?
    requires Matches(t.doc.value, t.jobs[i].pc.version)
    ensures AllValid(t.doc.value.series)
    ensures t.jobs[i].pc.pushes == PushesFor(ReadAux(t.doc.value), t.jobs[i].update)
  {
    RunKeepsInv(s, actions, t, width);
    var job := t.jobs[i];
    assert JobInv(t, job, width);
    var existing :|
      SeenAt(t, existing, job.readAt, job.readRepaired, width) && AllValidTimes(existing.jds) &&
      job.pc.version == existing.version && job.pc.pushes == PushesFor(existing, job.update);
    SeenNow(t, existing, job.readAt, job.readRepaired, width);
  }

  // ----- what the last update leaves: its time and its aliases -----

  /** Every alias the update carried is stored as it carried it; only the DECam one may have been
      linked since. */
  ghost predicate Carries(stored: Option<Aliases>, carried: Option<Aliases>) {
    carried.Some? ==>
      stored.Some? &&
      forall key :: key in carried.value ==>
        key in stored.value && (stored.value[key] == carried.value[key] || (key == "DECAM" && carried.value[key] == []))
  }

  ghost predicate Stamped(s: System) {
    s.doc.Some? ==>
      if s.log == [] then s.first.Some? && s.doc.value.updatedAt == s.first.value.updatedAt
      else
        var last := s.log[|s.log| - 1];
        s.doc.value.updatedAt == last.now && Carries(s.doc.value.aliases, last.aliases)
  }

  lemma LinkCarries(aux: Aux, carried: Option<Aliases>, other: string, id: string)
    requires Carries(aux.aliases, carried)
    ensures Carries(Linked(aux, other, id).aliases, carried)
  {
  }

  lemma NextKeepsStamp(s: System, a: Action, width: nat)
    requires Stamped(s) && Enabled(s, a, width)
    ensures Stamped(Next(s, a, width))
  {
    match a
    case Link(other, id) =>
      if s.doc.Some? && s.log != [] {
        LinkCarries(s.doc.value, s.log[|s.log| - 1].aliases, other, id);
      }
    case _ =>
  }

  lemma {:induction false} RunKeepsStamp(s: System, actions: seq<Action>, t: System, width: nat)
    requires Stamped(s) && Run(s, actions, t, width)
    ensures Stamped(t)
    decreases |actions|
  {
    hide Stamped, Enabled;
    if actions != [] {
      NextKeepsStamp(s, actions[0], width);
      RunKeepsStamp(Next(s, actions[0], width), actions[1..], t, width);
    }
  }

  /** The last landed update is the one whose time and whose aliases are stored, whichever way it
      was written. */
  lemma LastUpdateIsStamped(s: System, actions: seq<Action>, t: System, width: nat)
    requires Initial(s, width) && Run(s, actions, t, width)
    ensures Stamped(t)
  {
    RunKeepsStamp(s, actions, t, width);
  }

  // ----- a job that loses a race still lands its update -----

  /** A step of job `i` that its worker takes by itself and gets an answer to. */
  predicate OwnStep(a: Action, i: nat) {
    match a
    case Read(j) => j == i
    case Prepare(j) => j == i
    case Write(j, acknowledged) => j == i && acknowledged
    case TryInsert(j, acknowledged) => j == i && acknowledged
    case Fallback(j, acknowledged) => j == i && acknowledged
    case _ => false
  }

  /** The job ran to its end on its own: its update landed once more, in the way the stored document
      asked for, and no other job moved. */
  ghost predicate LandsAlone(s: System, actions: seq<Action>, t: System, width: nat, i: nat) {
    && Run(s, actions, t, width) && (forall a :: a in actions ==> OwnStep(a, i))
    && i < |s.jobs| && |t.jobs| == |s.jobs| && t.jobs[i].pc.Finished?
    && (forall j :: 0 <= j < |s.jobs| && j != i ==> t.jobs[j] == s.jobs[j])
    && t.log == s.log + [s.jobs[i].update] && t.first == s.first && t.repaired == s.repaired
    && t.doc.Some?
    && if s.doc.None? then t.doc == Some(Fresh(s.jobs[i].update))
       else t.doc == Some(Merged(s.doc.value, s.jobs[i].update).(aliases := t.doc.value.aliases))
  }

  lemma RunFirst(s: System, a: Action, rest: seq<Action>, t: System, width: nat)
    requires Enabled(s, a, width) && Run(Next(s, a, width), rest, t, width)
    ensures Run(s, [a] + rest, t, width)
  {
    assert ([a] + rest)[1..] == rest;
  }

  /** A step that lands nothing, before a run that does. */
  lemma LandsAfter(s: System, a: Action, rest: seq<Action>, t: System, width: nat, i: nat)
    requires Enabled(s, a, width) && OwnStep(a, i) && i < |s.jobs|
    requires var m := Next(s, a, width);
             m.doc == s.doc && m.log == s.log && m.first == s.first && m.repaired == s.repaired &&
             |m.jobs| == |s.jobs| && m.jobs[i].update == s.jobs[i].update &&
             (forall j :: 0 <= j < |s.jobs| && j != i ==> m.jobs[j] == s.jobs[j]) &&
             LandsAlone(m, rest, t, width, i)
    ensures LandsAlone(s, [a] + rest, t, width, i)
  {
    hide Enabled, Next, Merged, Fresh, Run;
    RunFirst(s, a, rest, t, width);
  }

  /** A landing step is a whole run. */
  lemma LandsAtOnce(s: System, a: Action, width: nat, i: nat)
    requires Inv(s, width) && Enabled(s, a, width) && OwnStep(a, i) && i < |s.jobs|
    requires match s.jobs[i].pc
             case Writing(_, version) => s.doc.Some? && Matches(s.doc.value, version)
             case Inserting => s.doc.None?
             case FallingBack => true
             case _ => false
    ensures LandsAlone(s, [a], Next(s, a, width), width, i)
  {
    var t := Next(s, a, width);
    assert JobInv(s, s.jobs[i], width);
    assert Run(t, [], t, width);
    RunFirst(s, a, [], t, width);
    assert [a] + [] == [a];
    if s.jobs[i].pc.Writing? {
      MatchingWriteIsMerge(s, i, width);
    }
    hide Merged, Fresh, Written, Inv, JobInv, Run;
  }

  /** A worker that lost the race for its write, or whose write failed, or who found the document
      inserted by another, falls back. */
  lemma FallbackLands(s: System, i: nat, width: nat) returns (actions: seq<Action>, t: System)
    requires Inv(s, width) && i < |s.jobs| && s.jobs[i].pc.FallingBack?
    ensures actions == [Fallback(i, true)] && LandsAlone(s, actions, t, width, i)
  {
    LandsAtOnce(s, Fallback(i, true), width, i);
    actions, t := [Fallback(i, true)], Next(s, Fallback(i, true), width);
  }

  lemma WriteLands(s: System, i: nat, width: nat) returns (actions: seq<Action>, t: System)
    requires Inv(s, width) && i < |s.jobs| && s.jobs[i].pc.Writing?
    ensures |actions| <= 2 && LandsAlone(s, actions, t, width, i)
    ensures s.doc.Some? && Matches(s.doc.value, s.jobs[i].pc.version) ==> actions == [Write(i, true)]
  {
    assert JobInv(s, s.jobs[i], width);
    var a := Write(i, true);
    if Matches(s.doc.value, s.jobs[i].pc.version) {
      LandsAtOnce(s, a, width, i);
      actions, t := [a], Next(s, a, width);
    } else {
      NextKeepsInv(s, a, width);
      actions, t := FallbackLands(Next(s, a, width), i, width);
      LandsAfter(s, a, actions, t, width, i);
      actions := [a] + actions;
    }
  }

  lemma InsertLands(s: System, i: nat, width: nat) returns (actions: seq<Action>, t: System)
    requires Inv(s, width) && i < |s.jobs| && s.jobs[i].pc.Inserting?
    ensures |actions| <= 2 && LandsAlone(s, actions, t, width, i)
    ensures s.doc.None? ==> actions == [TryInsert(i, true)]
  {
    var a := TryInsert(i, true);
    if s.doc.None? {
      LandsAtOnce(s, a, width, i);
      actions, t := [a], Next(s, a, width);
    } else {
      NextKeepsInv(s, a, width);
      actions, t := FallbackLands(Next(s, a, width), i, width);
      LandsAfter(s, a, actions, t, width, i);
      actions := [a] + actions;
    }
  }

  lemma PrepareLands(s: System, i: nat, width: nat) returns (actions: seq<Action>, t: System)
    requires Inv(s, width) && i < |s.jobs| && s.jobs[i].pc.Preparing?
    ensures |actions| <= 3 && LandsAlone(s, actions, t, width, i)
    ensures s.doc.Some? && s.jobs[i].pc.existing == ReadAux(s.doc.value) ==>
              actions == [Prepare(i), if AllValid(s.doc.value.series) then Write(i, true) else Fallback(i, true)]
  {
    var a := Prepare(i);
    var m := Next(s, a, width);
    NextKeepsInv(s, a, width);
    assert JobInv(s, s.jobs[i], width);
    if m.jobs[i].pc.Writing? {
      actions, t := WriteLands(m, i, width);
    } else {
      actions, t := FallbackLands(m, i, width);
    }
    LandsAfter(s, a, actions, t, width, i);
    if s.doc.Some? && s.jobs[i].pc.existing == ReadAux(s.doc.value) {
      AllValidJds(s.doc.value.series);
    }
    actions := [a] + actions;
  }

  /** The steps of a job nobody comes in between of. */
  function PathAlone(doc: Option<Aux>, i: nat): seq<Action> {
    [Read(i)] +
    if doc.None? then [TryInsert(i, true)]
    else [Prepare(i), if AllValid(doc.value.series) then Write(i, true) else Fallback(i, true)]
  }

  lemma ReadLands(s: System, i: nat, width: nat) returns (actions: seq<Action>, t: System)
    requires Inv(s, width) && i < |s.jobs| && s.jobs[i].pc.Reading?
    ensures |actions| <= 3 && LandsAlone(s, actions, t, width, i)
    ensures actions == PathAlone(s.doc, i)
  {
    var a := Read(i);
    var m := Next(s, a, width);
    NextKeepsInv(s, a, width);
    if s.doc.None? {
      actions, t := InsertLands(m, i, width);
    } else {
      actions, t := PrepareLands(m, i, width);
    }
    LandsAfter(s, a, actions, t, width, i);
    actions := [a] + actions;
  }

  /** No race is lost for good: from every reachable state each job that neither finished nor crashed
      can finish in at most three acknowledged steps of its own, and its update lands exactly once in
      them. Left alone from its start, it inserts, or writes against the version it read, and falls
      back on the in-database merge only when what is stored is broken. */
  lemma EveryJobCanLand(s: System, before: seq<Action>, m: System, width: nat, i: nat)
    returns (after: seq<Action>, t: System)
    requires Initial(s, width) && Run(s, before, m, width)
    requires i < |m.jobs| && !m.jobs[i].pc.Finished? && !m.jobs[i].pc.Crashed?
    ensures |after| <= 3 && LandsAlone(m, after, t, width, i)
    ensures m.jobs[i].pc.Reading? ==> after == PathAlone(m.doc, i)
  {
    RunKeepsInv(s, before, m, width);
    assert JobInv(m, m.jobs[i], width);
    hide LandsAlone, Inv, Initial, Run;
    match m.jobs[i].pc
    case Reading => after, t := ReadLands(m, i, width);
    case Preparing(_) => after, t := PrepareLands(m, i, width);
    case Writing(_, _) => after, t := WriteLands(m, i, width);
    case Inserting => after, t := InsertLands(m, i, width);
    case FallingBack => after, t := FallbackLands(m, i, width);
  }

  /** A new alert can always be handled: from every reachable state its job starts, and its update lands
      in at most three steps, whatever the other jobs are in the middle of. */
  lemma AnyUpdateCanLand(s: System, before: seq<Action>, m: System, u: Update, width: nat)
    returns (after: seq<Action>, t: System)
    requires Initial(s, width) && Run(s, before, m, width) && |u.series| == width && Clean(u)
    ensures |after| <= 4 && Run(m, after, t, width) && t.log == m.log + [u]
    ensures |t.jobs| == |m.jobs| + 1 && t.jobs[|m.jobs|].pc.Finished? && t.jobs[..|m.jobs|] == m.jobs
  {
    RunKeepsInv(s, before, m, width);
    NextKeepsInv(m, Spawn(u), width);
    var started := Next(m, Spawn(u), width);
    var rest;
    rest, t := ReadLands(started, |m.jobs|, width);
    RunFirst(m, Spawn(u), rest, t, width);
    after := [Spawn(u)] + rest;
    hide Run, Inv, Merged, Fresh;
  }

  /** What the repair task did: the series it found broken are valid, no point that counts was lost,
      and the version and every other series are as they were. */
  lemma RepairRepairs(s: System, fields: set<nat>, width: nat)
    requires Enabled(s, Repair(fields), width)
    ensures var t := Next(s, Repair(fields), width);
            t.doc.Some? && |t.doc.value.series| == |s.doc.value.series| && t.doc.value.version == s.doc.value.version &&
            t.jobs == s.jobs && t.log == s.log &&
            forall k: nat :: k < |t.doc.value.series| ==>
              (if k in fields then Valid(t.doc.value.series[k]) else t.doc.value.series[k] == s.doc.value.series[k]) &&
              forall v :: At(t.doc.value.series[k], v) == At(s.doc.value.series[k], v)
  {
    var t := Next(s, Repair(fields), width);
    forall k: nat | k < |t.doc.value.series|
      ensures (if k in fields then Valid(t.doc.value.series[k]) else t.doc.value.series[k] == s.doc.value.series[k]) &&
              forall v :: At(t.doc.value.series[k], v) == At(s.doc.value.series[k], v)
    {
      UpdateOpMeaning(s.doc.value.series[k], []);
    }
  }

  /** What the link does, between any two steps of the jobs. */
  lemma LinkLinks(s: System, other: string, id: string, width: nat)
    requires s.doc.Some?
    ensures var t := Next(s, Link(other, id), width);
            t.jobs == s.jobs && t.log == s.log && t.doc.Some? &&
            t.doc.value == s.doc.value.(aliases := t.doc.value.aliases) &&
            if HasDecamAlias(s.doc.value) then t.doc == s.doc
            else GainsDecam(s.doc.value.aliases, t.doc.value.aliases, other, id)
  {
  }

  /** A lost reply is lost on the worker only: the database is where it would be. */
  lemma LostReplyLands(s: System, i: nat, width: nat)
    ensures Enabled(s, Write(i, true), width) ==>
              SameStore(Next(s, Write(i, true), width), Next(s, Write(i, false), width))
    ensures Enabled(s, TryInsert(i, true), width) ==>
              SameStore(Next(s, TryInsert(i, true), width), Next(s, TryInsert(i, false), width))
    ensures Enabled(s, Fallback(i, true), width) ==>
              SameStore(Next(s, Fallback(i, true), width), Next(s, Fallback(i, false), width))
  {
    hide Written, Merged, Fresh;
  }

  predicate SameStore(s: System, t: System) {
    s.doc == t.doc && s.log == t.log
  }

  /** What stops a job for good: a crash, or the lost reply of a write that is not tried again. */
  predicate Stops(s: System, a: Action, i: nat) {
    match a
    case Crash(j) => j == i
    case TryInsert(j, acknowledged) => j == i && !acknowledged && s.doc.None?
    case Fallback(j, acknowledged) => j == i && !acknowledged
    case _ => false
  }

  lemma StepCrashesExactly(s: System, a: Action, width: nat, i: nat)
    requires Inv(s, width) && Enabled(s, a, width) && i < |s.jobs|
    ensures i < |Next(s, a, width).jobs|
    ensures Next(s, a, width).jobs[i].pc.Crashed? <==> s.jobs[i].pc.Crashed? || Stops(s, a, i)
  {
    assert JobInv(s, s.jobs[i], width);
    hide Written, Merged, Fresh, Linked, Rebuilt, ReadAux, PushesFor, JobInv;
  }

  /** The run has a step that stops job `i`. */
  ghost predicate Stopped(s: System, actions: seq<Action>, width: nat, i: nat)
    decreases |actions|
  {
    actions != [] && Enabled(s, actions[0], width) &&
    (Stops(s, actions[0], i) || Stopped(Next(s, actions[0], width), actions[1..], width, i))
  }

  lemma {:induction false} CrashedStays(s: System, actions: seq<Action>, t: System, width: nat, i: nat)
    requires Inv(s, width) && Run(s, actions, t, width) && i < |s.jobs| && s.jobs[i].pc.Crashed?
    ensures i < |t.jobs| && t.jobs[i].pc.Crashed?
    decreases |actions|
  {
    hide Inv, Enabled;
    if actions != [] {
      StepCrashesExactly(s, actions[0], width, i);
      NextKeepsInv(s, actions[0], width);
      CrashedStays(Next(s, actions[0], width), actions[1..], t, width, i);
    }
  }

  lemma NotYetSpawned(s: System, a: Action, width: nat, i: nat)
    requires Enabled(s, a, width) && |s.jobs| <= i
    ensures !Stops(s, a, i)
    ensures i < |Next(s, a, width).jobs| ==> Next(s, a, width).jobs[i].pc.Reading?
  {
  }

  lemma {:induction false} RunStopsExactly(s: System, actions: seq<Action>, t: System, width: nat, i: nat)
    requires Inv(s, width) && Run(s, actions, t, width) && i < |t.jobs|
    requires i < |s.jobs| ==> !s.jobs[i].pc.Crashed?
    ensures t.jobs[i].pc.Crashed? <==> Stopped(s, actions, width, i)
    decreases |actions|
  {
    hide Inv, Next, Stops;
    if actions != [] {
      var m := Next(s, actions[0], width);
      NextKeepsInv(s, actions[0], width);
      if i < |s.jobs| {
        StepCrashesExactly(s, actions[0], width, i);
      } else {
        NotYetSpawned(s, actions[0], width, i);
      }
      if Stops(s, actions[0], i) {
        CrashedStays(m, actions[1..], t, width, i);
      } else {
        RunStopsExactly(m, actions[1..], t, width, i);
      }
    }
  }

  /** A job is stopped for good exactly when it crashed, or lost the reply of its insertion or its
      fallback; losing a race, a failed write and a lost reply of the checked write never stop it. */
  lemma CrashedExactly(s: System, actions: seq<Action>, t: System, width: nat, i: nat)
    requires Initial(s, width) && Run(s, actions, t, width) && i < |t.jobs|
    ensures t.jobs[i].pc.Crashed? <==> Stopped(s, actions, width, i)
  {
    assert Inv(s, width);
    RunStopsExactly(s, actions, t, width, i);
  }
}
