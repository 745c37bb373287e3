// The catalog insert pool: one reader, a bounded channel, N workers, one shared budget of
// off-sphere records. Every interleaving of their steps is a run.
// Source: src/catalogs/ingest.rs (Inserter, insert_worker, write_batch) and
// src/catalogs/jsonl.rs (ingest_jsonl)
module InsertPool {
  import opened Wrappers
  import opened CatalogIngest

  datatype Stop = EndOfFile | BadLine | NoReceivers

  datatype Producer = Reading | Stopped(why: Stop)

  datatype Phase = Running | Returned | Failed(error: IngestError)

  /** A worker: its unwritten batch, its tally, and what its last bulk write inserted while that
      is not yet added to the counters. */
  datatype Worker = Worker(phase: Phase, batch: seq<int>, tally: Tally, uncounted: nat)

  /** The pool's state. `taken` (every record a worker ever received, in order) and `faulted`
      (whether the database or a worker ever failed by itself) only record the past. */
  datatype Pool = Pool(
    pos: nat, read: nat, producer: Producer, channel: seq<Record>, workers: seq<Worker>,
    offSphere: nat, collection: set<int>, insertedTotal: nat, taken: seq<Record>, faulted: bool)

  /** One call of `ingest_jsonl`: the file, the inserter's parameters as given, and the
      collection and the running counter the call finds. */
  datatype Job = Job(
    file: seq<Line>, numWorkers: nat, batchSize: nat, capacity: nat, initial: set<int>, counter: nat)

  /** `Inserter::new` raises each of its parameters to one at least. */
  function AtLeastOne(n: nat): nat {
    if n == 0 then 1 else n
  }

  function IdleWorker(): Worker {
    Worker(Running, [], Tally(0, 0), 0)
  }

  function Init(job: Job): Pool {
    Pool(0, 0, Reading, [], seq(AtLeastOne(job.numWorkers), _ => IdleWorker()),
         0, job.initial, job.counter, [], false)
  }

  datatype Action =
    | ReadLine                          // the reader takes the next line and acts on it
    | EndReading                        // no line is left: the sender is dropped
    | Receive(w: nat)                   // a worker takes the next record
    | Write(w: nat)                     // a worker writes its batch
    | Count(w: nat)                     // a worker adds what it wrote to the counters
    | Return(w: nat)                    // a worker sees the closed, drained channel
    | WriteFails(w: nat, landed: set<int>) // a bulk write fails for another reason than duplicates
    | Panic(w: nat)                     // a worker dies on its own

  predicate Live(s: Pool, w: nat) {
    w < |s.workers| && s.workers[w].phase.Running?
  }

  predicate AnyLive(s: Pool) {
    exists w :: 0 <= w < |s.workers| && Live(s, w)
  }

  predicate Drained(s: Pool) {
    s.producer.Stopped? && s.channel == []
  }

  /** Whether worker w is at a write: its batch is full, or no record will come any more. */
  predicate AtWrite(job: Job, s: Pool, w: nat) {
    Live(s, w) && s.workers[w].uncounted == 0 && s.workers[w].batch != [] &&
    (|s.workers[w].batch| >= AtLeastOne(job.batchSize) || Drained(s))
  }

  predicate Enabled(job: Job, s: Pool, a: Action) {
    match a
    case ReadLine =>
      s.producer == Reading && s.pos < |job.file| &&
      (job.file[s.pos].Parsed? ==> |s.channel| < AtLeastOne(job.capacity) || !AnyLive(s))
    case EndReading => s.producer == Reading && s.pos == |job.file|
    case Receive(w) =>
      Live(s, w) && s.workers[w].uncounted == 0 && s.channel != [] &&
      |s.workers[w].batch| < AtLeastOne(job.batchSize)
    case Write(w) => AtWrite(job, s, w)
    case Count(w) => Live(s, w) && s.workers[w].uncounted > 0
    case Return(w) => Live(s, w) && s.workers[w].uncounted == 0 && s.workers[w].batch == [] && Drained(s)
    case WriteFails(w, landed) => AtWrite(job, s, w) && landed <= IdSet(s.workers[w].batch)
    case Panic(w) => Live(s, w)
  }

  function AfterLine(job: Job, s: Pool): Pool
    requires Enabled(job, s, ReadLine)
  {
    match job.file[s.pos]
    case Blank => s.(pos := s.pos + 1)
    case Parsed(record) =>
      if AnyLive(s) then s.(pos := s.pos + 1, read := s.read + 1, channel := s.channel + [record])
      else s.(read := s.read + 1, producer := Stopped(NoReceivers))
    case _ => s.(producer := Stopped(BadLine))
  }

  /** What a worker becomes on a record, when `seen` off-sphere records were met with this one. */
  function AfterRecord(worker: Worker, record: Record, seen: nat): Worker {
    match record
    case Ready(id) => worker.(batch := worker.batch + [id])
    case OffSphere =>
      var counted := worker.(tally := worker.tally.(skipped := worker.tally.skipped + 1));
      if seen > MAX_OFF_SPHERE then counted.(phase := Failed(Read)) else counted
    case Unserializable => worker.(phase := Failed(Serialize))
  }

  function Apply(job: Job, s: Pool, a: Action): Pool
    requires Enabled(job, s, a)
  {
    match a
    case ReadLine => AfterLine(job, s)
    case EndReading => s.(producer := Stopped(EndOfFile))
    case Receive(w) =>
      var record := s.channel[0];
      var seen := s.offSphere + OneIfOff(record);
      s.(channel := s.channel[1..], taken := s.taken + [record], offSphere := seen,
         workers := s.workers[w := AfterRecord(s.workers[w], record, seen)])
    case Write(w) =>
      var worker := s.workers[w];
      s.(collection := s.collection + IdSet(worker.batch),
         workers := s.workers[w := worker.(batch := [], uncounted := Written(s.collection, worker.batch))])
    case Count(w) =>
      var worker := s.workers[w];
      var tally := worker.tally.(inserted := worker.tally.inserted + worker.uncounted);
      s.(insertedTotal := s.insertedTotal + worker.uncounted,
         workers := s.workers[w := worker.(tally := tally, uncounted := 0)])
    case Return(w) => s.(workers := s.workers[w := s.workers[w].(phase := Returned)])
    case WriteFails(w, landed) =>
      s.(collection := s.collection + landed, faulted := true,
         workers := s.workers[w := s.workers[w].(phase := Failed(Mongo), batch := [])])
    case Panic(w) =>
      s.(faulted := true, workers := s.workers[w := s.workers[w].(phase := Failed(WorkerPanic))])
  }

  /** The runs: what the pool may reach from its start by the given steps. */
  ghost predicate Reaches(job: Job, actions: seq<Action>, s: Pool)
    decreases |actions|
  {
    if actions == [] then s == Init(job)
    else
      var n := |actions| - 1;
      exists t :: Reaches(job, actions[..n], t) && Enabled(job, t, actions[n]) && s == Apply(job, t, actions[n])
  }

  /** `ingest_jsonl` returns once the reader has stopped and every worker has ended. */
  predicate Terminal(s: Pool) {
    s.producer.Stopped? && !AnyLive(s)
  }

  // ----- the invariant -----

  function InsertedBy(w: Worker): nat { w.tally.inserted }

  function SkippedBy(w: Worker): nat { w.tally.skipped }

  function UncountedBy(w: Worker): nat { w.uncounted }

  /** The ids waiting in the workers' batches. */
  function Held(workers: seq<Worker>): set<int> {
    set w, id | 0 <= w < |workers| && id in workers[w].batch :: id
  }

  predicate AnyFailed(s: Pool) {
    exists w :: 0 <= w < |s.workers| && s.workers[w].phase.Failed?
  }

  /** The reader: what it sent is what the workers took, then what the channel holds. */
  predicate FlowInv(job: Job, s: Pool) {
    && s.pos <= |job.file|
    && s.taken + s.channel == Records(job.file[..s.pos])
    && |s.channel| <= AtLeastOne(job.capacity)
    && s.pos <= FirstBad(job.file)
    && (s.producer != Stopped(NoReceivers) ==> s.read == |s.taken| + |s.channel|)
    && (s.producer == Stopped(EndOfFile) ==> s.pos == |job.file|)
    && (s.producer == Stopped(BadLine) ==> s.pos < |job.file| && Bad(job.file[s.pos]))
  }

  /** The workers: when one may have returned, and what the failed ones mean. */
  predicate WorkerInv(job: Job, s: Pool) {
    && |s.workers| == AtLeastOne(job.numWorkers)
    && (forall w :: 0 <= w < |s.workers| ==>
          (s.workers[w].phase.Returned? ==> Drained(s) && s.workers[w].batch == [] && s.workers[w].uncounted == 0) &&
          (s.workers[w].uncounted > 0 ==> s.workers[w].batch == []) &&
          |s.workers[w].batch| <= AtLeastOne(job.batchSize))
    && (s.producer == Stopped(NoReceivers) ==> forall w :: 0 <= w < |s.workers| ==> s.workers[w].phase.Failed?)
  }

  predicate FailureInv(s: Pool) {
    && s.offSphere == OffCount(s.taken)
    && (AnyFailed(s) <==> s.faulted || s.offSphere > MAX_OFF_SPHERE || Unserializable in s.taken)
  }

  predicate CountInv(job: Job, s: Pool) {
    && Sum(s.workers, SkippedBy) == s.offSphere
    && s.insertedTotal == job.counter + Sum(s.workers, InsertedBy)
    && job.initial <= s.collection
    && |s.collection| >= |job.initial| + Sum(s.workers, InsertedBy) + Sum(s.workers, UncountedBy)
    && (!s.faulted ==> |s.collection| == |job.initial| + Sum(s.workers, InsertedBy) + Sum(s.workers, UncountedBy))
  }

  predicate ContentInv(job: Job, s: Pool) {
    && s.collection + Held(s.workers) <= job.initial + Ids(s.taken)
    && (!s.faulted ==> s.collection + Held(s.workers) == job.initial + Ids(s.taken))
  }

  predicate Inv(job: Job, s: Pool) {
    FlowInv(job, s) && WorkerInv(job, s) && FailureInv(s) && CountInv(job, s) && ContentInv(job, s)
  }

  lemma InitInv(job: Job)
    ensures Inv(job, Init(job))
  {
    var s := Init(job);
    SumZero(s.workers, SkippedBy);
    SumZero(s.workers, InsertedBy);
    SumZero(s.workers, UncountedBy);
    assert Held(s.workers) == {} && Ids([]) == {};
  }

  lemma FlowKept(job: Job, s: Pool, a: Action)
    requires FlowInv(job, s) && Enabled(job, s, a)
    ensures FlowInv(job, Apply(job, s, a))
  {
    var t := Apply(job, s, a);
    match a {
      case ReadLine =>
        var file := job.file;
        assert file[..s.pos + 1][..s.pos] == file[..s.pos];
        if !Bad(file[s.pos]) {
          assert s.pos != FirstBad(file);
        }
        if file[s.pos].Parsed? && AnyLive(s) {
          assert t.taken + t.channel == (s.taken + s.channel) + [file[s.pos].record];
        }
      case Receive(w) =>
        assert t.taken + t.channel == s.taken + s.channel;
      case _ =>
    }
  }

  lemma WorkersKept(job: Job, s: Pool, a: Action)
    requires FlowInv(job, s) && WorkerInv(job, s) && Enabled(job, s, a)
    ensures WorkerInv(job, Apply(job, s, a))
  {
    hide FlowInv, Written, IdSet, OneIfOff;
    var t := Apply(job, s, a);
    if a == ReadLine && job.file[s.pos].Parsed? && !AnyLive(s) {
      forall w | 0 <= w < |s.workers| ensures s.workers[w].phase.Failed? {
        assert !Live(s, w);
      }
    }
  }

  lemma FailuresKept(job: Job, s: Pool, a: Action)
    requires FailureInv(s) && Enabled(job, s, a)
    ensures FailureInv(Apply(job, s, a))
  {
    hide IdSet, Written, OffCount, AnyFailed;
    var t := Apply(job, s, a);
    match a {
      case ReadLine => SameWorkers(s, t);
      case EndReading => SameWorkers(s, t);
      case Receive(w) =>
        OffCountAppend(s.taken, s.channel[0]);
        OneWorker(s, t, w);
      case _ => OneWorker(s, t, a.w);
    }
  }

  lemma SameWorkers(s: Pool, t: Pool)
    requires t.workers == s.workers
    ensures AnyFailed(t) == AnyFailed(s)
  {
  }

  lemma OneWorker(s: Pool, t: Pool, w: nat)
    requires Live(s, w) && |t.workers| == |s.workers| && t.workers == s.workers[w := t.workers[w]]
    ensures AnyFailed(t) <==> AnyFailed(s) || t.workers[w].phase.Failed?
  {
    if AnyFailed(s) {
      var v :| 0 <= v < |s.workers| && s.workers[v].phase.Failed?;
      assert t.workers[v].phase.Failed?;
    }
    if AnyFailed(t) && !t.workers[w].phase.Failed? {
      var v :| 0 <= v < |t.workers| && t.workers[v].phase.Failed?;
      assert s.workers[v].phase.Failed?;
    }
  }

  /** A step of worker `w` moves the totals as it moves that worker's tally. */
  lemma WorkerKeepsCounts(job: Job, s: Pool, t: Pool, w: nat)
    requires CountInv(job, s) && w < |s.workers| && w < |t.workers| && t.workers == s.workers[w := t.workers[w]]
    requires t.offSphere - s.offSphere == t.workers[w].tally.skipped - s.workers[w].tally.skipped
    requires t.insertedTotal - s.insertedTotal == t.workers[w].tally.inserted - s.workers[w].tally.inserted
    requires s.collection <= t.collection && (s.faulted ==> t.faulted)
    requires var counted := t.workers[w].tally.inserted - s.workers[w].tally.inserted +
                            t.workers[w].uncounted - s.workers[w].uncounted;
             |t.collection| - |s.collection| >= counted &&
             (!t.faulted ==> |t.collection| - |s.collection| == counted)
    ensures CountInv(job, t)
  {
    SumsUpdate(s.workers, w, t.workers[w]);
    hide Sum;
  }

  lemma WritingKeepsCounts(job: Job, s: Pool, a: Action)
    requires CountInv(job, s) && Enabled(job, s, a) && (a.Write? || a.WriteFails?)
    ensures CountInv(job, Apply(job, s, a))
  {
    var t := Apply(job, s, a);
    if a.Write? {
      WrittenIsGrowth(s.collection, s.workers[a.w].batch);
    } else {
      SubsetSize(s.collection, t.collection);
    }
    hide CountInv, IdSet, Written, Sum;
    WorkerKeepsCounts(job, s, t, a.w);
  }

  lemma ReadingKeepsCounts(job: Job, s: Pool, a: Action)
    requires CountInv(job, s) && Enabled(job, s, a) && (a.ReadLine? || a.EndReading?)
    ensures CountInv(job, Apply(job, s, a))
  {
    hide Sum, AnyLive;
  }

  lemma CountsKept(job: Job, s: Pool, a: Action)
    requires CountInv(job, s) && Enabled(job, s, a)
    ensures CountInv(job, Apply(job, s, a))
  {
    hide CountInv, AnyLive, Drained, IdSet, Written;
    if a.ReadLine? || a.EndReading? {
      ReadingKeepsCounts(job, s, a);
    } else if a.Write? || a.WriteFails? {
      WritingKeepsCounts(job, s, a);
    } else {
      WorkerKeepsCounts(job, s, Apply(job, s, a), a.w);
    }
  }

  lemma SubsetSize(a: set<int>, b: set<int>)
    requires a <= b
    ensures |a| <= |b|
  {
    assert b == a + (b - a);
  }

  lemma SumsUpdate(workers: seq<Worker>, w: nat, x: Worker)
    requires w < |workers|
    ensures Sum(workers[w := x], SkippedBy) + workers[w].tally.skipped == Sum(workers, SkippedBy) + x.tally.skipped
    ensures Sum(workers[w := x], InsertedBy) + workers[w].tally.inserted == Sum(workers, InsertedBy) + x.tally.inserted
    ensures Sum(workers[w := x], UncountedBy) + workers[w].uncounted == Sum(workers, UncountedBy) + x.uncounted
  {
    SumUpdate(workers, w, x, SkippedBy);
    SumUpdate(workers, w, x, InsertedBy);
    SumUpdate(workers, w, x, UncountedBy);
  }

  lemma HeldUpdate(workers: seq<Worker>, w: nat, x: Worker)
    requires w < |workers|
    ensures Held(workers[w := x]) + IdSet(workers[w].batch) == Held(workers) + IdSet(x.batch)
    ensures IdSet(workers[w].batch) <= Held(workers)
    ensures IdSet(x.batch) <= Held(workers[w := x])
  {
    var after := workers[w := x];
    assert forall v :: 0 <= v < |workers| && v != w ==> after[v] == workers[v];
    forall id | id in Held(after) ensures id in Held(workers) + IdSet(x.batch) {
      var v :| 0 <= v < |after| && id in after[v].batch;
      assert v != w ==> id in workers[v].batch;
    }
    forall id | id in Held(workers) ensures id in Held(after) + IdSet(workers[w].batch) {
      var v :| 0 <= v < |workers| && id in workers[v].batch;
      assert v != w ==> id in after[v].batch;
    }
    assert after[w] == x;
    forall id | id in workers[w].batch ensures id in Held(workers) {
    }
    forall id | id in x.batch ensures id in Held(after) {
      assert id in after[w].batch;
    }
  }

  lemma ContentsKept(job: Job, s: Pool, a: Action)
    requires ContentInv(job, s) && Enabled(job, s, a)
    ensures ContentInv(job, Apply(job, s, a))
  {
    hide IdSet, Written, Held, Ids;
    var t := Apply(job, s, a);
    match a {
      case ReadLine =>
      case EndReading =>
      case Receive(w) =>
        HeldUpdate(s.workers, w, t.workers[w]);
        IdsAppend(s.taken, s.channel[0]);
        BatchAppend(s.workers[w].batch, s.channel[0]);
      case Write(w) =>
        HeldUpdate(s.workers, w, t.workers[w]);
        BatchEmpty();
      case WriteFails(w, landed) =>
        HeldUpdate(s.workers, w, t.workers[w]);
        BatchEmpty();
      case _ =>
        HeldUpdate(s.workers, a.w, t.workers[a.w]);
    }
  }

  lemma BatchEmpty()
    ensures IdSet([]) == {}
  {
  }

  lemma BatchAppend(batch: seq<int>, r: Record)
    ensures r.Ready? ==> IdSet(batch + [r.id]) == IdSet(batch) + {r.id}
  {
  }

  lemma StepKeepsInv(job: Job, s: Pool, a: Action)
    requires Inv(job, s) && Enabled(job, s, a)
    ensures Inv(job, Apply(job, s, a))
  {
    hide FlowInv, WorkerInv, FailureInv, CountInv, ContentInv, Apply, Enabled;
    FlowKept(job, s, a);
    WorkersKept(job, s, a);
    FailuresKept(job, s, a);
    CountsKept(job, s, a);
    ContentsKept(job, s, a);
  }

  lemma {:induction false} ReachableInv(job: Job, actions: seq<Action>, s: Pool)
    requires Reaches(job, actions, s)
    ensures Inv(job, s)
    decreases |actions|
  {
    hide Inv;
    if actions == [] {
      InitInv(job);
    } else {
      var n := |actions| - 1;
      var t :| Reaches(job, actions[..n], t) && Enabled(job, t, actions[n]) && s == Apply(job, t, actions[n]);
      ReachableInv(job, actions[..n], t);
      StepKeepsInv(job, t, actions[n]);
    }
  }

  // ----- every run ends -----

  /** A live worker's remaining steps, at most. */
  function Cost(w: Worker): nat {
    if w.phase.Running? then 1 + 2 * |w.batch| + (if w.uncounted > 0 then 1 else 0) else 0
  }

  function Measure(job: Job, s: Pool): nat
    requires s.pos <= |job.file|
  {
    4 * (|job.file| - s.pos) + (if s.producer.Reading? then 1 else 0) + 3 * |s.channel| + Sum(s.workers, Cost)
  }

  lemma StepsCostSomething(job: Job, s: Pool, a: Action)
    requires FlowInv(job, s) && Enabled(job, s, a)
    ensures Apply(job, s, a).pos <= |job.file| && Measure(job, Apply(job, s, a)) < Measure(job, s)
  {
    hide FlowInv, Written, IdSet, Sum, Records;
    assert s.pos <= |job.file| by { FlowBounds(job, s); }
    var t := Apply(job, s, a);
    match a {
      case ReadLine =>
      case EndReading =>
      case _ => SumUpdate(s.workers, a.w, t.workers[a.w], Cost);
    }
  }

  lemma FlowBounds(job: Job, s: Pool)
    requires FlowInv(job, s)
    ensures s.pos <= |job.file|
  {
  }

  /** No run is longer than this, whatever the schedule: the pool always stops. */
  lemma {:induction false} RunsAreBounded(job: Job, actions: seq<Action>, s: Pool)
    requires Reaches(job, actions, s)
    ensures s.pos <= |job.file|
    ensures |actions| + Measure(job, s) <= 4 * |job.file| + 1 + AtLeastOne(job.numWorkers)
    decreases |actions|
  {
    hide Apply, Enabled, Inv;
    if actions == [] {
      InitialCost(AtLeastOne(job.numWorkers));
    } else {
      var n := |actions| - 1;
      var t :| Reaches(job, actions[..n], t) && Enabled(job, t, actions[n]) && s == Apply(job, t, actions[n]);
      RunsAreBounded(job, actions[..n], t);
      ReachableInv(job, actions[..n], t);
      assert FlowInv(job, t) by { InvParts(job, t); }
      StepsCostSomething(job, t, actions[n]);
    }
  }

  lemma InvParts(job: Job, s: Pool)
    requires Inv(job, s)
    ensures FlowInv(job, s) && WorkerInv(job, s)
  {
  }

  lemma {:induction false} InitialCost(n: nat)
    ensures Sum(seq(n, _ => IdleWorker()), Cost) == n
    decreases n
  {
    if n > 0 {
      InitialCost(n - 1);
      assert seq(n, _ => IdleWorker())[..n - 1] == seq(n - 1, _ => IdleWorker());
    }
  }

  /** What a pool that has not returned can do next by itself: it never deadlocks. */
  lemma Progress(job: Job, s: Pool) returns (a: Action)
    requires FlowInv(job, s) && !Terminal(s)
    ensures Enabled(job, s, a) && !a.WriteFails? && !a.Panic?
  {
    hide Records, FirstBad;
    if s.producer.Reading? && s.pos == |job.file| {
      a := EndReading;
    } else if s.producer.Reading? && Enabled(job, s, ReadLine) {
      a := ReadLine;
    } else {
      var w :| 0 <= w < |s.workers| && Live(s, w);
      var worker := s.workers[w];
      a := if worker.uncounted > 0 then Count(w)
           else if s.channel != [] && |worker.batch| < AtLeastOne(job.batchSize) then Receive(w)
           else if worker.batch != [] then Write(w)
           else Return(w);
    }
  }

  lemma OneMore(job: Job, actions: seq<Action>, s: Pool, a: Action)
    requires Reaches(job, actions, s) && Enabled(job, s, a)
    ensures Reaches(job, actions + [a], Apply(job, s, a))
  {
    hide Apply, Enabled;
    var all := actions + [a];
    assert all[..|all| - 1] == actions && all[|all| - 1] == a;
  }

  /** From every reachable state the pool can run on, without a fault, until it returns. */
  lemma {:induction false} CanFinish(job: Job, actions: seq<Action>, s: Pool) returns (more: seq<Action>, t: Pool)
    requires Reaches(job, actions, s)
    ensures Reaches(job, actions + more, t) && Terminal(t) && t.faulted == s.faulted
    decreases 4 * |job.file| + 1 + AtLeastOne(job.numWorkers) - |actions|
  {
    hide Apply, Enabled, Inv, Terminal;
    if Terminal(s) {
      assert actions + [] == actions;
      return [], s;
    }
    ReachableInv(job, actions, s);
    InvParts(job, s);
    var a := Progress(job, s);
    var next := Apply(job, s, a);
    assert next.faulted == s.faulted by { OnlyFaultsFault(job, s, a); }
    OneMore(job, actions, s, a);
    RunsAreBounded(job, actions + [a], next);
    var rest;
    rest, t := CanFinish(job, actions + [a], next);
    more := [a] + rest;
    assert actions + more == actions + [a] + rest;
  }

  lemma OnlyFaultsFault(job: Job, s: Pool, a: Action)
    requires Enabled(job, s, a) && !a.WriteFails? && !a.Panic?
    ensures Apply(job, s, a).faulted == s.faulted
  {
  }

  /** A fault is a worker's failure, and leaves its batch unwritten but for what landed of it. */
  lemma FaultsFail(job: Job, s: Pool, a: Action)
    requires Enabled(job, s, a) && (a.WriteFails? || a.Panic?)
    ensures var t := Apply(job, s, a);
            t.faulted && t.workers[a.w].phase.Failed? && !Live(t, a.w) &&
            t.collection == s.collection + if a.WriteFails? then a.landed else {}
  {
  }

  // ----- what a failure means -----

  /** The error a worker failed with says why. */
  predicate Explained(s: Pool, phase: Phase) {
    match phase
    case Failed(Serialize) => Unserializable in s.taken
    case Failed(Read) => s.offSphere > MAX_OFF_SPHERE
    case Failed(_) => s.faulted
    case _ => true
  }

  predicate ErrorInv(s: Pool) {
    forall w :: 0 <= w < |s.workers| ==> Explained(s, s.workers[w].phase)
  }

  lemma ErrorsKept(job: Job, s: Pool, a: Action)
    requires ErrorInv(s) && Enabled(job, s, a)
    ensures ErrorInv(Apply(job, s, a))
  {
    hide IdSet, Written, AnyLive, Drained;
    var t := Apply(job, s, a);
    assert s.offSphere <= t.offSphere && (s.faulted ==> t.faulted) && s.taken <= t.taken;
    forall w | 0 <= w < |t.workers| ensures Explained(t, t.workers[w].phase) {
      assert Explained(s, s.workers[w].phase);
      assert Unserializable in s.taken ==> Unserializable in t.taken;
    }
  }

  lemma {:induction false} ReachableErrors(job: Job, actions: seq<Action>, s: Pool)
    requires Reaches(job, actions, s)
    ensures ErrorInv(s)
    decreases |actions|
  {
    hide Apply, Enabled, Explained;
    if actions == [] {
      IdleIsExplained(job);
    } else {
      var n := |actions| - 1;
      var t :| Reaches(job, actions[..n], t) && Enabled(job, t, actions[n]) && s == Apply(job, t, actions[n]);
      ReachableErrors(job, actions[..n], t);
      ErrorsKept(job, t, actions[n]);
    }
  }

  lemma IdleIsExplained(job: Job)
    ensures ErrorInv(Init(job))
  {
  }

  // ----- the verdict -----

  datatype Report = Report(read: nat, inserted: nat, skipped: nat)

  function Outcome(w: Worker): Result<Tally, IngestError> {
    if w.phase.Failed? then Err(w.phase.error) else Ok(w.tally)
  }

  function Outcomes(workers: seq<Worker>): seq<Result<Tally, IngestError>> {
    seq(|workers|, i requires 0 <= i < |workers| => Outcome(workers[i]))
  }

  /** What `ingest_jsonl` answers: the held read error first, then what `finish` makes of the
      workers. */
  function Verdict(s: Pool): Result<Report, IngestError>
    requires Terminal(s)
  {
    if s.producer == Stopped(BadLine) then Err(Read)
    else match Finished(Outcomes(s.workers))
      case Err(e) => Err(e)
      case Ok(tally) => Ok(Report(s.read, tally.inserted, tally.skipped))
  }

  /** A file the pool should accept: no bad line, nothing unserializable, the cap kept. */
  predicate Sound(file: seq<Line>) {
    (forall i :: 0 <= i < |file| ==> !Bad(file[i])) && Parsed(Unserializable) !in file &&
    |OffLines(file)| <= MAX_OFF_SPHERE
  }

  lemma SoundByRecords(file: seq<Line>)
    ensures Sound(file) <==>
            FirstBad(file) == |file| && Unserializable !in Records(file) && OffCount(Records(file)) <= MAX_OFF_SPHERE
  {
    RecordsMeaning(file);
    hide OffLines, Records, OffCount;
  }

  /** The report a file deserves: a function of its lines and of what was stored before. */
  function Expected(file: seq<Line>, initial: set<int>): Report {
    Report(|ParsedLines(file)|, |FileIds(file) - initial|, |OffLines(file)|)
  }

  lemma {:induction false} OutcomeSums(workers: seq<Worker>)
    requires forall w :: 0 <= w < |workers| ==> !workers[w].phase.Failed?
    ensures Sum(Outcomes(workers), InsertedOf) == Sum(workers, InsertedBy)
    ensures Sum(Outcomes(workers), SkippedOf) == Sum(workers, SkippedBy)
    decreases |workers|
  {
    if workers != [] {
      var n := |workers| - 1;
      OutcomeSums(workers[..n]);
      assert Outcomes(workers)[..n] == Outcomes(workers[..n]);
    }
  }

  /** A pool in which no worker failed has drained the channel and written every batch. */
  lemma NoFailureMeansAllDone(job: Job, s: Pool)
    requires FlowInv(job, s) && WorkerInv(job, s) && Terminal(s) && !AnyFailed(s)
    ensures s.channel == [] && s.producer != Stopped(NoReceivers)
    ensures Held(s.workers) == {} && Sum(s.workers, UncountedBy) == 0
  {
    hide FlowInv, Sum;
    forall w | 0 <= w < |s.workers| ensures s.workers[w].phase.Returned? {
      assert !Live(s, w);
    }
    assert s.workers[0].phase.Returned?;
    SumZero(s.workers, UncountedBy);
  }

  /** On a sound file nobody fails unless the database or a worker does by itself. */
  lemma SoundMeansNoFailure(job: Job, s: Pool)
    requires FlowInv(job, s) && FailureInv(s) && Sound(job.file) && !s.faulted
    ensures !AnyFailed(s)
  {
    hide AnyFailed, OffCount, Records, FirstBad, Sound;
    SoundByRecords(job.file);
    var all := Records(job.file);
    RecordsMonotone(job.file, s.pos);
    assert s.taken == all[..|s.taken|] by {
      assert s.taken + s.channel == Records(job.file[..s.pos]);
      assert (s.taken + s.channel)[..|s.taken|] == s.taken;
    }
    OffCountMonotone(all, |s.taken|);
  }

  /** A finished pool answers `Ok` exactly on a sound file with no fault, and then with the one
      report that file deserves, everything storable being stored. */
  lemma VerdictExact(job: Job, s: Pool)
    requires Inv(job, s) && Terminal(s)
    ensures Verdict(s).Ok? <==> Sound(job.file) && !s.faulted
    ensures Verdict(s).Ok? ==>
              Verdict(s) == Ok(Expected(job.file, job.initial)) &&
              s.collection == job.initial + FileIds(job.file) &&
              s.insertedTotal == job.counter + |FileIds(job.file) - job.initial|
  {
    hide Verdict, Expected, Sound, AnyFailed, FlowInv, WorkerInv, FailureInv, CountInv, ContentInv, Records, FileIds,
      Held, Sum;
    SoundByRecords(job.file);
    if Sound(job.file) && !s.faulted {
      SoundMeansNoFailure(job, s);
    }
    OkMeansNoFailure(s);
    if !AnyFailed(s) {
      NoFailureMeansAllDone(job, s);
      FinishedCleanly(job, s);
      match s.producer.why {
        case EndOfFile =>
        case BadLine =>
        case NoReceivers => assert false;
      }
    }
  }

  lemma OkMeansNoFailure(s: Pool)
    requires Terminal(s)
    ensures Verdict(s).Ok? <==> s.producer != Stopped(BadLine) && !AnyFailed(s)
  {
    hide AnyFailed, Outcomes, Finished;
    FailedMeansError(s);
  }

  lemma FailedMeansError(s: Pool)
    ensures Finished(Outcomes(s.workers)).Err? <==> AnyFailed(s)
  {
    hide Sum;
    assert forall w :: 0 <= w < |s.workers| ==> Outcomes(s.workers)[w] == Outcome(s.workers[w]);
  }

  lemma FinishedCleanly(job: Job, s: Pool)
    requires Inv(job, s) && Terminal(s) && !AnyFailed(s)
    requires s.channel == [] && s.producer != Stopped(NoReceivers)
    requires Held(s.workers) == {} && Sum(s.workers, UncountedBy) == 0
    ensures s.producer == Stopped(BadLine) <==> FirstBad(job.file) < |job.file|
    ensures s.producer == Stopped(EndOfFile) ==>
              Sound(job.file) && !s.faulted &&
              Verdict(s) == Ok(Expected(job.file, job.initial)) &&
              s.collection == job.initial + FileIds(job.file) &&
              s.insertedTotal == job.counter + |FileIds(job.file) - job.initial|
  {
    hide Held, Sum, Records, FileIds, Finished, Expected, Sound;
    match s.producer {
      case Stopped(BadLine) =>
        assert Bad(job.file[s.pos]) && s.pos == FirstBad(job.file);
      case Stopped(EndOfFile) =>
        assert s.pos == |job.file| == FirstBad(job.file);
        FinishedAtEnd(job, s);
    }
  }

  lemma FinishedAtEnd(job: Job, s: Pool)
    requires Inv(job, s) && Terminal(s) && !AnyFailed(s)
    requires s.channel == [] && s.producer == Stopped(EndOfFile)
    requires Held(s.workers) == {} && Sum(s.workers, UncountedBy) == 0
    ensures Sound(job.file) && !s.faulted
    ensures Verdict(s) == Ok(Expected(job.file, job.initial))
    ensures s.collection == job.initial + FileIds(job.file)
    ensures s.insertedTotal == job.counter + |FileIds(job.file) - job.initial|
  {
    SoundByRecords(job.file);
    RecordsMeaning(job.file);
    hide Held, Sum, Records, Ids, FileIds, ParsedLines, OffLines, Sound;
    assert job.file[..|job.file|] == job.file;
    assert s.taken + s.channel == s.taken;
    var ids := FileIds(job.file);
    assert |job.initial + ids| == |job.initial| + |ids - job.initial| by {
      assert job.initial + ids == job.initial + (ids - job.initial);
    }
    OutcomeSums(s.workers);
    FailedMeansError(s);
  }

  /** The verdict of any run that returns, under any schedule. */
  lemma AnyRunAnswers(job: Job, actions: seq<Action>, s: Pool)
    requires Reaches(job, actions, s) && Terminal(s)
    ensures Verdict(s).Ok? <==> Sound(job.file) && !s.faulted
    ensures Verdict(s).Ok? ==> Verdict(s) == Ok(Expected(job.file, job.initial))
    ensures Verdict(s).Ok? ==> s.collection == job.initial + FileIds(job.file)
    ensures Verdict(s).Ok? ==> s.insertedTotal == job.counter + |FileIds(job.file) - job.initial|
  {
    hide Verdict, Sound, Expected, Terminal, Inv, FileIds;
    ReachableInv(job, actions, s);
    VerdictExact(job, s);
  }

  /** An error names its cause: the bad line the reader stopped at comes first, and else it is the error
      of the first worker that failed, which holds of the file, or of the database and the workers. */
  lemma ErrorNamesItsCause(job: Job, actions: seq<Action>, s: Pool)
    requires Reaches(job, actions, s) && Terminal(s) && Verdict(s).Err?
    ensures s.producer == Stopped(BadLine) ==>
              Verdict(s) == Err(Read) && exists i :: 0 <= i < |job.file| && Bad(job.file[i])
    ensures s.producer != Stopped(BadLine) ==>
              exists w :: 0 <= w < |s.workers| && s.workers[w].phase == Failed(Verdict(s).error) &&
                          forall v :: 0 <= v < w ==> !s.workers[v].phase.Failed?
    ensures s.producer != Stopped(BadLine) ==>
              match Verdict(s).error
              case Serialize => Parsed(Unserializable) in job.file
              case Read => |OffLines(job.file)| > MAX_OFF_SPHERE
              case _ => s.faulted
  {
    ReachableErrors(job, actions, s);
    ReachableInv(job, actions, s);
    hide Reaches, Inv, OffLines;
    TakenIsInFile(job, s);
    if s.producer != Stopped(BadLine) {
      var outcomes := Outcomes(s.workers);
      assert FirstError(outcomes) == Some(Verdict(s).error);
      var w :| 0 <= w < |outcomes| && outcomes[w] == Err(Verdict(s).error) &&
        forall i :: 0 <= i < w ==> outcomes[i].Ok?;
      assert Explained(s, s.workers[w].phase);
      forall v | 0 <= v < w ensures !s.workers[v].phase.Failed? {
        assert outcomes[v].Ok?;
      }
    }
  }

  lemma TakenIsInFile(job: Job, s: Pool)
    requires Inv(job, s)
    ensures Unserializable in s.taken ==> Parsed(Unserializable) in job.file
    ensures s.offSphere <= |OffLines(job.file)|
    ensures s.producer == Stopped(BadLine) ==> exists i :: 0 <= i < |job.file| && Bad(job.file[i])
  {
    var all := Records(job.file);
    RecordsMeaning(job.file);
    RecordsMonotone(job.file, s.pos);
    hide Records, OffLines, OffCount, FirstBad;
    assert s.taken == all[..|s.taken|] by {
      assert s.taken + s.channel == Records(job.file[..s.pos]);
      assert (s.taken + s.channel)[..|s.taken|] == s.taken;
    }
    OffCountMonotone(all, |s.taken|);
  }

  /** Two fault-free calls on one file and one collection agree, whatever their numbers of
      workers, batch sizes, channel capacities and interleavings. */
  lemma ScheduleDoesNotMatter(job1: Job, run1: seq<Action>, s1: Pool, job2: Job, run2: seq<Action>, s2: Pool)
    requires job1.file == job2.file && job1.initial == job2.initial
    requires Reaches(job1, run1, s1) && Terminal(s1) && !s1.faulted
    requires Reaches(job2, run2, s2) && Terminal(s2) && !s2.faulted
    ensures Verdict(s1).Ok? <==> Verdict(s2).Ok?
    ensures Verdict(s1).Ok? ==> Verdict(s1) == Verdict(s2) && s1.collection == s2.collection
  {
    hide Verdict, Sound, Expected, Terminal, Reaches;
    AnyRunAnswers(job1, run1, s1);
    AnyRunAnswers(job2, run2, s2);
  }

  /** The lines whose id was stored before, or came up earlier in the file. */
  function DuplicateLines(lines: seq<Line>, initial: set<int>): set<nat> {
    set i: nat | i < |lines| && lines[i].Parsed? && lines[i].record.Ready? &&
                 lines[i].record.id in initial + FileIds(lines[..i])
  }

  lemma DuplicatesAppend(lines: seq<Line>, line: Line, initial: set<int>)
    ensures |DuplicateLines(lines + [line], initial)| == |DuplicateLines(lines, initial)| +
            if line.Parsed? && line.record.Ready? && line.record.id in initial + FileIds(lines) then 1 else 0
  {
    hide FileIds;
    var all := lines + [line];
    assert forall i :: 0 <= i <= |lines| ==> all[..i] == lines[..i];
    assert lines[..|lines|] == lines;
    assert DuplicateLines(all, initial) ==
           DuplicateLines(lines, initial) +
           if line.Parsed? && line.record.Ready? && line.record.id in initial + FileIds(lines) then {|lines|} else {};
  }

  lemma {:induction false} EveryLineCounts(lines: seq<Line>, initial: set<int>)
    requires Parsed(Unserializable) !in lines
    ensures |ParsedLines(lines)| == |FileIds(lines) - initial| + |OffLines(lines)| + |DuplicateLines(lines, initial)|
    decreases |lines|
  {
    hide ParsedLines, OffLines, FileIds, DuplicateLines;
    if lines == [] {
      NoLines(initial);
    } else {
      var rest, last := lines[..|lines| - 1], lines[|lines| - 1];
      assert lines == rest + [last] && last in lines;
      EveryLineCounts(rest, initial);
      ParsedAppend(rest, last);
      OffAppend(rest, last);
      FileIdsAppend(rest, last);
      DuplicatesAppend(rest, last, initial);
      if last.Parsed? && last.record.Ready? {
        NewIdCounts(FileIds(rest), initial, last.record.id);
      }
    }
  }

  lemma NoLines(initial: set<int>)
    ensures ParsedLines([]) == {} && OffLines([]) == {} && DuplicateLines([], initial) == {} && FileIds([]) == {}
  {
  }

  lemma NewIdCounts(ids: set<int>, initial: set<int>, id: int)
    ensures |(ids + {id}) - initial| == |ids - initial| + if id in initial + ids then 0 else 1
  {
    if id in initial + ids {
      assert (ids + {id}) - initial == ids - initial;
    } else {
      assert (ids + {id}) - initial == (ids - initial) + {id};
    }
  }

  /** What was read is what was inserted, skipped as off-sphere, or there before. */
  lemma ReportBalances(job: Job, actions: seq<Action>, s: Pool)
    requires Reaches(job, actions, s) && Terminal(s) && Verdict(s).Ok?
    ensures var report := Verdict(s).value;
            report.read == report.inserted + report.skipped + |DuplicateLines(job.file, job.initial)|
  {
    hide Verdict, Terminal, Reaches, ParsedLines, OffLines, FileIds, DuplicateLines;
    AnyRunAnswers(job, actions, s);
    EveryLineCounts(job.file, job.initial);
  }

  // ----- ingesting again -----

  /** One call of `ingest_jsonl`, ended by its return or cut short at any point. */
  datatype Attempt = Attempt(job: Job, actions: seq<Action>, end: Pool)

  /** Attempts one after the other on one collection and one counter. */
  ghost predicate Attempts(attempts: seq<Attempt>, initial: set<int>, counter: nat) {
    && (forall k :: 0 <= k < |attempts| ==>
          Reaches(attempts[k].job, attempts[k].actions, attempts[k].end) && !attempts[k].end.faulted)
    && (forall k :: 0 <= k < |attempts| ==>
          attempts[k].job.initial == CollectionBefore(attempts[..k], initial) &&
          attempts[k].job.counter == CounterBefore(attempts[..k], counter))
  }

  function CollectionBefore(attempts: seq<Attempt>, initial: set<int>): set<int> {
    if attempts == [] then initial else attempts[|attempts| - 1].end.collection
  }

  function CounterBefore(attempts: seq<Attempt>, counter: nat): nat {
    if attempts == [] then counter else attempts[|attempts| - 1].end.insertedTotal
  }

  /** What cut-short attempts wrote but did not live to add to the counter. */
  function Uncounted(attempts: seq<Attempt>): nat {
    if attempts == [] then 0
    else Uncounted(attempts[..|attempts| - 1]) + Sum(attempts[|attempts| - 1].end.workers, UncountedBy)
  }

  /** The ids of the records the workers took, over all attempts. */
  function TakenIds(attempts: seq<Attempt>): set<int> {
    if attempts == [] then {}
    else TakenIds(attempts[..|attempts| - 1]) + Ids(attempts[|attempts| - 1].end.taken)
  }

  /** The ids that were in a batch when an attempt was cut short. */
  function DroppedIds(attempts: seq<Attempt>): set<int> {
    if attempts == [] then {}
    else DroppedIds(attempts[..|attempts| - 1]) + Held(attempts[|attempts| - 1].end.workers)
  }

  lemma LastAttempt(attempts: seq<Attempt>, initial: set<int>, counter: nat)
    requires Attempts(attempts, initial, counter) && attempts != []
    ensures var rest, last := attempts[..|attempts| - 1], attempts[|attempts| - 1];
            Attempts(rest, initial, counter) && Reaches(last.job, last.actions, last.end) && !last.end.faulted &&
            last.job.initial == CollectionBefore(rest, initial) && last.job.counter == CounterBefore(rest, counter)
  {
    hide Reaches, CollectionBefore, CounterBefore;
    var rest := attempts[..|attempts| - 1];
    forall k | 0 <= k < |rest| ensures rest[k] == attempts[k] && rest[..k] == attempts[..k] {
    }
  }

  /** Over any attempts the collection gains taken ids only, misses none but those of unwritten
      batches, and the counter is its growth less what was written and never counted. */
  lemma {:induction false} AttemptsAddUp(attempts: seq<Attempt>, initial: set<int>, counter: nat)
    requires Attempts(attempts, initial, counter)
    ensures CollectionBefore(attempts, initial) + DroppedIds(attempts) == initial + TakenIds(attempts)
    ensures initial <= CollectionBefore(attempts, initial)
    ensures CounterBefore(attempts, counter) + Uncounted(attempts) - counter ==
            |CollectionBefore(attempts, initial)| - |initial|
    decreases |attempts|
  {
    hide Attempts, Reaches, Sum, Held, Ids, Inv;
    if attempts != [] {
      var rest, last := attempts[..|attempts| - 1], attempts[|attempts| - 1];
      LastAttempt(attempts, initial, counter);
      AttemptsAddUp(rest, initial, counter);
      ReachableInv(last.job, last.actions, last.end);
      AttemptAddsUp(last.job, last.end);
      Telescope(initial, CollectionBefore(rest, initial), last.end.collection, DroppedIds(rest),
                Held(last.end.workers), TakenIds(rest), Ids(last.end.taken));
    }
  }

  lemma Telescope(a: set<int>, b: set<int>, c: set<int>, d1: set<int>, d2: set<int>, t1: set<int>, t2: set<int>)
    requires b + d1 == a + t1 && c + d2 == b + t2
    ensures c + (d1 + d2) == a + (t1 + t2)
  {
    assert c + (d1 + d2) == (c + d2) + d1 == (b + d1) + t2 == a + (t1 + t2);
  }

  lemma AttemptAddsUp(job: Job, s: Pool)
    requires Inv(job, s) && !s.faulted
    ensures s.collection + Held(s.workers) == job.initial + Ids(s.taken)
    ensures job.initial <= s.collection
    ensures s.insertedTotal + Sum(s.workers, UncountedBy) - job.counter == |s.collection| - |job.initial|
  {
  }

  /** Retrying a sound file after any number of cut-short attempts leaves exactly its ids added,
      each of them inserted once over all attempts together. */
  lemma RetryCompletes(attempts: seq<Attempt>, last: Attempt, initial: set<int>, counter: nat)
    requires Attempts(attempts + [last], initial, counter)
    requires forall k :: 0 <= k < |attempts| ==> attempts[k].job.file == last.job.file
    requires Terminal(last.end) && Sound(last.job.file)
    ensures last.end.collection == initial + FileIds(last.job.file)
    ensures last.end.insertedTotal + Uncounted(attempts) == counter + |FileIds(last.job.file) - initial|
    ensures Verdict(last.end) == Ok(Expected(last.job.file, CollectionBefore(attempts, initial)))
  {
    hide Reaches, Sum, Held, FileIds, Inv, Verdict, Sound, Expected, Terminal;
    var all := attempts + [last];
    assert all[..|attempts|] == attempts;
    assert all[|attempts|] == last;
    LastAttempt(all, initial, counter);
    TakenFromFile(attempts, last.job.file);
    hide Attempts;
    AnyRunAnswers(last.job, last.actions, last.end);
    AttemptsAddUp(attempts, initial, counter);
    var ids, before := FileIds(last.job.file), CollectionBefore(attempts, initial);
    assert before + ids == initial + ids by {
      assert before <= initial + TakenIds(attempts);
    }
    assert |before + ids| == |before| + |ids - before| by {
      assert before + ids == before + (ids - before);
    }
    assert |initial + ids| == |initial| + |ids - initial| by {
      assert initial + ids == initial + (ids - initial);
    }
  }

  /** A worker only ever takes what the file holds. */
  lemma {:induction false} TakenFromFile(attempts: seq<Attempt>, file: seq<Line>)
    requires forall k :: 0 <= k < |attempts| ==>
               attempts[k].job.file == file && Reaches(attempts[k].job, attempts[k].actions, attempts[k].end)
    ensures TakenIds(attempts) <= FileIds(file)
    decreases |attempts|
  {
    hide Reaches, Records, FirstBad, FileIds;
    RecordsMeaning(file);
    if attempts != [] {
      var n := |attempts| - 1;
      var last := attempts[n];
      TakenFromFile(attempts[..n], file);
      ReachableInv(last.job, last.actions, last.end);
      RecordsMonotone(file, last.end.pos);
      var s, all := last.end, Records(file);
      assert s.taken + s.channel <= all;
      forall k | 0 <= k < |s.taken| ensures s.taken[k] == all[k] {
        assert (s.taken + s.channel)[k] == s.taken[k];
      }
    }
  }

  /** Ingesting a file once more, after it was completely ingested, inserts nothing. */
  lemma SecondIngestAddsNothing(job: Job, actions: seq<Action>, s: Pool)
    requires Reaches(job, actions, s) && Terminal(s) && Verdict(s).Ok?
    requires FileIds(job.file) <= job.initial
    ensures s.collection == job.initial && s.insertedTotal == job.counter && Verdict(s).value.inserted == 0
  {
    hide Verdict, Terminal, FileIds, Reaches;
    AnyRunAnswers(job, actions, s);
    assert FileIds(job.file) - job.initial == {};
    assert job.initial + FileIds(job.file) == job.initial;
  }
}
