// Alert workers taking packets from the queue through the database writes to the output queue,
// with a crash possible between any two steps.
// Source: src/alert/base.rs (run_alert_worker and the queue functions) and process_alert of
// src/alert/{ztf,lsst,decam,winter}.rs.
module AlertPipeline {
  import opened Wrappers
  import opened WorkQueue

  datatype Header = Header(candid: int, objectId: string)

  /** What decoding a packet gives; the same for byte-identical packets. */
  type Decoder = Packet -> Option<Header>

  datatype Pc =
    | Down
    | Idle
    | Got(packet: Packet)
    | Checked(packet: Packet, header: Header)
    | AuxStored(packet: Packet, header: Header)
    | CutoutsStored(packet: Packet, header: Header)
    | Processed(packet: Packet, result: Option<ProcessAlertStatus>)
    | Queued(packet: Packet, candid: int)
    | Retrying(packet: Packet)

  /** `enqueued`, `acked`, `dropped`, `added`, `queued` and `lost` record history: packets ever
      enqueued and ever acknowledged, copies a repeated LREM took out of the temp queue that nobody
      acknowledged since, candids for which `Added` was returned, candids ever pushed to the output
      queue (newest first), and stored candids whose worker stopped before the push. */
  datatype System = System(
    input: seq<Packet>, temp: seq<Packet>, output: seq<int>,
    aux: set<string>, cutouts: set<int>, alerts: map<int, string>,
    workers: seq<Pc>,
    enqueued: multiset<Packet>, acked: multiset<Packet>, dropped: multiset<Packet>,
    added: seq<int>, queued: seq<int>, lost: set<int>)

  datatype Action =
    | Enqueue(packet: Packet)
    | Start(w: nat)
    | Pop(w: nat, replied: bool)
    | CheckExists(w: nat)
    | StoreAux(w: nat, acknowledged: bool)
    | StoreCutouts(w: nat, acknowledged: bool)
    | InsertAlert(w: nat, acknowledged: bool)
    | Fail(w: nat)
    | Push(w: nat)
    | Acknowledge(w: nat, replied: bool)
    | Reacknowledge(w: nat, replied: bool)
    | Skip(w: nat)
    | Crash(w: nat)
    | Recover
    | Consume

  predicate Initial(s: System) {
    s.input == [] && s.temp == [] && s.output == [] && s.aux == {} && s.cutouts == {} &&
    s.alerts == map[] && (forall w :: 0 <= w < |s.workers| ==> s.workers[w].Down?) &&
    s.enqueued == multiset{} && s.acked == multiset{} && s.dropped == multiset{} &&
    s.added == [] && s.queued == [] && s.lost == {}
  }

  predicate NoWorkerRunning(s: System) {
    forall w :: 0 <= w < |s.workers| ==> s.workers[w].Down?
  }

  predicate Processing(pc: Pc) {
    pc.Got? || pc.Checked? || pc.AuxStored? || pc.CutoutsStored?
  }

  predicate Enabled(s: System, a: Action) {
    match a
    case Enqueue(_) => true
    case Start(w) => w < |s.workers| && s.workers[w].Down?
    case Pop(w, _) => w < |s.workers| && s.workers[w].Idle? && s.input != []
    case CheckExists(w) => w < |s.workers| && s.workers[w].Got?
    case StoreAux(w, _) => w < |s.workers| && s.workers[w].Checked?
    case StoreCutouts(w, _) => w < |s.workers| && s.workers[w].AuxStored?
    case InsertAlert(w, _) => w < |s.workers| && s.workers[w].CutoutsStored?
    case Fail(w) => w < |s.workers| && Processing(s.workers[w])
    case Push(w) =>
      w < |s.workers| && s.workers[w].Processed? &&
      s.workers[w].result.Some? && s.workers[w].result.value.Added?
    case Acknowledge(w, _) =>
      w < |s.workers| &&
      (s.workers[w].Queued? ||
       (s.workers[w].Processed? && s.workers[w].result.Some? && s.workers[w].result.value.Exists?))
    case Reacknowledge(w, _) => w < |s.workers| && s.workers[w].Retrying?
    case Skip(w) => w < |s.workers| && s.workers[w].Processed? && s.workers[w].result.None?
    case Crash(w) => w < |s.workers| && !s.workers[w].Down?
    case Recover => NoWorkerRunning(s) && s.temp != []
    case Consume => s.output != []
  }

  function SetPc(s: System, w: nat, pc: Pc): System
    requires w < |s.workers|
  {
    s.(workers := s.workers[w := pc])
  }

  /** The candid a worker has stored but not yet pushed. */
  function Pending(pc: Pc): set<int> {
    if pc.Processed? && pc.result.Some? && pc.result.value.Added? then {pc.result.value.candid} else {}
  }

  function Next(s: System, a: Action, decode: Decoder): System
    requires Enabled(s, a)
  {
    match a
    case Enqueue(p) => s.(input := [p] + s.input, enqueued := s.enqueued + multiset{p})
    case Start(w) => SetPc(s, w, Idle)
    case Pop(w, replied) =>
      var p := Last(s.input);
      SetPc(s.(input := Init(s.input), temp := [p] + s.temp), w,
            if replied && p != [] then Got(p) else Idle)
    case CheckExists(w) =>
      var p := s.workers[w].packet;
      SetPc(s, w,
            if decode(p).None? then Processed(p, None)
            else if decode(p).value.candid in s.alerts then Processed(p, Some(Exists(decode(p).value.candid)))
            else Checked(p, decode(p).value))
    case StoreAux(w, acknowledged) =>
      var pc := s.workers[w];
      SetPc(s.(aux := s.aux + {pc.header.objectId}), w,
            if acknowledged then AuxStored(pc.packet, pc.header) else Processed(pc.packet, None))
    case StoreCutouts(w, acknowledged) =>
      var pc := s.workers[w];
      SetPc(s.(cutouts := s.cutouts + {pc.header.candid}), w,
            if acknowledged then CutoutsStored(pc.packet, pc.header) else Processed(pc.packet, None))
    case InsertAlert(w, acknowledged) =>
      var pc := s.workers[w];
      var candid := pc.header.candid;
      if candid in s.alerts then SetPc(s, w, Processed(pc.packet, Some(Exists(candid))))
      else if acknowledged then
        SetPc(s.(alerts := s.alerts[candid := pc.header.objectId], added := [candid] + s.added), w,
              Processed(pc.packet, Some(Added(candid))))
      else
        SetPc(s.(alerts := s.alerts[candid := pc.header.objectId], lost := s.lost + {candid}), w,
              Processed(pc.packet, None))
    case Fail(w) => SetPc(s, w, Processed(s.workers[w].packet, None))
    case Push(w) =>
      var candid := s.workers[w].result.value.candid;
      SetPc(s.(output := [candid] + s.output, queued := [candid] + s.queued), w,
            Queued(s.workers[w].packet, candid))
    case Acknowledge(w, replied) =>
      var p := s.workers[w].packet;
      SetPc(s.(temp := RemoveFirst(s.temp, p), acked := s.acked + multiset{p},
               dropped := if p in s.temp then s.dropped else s.dropped - multiset{p}), w,
            if replied then Idle else Retrying(p))
    case Reacknowledge(w, replied) =>
      var p := s.workers[w].packet;
      SetPc(s.(temp := RemoveFirst(s.temp, p),
               dropped := if p in s.temp then s.dropped + multiset{p} else s.dropped), w,
            if replied then Idle else Retrying(p))
    case Skip(w) => SetPc(s, w, Idle)
    case Crash(w) => SetPc(s.(lost := s.lost + Pending(s.workers[w])), w, Down)
    case Recover => s.(input := [Last(s.temp)] + s.input, temp := Init(s.temp))
    case Consume => s.(output := Init(s.output))
  }

  predicate Run(s: System, actions: seq<Action>, t: System, decode: Decoder)
    decreases |actions|
  {
    if actions == [] then s == t
    else Enabled(s, actions[0]) && Run(Next(s, actions[0], decode), actions[1..], t, decode)
  }

  // ----- conservation of packets -----

  predicate Holds(pc: Pc, p: Packet) {
    !pc.Down? && !pc.Idle? && !pc.Retrying? && pc.packet == p
  }

  /** How many live workers hold a packet with these bytes. */
  function Held(workers: seq<Pc>, p: Packet): nat {
    if workers == [] then 0 else (if Holds(workers[0], p) then 1 else 0) + Held(workers[1..], p)
  }

  lemma {:induction false} HeldUpdate(workers: seq<Pc>, w: nat, pc: Pc, p: Packet)
    requires w < |workers|
    ensures Held(workers[w := pc], p) ==
            Held(workers, p) - (if Holds(workers[w], p) then 1 else 0) + (if Holds(pc, p) then 1 else 0)
  {
    if w == 0 {
      assert workers[0 := pc][1..] == workers[1..];
    } else {
      HeldUpdate(workers[1..], w - 1, pc, p);
      assert workers[w := pc][1..] == workers[1..][w - 1 := pc];
    }
  }

  lemma {:induction false} HolderCounts(workers: seq<Pc>, w: nat, p: Packet)
    requires w < |workers| && Holds(workers[w], p)
    ensures Held(workers, p) >= 1
  {
    if w > 0 {
      HolderCounts(workers[1..], w - 1, p);
    }
  }

  lemma {:induction false} DownHoldsNothing(workers: seq<Pc>, p: Packet)
    requires forall w :: 0 <= w < |workers| ==> workers[w].Down? || workers[w].Idle?
    ensures Held(workers, p) == 0
  {
    if workers != [] {
      DownHoldsNothing(workers[1..], p);
    }
  }

  ghost predicate Conserved(s: System) {
    multiset(s.input) + multiset(s.temp) + s.acked + s.dropped == s.enqueued
  }

  ghost predicate HeldInTemp(s: System) {
    forall p :: Held(s.workers, p) <= multiset(s.temp)[p] + s.dropped[p]
  }

  ghost predicate QueueInv(s: System) {
    Conserved(s) && HeldInTemp(s)
  }

  lemma PopCounts(input: seq<Packet>, temp: seq<Packet>, acked: multiset<Packet>, dropped: multiset<Packet>)
    requires input != []
    ensures var after := [Last(input)] + temp;
            multiset(Init(input)) + multiset(after) + acked + dropped ==
            multiset(input) + multiset(temp) + acked + dropped &&
            forall p :: multiset(after)[p] == multiset(temp)[p] + if p == Last(input) then 1 else 0
  {
    PopPushConserves(input, temp);
    hide Last, Init;
  }

  lemma PopKeepsQueue(s: System, w: nat, replied: bool, decode: Decoder)
    requires QueueInv(s) && Enabled(s, Pop(w, replied))
    ensures QueueInv(Next(s, Pop(w, replied), decode))
  {
    var t := Next(s, Pop(w, replied), decode);
    PopCounts(s.input, s.temp, s.acked, s.dropped);
    assert t.temp == [Last(s.input)] + s.temp && t.input == Init(s.input) && t.dropped == s.dropped;
    assert t.acked == s.acked && t.enqueued == s.enqueued && |t.workers| == |s.workers|;
    assert t.workers == s.workers[w := t.workers[w]] && forall p :: !Holds(s.workers[w], p);
    assert forall p :: Holds(t.workers[w], p) ==> p == Last(s.input);
    hide Held, Holds, Next, Enabled, Last, Init;
    forall p ensures Held(t.workers, p) <= multiset(t.temp)[p] + t.dropped[p] {
      HeldUpdate(s.workers, w, t.workers[w], p);
    }
  }

  /** A worker lets go of a packet, or of none, and at most one copy of it leaves the counts. */
  lemma ReleaseKeepsHeld(s: System, t: System, w: nat, packet: Packet)
    requires HeldInTemp(s) && w < |s.workers| == |t.workers| && t.workers == s.workers[w := t.workers[w]]
    requires forall p :: !Holds(t.workers[w], p)
    requires forall p :: multiset(t.temp)[p] + t.dropped[p] + (if Holds(s.workers[w], p) then 1 else 0) >=
                         multiset(s.temp)[p] + s.dropped[p]
    ensures HeldInTemp(t)
  {
    hide Held, Holds;
    forall p ensures Held(t.workers, p) <= multiset(t.temp)[p] + t.dropped[p] {
      HeldUpdate(s.workers, w, t.workers[w], p);
    }
  }

  lemma AcknowledgeCounts(input: multiset<Packet>, temp: seq<Packet>, acked: multiset<Packet>, dropped: multiset<Packet>,
                          p: Packet)
    requires multiset(temp)[p] + dropped[p] >= 1
    ensures var after := RemoveFirst(temp, p);
            var rest := if p in temp then dropped else dropped - multiset{p};
            input + multiset(after) + (acked + multiset{p}) + rest == input + multiset(temp) + acked + dropped &&
            forall q :: multiset(after)[q] + rest[q] + (if q == p then 1 else 0) == multiset(temp)[q] + dropped[q]
  {
    RemoveFirstCount(temp, p);
    hide RemoveFirst;
    assert p in temp <==> p in multiset(temp);
  }

  lemma ReacknowledgeCounts(input: multiset<Packet>, temp: seq<Packet>, acked: multiset<Packet>,
                            dropped: multiset<Packet>, p: Packet)
    ensures var after := RemoveFirst(temp, p);
            var rest := if p in temp then dropped + multiset{p} else dropped;
            input + multiset(after) + acked + rest == input + multiset(temp) + acked + dropped &&
            forall q :: multiset(after)[q] + rest[q] == multiset(temp)[q] + dropped[q]
  {
    RemoveFirstCount(temp, p);
    hide RemoveFirst;
    assert p in temp <==> p in multiset(temp);
  }

  lemma AcknowledgeKeepsQueue(s: System, w: nat, replied: bool, decode: Decoder)
    requires QueueInv(s) && Enabled(s, Acknowledge(w, replied))
    ensures QueueInv(Next(s, Acknowledge(w, replied), decode))
  {
    var t := Next(s, Acknowledge(w, replied), decode);
    var packet := s.workers[w].packet;
    hide RemoveFirst, Held;
    assert multiset(s.temp)[packet] + s.dropped[packet] >= 1 by {
      HolderCounts(s.workers, w, packet);
    }
    assert t.temp == RemoveFirst(s.temp, packet) && t.acked == s.acked + multiset{packet} && t.input == s.input;
    assert t.dropped == (if packet in s.temp then s.dropped else s.dropped - multiset{packet}) && t.enqueued == s.enqueued;
    assert |t.workers| == |s.workers| && t.workers == s.workers[w := t.workers[w]] && forall p :: !Holds(t.workers[w], p);
    assert forall p :: Holds(s.workers[w], p) <==> p == packet;
    hide Next, Enabled, HeldInTemp, Holds;
    AcknowledgeCounts(multiset(s.input), s.temp, s.acked, s.dropped, packet);
    ReleaseKeepsHeld(s, t, w, packet);
  }

  lemma ReacknowledgeKeepsQueue(s: System, w: nat, replied: bool, decode: Decoder)
    requires QueueInv(s) && Enabled(s, Reacknowledge(w, replied))
    ensures QueueInv(Next(s, Reacknowledge(w, replied), decode))
  {
    var t := Next(s, Reacknowledge(w, replied), decode);
    var packet := s.workers[w].packet;
    hide RemoveFirst, Held, HeldInTemp;
    ReacknowledgeCounts(multiset(s.input), s.temp, s.acked, s.dropped, packet);
    ReleaseKeepsHeld(s, t, w, packet);
    hide Holds;
  }

  lemma RecoverKeepsQueue(s: System, decode: Decoder)
    requires QueueInv(s) && Enabled(s, Recover)
    ensures QueueInv(Next(s, Recover, decode))
  {
    PopPushConserves(s.temp, s.input);
    forall p ensures Held(s.workers, p) == 0 {
      DownHoldsNothing(s.workers, p);
    }
  }

  /** Any other action of a worker leaves the queues alone and takes up no packet. */
  lemma WorkerKeepsQueue(s: System, t: System, w: nat)
    requires QueueInv(s) && w < |s.workers|
    requires |t.workers| == |s.workers| && t.workers == s.workers[w := t.workers[w]]
    requires t.input == s.input && t.temp == s.temp && t.acked == s.acked && t.enqueued == s.enqueued
    requires t.dropped == s.dropped
    requires forall p :: Holds(t.workers[w], p) ==> Holds(s.workers[w], p)
    ensures QueueInv(t)
  {
    forall p ensures Held(t.workers, p) <= multiset(t.temp)[p] + t.dropped[p] {
      HeldUpdate(s.workers, w, t.workers[w], p);
    }
  }

  lemma EnqueueKeepsQueue(s: System, t: System, p: Packet)
    requires QueueInv(s) && t.input == [p] + s.input && t.enqueued == s.enqueued + multiset{p}
    requires t.temp == s.temp && t.acked == s.acked && t.dropped == s.dropped && t.workers == s.workers
    ensures QueueInv(t)
  {
  }

  lemma SameQueues(s: System, t: System)
    requires QueueInv(s) && t.input == s.input && t.enqueued == s.enqueued
    requires t.temp == s.temp && t.acked == s.acked && t.dropped == s.dropped && t.workers == s.workers
    ensures QueueInv(t)
  {
  }

  lemma QueueInvKept(s: System, a: Action, decode: Decoder)
    requires QueueInv(s) && Enabled(s, a)
    ensures QueueInv(Next(s, a, decode))
  {
    hide Conserved, HeldInTemp, QueueInv;
    match a
    case Enqueue(p) => EnqueueKeepsQueue(s, Next(s, a, decode), p);
    case Pop(w, replied) => PopKeepsQueue(s, w, replied, decode);
    case Acknowledge(w, replied) => AcknowledgeKeepsQueue(s, w, replied, decode);
    case Reacknowledge(w, replied) => ReacknowledgeKeepsQueue(s, w, replied, decode);
    case Recover => RecoverKeepsQueue(s, decode);
    case Consume => SameQueues(s, Next(s, a, decode));
    case _ => WorkerKeepsQueue(s, Next(s, a, decode), a.w);
  }

  // ----- ordering of the database writes -----

  predicate Stored(s: System, candid: int) {
    candid in s.alerts && s.alerts[candid] in s.aux && candid in s.cutouts
  }

  predicate WorkerInv(s: System, pc: Pc, decode: Decoder) {
    match pc
    case Down => true
    case Idle => true
    case Got(_) => true
    case Checked(p, h) => decode(p) == Some(h)
    case AuxStored(p, h) => decode(p) == Some(h) && h.objectId in s.aux
    case CutoutsStored(p, h) => decode(p) == Some(h) && h.objectId in s.aux && h.candid in s.cutouts
    case Processed(p, result) =>
      result.Some? ==>
        decode(p).Some? && decode(p).value.candid == result.value.candid && Stored(s, result.value.candid)
    case Queued(p, candid) =>
      decode(p).Some? && decode(p).value.candid == candid && Stored(s, candid)
    case Retrying(p) => p in s.acked
  }

  predicate StoreInv(s: System, decode: Decoder) {
    (forall c :: c in s.alerts ==> Stored(s, c)) &&
    (forall w :: 0 <= w < |s.workers| ==> WorkerInv(s, s.workers[w], decode)) &&
    (forall p :: p in s.acked ==> decode(p).Some? && Stored(s, decode(p).value.candid)) &&
    (forall p :: p in s.dropped ==> p in s.acked)
  }

  /** The database only grows, so what a worker relied on stays true. */
  predicate DatabaseGrew(s: System, t: System) {
    s.aux <= t.aux && s.cutouts <= t.cutouts && s.acked <= t.acked &&
    (forall c :: c in s.alerts ==> c in t.alerts && t.alerts[c] == s.alerts[c])
  }

  lemma GrowthKeepsWorker(s: System, t: System, pc: Pc, decode: Decoder)
    requires DatabaseGrew(s, t) && WorkerInv(s, pc, decode)
    ensures WorkerInv(t, pc, decode)
  {
  }

  lemma OneWorkerMoves(s: System, t: System, w: nat, decode: Decoder)
    requires StoreInv(s, decode) && w < |s.workers| && DatabaseGrew(s, t)
    requires |t.workers| == |s.workers| && t.workers == s.workers[w := t.workers[w]]
    requires WorkerInv(t, t.workers[w], decode)
    requires forall c :: c in t.alerts && c !in s.alerts ==> Stored(t, c)
    requires forall p :: p in t.acked && p !in s.acked ==>
               decode(p).Some? && Stored(t, decode(p).value.candid)
    requires forall p :: p in t.dropped ==> p in t.acked
    ensures StoreInv(t, decode)
  {
    forall v | 0 <= v < |t.workers| ensures WorkerInv(t, t.workers[v], decode) {
      if v != w {
        GrowthKeepsWorker(s, t, s.workers[v], decode);
      }
    }
    forall c | c in s.alerts ensures Stored(t, c) {
      assert Stored(s, c);
    }
    forall p | p in s.acked ensures decode(p).Some? && Stored(t, decode(p).value.candid) {
      assert Stored(s, decode(p).value.candid);
    }
  }

  lemma WorkerAndAlert(s: System, w: nat, p: Packet, decode: Decoder)
    requires StoreInv(s, decode) && w < |s.workers|
    ensures WorkerInv(s, s.workers[w], decode)
    ensures decode(p).Some? && decode(p).value.candid in s.alerts ==> Stored(s, decode(p).value.candid)
    ensures forall q :: q in s.dropped ==> q in s.acked
  {
  }

  lemma AcknowledgeKeepsStore(s: System, w: nat, replied: bool, decode: Decoder)
    requires StoreInv(s, decode) && Enabled(s, Acknowledge(w, replied))
    ensures StoreInv(Next(s, Acknowledge(w, replied), decode), decode)
    ensures DatabaseGrew(s, Next(s, Acknowledge(w, replied), decode))
  {
    assert WorkerInv(s, s.workers[w], decode);
    OneWorkerMoves(s, Next(s, Acknowledge(w, replied), decode), w, decode);
  }

  lemma ReacknowledgeKeepsStore(s: System, w: nat, replied: bool, decode: Decoder)
    requires StoreInv(s, decode) && Enabled(s, Reacknowledge(w, replied))
    ensures StoreInv(Next(s, Reacknowledge(w, replied), decode), decode)
    ensures DatabaseGrew(s, Next(s, Reacknowledge(w, replied), decode))
  {
    assert WorkerInv(s, s.workers[w], decode);
    OneWorkerMoves(s, Next(s, Reacknowledge(w, replied), decode), w, decode);
  }

  lemma StoreInvKept(s: System, a: Action, decode: Decoder)
    requires StoreInv(s, decode) && Enabled(s, a)
    ensures StoreInv(Next(s, a, decode), decode)
    ensures DatabaseGrew(s, Next(s, a, decode))
  {
    hide StoreInv, Stored, DatabaseGrew, WorkerInv;
    match a
    case Enqueue(_) => SameDatabase(s, Next(s, a, decode), decode);
    case Recover => SameDatabase(s, Next(s, a, decode), decode);
    case Consume => SameDatabase(s, Next(s, a, decode), decode);
    case CheckExists(w) => StepsKeepStore(s, a, decode);
    case StoreAux(w, _) => StepsKeepStore(s, a, decode);
    case StoreCutouts(w, _) => StepsKeepStore(s, a, decode);
    case InsertAlert(w, acknowledged) => InsertKeepsStore(s, w, acknowledged, decode);
    case Acknowledge(w, replied) => AcknowledgeKeepsStore(s, w, replied, decode);
    case Reacknowledge(w, replied) => ReacknowledgeKeepsStore(s, w, replied, decode);
    case _ => QuietMovesKeepStore(s, a, decode);
  }

  lemma StepsKeepStore(s: System, a: Action, decode: Decoder)
    requires StoreInv(s, decode) && Enabled(s, a) && (a.CheckExists? || a.StoreAux? || a.StoreCutouts?)
    ensures StoreInv(Next(s, a, decode), decode) && DatabaseGrew(s, Next(s, a, decode))
  {
    hide StoreInv, Stored;
    WorkerAndAlert(s, a.w, s.workers[a.w].packet, decode);
    OneWorkerMoves(s, Next(s, a, decode), a.w, decode);
  }

  predicate QuietMove(a: Action) {
    a.Start? || a.Pop? || a.Fail? || a.Push? || a.Skip? || a.Crash?
  }

  lemma QuietMovesKeepStore(s: System, a: Action, decode: Decoder)
    requires StoreInv(s, decode) && Enabled(s, a) && QuietMove(a)
    ensures StoreInv(Next(s, a, decode), decode) && DatabaseGrew(s, Next(s, a, decode))
  {
    hide StoreInv, Stored, DatabaseGrew;
    QueueMoveKeepsStore(s, Next(s, a, decode), a.w, decode);
  }

  /** A step that writes nothing to the database and reports nothing new about it. */
  lemma QueueMoveKeepsStore(s: System, t: System, w: nat, decode: Decoder)
    requires StoreInv(s, decode) && w < |s.workers|
    requires |t.workers| == |s.workers| && t.workers == s.workers[w := t.workers[w]]
    requires t.aux == s.aux && t.cutouts == s.cutouts && t.alerts == s.alerts && t.acked == s.acked
    requires t.dropped == s.dropped
    requires WorkerInv(s, s.workers[w], decode) ==> WorkerInv(s, t.workers[w], decode)
    ensures StoreInv(t, decode) && DatabaseGrew(s, t)
  {
    GrowthKeepsWorker(s, t, t.workers[w], decode);
    OneWorkerMoves(s, t, w, decode);
  }

  lemma SameDatabase(s: System, t: System, decode: Decoder)
    requires StoreInv(s, decode)
    requires t.aux == s.aux && t.cutouts == s.cutouts && t.alerts == s.alerts
    requires t.workers == s.workers && t.acked == s.acked && t.dropped == s.dropped
    ensures StoreInv(t, decode) && DatabaseGrew(s, t)
  {
    forall w | 0 <= w < |t.workers| ensures WorkerInv(t, t.workers[w], decode) {
      GrowthKeepsWorker(s, t, s.workers[w], decode);
    }
    forall c | c in s.alerts ensures Stored(t, c) {
      assert Stored(s, c);
    }
    forall p | p in s.acked ensures Stored(t, decode(p).value.candid) {
      assert Stored(s, decode(p).value.candid);
    }
  }

  /** The alert goes in last, once its aux document and cutouts are there. */
  lemma InsertKeepsStore(s: System, w: nat, acknowledged: bool, decode: Decoder)
    requires StoreInv(s, decode) && Enabled(s, InsertAlert(w, acknowledged))
    ensures StoreInv(Next(s, InsertAlert(w, acknowledged), decode), decode)
    ensures DatabaseGrew(s, Next(s, InsertAlert(w, acknowledged), decode))
  {
    assert WorkerInv(s, s.workers[w], decode);
    var candid := s.workers[w].header.candid;
    assert candid in s.alerts ==> Stored(s, candid);
    OneWorkerMoves(s, Next(s, InsertAlert(w, acknowledged), decode), w, decode);
  }

  // ----- what is reported and queued -----

  predicate Distinct<T(==)>(s: seq<T>) {
    forall i, j :: 0 <= i < j < |s| ==> s[i] != s[j]
  }

  predicate IsPending(s: System, w: nat, c: int) {
    w < |s.workers| && c in Pending(s.workers[w])
  }

  ghost predicate SomePending(s: System, c: int) {
    exists w :: IsPending(s, w, c)
  }

  /** Every stored candid was pushed, or a worker is about to push it, or its worker stopped in
      between: exactly one of the three. */
  ghost predicate PushInv(s: System) {
    (forall c :: c in s.alerts <==> c in s.queued || c in s.lost || SomePending(s, c)) &&
    (forall w, c :: IsPending(s, w, c) ==> c !in s.queued && c !in s.lost) &&
    (forall v, w, c :: IsPending(s, v, c) && IsPending(s, w, c) ==> v == w) &&
    (forall c :: c in s.queued ==> c !in s.lost) &&
    Distinct(s.queued) && s.output <= s.queued &&
    Distinct(s.added) && forall c :: c in s.added ==> c in s.alerts
  }

  lemma SamePending(s: System, t: System)
    requires |t.workers| == |s.workers|
    requires forall w :: 0 <= w < |s.workers| ==> Pending(t.workers[w]) == Pending(s.workers[w])
    ensures forall w, c :: IsPending(t, w, c) <==> IsPending(s, w, c)
    ensures forall c :: SomePending(t, c) <==> SomePending(s, c)
  {
    forall w: nat, c ensures IsPending(t, w, c) <==> IsPending(s, w, c) {
      if w < |s.workers| {
        assert Pending(t.workers[w]) == Pending(s.workers[w]);
      }
    }
    forall c ensures SomePending(t, c) <==> SomePending(s, c) {
      if SomePending(t, c) {
        var w :| IsPending(t, w, c);
        assert IsPending(s, w, c);
      }
      if SomePending(s, c) {
        var w :| IsPending(s, w, c);
        assert IsPending(t, w, c);
      }
    }
  }

  /** Steps that store, report and push nothing. */
  lemma QuietKeepsPush(s: System, t: System)
    requires PushInv(s)
    requires t.alerts == s.alerts && t.queued == s.queued && t.lost == s.lost
    requires t.output <= s.output && t.added == s.added && |t.workers| == |s.workers|
    requires forall w :: 0 <= w < |s.workers| ==> Pending(t.workers[w]) == Pending(s.workers[w])
    ensures PushInv(t)
  {
    SamePending(s, t);
  }

  lemma QuietWorkerKeepsPush(s: System, t: System, w: nat)
    requires PushInv(s) && w < |s.workers|
    requires t.alerts == s.alerts && t.queued == s.queued && t.lost == s.lost
    requires t.output == s.output && t.added == s.added && |t.workers| == |s.workers|
    requires t.workers == s.workers[w := t.workers[w]] && Pending(t.workers[w]) == Pending(s.workers[w])
    ensures PushInv(t)
  {
    hide PushInv, Pending;
    QuietKeepsPush(s, t);
  }

  lemma PendingAfter(s: System, t: System, w: nat)
    requires w < |s.workers| && |t.workers| == |s.workers|
    requires t.workers == s.workers[w := t.workers[w]]
    ensures forall v, c :: IsPending(t, v, c) <==>
              if v == w then c in Pending(t.workers[w]) else IsPending(s, v, c)
    ensures forall c :: SomePending(t, c) ==> SomePending(s, c) || c in Pending(t.workers[w])
    ensures forall c :: SomePending(s, c) ==> SomePending(t, c) || c in Pending(s.workers[w])
    ensures forall c :: c in Pending(t.workers[w]) ==> SomePending(t, c)
  {
    forall c | SomePending(t, c) ensures SomePending(s, c) || c in Pending(t.workers[w]) {
      var v :| IsPending(t, v, c);
      assert v != w ==> IsPending(s, v, c);
    }
    forall c | SomePending(s, c) ensures SomePending(t, c) || c in Pending(s.workers[w]) {
      var v :| IsPending(s, v, c);
      assert v != w ==> IsPending(t, v, c);
    }
    forall c | c in Pending(t.workers[w]) ensures SomePending(t, c) {
      assert IsPending(t, w, c);
    }
  }

  /** A newly stored candid starts pending, or is lost at once when the reply is. */
  lemma InsertKeepsPush(s: System, w: nat, acknowledged: bool, decode: Decoder)
    requires PushInv(s) && Enabled(s, InsertAlert(w, acknowledged))
    ensures PushInv(Next(s, InsertAlert(w, acknowledged), decode))
  {
    var t := Next(s, InsertAlert(w, acknowledged), decode);
    var candid := s.workers[w].header.candid;
    PendingAfter(s, t, w);
    if candid !in s.alerts {
      assert candid !in s.queued && candid !in s.lost && !SomePending(s, candid);
      assert forall v :: !IsPending(s, v, candid);
      assert candid !in s.added;
    }
  }

  lemma PushKeepsPush(s: System, w: nat, decode: Decoder)
    requires PushInv(s) && Enabled(s, Push(w))
    ensures PushInv(Next(s, Push(w), decode))
  {
    var t := Next(s, Push(w), decode);
    var candid := s.workers[w].result.value.candid;
    PendingAfter(s, t, w);
    assert IsPending(s, w, candid);
    forall v, c | IsPending(t, v, c) ensures c !in t.queued && c !in t.lost {
      assert IsPending(s, v, c);
    }
  }

  lemma CrashKeepsPush(s: System, w: nat, decode: Decoder)
    requires PushInv(s) && Enabled(s, Crash(w))
    ensures PushInv(Next(s, Crash(w), decode))
  {
    var t := Next(s, Crash(w), decode);
    PendingAfter(s, t, w);
    forall c | c in Pending(s.workers[w]) ensures IsPending(s, w, c) && SomePending(s, c) {
      assert IsPending(s, w, c);
    }
    forall v, c | IsPending(t, v, c) ensures c !in t.queued && c !in t.lost {
      assert IsPending(s, v, c);
    }
  }

  lemma PushInvKept(s: System, a: Action, decode: Decoder)
    requires PushInv(s) && Enabled(s, a)
    ensures PushInv(Next(s, a, decode))
  {
    hide PushInv;
    match a
    case InsertAlert(w, acknowledged) => InsertKeepsPush(s, w, acknowledged, decode);
    case Push(w) => PushKeepsPush(s, w, decode);
    case Crash(w) => CrashKeepsPush(s, w, decode);
    case Enqueue(_) => QuietKeepsPush(s, Next(s, a, decode));
    case Recover => QuietKeepsPush(s, Next(s, a, decode));
    case Consume => QuietKeepsPush(s, Next(s, a, decode));
    case StoreAux(w, _) => QuietWorkerKeepsPush(s, Next(s, a, decode), w);
    case StoreCutouts(w, _) => QuietWorkerKeepsPush(s, Next(s, a, decode), w);
    case CheckExists(w) => QuietWorkerKeepsPush(s, Next(s, a, decode), w);
    case Start(w) => QuietWorkerKeepsPush(s, Next(s, a, decode), w);
    case Pop(w, _) => QuietWorkerKeepsPush(s, Next(s, a, decode), w);
    case Fail(w) => QuietWorkerKeepsPush(s, Next(s, a, decode), w);
    case _ => PacketEndsKeepPush(s, a, decode);
  }

  lemma PacketEndsKeepPush(s: System, a: Action, decode: Decoder)
    requires PushInv(s) && Enabled(s, a) && (a.Acknowledge? || a.Reacknowledge? || a.Skip?)
    ensures PushInv(Next(s, a, decode))
  {
    hide PushInv;
    QuietWorkerKeepsPush(s, Next(s, a, decode), a.w);
  }

  // ----- what every run guarantees -----

  ghost predicate Inv(s: System, decode: Decoder) {
    QueueInv(s) && StoreInv(s, decode) && PushInv(s)
  }

  lemma InitialInv(s: System, decode: Decoder)
    requires Initial(s)
    ensures Inv(s, decode)
  {
    forall p ensures Held(s.workers, p) == 0 {
      DownHoldsNothing(s.workers, p);
    }
    forall c ensures !SomePending(s, c) {
    }
  }

  lemma {:induction false} RunKeepsInv(s: System, actions: seq<Action>, t: System, decode: Decoder)
    requires Inv(s, decode) && Run(s, actions, t, decode)
    ensures Inv(t, decode) && DatabaseGrew(s, t)
    decreases |actions|
  {
    if actions != [] {
      var m := Next(s, actions[0], decode);
      QueueInvKept(s, actions[0], decode);
      StoreInvKept(s, actions[0], decode);
      PushInvKept(s, actions[0], decode);
      RunKeepsInv(m, actions[1..], t, decode);
    }
  }

  /** No packet is lost, with crashes, restarts and byte-identical packets: what was enqueued is
      in the input queue, in the temp queue or acknowledged, or a copy that a repeated LREM took, of
      a packet acknowledged once; and a packet in a live worker's hands is in the temp queue, once
      per holder, but for such copies. */
  lemma NoPacketLost(s: System, actions: seq<Action>, t: System, decode: Decoder)
    requires Initial(s) && Run(s, actions, t, decode)
    ensures multiset(t.input) + multiset(t.temp) + t.acked + t.dropped == t.enqueued
    ensures forall p :: Held(t.workers, p) <= multiset(t.temp)[p] + t.dropped[p]
    ensures forall p :: p in t.dropped ==> p in t.acked
  {
    InitialInv(s, decode);
    RunKeepsInv(s, actions, t, decode);
  }

  /** Only the retry of an acknowledgement whose reply was lost drops a copy, and exactly when a
      byte-identical packet is in the temp queue by then. */
  lemma DroppedExactly(s: System, a: Action, decode: Decoder, p: Packet)
    requires Enabled(s, a)
    ensures Next(s, a, decode).dropped[p] > s.dropped[p] <==>
            a.Reacknowledge? && s.workers[a.w].packet == p && p in s.temp
  {
    match a
    case Acknowledge(w, _) =>
    case Reacknowledge(w, _) =>
    case _ =>
  }

  predicate NoRetry(actions: seq<Action>) {
    forall k :: 0 <= k < |actions| ==> !actions[k].Reacknowledge?
  }

  /** Without such retries nothing is dropped. */
  lemma {:induction false} NothingDropped(s: System, actions: seq<Action>, t: System, decode: Decoder)
    requires s.dropped == multiset{} && Run(s, actions, t, decode) && NoRetry(actions)
    ensures t.dropped == multiset{}
    decreases |actions|
  {
    if actions != [] {
      var m := Next(s, actions[0], decode);
      assert !actions[0].Reacknowledge?;
      NothingDropped(m, actions[1..], t, decode);
    }
  }

  /** A packet leaves the temp queue only by acknowledgement, its retry, or recovery. */
  lemma LeavesTempOnly(s: System, a: Action, decode: Decoder, p: Packet)
    requires Enabled(s, a)
    requires multiset(Next(s, a, decode).temp)[p] < multiset(s.temp)[p]
    ensures ((a.Acknowledge? || a.Reacknowledge?) && s.workers[a.w].packet == p) || (a.Recover? && NoWorkerRunning(s))
  {
    match a
    case Pop(w, _) => PopPushConserves(s.input, s.temp);
    case Acknowledge(w, _) => RemoveFirstCount(s.temp, s.workers[w].packet);
    case Reacknowledge(w, _) => RemoveFirstCount(s.temp, s.workers[w].packet);
    case _ =>
  }

  /** A packet that is in neither queue any more was handled: it decodes, and its alert is stored together with its
      object's aux document and its cutouts. */
  lemma AcknowledgedIsStored(s: System, actions: seq<Action>, t: System, decode: Decoder, p: Packet)
    requires Initial(s) && Run(s, actions, t, decode)
    requires multiset(t.input)[p] + multiset(t.temp)[p] < t.enqueued[p]
    ensures decode(p).Some? && Stored(t, decode(p).value.candid)
  {
    InitialInv(s, decode);
    RunKeepsInv(s, actions, t, decode);
    assert t.enqueued[p] == multiset(t.input)[p] + multiset(t.temp)[p] + t.acked[p] + t.dropped[p];
    assert p in t.acked;
  }

  /** Ordering: a stored alert implies its aux document and its cutouts, at every moment. */
  lemma AlertImpliesAuxAndCutouts(s: System, actions: seq<Action>, t: System, decode: Decoder)
    requires Initial(s) && Run(s, actions, t, decode)
    ensures forall c :: c in t.alerts ==> t.alerts[c] in t.aux && c in t.cutouts
  {
    InitialInv(s, decode);
    RunKeepsInv(s, actions, t, decode);
    forall c | c in t.alerts ensures t.alerts[c] in t.aux && c in t.cutouts {
      assert Stored(t, c);
    }
  }

  /** `Added` is returned at most once per candid, each candid is pushed at most once, and the
      output queue holds only stored alerts, each at most once. */
  lemma AtMostOnce(s: System, actions: seq<Action>, t: System, decode: Decoder)
    requires Initial(s) && Run(s, actions, t, decode)
    ensures Distinct(t.added) && Distinct(t.queued) && Distinct(t.output)
    ensures forall c :: c in t.output ==> c in t.alerts
  {
    InitialInv(s, decode);
    RunKeepsInv(s, actions, t, decode);
    assert forall i :: 0 <= i < |t.output| ==> t.output[i] == t.queued[i];
  }

  /** Exactly which stored alerts reach the output queue: all but those being pushed right now
      and those whose worker stopped between the insert and the push. */
  lemma PushedUnlessStopped(s: System, actions: seq<Action>, t: System, decode: Decoder, c: int)
    requires Initial(s) && Run(s, actions, t, decode) && NoWorkerRunning(t)
    ensures c in t.queued <==> c in t.alerts && c !in t.lost
  {
    InitialInv(s, decode);
    RunKeepsInv(s, actions, t, decode);
    assert !SomePending(t, c);
  }

  /** Once every worker is down, recovery moves the temp queue back to the input. */
  lemma {:induction false} RecoveryEmptiesTemp(s: System, decode: Decoder)
    requires NoWorkerRunning(s)
    ensures Run(s, seq(|s.temp|, _ => Recover),
                s.(input := s.temp + s.input, temp := []), decode)
    decreases |s.temp|
  {
    var actions := seq(|s.temp|, _ => Recover);
    if s.temp == [] {
      assert s.temp + s.input == s.input;
    } else {
      var m := Next(s, Recover, decode);
      RecoveryEmptiesTemp(m, decode);
      assert actions[1..] == seq(|m.temp|, _ => Recover);
      assert m.temp + m.input == s.temp + s.input;
    }
  }

  lemma RunStep(s: System, a: Action, rest: seq<Action>, t: System, decode: Decoder)
    requires Enabled(s, a) && Run(Next(s, a, decode), rest, t, decode)
    ensures Run(s, [a] + rest, t, decode)
  {
    assert ([a] + rest)[1..] == rest;
  }

  /** Delivery is not at-least-once: a crash between the insert and the push makes the retry
      answer `Exists`, and the packet is acknowledged although its candid was never pushed. */
  lemma CrashAfterInsertSkipsThePush(s: System, decode: Decoder, p: Packet, h: Header)
    requires Initial(s) && |s.workers| == 1 && p != [] && decode(p) == Some(h)
    ensures exists actions, t ::
              Run(s, actions, t, decode) && t.input == [] && t.temp == [] && t.acked == multiset{p} &&
              h.candid in t.alerts && t.queued == []
  {
    var m := Next(Next(Next(s, Enqueue(p), decode), Start(0), decode), Pop(0, true), decode);
    assert m == s.(temp := [p], workers := [Got(p)], enqueued := multiset{p});
    var actions, t := CrashRun(m, decode, p, h);
    RunStep(Next(Next(s, Enqueue(p), decode), Start(0), decode), Pop(0, true), actions, t, decode);
    RunStep(Next(s, Enqueue(p), decode), Start(0), [Pop(0, true)] + actions, t, decode);
    RunStep(s, Enqueue(p), [Start(0)] + ([Pop(0, true)] + actions), t, decode);
  }

  /** From the packet in hand to the insert, and the crash that follows. */
  lemma CrashRun(m: System, decode: Decoder, p: Packet, h: Header)
    returns (actions: seq<Action>, t: System)
    requires m.workers == [Got(p)] && m.temp == [p] && m.input == [] && m.acked == multiset{}
    requires p != [] && decode(p) == Some(h) && m.alerts == map[] && m.queued == []
    ensures Run(m, actions, t, decode) && t.input == [] && t.temp == [] && t.acked == multiset{p}
    ensures h.candid in t.alerts && t.queued == []
  {
    hide Run;
    var m1 := Next(m, CheckExists(0), decode);
    var m2 := Next(m1, StoreAux(0, true), decode);
    assert m1.workers == [Checked(p, h)] && m2.workers == [AuxStored(p, h)];
    actions, t := InsertAndCrashRun(m2, decode, p, h);
    RunStep(m1, StoreAux(0, true), actions, t, decode);
    RunStep(m, CheckExists(0), [StoreAux(0, true)] + actions, t, decode);
    actions := [CheckExists(0)] + ([StoreAux(0, true)] + actions);
  }

  lemma InsertAndCrashRun(m: System, decode: Decoder, p: Packet, h: Header)
    returns (actions: seq<Action>, t: System)
    requires m.workers == [AuxStored(p, h)] && m.temp == [p] && m.input == [] && m.acked == multiset{}
    requires p != [] && decode(p) == Some(h) && m.alerts == map[] && m.queued == []
    ensures Run(m, actions, t, decode) && t.input == [] && t.temp == [] && t.acked == multiset{p}
    ensures h.candid in t.alerts && t.queued == []
  {
    hide Run;
    var m1 := Next(m, StoreCutouts(0, true), decode);
    var m2 := Next(m1, InsertAlert(0, true), decode);
    var m3 := Next(m2, Crash(0), decode);
    assert m1.workers == [CutoutsStored(p, h)] && m3.workers == [Down];
    actions, t := RetryRun(m3, decode, p, h);
    RunStep(m2, Crash(0), actions, t, decode);
    RunStep(m1, InsertAlert(0, true), [Crash(0)] + actions, t, decode);
    RunStep(m, StoreCutouts(0, true), [InsertAlert(0, true)] + ([Crash(0)] + actions), t, decode);
    actions := [StoreCutouts(0, true)] + ([InsertAlert(0, true)] + ([Crash(0)] + actions));
  }

  /** Recovery and the retry, which finds the alert already stored. */
  lemma RetryRun(m: System, decode: Decoder, p: Packet, h: Header)
    returns (actions: seq<Action>, t: System)
    requires m.workers == [Down] && m.temp == [p] && m.input == [] && m.acked == multiset{}
    requires p != [] && decode(p) == Some(h) && h.candid in m.alerts && m.queued == []
    ensures Run(m, actions, t, decode) && t.input == [] && t.temp == [] && t.acked == multiset{p}
    ensures h.candid in t.alerts && t.queued == []
  {
    var m1 := Next(m, Recover, decode);
    var m2 := Next(m1, Start(0), decode);
    var m3 := Next(m2, Pop(0, true), decode);
    var m4 := Next(m3, CheckExists(0), decode);
    t := Next(m4, Acknowledge(0, true), decode);
    assert m3.temp == [p] && m3.input == [];
    assert Run(t, [], t, decode);
    RunStep(m4, Acknowledge(0, true), [], t, decode);
    actions := [Acknowledge(0, true)] + [];
    RunStep(m3, CheckExists(0), actions, t, decode);
    actions := [CheckExists(0)] + actions;
    RunStep(m2, Pop(0, true), actions, t, decode);
    actions := [Pop(0, true)] + actions;
    RunStep(m1, Start(0), actions, t, decode);
    actions := [Start(0)] + actions;
    RunStep(m, Recover, actions, t, decode);
    actions := [Recover] + actions;
  }
}
