// What the alert workers get done: the order in which packets are taken, and that a worker left to
// itself finishes the packet it holds.
// Source: src/alert/base.rs (run_alert_worker, handle_process_result and the queue functions).
module AlertProgress {
  import opened Wrappers
  import opened WorkQueue
  import opened AlertPipeline

  // ----- first in, first out -----

  /** A queue in the order in which it is taken from: from its right end. */
  function OldestFirst<T>(queue: seq<T>): seq<T> {
    if queue == [] then [] else [Last(queue)] + OldestFirst(Init(queue))
  }

  lemma {:induction false} PushIsLast<T>(queue: seq<T>, p: T)
    ensures OldestFirst([p] + queue) == OldestFirst(queue) + [p]
    decreases |queue|
  {
    if queue == [] {
      assert Init([p] + queue) == [];
    } else {
      assert Init([p] + queue) == [p] + Init(queue);
      PushIsLast(Init(queue), p);
    }
  }

  /** What a step adds to the input queue: an arrival, or a recovered packet. */
  function Joining(s: System, a: Action): seq<Packet>
    requires Enabled(s, a)
  {
    match a
    case Enqueue(p) => [p]
    case Recover => [Last(s.temp)]
    case _ => []
  }

  /** What a step adds to the temp queue. */
  function Arriving(s: System, t: System): seq<Packet> {
    if |t.temp| > |s.temp| then t.temp[..|t.temp| - |s.temp|] else []
  }

  function Joined(s: System, actions: seq<Action>, t: System, decode: Decoder): seq<Packet>
    requires Run(s, actions, t, decode)
    decreases |actions|
  {
    if actions == [] then []
    else Joining(s, actions[0]) + Joined(Next(s, actions[0], decode), actions[1..], t, decode)
  }

  function Taken(s: System, actions: seq<Action>, t: System, decode: Decoder): seq<Packet>
    requires Run(s, actions, t, decode)
    decreases |actions|
  {
    if actions == [] then []
    else
      var m := Next(s, actions[0], decode);
      Arriving(s, m) + Taken(m, actions[1..], t, decode)
  }

  lemma {:induction false} RemovingShortens(temp: seq<Packet>, p: Packet)
    ensures |RemoveFirst(temp, p)| <= |temp|
  {
    if temp != [] {
      RemovingShortens(temp[1..], p);
    }
  }

  lemma StepIsFifo(s: System, a: Action, decode: Decoder)
    requires Enabled(s, a)
    ensures OldestFirst(s.input) + Joining(s, a) ==
            Arriving(s, Next(s, a, decode)) + OldestFirst(Next(s, a, decode).input)
  {
    hide RemoveFirst;
    var t := Next(s, a, decode);
    match a
    case Enqueue(p) => PushIsLast(s.input, p);
    case Recover => PushIsLast(s.input, Last(s.temp));
    case Acknowledge(w, _) => RemovingShortens(s.temp, s.workers[w].packet);
    case Reacknowledge(w, _) => RemovingShortens(s.temp, s.workers[w].packet);
    case _ =>
  }

  /** First in, first out, over every run: what was waiting and then joined is what was taken and what
      is waiting now, in this order. Recovered packets join behind those that wait. */
  lemma {:induction false} FirstInFirstOut(s: System, actions: seq<Action>, t: System, decode: Decoder)
    requires Run(s, actions, t, decode)
    ensures OldestFirst(s.input) + Joined(s, actions, t, decode) ==
            Taken(s, actions, t, decode) + OldestFirst(t.input)
    decreases |actions|
  {
    hide Next, Enabled, Joining, Arriving, OldestFirst;
    if actions != [] {
      var a, rest := actions[0], actions[1..];
      var m := Next(s, a, decode);
      StepIsFifo(s, a, decode);
      FirstInFirstOut(m, rest, t, decode);
      Exchange(OldestFirst(s.input), Joining(s, a), Joined(m, rest, t, decode), Arriving(s, m), OldestFirst(m.input),
               Taken(m, rest, t, decode), OldestFirst(t.input));
    }
  }

  lemma Exchange<T>(a: seq<T>, b: seq<T>, c: seq<T>, d: seq<T>, e: seq<T>, f: seq<T>, g: seq<T>)
    requires a + b == d + e && e + c == f + g
    ensures a + (b + c) == (d + f) + g
  {
    assert a + (b + c) == (a + b) + c == (d + e) + c == d + (e + c) == d + (f + g) == (d + f) + g;
  }

  /** What a step adds to the candids ever pushed, and what the filter workers take. */
  function Pushed(s: System, t: System): seq<int> {
    if |t.queued| > |s.queued| then t.queued[..|t.queued| - |s.queued|] else []
  }

  function Consumed(s: System, a: Action): seq<int>
    requires Enabled(s, a)
  {
    if a.Consume? then [Last(s.output)] else []
  }

  function AllPushed(s: System, actions: seq<Action>, t: System, decode: Decoder): seq<int>
    requires Run(s, actions, t, decode)
    decreases |actions|
  {
    if actions == [] then []
    else
      var m := Next(s, actions[0], decode);
      Pushed(s, m) + AllPushed(m, actions[1..], t, decode)
  }

  function AllConsumed(s: System, actions: seq<Action>, t: System, decode: Decoder): seq<int>
    requires Run(s, actions, t, decode)
    decreases |actions|
  {
    if actions == [] then []
    else Consumed(s, actions[0]) + AllConsumed(Next(s, actions[0], decode), actions[1..], t, decode)
  }

  lemma OutputStepIsFifo(s: System, a: Action, decode: Decoder)
    requires Enabled(s, a)
    ensures OldestFirst(s.output) + Pushed(s, Next(s, a, decode)) ==
            Consumed(s, a) + OldestFirst(Next(s, a, decode).output)
  {
    hide RemoveFirst;
    match a
    case Push(w) => PushIsLast(s.output, s.workers[w].result.value.candid);
    case _ =>
  }

  /** The candids are consumed in the order in which they were pushed, each push once. */
  lemma {:induction false} OutputFirstInFirstOut(s: System, actions: seq<Action>, t: System, decode: Decoder)
    requires Run(s, actions, t, decode)
    ensures OldestFirst(s.output) + AllPushed(s, actions, t, decode) ==
            AllConsumed(s, actions, t, decode) + OldestFirst(t.output)
    decreases |actions|
  {
    hide Next, Enabled, Pushed, Consumed, OldestFirst;
    if actions != [] {
      var a, rest := actions[0], actions[1..];
      var m := Next(s, a, decode);
      OutputStepIsFifo(s, a, decode);
      OutputFirstInFirstOut(m, rest, t, decode);
      Exchange(OldestFirst(s.output), Pushed(s, m), AllPushed(m, rest, t, decode), Consumed(s, a),
               OldestFirst(m.output), AllConsumed(m, rest, t, decode), OldestFirst(t.output));
    }
  }

  // ----- a worker left to itself -----

  /** A step of worker `w` that gets an answer. */
  predicate OwnStep(a: Action, w: nat) {
    match a
    case CheckExists(v) => v == w
    case StoreAux(v, acknowledged) => v == w && acknowledged
    case StoreCutouts(v, acknowledged) => v == w && acknowledged
    case InsertAlert(v, acknowledged) => v == w && acknowledged
    case Push(v) => v == w
    case Acknowledge(v, replied) => v == w && replied
    case _ => false
  }

  /** Whether the worker has yet to push its candid: unless the alert was there before. */
  predicate WillPush(s: System, pc: Pc, candid: int) {
    match pc
    case Processed(_, result) => result.Some? && result.value.Added?
    case Queued(_, _) => false
    case _ => candid !in s.alerts
  }

  /** The packet was worked off by `w` alone: acknowledged, its alert stored, and its candid pushed
      when the alert was new. */
  ghost predicate Delivers(s: System, actions: seq<Action>, t: System, decode: Decoder, w: nat, p: Packet, h: Header) {
    && w < |s.workers| && Run(s, actions, t, decode) && (forall a :: a in actions ==> OwnStep(a, w))
    && t.workers == s.workers[w := Idle]
    && t.acked == s.acked + multiset{p} && t.input == s.input && t.temp == RemoveFirst(s.temp, p)
    && t.alerts == (if h.candid in s.alerts then s.alerts else s.alerts[h.candid := h.objectId])
    && t.added == (if h.candid in s.alerts then s.added else [h.candid] + s.added)
    && t.queued == (if WillPush(s, s.workers[w], h.candid) then [h.candid] + s.queued else s.queued)
    && t.output == if WillPush(s, s.workers[w], h.candid) then [h.candid] + s.output else s.output
  }

  /** A step that only moves the worker on, before a run that delivers. */
  lemma DeliversAfter(s: System, a: Action, rest: seq<Action>, t: System, decode: Decoder, w: nat, p: Packet, h: Header)
    requires w < |s.workers| && Enabled(s, a) && OwnStep(a, w)
    requires var m := Next(s, a, decode);
             m.workers == s.workers[w := m.workers[w]] && m.acked == s.acked && m.input == s.input &&
             m.temp == s.temp && m.alerts == s.alerts && m.added == s.added && m.queued == s.queued &&
             m.output == s.output &&
             (WillPush(m, m.workers[w], h.candid) <==> WillPush(s, s.workers[w], h.candid)) &&
             Delivers(m, rest, t, decode, w, p, h)
    ensures Delivers(s, [a] + rest, t, decode, w, p, h)
  {
    hide Next, Enabled, RemoveFirst, Run, WillPush, OwnStep;
    RunStep(s, a, rest, t, decode);
    var m := Next(s, a, decode);
    assert m.workers[w := Idle] == s.workers[w := Idle];
  }

  lemma AcknowledgeDelivers(s: System, decode: Decoder, w: nat, p: Packet, h: Header)
    returns (actions: seq<Action>, t: System)
    requires Enabled(s, Acknowledge(w, true)) && s.workers[w].packet == p && h.candid in s.alerts
    ensures actions == [Acknowledge(w, true)] && Delivers(s, actions, t, decode, w, p, h)
  {
    var a := Acknowledge(w, true);
    t := Next(s, a, decode);
    actions := [a];
    assert Run(t, [], t, decode);
    RunStep(s, a, [], t, decode);
    assert [a] + [] == actions;
  }

  lemma PushDelivers(s: System, decode: Decoder, w: nat, p: Packet, h: Header)
    returns (actions: seq<Action>, t: System)
    requires w < |s.workers| && s.workers[w] == Processed(p, Some(Added(h.candid))) && h.candid in s.alerts
    ensures |actions| == 2 && Delivers(s, actions, t, decode, w, p, h)
  {
    hide RemoveFirst;
    var a := Push(w);
    var m := Next(s, a, decode);
    assert m.workers[w] == Queued(p, h.candid);
    actions, t := AcknowledgeDelivers(m, decode, w, p, h);
    RunStep(s, a, actions, t, decode);
    assert m.workers[w := Idle] == s.workers[w := Idle];
    actions := [a] + actions;
    hide Next, Enabled, Run;
  }

  lemma InsertDelivers(s: System, decode: Decoder, w: nat, p: Packet, h: Header)
    returns (actions: seq<Action>, t: System)
    requires w < |s.workers| && s.workers[w] == CutoutsStored(p, h)
    ensures |actions| <= 3 && Delivers(s, actions, t, decode, w, p, h)
  {
    var a := InsertAlert(w, true);
    var m := Next(s, a, decode);
    if h.candid in s.alerts {
      assert m.workers[w] == Processed(p, Some(Exists(h.candid)));
      actions, t := AcknowledgeDelivers(m, decode, w, p, h);
      DeliversAfter(s, a, actions, t, decode, w, p, h);
    } else {
      assert m.workers[w] == Processed(p, Some(Added(h.candid)));
      actions, t := PushDelivers(m, decode, w, p, h);
      RunStep(s, a, actions, t, decode);
      assert m.workers[w := Idle] == s.workers[w := Idle];
    }
    actions := [a] + actions;
    hide Next, Enabled, RemoveFirst, Run;
  }

  lemma CutoutsDeliver(s: System, decode: Decoder, w: nat, p: Packet, h: Header)
    returns (actions: seq<Action>, t: System)
    requires w < |s.workers| && s.workers[w] == AuxStored(p, h)
    ensures |actions| <= 4 && Delivers(s, actions, t, decode, w, p, h)
  {
    var a := StoreCutouts(w, true);
    actions, t := InsertDelivers(Next(s, a, decode), decode, w, p, h);
    DeliversAfter(s, a, actions, t, decode, w, p, h);
    actions := [a] + actions;
  }

  lemma AuxDelivers(s: System, decode: Decoder, w: nat, p: Packet, h: Header)
    returns (actions: seq<Action>, t: System)
    requires w < |s.workers| && s.workers[w] == Checked(p, h)
    ensures |actions| <= 5 && Delivers(s, actions, t, decode, w, p, h)
  {
    var a := StoreAux(w, true);
    actions, t := CutoutsDeliver(Next(s, a, decode), decode, w, p, h);
    DeliversAfter(s, a, actions, t, decode, w, p, h);
    actions := [a] + actions;
  }

  lemma CheckDelivers(s: System, decode: Decoder, w: nat, p: Packet, h: Header)
    returns (actions: seq<Action>, t: System)
    requires w < |s.workers| && s.workers[w] == Got(p) && decode(p) == Some(h)
    ensures |actions| <= 6 && Delivers(s, actions, t, decode, w, p, h)
    ensures h.candid in s.alerts ==> actions == [CheckExists(w), Acknowledge(w, true)]
  {
    var a := CheckExists(w);
    var m := Next(s, a, decode);
    if h.candid in s.alerts {
      actions, t := AcknowledgeDelivers(m, decode, w, p, h);
    } else {
      actions, t := AuxDelivers(m, decode, w, p, h);
    }
    DeliversAfter(s, a, actions, t, decode, w, p, h);
    actions := [a] + actions;
  }

  /** From every reachable state a worker that holds a packet which decodes, and has not failed on it,
      works it off in at most six answered steps of its own, and in two when the alert was there. */
  lemma EveryPacketCanBeDelivered(s: System, before: seq<Action>, m: System, decode: Decoder, w: nat)
    returns (after: seq<Action>, t: System)
    requires Initial(s) && Run(s, before, m, decode) && w < |m.workers|
    requires !m.workers[w].Down? && !m.workers[w].Idle? && !m.workers[w].Retrying?
    requires decode(m.workers[w].packet).Some? && !(m.workers[w].Processed? && m.workers[w].result.None?)
    ensures |after| <= 6
    ensures Delivers(m, after, t, decode, w, m.workers[w].packet, decode(m.workers[w].packet).value)
    ensures m.workers[w].Got? && decode(m.workers[w].packet).value.candid in m.alerts ==>
              after == [CheckExists(w), Acknowledge(w, true)]
  {
    InitialInv(s, decode);
    RunKeepsInv(s, before, m, decode);
    var pc := m.workers[w];
    var p, h := pc.packet, decode(pc.packet).value;
    Knows(m, w, decode);
    hide Delivers, Initial, Run, Inv, Stored, Next, WillPush;
    match pc
    case Got(_) => after, t := CheckDelivers(m, decode, w, p, h);
    case Checked(_, _) => after, t := AuxDelivers(m, decode, w, p, h);
    case AuxStored(_, _) => after, t := CutoutsDeliver(m, decode, w, p, h);
    case CutoutsStored(_, _) => after, t := InsertDelivers(m, decode, w, p, h);
    case Processed(_, Some(Added(_))) => after, t := PushDelivers(m, decode, w, p, h);
    case Processed(_, Some(Exists(_))) => after, t := AcknowledgeDelivers(m, decode, w, p, h);
    case Queued(_, _) => after, t := AcknowledgeDelivers(m, decode, w, p, h);
  }

  /** What a worker carries on is what its packet decodes to, and what it reports is stored. */
  lemma Knows(s: System, w: nat, decode: Decoder)
    requires Inv(s, decode) && w < |s.workers|
    ensures match s.workers[w]
            case Checked(p, h) => decode(p) == Some(h)
            case AuxStored(p, h) => decode(p) == Some(h)
            case CutoutsStored(p, h) => decode(p) == Some(h)
            case Processed(p, Some(result)) =>
              decode(p).Some? && decode(p).value.candid == result.candid && result.candid in s.alerts
            case Queued(p, candid) => decode(p).Some? && decode(p).value.candid == candid && candid in s.alerts
            case _ => true
  {
    assert WorkerInv(s, s.workers[w], decode);
  }

  /** A worker that cannot work its packet off lets go of it and is free again: the packet stays in the
      temp queue, unless it was acknowledged already and only the reply was lost. */
  lemma EveryOtherWorkerGoesOn(s: System, decode: Decoder, w: nat) returns (actions: seq<Action>, t: System)
    requires w < |s.workers|
    requires match s.workers[w]
             case Got(p) => decode(p).None?
             case Processed(_, result) => result.None?
             case Retrying(_) => true
             case Down => true
             case _ => false
    ensures |actions| <= 2 && Run(s, actions, t, decode) && t.workers == s.workers[w := Idle]
    ensures t.input == s.input && t.acked == s.acked && t.alerts == s.alerts && t.queued == s.queued
    ensures t.temp == if s.workers[w].Retrying? then RemoveFirst(s.temp, s.workers[w].packet) else s.temp
  {
    hide RemoveFirst;
    if s.workers[w].Got? {
      var m := Next(s, CheckExists(w), decode);
      t := Next(m, Skip(w), decode);
      assert Run(t, [], t, decode);
      RunStep(m, Skip(w), [], t, decode);
      RunStep(s, CheckExists(w), [Skip(w)] + [], t, decode);
      actions := [CheckExists(w)] + ([Skip(w)] + []);
    } else {
      var a := if s.workers[w].Processed? then Skip(w)
               else if s.workers[w].Down? then Start(w) else Reacknowledge(w, true);
      t := Next(s, a, decode);
      assert Run(t, [], t, decode);
      RunStep(s, a, [], t, decode);
      actions := [a] + [];
    }
  }

  /** A worker gives a packet up exactly on an error: the packet does not decode, a write failed or
      its reply was lost, and not when another worker was faster. */
  lemma GivesUpExactly(s: System, a: Action, decode: Decoder, w: nat)
    requires Enabled(s, a) && w < |s.workers| && Processing(s.workers[w])
    ensures w < |Next(s, a, decode).workers|
    ensures var pc := Next(s, a, decode).workers[w];
            pc.Processed? && pc.result.None? <==>
              match a
              case Fail(v) => v == w
              case CheckExists(v) => v == w && decode(s.workers[w].packet).None?
              case StoreAux(v, acknowledged) => v == w && !acknowledged
              case StoreCutouts(v, acknowledged) => v == w && !acknowledged
              case InsertAlert(v, acknowledged) => v == w && !acknowledged && s.workers[w].header.candid !in s.alerts
              case _ => false
  {
    hide RemoveFirst;
  }
}
