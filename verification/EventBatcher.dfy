// The bounded queue of analytics events and the flush task that sends them in batches.
// Source: src/api/analytics.rs (AnalyticsClient::capture, flush_loop, send_batch)
module EventBatcher {

  const MAX_BATCH_SIZE: nat := 250

  /** How a post to the analytics host ends; only a success is a delivery. */
  datatype Response = Success | HttpError | RequestFailed

  /** One post: the events of its batch, and whether they arrived. */
  datatype Post<E> = Post(events: seq<E>, delivered: bool)

  function Events<E>(posts: seq<Post<E>>): seq<E> {
    if posts == [] then [] else Events(posts[..|posts| - 1]) + posts[|posts| - 1].events
  }

  /** The events of the posts that went one way. */
  function Arrived<E>(posts: seq<Post<E>>, delivered: bool): seq<E> {
    if posts == [] then []
    else
      var last := posts[|posts| - 1];
      Arrived(posts[..|posts| - 1], delivered) + if last.delivered == delivered then last.events else []
  }

  lemma PostAppended<E>(posts: seq<Post<E>>, post: Post<E>)
    ensures Events(posts + [post]) == Events(posts) + post.events
    ensures Arrived(posts + [post], true) == Arrived(posts, true) + if post.delivered then post.events else []
    ensures Arrived(posts + [post], false) == Arrived(posts, false) + if post.delivered then [] else post.events
  {
    assert (posts + [post])[..|posts|] == posts;
  }

  /** Every event of every post arrived or did not. */
  lemma {:induction false} EveryEventIsSettled<E>(posts: seq<Post<E>>)
    ensures multiset(Events(posts)) == multiset(Arrived(posts, true)) + multiset(Arrived(posts, false))
    decreases |posts|
  {
    if posts != [] {
      EveryEventIsSettled(posts[..|posts| - 1]);
    }
  }

  /** An enabled client with its queue, and the flush task that empties it. */
  class Batcher<E> {
    const capacity: nat
    var running: bool       // whether the flush task is there
    var queue: seq<E>
    var batch: seq<E>
    var eventsSent: nat     // the two exported counters
    var eventsDropped: nat

    ghost var captures: nat           // calls of Capture
    ghost var rejected: nat           // calls of Capture that answered false
    ghost var accepted: seq<E>        // the events of the others, in order
    ghost var posts: seq<Post<E>>     // every batch handed to send_batch, in order

    /** First in, first out, nothing lost: what was sent, then the batch, then the queue is what
        was accepted; and every capture is sent, dropped or pending. */
    ghost predicate Valid()
      reads this
    {
      && 1 <= capacity && |queue| <= capacity
      && |batch| <= MAX_BATCH_SIZE
      && accepted == Events(posts) + batch + queue
      && (forall k :: 0 <= k < |posts| ==> 1 <= |posts[k].events| <= MAX_BATCH_SIZE)
      && eventsSent == |Arrived(posts, true)|
      && eventsDropped == |Arrived(posts, false)| + rejected
      && captures == rejected + |accepted|
      && captures == eventsSent + eventsDropped + |batch| + |queue|
    }

    /** Between two rounds of the flush loop the batch is never full. */
    ghost predicate Idle()
      reads this
    {
      Valid() && running && |batch| < MAX_BATCH_SIZE
    }

    constructor (queueCapacity: nat)
      ensures Idle() && capacity == (if queueCapacity == 0 then 1 else queueCapacity)
      ensures accepted == [] && posts == [] && captures == 0
    {
      capacity := if queueCapacity == 0 then 1 else queueCapacity;
      running, queue, batch, eventsSent, eventsDropped := true, [], [], 0, 0;
      captures, rejected, accepted, posts := 0, 0, [], [];
    }

    /** `capture`: never blocks; a full or closed queue drops the event and counts it. */
    method Capture(event: E) returns (r: bool)
      requires Valid()
      modifies this
      ensures Valid() && captures == old(captures) + 1
      ensures r <==> running && |old(queue)| < capacity
      ensures accepted == (if r then old(accepted) + [event] else old(accepted))
      ensures queue == (if r then old(queue) + [event] else old(queue))
      ensures eventsDropped == (if r then old(eventsDropped) else old(eventsDropped) + 1)
      ensures running == old(running) && batch == old(batch) && posts == old(posts) && eventsSent == old(eventsSent)
    {
      hide Events, Arrived;
      captures := captures + 1;
      if running && |queue| < capacity {
        queue := queue + [event];
        accepted := accepted + [event];
        return true;
      }
      rejected := rejected + 1;
      eventsDropped := eventsDropped + 1;
      return false;
    }

    /** `send_batch` on the taken batch: one attempt, counted either way, never retried. */
    method SendBatch(response: Response)
      requires Valid()
      modifies this
      ensures Valid() && batch == []
      ensures posts == old(posts) + if old(batch) == [] then [] else [Post(old(batch), response.Success?)]
      ensures eventsSent == old(eventsSent) + if response.Success? then |old(batch)| else 0
      ensures eventsDropped == old(eventsDropped) + if response.Success? then 0 else |old(batch)|
      ensures running == old(running) && queue == old(queue) && accepted == old(accepted) && captures == old(captures)
    {
      hide Events, Arrived;
      if batch == [] {
        return;
      }
      var count := |batch|;
      PostAppended(posts, Post(batch, response.Success?));
      posts := posts + [Post(batch, response.Success?)];
      batch := [];
      if response.Success? {
        eventsSent := eventsSent + count;
      } else {
        eventsDropped := eventsDropped + count;
      }
    }

    /** The receiving branch of the flush loop. `arrivals[k]` are the events captured while its
        k-th `try_recv` is being made. It stops on an empty queue or on a full batch, and a full
        batch is sent at once. */
    method OnReceive(arrivals: seq<seq<E>>, response: Response)
      requires Idle() && queue != [] && |arrivals| == MAX_BATCH_SIZE
      modifies this
      ensures Idle() && old(accepted) <= accepted
      ensures batch != [] ==> posts == old(posts) && queue == [] && old(batch) < batch
      ensures batch == [] ==> exists full :: posts == old(posts) + [Post(full, response.Success?)] &&
                                             |full| == MAX_BATCH_SIZE && old(batch) < full
    {
      hide Events, Arrived;
      batch, queue := batch + [queue[0]], queue[1..];
      var k := 0;
      while |batch| < MAX_BATCH_SIZE
        invariant Valid() && running && posts == old(posts)
        invariant old(batch) < batch && old(accepted) <= accepted
        invariant k < |batch|
      {
        CaptureAll(arrivals[k]);
        k := k + 1;
        if queue == [] {
          break;
        }
        batch, queue := batch + [queue[0]], queue[1..];
      }
      if |batch| >= MAX_BATCH_SIZE {
        SendBatch(response);
      }
    }

    method CaptureAll(events: seq<E>)
      requires Valid()
      modifies this
      ensures Valid() && captures == old(captures) + |events|
      ensures old(accepted) <= accepted && old(queue) <= queue
      ensures running == old(running) && batch == old(batch) && posts == old(posts)
    {
      for k := 0 to |events|
        invariant Valid() && captures == old(captures) + k
        invariant old(accepted) <= accepted && old(queue) <= queue
        invariant running == old(running) && batch == old(batch) && posts == old(posts)
      {
        var _ := Capture(events[k]);
      }
    }

    /** The ticker's branch: whatever was received is sent. */
    method OnTick(response: Response)
      requires Idle()
      modifies this
      ensures Idle() && batch == [] && queue == old(queue) && accepted == old(accepted)
      ensures Events(posts) + queue == accepted
    {
      SendBatch(response);
    }

    /** `recv` answers `None`: every sender is gone and the queue is empty. The last batch goes
        out and the flush task ends, with every accepted event posted exactly once and in order. */
    method OnClosed(response: Response)
      requires Idle() && queue == []
      modifies this
      ensures Valid() && !running && accepted == old(accepted) == Events(posts)
      ensures captures == eventsSent + eventsDropped
    {
      SendBatch(response);
      running := false;
    }
  }
}
