// The alert work queue on Valkey.  A list's left end is index 0.
// Source: src/alert/base.rs (recover_temp_queue, retrieve_avro_bytes, remove_from_temp_queue,
// handle_process_result).
module WorkQueue {
  import opened Bytes
  import opened Wrappers

  type Packet = ByteString

  datatype ProcessAlertStatus = Added(candid: int) | Exists(candid: int)

  datatype QueueError = GetAvroBytesError

  function Last<T>(s: seq<T>): T
    requires s != []
  {
    s[|s| - 1]
  }

  function Init<T>(s: seq<T>): seq<T>
    requires s != []
  {
    s[..|s| - 1]
  }

  /** LREM with count 1: the first occurrence goes, compared by value. */
  function RemoveFirst<T(==)>(s: seq<T>, x: T): seq<T> {
    if s == [] then [] else if s[0] == x then s[1..] else [s[0]] + RemoveFirst(s[1..], x)
  }

  /** RPOPLPUSH conserves packets: what leaves one list enters the other. */
  lemma PopPushConserves<T>(source: seq<T>, target: seq<T>)
    requires source != []
    ensures multiset(Init(source)) == multiset(source) - multiset{Last(source)}
    ensures multiset([Last(source)] + target) == multiset(target) + multiset{Last(source)}
  {
    assert source == Init(source) + [Last(source)];
  }

  lemma {:induction false} RemoveFirstCount<T>(s: seq<T>, x: T)
    ensures multiset(RemoveFirst(s, x)) == multiset(s) - multiset{x}
  {
    if s != [] {
      assert s == [s[0]] + s[1..];
      if s[0] != x {
        RemoveFirstCount(s[1..], x);
      }
    }
  }

  /** It is the first one that goes, and the others stay in their order. */
  lemma {:induction false} RemovesTheFirst<T>(before: seq<T>, x: T, behind: seq<T>)
    requires x !in before
    ensures RemoveFirst(before + ([x] + behind), x) == before + behind
    ensures RemoveFirst(before, x) == before
  {
    var whole := before + ([x] + behind);
    if before == [] {
      assert whole == [x] + behind && before + behind == behind;
    } else {
      RemovesTheFirst(before[1..], x, behind);
      assert whole[1..] == before[1..] + ([x] + behind);
      assert before + behind == [before[0]] + (before[1..] + behind);
    }
  }

  class Valkey {
    var input: seq<Packet>
    var temp: seq<Packet>
    var output: seq<int>

    constructor ()
      ensures input == [] && temp == [] && output == []
    {
      input, temp, output := [], [], [];
    }

    /** Moves one packet from the input to the temp queue.  An empty packet is an error, and
        stays in the temp queue. */
    method RetrieveAvroBytes() returns (r: Result<Option<Packet>, QueueError>)
      modifies this`input, this`temp
      ensures old(input) == [] ==> r == Ok(None) && input == old(input) && temp == old(temp)
      ensures old(input) != [] ==>
                input == Init(old(input)) && temp == [Last(old(input))] + old(temp) &&
                r == if Last(old(input)) == [] then Err(GetAvroBytesError) else Ok(Some(Last(old(input))))
      ensures multiset(input) + multiset(temp) == old(multiset(input) + multiset(temp))
    {
      if input == [] {
        return Ok(None);
      }
      PopPushConserves(input, temp);
      var avroBytes := Last(input);
      input, temp := Init(input), [avroBytes] + temp;
      if avroBytes == [] {
        return Err(GetAvroBytesError);
      }
      return Ok(Some(avroBytes));
    }

    method RemoveFromTempQueue(avroBytes: Packet)
      modifies this`temp
      ensures temp == RemoveFirst(old(temp), avroBytes)
      ensures multiset(temp) == multiset(old(temp)) - multiset{avroBytes}
    {
      RemoveFirstCount(temp, avroBytes);
      temp := RemoveFirst(temp, avroBytes);
    }

    /** Queues an added alert for classification and acknowledges its packet; an alert already
        there is only acknowledged; a failed one keeps its packet in the temp queue. */
    method HandleProcessResult(avroBytes: Packet, result: Option<ProcessAlertStatus>)
      modifies this`temp, this`output
      ensures output == if result.Some? && result.value.Added?
                        then [result.value.candid] + old(output) else old(output)
      ensures temp == if result.Some? then RemoveFirst(old(temp), avroBytes) else old(temp)
    {
      match result {
        case Some(Added(candid)) =>
          output := [candid] + output;
          RemoveFromTempQueue(avroBytes);
        case Some(Exists(_)) =>
          RemoveFromTempQueue(avroBytes);
        case None =>
      }
    }

    /** Requeues every packet a dead worker left behind.  No worker must be running, so the
        temp queue holds exactly `pending` packets throughout. */
    method RecoverTempQueue() returns (recovered: nat)
      modifies this`input, this`temp
      ensures temp == [] && input == old(temp) + old(input)
      ensures recovered == |old(temp)|
    {
      var pending := |temp|;
      recovered := 0;
      for k := 0 to pending
        invariant recovered == k
        invariant temp == old(temp)[..pending - k]
        invariant input == old(temp)[pending - k..] + old(input)
      {
        if temp == [] {
          break;
        }
        input, temp := [Last(temp)] + input, Init(temp);
        recovered := recovered + 1;
      }
    }
  }
}
