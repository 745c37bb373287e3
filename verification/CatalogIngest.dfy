// Records, batches and tallies of the catalog ingest, and the loops over them: the reader of a
// JSON-lines file, one insert worker, and the end of the pool.
// Source: src/catalogs/ingest.rs and src/catalogs/jsonl.rs
module CatalogIngest {
  import opened Wrappers

  /** How many off-sphere records one file may have. */
  const MAX_OFF_SPHERE: nat := 100

  /** A parsed record: storable under its id, off the sphere, or impossible to serialize. */
  datatype Record = Ready(id: int) | OffSphere | Unserializable

  /** A line of a JSON-lines file. */
  datatype Line = Blank | Unreadable | Malformed | Parsed(record: Record)

  datatype IngestError = Serialize | Mongo | Read | WorkerPanic

  datatype Tally = Tally(inserted: nat, skipped: nat)

  predicate Bad(line: Line) {
    line.Unreadable? || line.Malformed?
  }

  // ----- sums, and what a sequence of lines or records amounts to -----

  function Sum<T>(s: seq<T>, f: T -> nat): nat {
    if s == [] then 0 else Sum(s[..|s| - 1], f) + f(s[|s| - 1])
  }

  lemma SumAppend<T>(s: seq<T>, x: T, f: T -> nat)
    ensures Sum(s + [x], f) == Sum(s, f) + f(x)
  {
    assert (s + [x])[..|s|] == s;
  }

  lemma {:induction false} SumUpdate<T>(s: seq<T>, k: nat, x: T, f: T -> nat)
    requires k < |s|
    ensures Sum(s[k := x], f) + f(s[k]) == Sum(s, f) + f(x)
    decreases |s|
  {
    var n := |s| - 1;
    if k == n {
      assert s[k := x][..n] == s[..n];
    } else {
      SumUpdate(s[..n], k, x, f);
      assert s[k := x][..n] == s[..n][k := x];
    }
  }

  lemma {:induction false} SumZero<T>(s: seq<T>, f: T -> nat)
    ensures Sum(s, f) == 0 <==> forall k :: 0 <= k < |s| ==> f(s[k]) == 0
    decreases |s|
  {
    if s != [] {
      SumZero(s[..|s| - 1], f);
      assert forall k :: 0 <= k < |s| - 1 ==> s[..|s| - 1][k] == s[k];
    }
  }

  /** The records of the lines that hold one, in file order. */
  function Records(lines: seq<Line>): seq<Record> {
    if lines == [] then []
    else
      var last := lines[|lines| - 1];
      Records(lines[..|lines| - 1]) + if last.Parsed? then [last.record] else []
  }

  function OneIfOff(record: Record): nat {
    if record.OffSphere? then 1 else 0
  }

  function OneIfReady(record: Record): nat {
    if record.Ready? then 1 else 0
  }

  function OffCount(records: seq<Record>): nat {
    Sum(records, OneIfOff)
  }

  function Ids(records: seq<Record>): set<int> {
    set i | 0 <= i < |records| && records[i].Ready? :: records[i].id
  }

  lemma IdsAppend(records: seq<Record>, r: Record)
    ensures Ids(records + [r]) == Ids(records) + if r.Ready? then {r.id} else {}
  {
    var all := records + [r];
    forall id | id in Ids(all) ensures id in Ids(records) || (r.Ready? && id == r.id) {
      var i :| 0 <= i < |all| && all[i].Ready? && all[i].id == id;
      assert i < |records| ==> records[i] == all[i];
    }
    forall id | id in Ids(records) ensures id in Ids(all) {
      var i :| 0 <= i < |records| && records[i].Ready? && records[i].id == id;
      assert all[i] == records[i];
    }
    assert r.Ready? ==> all[|records|] == r;
  }

  // ----- the same, read off the lines of the file -----

  /** The lines that hold a record, ... */
  function ParsedLines(lines: seq<Line>): set<nat> {
    set i: nat | i < |lines| && lines[i].Parsed?
  }

  /** ... those whose record is off the sphere, ... */
  function OffLines(lines: seq<Line>): set<nat> {
    set i: nat | i < |lines| && lines[i] == Parsed(OffSphere)
  }

  /** ... and the ids of the others that can be stored. */
  function FileIds(lines: seq<Line>): set<int> {
    set i | 0 <= i < |lines| && lines[i].Parsed? && lines[i].record.Ready? :: lines[i].record.id
  }

  lemma RecordsAppend(lines: seq<Line>, line: Line)
    ensures Records(lines + [line]) == if line.Parsed? then Records(lines) + [line.record] else Records(lines)
  {
    assert (lines + [line])[..|lines|] == lines;
  }

  lemma ParsedAppend(lines: seq<Line>, line: Line)
    ensures |ParsedLines(lines + [line])| == |ParsedLines(lines)| + if line.Parsed? then 1 else 0
  {
    assert ParsedLines(lines + [line]) == ParsedLines(lines) + if line.Parsed? then {|lines|} else {};
  }

  lemma OffAppend(lines: seq<Line>, line: Line)
    ensures |OffLines(lines + [line])| == |OffLines(lines)| + if line == Parsed(OffSphere) then 1 else 0
  {
    assert OffLines(lines + [line]) == OffLines(lines) + if line == Parsed(OffSphere) then {|lines|} else {};
  }

  lemma FileIdsAppend(lines: seq<Line>, line: Line)
    ensures FileIds(lines + [line]) ==
            if line.Parsed? && line.record.Ready? then FileIds(lines) + {line.record.id} else FileIds(lines)
  {
    var all := lines + [line];
    forall id | id in FileIds(lines) ensures id in FileIds(all) {
      var i :| 0 <= i < |lines| && lines[i].Parsed? && lines[i].record.Ready? && lines[i].record.id == id;
      assert all[i] == lines[i];
    }
    assert all[|lines|] == line;
  }

  /** The record of a line stands where the number of parsed lines before it says, and there are no
      other records. */
  lemma {:induction false} RecordsAt(lines: seq<Line>, i: nat)
    requires i < |lines| && lines[i].Parsed?
    ensures |ParsedLines(lines[..i])| < |Records(lines)| == |ParsedLines(lines)|
    ensures Records(lines)[|ParsedLines(lines[..i])|] == lines[i].record
    decreases |lines|
  {
    var n := |lines| - 1;
    assert lines == lines[..n] + [lines[n]];
    RecordsAppend(lines[..n], lines[n]);
    ParsedAppend(lines[..n], lines[n]);
    hide ParsedLines, Records;
    if i < n {
      assert lines[..n][..i] == lines[..i];
      RecordsAt(lines[..n], i);
    } else {
      RecordsMeaning(lines[..n]);
    }
  }

  /** How many records there are and of what kind is what the lines say. */
  lemma {:induction false} RecordsMeaning(lines: seq<Line>)
    ensures |Records(lines)| == |ParsedLines(lines)|
    ensures OffCount(Records(lines)) == |OffLines(lines)|
    ensures Ids(Records(lines)) == FileIds(lines)
    ensures Unserializable in Records(lines) <==> Parsed(Unserializable) in lines
    decreases |lines|
  {
    if lines == [] {
      assert ParsedLines(lines) == {} && OffLines(lines) == {} && Ids([]) == {};
    } else {
      var rest, last := lines[..|lines| - 1], lines[|lines| - 1];
      assert lines == rest + [last];
      hide ParsedLines, OffLines, FileIds, Ids, Records, OffCount;
      RecordsMeaning(rest);
      RecordsAppend(rest, last);
      ParsedAppend(rest, last);
      OffAppend(rest, last);
      FileIdsAppend(rest, last);
      if last.Parsed? {
        OffCountAppend(Records(rest), last.record);
        IdsAppend(Records(rest), last.record);
      }
    }
  }

  lemma OffCountAppend(records: seq<Record>, r: Record)
    ensures OffCount(records + [r]) == OffCount(records) + OneIfOff(r)
  {
    SumAppend(records, r, OneIfOff);
  }

  /** Records split into the storable and the off-sphere ones when all can be serialized. */
  lemma {:induction false} RecordsSplit(records: seq<Record>)
    requires Unserializable !in records
    ensures |records| == Sum(records, OneIfReady) + OffCount(records)
    ensures |Ids(records)| <= Sum(records, OneIfReady)
    decreases |records|
  {
    if records != [] {
      var rest, last := records[..|records| - 1], records[|records| - 1];
      RecordsSplit(rest);
      IdsAppend(rest, last);
      assert records == rest + [last];
      assert last in records;
    } else {
      assert Ids(records) == {};
    }
  }

  // ----- writing one batch -----

  function IdSet(batch: seq<int>): set<int> {
    set id | id in batch
  }

  /** How many documents of an unordered bulk insert land: the ids not there yet, each once. */
  function Written(collection: set<int>, batch: seq<int>): nat {
    |IdSet(batch) - collection|
  }

  lemma WrittenIsGrowth(collection: set<int>, batch: seq<int>)
    ensures |collection + IdSet(batch)| == |collection| + Written(collection, batch)
  {
    assert collection + IdSet(batch) == collection + (IdSet(batch) - collection);
  }

  /** What a bulk insert reports: whether the write concern failed, and its write error codes. */
  datatype InsertManyError = InsertManyError(writeConcernFailed: bool, codes: Option<seq<int>>)

  const DUPLICATE_KEY := 11000

  /** `Some(n)` when the failure is n duplicate keys and nothing else. */
  method DuplicateKeyCount(error: InsertManyError) returns (n: Option<nat>)
    ensures n.Some? <==>
            !error.writeConcernFailed && error.codes.Some? &&
            multiset(error.codes.value) == multiset{}[DUPLICATE_KEY := |error.codes.value|]
    ensures n.Some? ==> n.value == |error.codes.value|
  {
    if error.writeConcernFailed || error.codes.None? {
      return None;
    }
    var codes := error.codes.value;
    for k := 0 to |codes|
      invariant multiset(codes[..k]) == multiset{}[DUPLICATE_KEY := k]
    {
      assert codes[..k + 1] == codes[..k] + [codes[k]];
      if codes[k] != DUPLICATE_KEY {
        assert codes[k] in multiset(codes);
        return None;
      }
    }
    assert codes[..|codes|] == codes;
    return Some(|codes|);
  }

  /** The collection, the running counter and the off-sphere counter the workers share. */
  class Shared {
    var collection: set<int>
    var insertedTotal: nat
    var offSphere: nat

    constructor (collection: set<int>, insertedTotal: nat)
      ensures this.collection == collection && this.insertedTotal == insertedTotal && offSphere == 0
    {
      this.collection, this.insertedTotal, offSphere := collection, insertedTotal, 0;
    }

    /** `insert_many`, unordered: every document that is not a duplicate lands, and each of the
        others is one duplicate-key write error. */
    method InsertMany(batch: seq<int>) returns (error: Option<InsertManyError>)
      modifies this`collection
      ensures collection == old(collection) + IdSet(batch)
      ensures error.None? ==> Written(old(collection), batch) == |batch|
      ensures error.Some? ==>
                !error.value.writeConcernFailed && error.value.codes.Some? &&
                var codes := error.value.codes.value;
                |codes| + Written(old(collection), batch) == |batch| &&
                multiset(codes) == multiset{}[DUPLICATE_KEY := |codes|]
    {
      var codes := [];
      for k := 0 to |batch|
        invariant collection == old(collection) + IdSet(batch[..k])
        invariant |collection| == |old(collection)| + k - |codes|
        invariant multiset(codes) == multiset{}[DUPLICATE_KEY := |codes|]
      {
        assert IdSet(batch[..k + 1]) == IdSet(batch[..k]) + {batch[k]};
        if batch[k] in collection {
          codes := codes + [DUPLICATE_KEY];
        } else {
          collection := collection + {batch[k]};
        }
      }
      assert batch[..|batch|] == batch;
      WrittenIsGrowth(old(collection), batch);
      error := if codes == [] then None else Some(InsertManyError(false, Some(codes)));
    }

    /** `write_batch` against a database that fails on duplicates only: they mean "already
        there", and are not counted as written. */
    method WriteBatch(batch: seq<int>) returns (written: Result<nat, IngestError>)
      modifies this`collection, this`insertedTotal
      ensures written == Ok(Written(old(collection), batch))
      ensures collection == old(collection) + IdSet(batch)
      ensures insertedTotal - old(insertedTotal) == written.value == |collection| - |old(collection)|
    {
      var error := InsertMany(batch);
      WrittenIsGrowth(old(collection), batch);
      if error.None? {
        insertedTotal := insertedTotal + |batch|;
        return Ok(|batch|);
      }
      var duplicates := DuplicateKeyCount(error.value);
      match duplicates {
        case Some(n) =>
          insertedTotal := insertedTotal + (|batch| - n);
          return Ok(|batch| - n);
        case None =>
          return Err(Mongo);
      }
    }

    /** `insert_worker`, when `records` are what this worker takes from the channel. It stops at
        the first record that cannot be serialized or that is one off-sphere record too many;
        `taken` is how many records it took, and `lost` the batch it then drops. */
    method InsertWorker(records: seq<Record>, batchSize: nat)
      returns (r: Result<Tally, IngestError>, taken: nat, ghost lost: set<int>)
      requires 1 <= batchSize
      modifies this
      ensures taken <= |records| && offSphere == old(offSphere) + OffCount(records[..taken])
      ensures collection + lost == old(collection) + Ids(records[..taken])
      ensures insertedTotal - old(insertedTotal) == |collection| - |old(collection)|
      ensures |lost| < batchSize
      ensures r.Ok? <==> Unserializable !in records &&
                         (OffCount(records) == 0 || old(offSphere) + OffCount(records) <= MAX_OFF_SPHERE)
      ensures r.Err? ==> 0 < taken && records[taken - 1] == (if r.error.Serialize? then Unserializable else OffSphere)
      ensures r.Err? && !r.error.Serialize? ==> r.error == Read && offSphere > MAX_OFF_SPHERE
      ensures r.Ok? ==> taken == |records| && lost == {} &&
                        r.value.inserted == |collection| - |old(collection)| && r.value.skipped == OffCount(records)
    {
      hide Accounted, Ids, OffCount, IdSet, Written;
      var batch: seq<int> := [];
      var tally := Tally(0, 0);
      taken, lost := 0, {};
      NothingAccounted(collection, records);
      while taken < |records|
        invariant taken <= |records|
        invariant |batch| < batchSize
        invariant Unserializable !in records[..taken]
        invariant offSphere == old(offSphere) + OffCount(records[..taken])
        invariant tally.skipped == OffCount(records[..taken])
        invariant tally.skipped == 0 || offSphere <= MAX_OFF_SPHERE
        invariant Accounted(old(collection), collection, batch, records[..taken])
        invariant tally.inserted == |collection| - |old(collection)| == insertedTotal - old(insertedTotal)
      {
        var record := records[taken];
        AccountNext(old(collection), collection, batch, records, taken);
        taken := taken + 1;
        match record {
          case Unserializable =>
            lost := Dropped(old(collection), collection, batch, records[..taken]);
            return Err(Serialize), taken, lost;
          case OffSphere =>
            tally := tally.(skipped := tally.skipped + 1);
            offSphere := offSphere + 1;
            if offSphere > MAX_OFF_SPHERE {
              OffCountMonotone(records, taken);
              lost := Dropped(old(collection), collection, batch, records[..taken]);
              return Err(Read), taken, lost;
            }
          case Ready(id) =>
            batch := batch + [id];
            if |batch| >= batchSize {
              AccountFlush(old(collection), collection, batch, records[..taken]);
              var written := WriteBatch(batch);
              tally := tally.(inserted := tally.inserted + written.value);
              batch := [];
            }
        }
      }
      assert records[..|records|] == records;
      if batch != [] {
        AccountFlush(old(collection), collection, batch, records);
        var written := WriteBatch(batch);
        tally := tally.(inserted := tally.inserted + written.value);
        batch := [];
      }
      lost := Dropped(old(collection), collection, batch, records);
      r := Ok(tally);
    }
  }

  /** What a worker took is in the collection or in its batch, and nothing else was added. */
  ghost predicate Accounted(before: set<int>, now: set<int>, batch: seq<int>, taken: seq<Record>) {
    now + IdSet(batch) == before + Ids(taken)
  }

  lemma NothingAccounted(collection: set<int>, records: seq<Record>)
    ensures OffCount(records[..0]) == 0 && Accounted(collection, collection, [], records[..0])
  {
    assert records[..0] == [] && Ids([]) == {} && IdSet([]) == {};
  }

  lemma AccountNext(before: set<int>, now: set<int>, batch: seq<int>, records: seq<Record>, k: nat)
    requires k < |records| && Accounted(before, now, batch, records[..k])
    ensures OffCount(records[..k + 1]) == OffCount(records[..k]) + OneIfOff(records[k])
    ensures Accounted(before, now, if records[k].Ready? then batch + [records[k].id] else batch, records[..k + 1])
    ensures Unserializable in records[..k + 1] <==> Unserializable in records[..k] || records[k].Unserializable?
  {
    var seen, r := records[..k], records[k];
    assert records[..k + 1] == seen + [r];
    SumAppend(seen, r, OneIfOff);
    IdsAppend(seen, r);
    if r.Ready? {
      assert IdSet(batch + [r.id]) == IdSet(batch) + {r.id};
    }
  }

  lemma AccountFlush(before: set<int>, now: set<int>, batch: seq<int>, taken: seq<Record>)
    requires Accounted(before, now, batch, taken)
    ensures Accounted(before, now + IdSet(batch), [], taken)
  {
    assert IdSet([]) == {};
  }

  /** The ids a worker drops when it stops with this batch unwritten. */
  ghost method Dropped(before: set<int>, now: set<int>, batch: seq<int>, taken: seq<Record>) returns (lost: set<int>)
    requires Accounted(before, now, batch, taken)
    ensures now + lost == before + Ids(taken) && |lost| <= |batch|
    ensures batch == [] ==> lost == {}
  {
    lost := IdSet(batch);
    IdSetSize(batch);
  }

  lemma {:induction false} IdSetSize(batch: seq<int>)
    ensures |IdSet(batch)| <= |batch|
    decreases |batch|
  {
    if batch == [] {
      assert IdSet(batch) == {};
    } else {
      var n := |batch| - 1;
      IdSetSize(batch[..n]);
      assert IdSet(batch) == IdSet(batch[..n]) + {batch[n]};
    }
  }

  lemma {:induction false} OffCountMonotone(records: seq<Record>, k: nat)
    requires k <= |records|
    ensures OffCount(records[..k]) <= OffCount(records)
    decreases |records| - k
  {
    if k == |records| {
      assert records[..k] == records;
    } else {
      assert records[..k + 1] == records[..k] + [records[k]];
      SumAppend(records[..k], records[k], OneIfOff);
      OffCountMonotone(records, k + 1);
    }
  }

  // ----- the reader, and the end of the pool -----

  /** The index of the first line that stops the reader, or the number of lines. */
  function FirstBad(lines: seq<Line>): (k: nat)
    ensures k <= |lines|
    ensures k < |lines| ==> Bad(lines[k])
    ensures forall i :: 0 <= i < k ==> !Bad(lines[i])
  {
    if lines == [] || Bad(lines[0]) then 0 else 1 + FirstBad(lines[1..])
  }

  lemma {:induction false} RecordsMonotone(lines: seq<Line>, k: nat)
    requires k <= |lines|
    ensures Records(lines[..k]) <= Records(lines)
    decreases |lines| - k
  {
    if k == |lines| {
      assert lines[..k] == lines;
    } else {
      assert lines[..k + 1][..k] == lines[..k];
      RecordsMonotone(lines, k + 1);
    }
  }

  /** The read loop of `ingest_jsonl`, feeding workers that take `accepted` records before the
      last of them is gone. A bad line is held as the failure, not returned on the spot. */
  method ReadLines(lines: seq<Line>, accepted: nat)
    returns (sent: seq<Record>, read: nat, failure: Option<IngestError>)
    ensures var wanted := Records(lines[..FirstBad(lines)]);
            if |wanted| <= accepted
            then sent == wanted && read == |sent| &&
                 failure == if FirstBad(lines) < |lines| then Some(Read) else None
            else sent == wanted[..accepted] && read == accepted + 1 && failure == None
  {
    sent, read, failure := [], 0, None;
    var stop := FirstBad(lines);
    for k := 0 to |lines|
      invariant k <= stop
      invariant sent == Records(lines[..k]) && read == |sent| <= accepted && failure == None
    {
      var line := lines[k];
      if line.Unreadable? || line.Malformed? {
        assert k == stop;
        failure := Some(Read);
        break;
      }
      if line.Blank? {
        assert lines[..k + 1][..k] == lines[..k];
        continue;
      }
      assert lines[..k + 1][..k] == lines[..k];
      assert k < stop;
      RecordsMonotone(lines[..stop], k + 1);
      assert lines[..stop][..k + 1] == lines[..k + 1];
      read := read + 1;
      if |sent| >= accepted {
        return;
      }
      sent := sent + [line.record];
    }
  }

  function InsertedOf(outcome: Result<Tally, IngestError>): nat {
    if outcome.Ok? then outcome.value.inserted else 0
  }

  function SkippedOf(outcome: Result<Tally, IngestError>): nat {
    if outcome.Ok? then outcome.value.skipped else 0
  }

  /** The first failure among the workers, in the order their handles are awaited. */
  function FirstError(outcomes: seq<Result<Tally, IngestError>>): (e: Option<IngestError>)
    ensures e.None? <==> forall k :: 0 <= k < |outcomes| ==> outcomes[k].Ok?
    ensures e.Some? ==> exists k :: 0 <= k < |outcomes| && outcomes[k] == Err(e.value) &&
                                    forall i :: 0 <= i < k ==> outcomes[i].Ok?
  {
    if outcomes == [] then None
    else if outcomes[0].Err? then Some(outcomes[0].error)
    else
      var rest := FirstError(outcomes[1..]);
      assert rest.Some? ==>
          exists k :: 1 <= k < |outcomes| && outcomes[k] == Err(rest.value) &&
                      forall i :: 0 <= i < k ==> outcomes[i].Ok? by {
        if rest.Some? {
          var k :| 0 <= k < |outcomes[1..]| && outcomes[1..][k] == Err(rest.value) &&
            forall i :: 0 <= i < k ==> outcomes[1..][i].Ok?;
          assert outcomes[k + 1] == Err(rest.value);
          forall i | 0 <= i < k + 1 ensures outcomes[i].Ok? {
            assert i > 0 ==> outcomes[i] == outcomes[1..][i - 1];
          }
        }
      }
      rest
  }

  /** What `finish` answers: the first failure, or the sums over all workers. */
  function Finished(outcomes: seq<Result<Tally, IngestError>>): Result<Tally, IngestError> {
    var e := FirstError(outcomes);
    if e.Some? then Err(e.value) else Ok(Tally(Sum(outcomes, InsertedOf), Sum(outcomes, SkippedOf)))
  }

  /** `finish`: every handle is awaited, also after one has failed. */
  method Finish(outcomes: seq<Result<Tally, IngestError>>) returns (r: Result<Tally, IngestError>)
    ensures r == Finished(outcomes)
  {
    var tally := Tally(0, 0);
    var firstError: Option<IngestError> := None;
    for k := 0 to |outcomes|
      invariant tally == Tally(Sum(outcomes[..k], InsertedOf), Sum(outcomes[..k], SkippedOf))
      invariant firstError == FirstError(outcomes[..k])
    {
      assert outcomes[..k + 1] == outcomes[..k] + [outcomes[k]];
      SumAppend(outcomes[..k], outcomes[k], InsertedOf);
      SumAppend(outcomes[..k], outcomes[k], SkippedOf);
      match outcomes[k] {
        case Ok(t) =>
          tally := Tally(tally.inserted + t.inserted, tally.skipped + t.skipped);
        case Err(e) =>
          firstError := if firstError.Some? then firstError else Some(e);
      }
      FirstErrorAppend(outcomes[..k], outcomes[k]);
    }
    assert outcomes[..|outcomes|] == outcomes;
    match firstError {
      case Some(e) => return Err(e);
      case None => return Ok(tally);
    }
  }

  lemma {:induction false} FirstErrorAppend(outcomes: seq<Result<Tally, IngestError>>, x: Result<Tally, IngestError>)
    ensures FirstError(outcomes + [x]) ==
            if FirstError(outcomes).Some? then FirstError(outcomes) else if x.Err? then Some(x.error) else None
  {
    if outcomes != [] {
      FirstErrorAppend(outcomes[1..], x);
      assert (outcomes + [x])[1..] == outcomes[1..] + [x];
    }
  }
}
