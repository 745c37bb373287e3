// The header of an Avro object container file, and the parser that reads it.
// Source: src/alert/base.rs (read_byte_range, get_schema_and_startidx), after "Object Container
// Files" in the Apache Avro specification 1.3.2.
module AvroContainer {
  import opened Bytes
  import opened Wrappers
  import opened AvroLong

  const MAGIC: ByteString := [0x4F, 0x62, 0x6A, 1]

  /** "avro.schema" */
  const SCHEMA_KEY: ByteString :=
    [0x61, 0x76, 0x72, 0x6F, 0x2E, 0x73, 0x63, 0x68, 0x65, 0x6D, 0x61]

  datatype Entry = Entry(key: ByteString, value: ByteString)

  // ----- the grammar -----

  datatype Chunk = Chunk(bytes: ByteString, next: nat)

  datatype Meta = Meta(entries: seq<Entry>, next: nat)

  /** A length-prefixed byte string. */
  function ReadBytes(b: ByteString, pos: nat): Option<Chunk> {
    match ReadLong(b, pos)
    case None => None
    case Some(l) =>
      if 0 <= l.value && l.next + l.value <= |b| then Some(Chunk(b[l.next..l.next + l.value], l.next + l.value))
      else None
  }

  /** One key and value pair. */
  function ReadEntry(b: ByteString, pos: nat): Option<Meta> {
    match ReadBytes(b, pos)
    case None => None
    case Some(key) =>
      match ReadBytes(b, key.next)
      case None => None
      case Some(value) => Some(Meta([Entry(key.bytes, value.bytes)], value.next))
  }

  /** `n` key and value pairs. */
  function ReadEntries(b: ByteString, pos: nat, n: nat): Option<Meta>
    decreases n
  {
    if n == 0 then Some(Meta([], pos))
    else
      match ReadEntry(b, pos)
      case None => None
      case Some(entry) => Joined(entry.entries, ReadEntries(b, entry.next, n - 1))
  }

  function Joined(entries: seq<Entry>, rest: Option<Meta>): Option<Meta> {
    match rest
    case None => None
    case Some(m) => Some(Meta(entries + m.entries, m.next))
  }

  /** `-count` on an i64, which wraps at the minimum. */
  function Negated(count: i64): i64 {
    if count == -TWO63 then -TWO63 else -count
  }

  /** A block's header: how many entries follow (none for a count that stays negative), and where. */
  function ReadBlockHeader(b: ByteString, pos: nat): Option<Long> {
    match ReadLong(b, pos)
    case None => None
    case Some(count) =>
      if count.value >= 0 then Some(count)
      else
        match ReadLong(b, count.next)
        case None => None
        case Some(size) => Some(Long(Negated(count.value), size.next))
  }

  lemma BlockHeaderRange(b: ByteString, pos: nat)
    ensures ReadBlockHeader(b, pos).Some? ==> pos < ReadBlockHeader(b, pos).value.next <= |b|
  {
    LongRange(b, pos);
    if ReadLong(b, pos).Some? {
      LongRange(b, ReadLong(b, pos).value.next);
    }
  }

  lemma {:induction false} EntriesRange(b: ByteString, pos: nat, n: nat)
    requires pos <= |b|
    ensures ReadEntries(b, pos, n).Some? ==>
              pos + 2 * |ReadEntries(b, pos, n).value.entries| <= ReadEntries(b, pos, n).value.next <= |b|
    decreases n
  {
    if n > 0 && ReadEntries(b, pos, n).Some? {
      LongRange(b, pos);
      LongRange(b, ReadBytes(b, pos).value.next);
      EntriesRange(b, ReadEntry(b, pos).value.next, n - 1);
    }
  }

  function EntryCount(count: i64): nat {
    if count > 0 then count else 0
  }

  /** The metadata map: blocks until one with no entries.  Blocks may have a negative count,
      followed by their size in bytes. */
  function ReadBlocks(b: ByteString, pos: nat): Option<Meta>
    decreases |b| - pos
  {
    match ReadBlockHeader(b, pos)
    case None => None
    case Some(header) =>
      if header.value == 0 then Some(Meta([], header.next))
      else
        match ReadEntries(b, header.next, EntryCount(header.value))
        case None => None
        case Some(m) =>
          BlockHeaderRange(b, pos);
          EntriesRange(b, header.next, EntryCount(header.value));
          Joined(m.entries, ReadBlocks(b, m.next))
  }

  lemma {:induction false} BlocksRange(b: ByteString, pos: nat)
    ensures ReadBlocks(b, pos).Some? ==>
              pos + 2 * |ReadBlocks(b, pos).value.entries| < ReadBlocks(b, pos).value.next <= |b|
    decreases |b| - pos
  {
    if ReadBlocks(b, pos).Some? {
      BlockHeaderRange(b, pos);
      var header := ReadBlockHeader(b, pos).value;
      if header.value != 0 {
        EntriesRange(b, header.next, EntryCount(header.value));
        BlocksRange(b, ReadEntries(b, header.next, EntryCount(header.value)).value.next);
      }
    }
  }

  /** Magic, metadata and sync marker: the entries, and where the data starts. */
  function ReadLayout(b: ByteString): Option<Meta> {
    if |b| < 4 || b[..4] != MAGIC then None
    else
      match ReadBlocks(b, 4)
      case None => None
      case Some(m) => if m.next + 16 <= |b| then Some(Meta(m.entries, m.next + 16)) else None
  }

  /** The last `avro.schema` entry: a later one overwrites an earlier one. */
  function LastSchema(entries: seq<Entry>): Option<ByteString> {
    if entries == [] then None
    else if LastSchema(entries[1..]).Some? then LastSchema(entries[1..])
    else if entries[0].key == SCHEMA_KEY then Some(entries[0].value)
    else None
  }

  /** The first data block: one record, its size, and then the datum. */
  function ReadBlockStart(b: ByteString, pos: nat): Option<nat> {
    match ReadLong(b, pos)
    case None => None
    case Some(records) =>
      if records.value != 1 then None
      else match ReadLong(b, records.next)
           case None => None
           case Some(size) => Some(size.next)
  }

  datatype Header = Header(schema: ByteString, startIdx: nat)

  /** What the reader makes of a packet. */
  function ReadHeader(b: ByteString, utf8: ByteString -> bool): Option<Header> {
    match ReadLayout(b)
    case None => None
    case Some(layout) =>
      match LastSchema(layout.entries)
      case None => None
      case Some(schema) =>
        match ReadBlockStart(b, layout.next)
        case None => None
        case Some(start) => if utf8(schema) then Some(Header(schema, start)) else None
  }

  /** The datum starts within the packet. */
  lemma HeaderInRange(b: ByteString, utf8: ByteString -> bool)
    ensures ReadHeader(b, utf8).Some? ==> ReadHeader(b, utf8).value.startIdx <= |b|
  {
    if ReadHeader(b, utf8).Some? {
      var next := ReadLayout(b).value.next;
      LongRange(b, next);
      LongRange(b, ReadLong(b, next).value.next);
    }
  }

  // ----- the parser -----

  datatype SchemaRegistryError =
    | LongFailure(error: LongError)
    | UnexpectedEnd
    | MagicBytesError
    | MalformedHeader
    | InvalidRecordCount(records: u64)
    | InvalidUtf8

  /** A length can be read at `pos`, but is negative or reaches past the end. */
  predicate BadRange(b: ByteString, pos: nat) {
    ReadLong(b, pos).Some? && ReadBytes(b, pos).None?
  }

  predicate BadRangeInEntry(b: ByteString, pos: nat) {
    BadRange(b, pos) || (ReadBytes(b, pos).Some? && BadRange(b, ReadBytes(b, pos).value.next))
  }

  predicate BadRangeInEntries(b: ByteString, pos: nat, n: nat)
    decreases n
  {
    n > 0 &&
    (BadRangeInEntry(b, pos) || (ReadEntry(b, pos).Some? && BadRangeInEntries(b, ReadEntry(b, pos).value.next, n - 1)))
  }

  /** The first thing in the metadata map that cannot be read is a key or a value whose length does
      not fit. */
  predicate BadRangeInBlocks(b: ByteString, pos: nat)
    decreases |b| - pos
  {
    var header := ReadBlockHeader(b, pos);
    header.Some? && header.value.value != 0 &&
    var n := EntryCount(header.value.value);
    (BadRangeInEntries(b, header.value.next, n) ||
     (ReadEntries(b, header.value.next, n).Some? &&
      (BlockHeaderRange(b, pos);
       EntriesRange(b, header.value.next, n);
       BadRangeInBlocks(b, ReadEntries(b, header.value.next, n).value.next))))
  }

  datatype Range = Range(start: nat, end: nat)

  method ReadByteRange(cursor: Cursor) returns (r: Result<Range, SchemaRegistryError>)
    modifies cursor
    ensures r.Ok? <==> ReadBytes(cursor.data, old(cursor.position)).Some?
    ensures r.Ok? ==>
              r.value.start <= r.value.end <= |cursor.data| &&
              ReadBytes(cursor.data, old(cursor.position)) ==
              Some(Chunk(cursor.data[r.value.start..r.value.end], cursor.position))
    ensures r.Err? ==> if BadRange(cursor.data, old(cursor.position)) then r.error.MalformedHeader?
                       else r.error.LongFailure?
  {
    var length := cursor.DecodeLong();
    if length.Err? {
      return Err(LongFailure(length.error));
    }
    if length.value < 0 {
      return Err(MalformedHeader);
    }
    var start := cursor.position;
    var end := start + length.value;
    if end > |cursor.data| {
      return Err(MalformedHeader);
    }
    cursor.position := end;
    return Ok(Range(start, end));
  }

  lemma {:induction false} LastSchemaConcat(a: seq<Entry>, b: seq<Entry>)
    ensures LastSchema(a + b) == if LastSchema(b).Some? then LastSchema(b) else LastSchema(a)
  {
    if a == [] {
      assert a + b == b;
    } else {
      assert (a + b)[1..] == a[1..] + b;
      LastSchemaConcat(a[1..], b);
    }
  }

  lemma JoinedJoined(a: seq<Entry>, b: seq<Entry>, rest: Option<Meta>)
    ensures Joined(a, Joined(b, rest)) == Joined(a + b, rest)
  {
    match rest
    case None =>
    case Some(m) => assert a + (b + m.entries) == a + b + m.entries;
  }

  /** One more entry read: what is collected and what is left still make up the whole. */
  lemma CollectEntry(all: Option<Meta>, b: ByteString, pos: nat, n: nat, entries: seq<Entry>)
    requires n > 0 && all == Joined(entries, ReadEntries(b, pos, n))
    ensures ReadEntry(b, pos).None? ==> all.None?
    ensures ReadEntry(b, pos).Some? ==>
              var e := ReadEntry(b, pos).value;
              all == Joined(entries + e.entries, ReadEntries(b, e.next, n - 1))
  {
    if ReadEntry(b, pos).Some? {
      var e := ReadEntry(b, pos).value;
      JoinedJoined(entries, e.entries, ReadEntries(b, e.next, n - 1));
    }
  }

  lemma JoinedNothing(all: Option<Meta>)
    ensures Joined([], all) == all
  {
    match all
    case None =>
    case Some(m) => assert [] + m.entries == m.entries;
  }

  /** One entry: its value when it is the schema. */
  method ReadOneEntry(cursor: Cursor) returns (r: Result<Option<ByteString>, SchemaRegistryError>)
    modifies cursor
    ensures r.Ok? <==> ReadEntry(cursor.data, old(cursor.position)).Some?
    ensures r.Ok? ==>
              var m := ReadEntry(cursor.data, old(cursor.position)).value;
              cursor.position == m.next && r.value == LastSchema(m.entries)
    ensures r.Err? ==> if BadRangeInEntry(cursor.data, old(cursor.position)) then r.error.MalformedHeader?
                       else r.error.LongFailure?
  {
    var key := ReadByteRange(cursor);
    if key.Err? {
      return Err(key.error);
    }
    var value := ReadByteRange(cursor);
    if value.Err? {
      return Err(value.error);
    }
    if cursor.data[key.value.start..key.value.end] == SCHEMA_KEY {
      return Ok(Some(cursor.data[value.value.start..value.value.end]));
    }
    return Ok(None);
  }

  lemma BadEntryUnreadable(b: ByteString, pos: nat)
    ensures BadRangeInEntry(b, pos) ==> ReadEntry(b, pos).None?
  {
    hide ReadLong;
  }

  lemma {:induction false} BadEntriesUnreadable(b: ByteString, pos: nat, n: nat)
    ensures BadRangeInEntries(b, pos, n) ==> ReadEntries(b, pos, n).None?
    decreases n
  {
    hide ReadLong;
    if n > 0 && ReadEntry(b, pos).Some? {
      BadEntriesUnreadable(b, ReadEntry(b, pos).value.next, n - 1);
    }
  }

  /** One block of the metadata map. */
  lemma BlockStep(b: ByteString, at: nat, header: Long)
    requires ReadBlockHeader(b, at) == Some(header)
    ensures header.value == 0 ==> ReadBlocks(b, at) == Some(Meta([], header.next)) && !BadRangeInBlocks(b, at)
    ensures header.value != 0 ==>
              at < header.next <= |b| &&
              match ReadEntries(b, header.next, EntryCount(header.value))
              case None =>
                ReadBlocks(b, at).None? &&
                BadRangeInBlocks(b, at) == BadRangeInEntries(b, header.next, EntryCount(header.value))
              case Some(m) =>
                at < m.next <= |b| && ReadBlocks(b, at) == Joined(m.entries, ReadBlocks(b, m.next)) &&
                BadRangeInBlocks(b, at) == BadRangeInBlocks(b, m.next)
  {
    BlockHeaderRange(b, at);
    if header.value != 0 {
      EntriesRange(b, header.next, EntryCount(header.value));
      BadEntriesUnreadable(b, header.next, EntryCount(header.value));
    }
    hide ReadLong, ReadEntries, BadRangeInEntries, ReadBlockHeader;
  }

  lemma NoBlock(b: ByteString, at: nat)
    requires ReadBlockHeader(b, at).None?
    ensures ReadBlocks(b, at).None? && !BadRangeInBlocks(b, at)
  {
  }

  /** The entries of one block; keeps the last schema seen. */
  method ReadBlockEntries(cursor: Cursor, nbEntries: i64, before: Option<ByteString>)
    returns (r: Result<Option<ByteString>, SchemaRegistryError>)
    modifies cursor
    ensures r.Ok? <==> ReadEntries(cursor.data, old(cursor.position), EntryCount(nbEntries)).Some?
    ensures r.Ok? ==>
              var m := ReadEntries(cursor.data, old(cursor.position), EntryCount(nbEntries)).value;
              cursor.position == m.next &&
              r.value == if LastSchema(m.entries).Some? then LastSchema(m.entries) else before
    ensures r.Err? ==> if BadRangeInEntries(cursor.data, old(cursor.position), EntryCount(nbEntries))
                       then r.error.MalformedHeader? else r.error.LongFailure?
  {
    hide ReadEntry, BadRangeInEntry;
    ghost var bad := BadRangeInEntries(cursor.data, cursor.position, EntryCount(nbEntries));
    var schema := before;
    ghost var entries: seq<Entry> := [];
    ghost var all := ReadEntries(cursor.data, cursor.position, EntryCount(nbEntries));
    JoinedNothing(all);
    for k := 0 to EntryCount(nbEntries)
      invariant all == Joined(entries, ReadEntries(cursor.data, cursor.position, EntryCount(nbEntries) - k))
      invariant schema == if LastSchema(entries).Some? then LastSchema(entries) else before
      invariant bad == BadRangeInEntries(cursor.data, cursor.position, EntryCount(nbEntries) - k)
    {
      ghost var entry := ReadEntry(cursor.data, cursor.position);
      CollectEntry(all, cursor.data, cursor.position, EntryCount(nbEntries) - k, entries);
      BadEntryUnreadable(cursor.data, cursor.position);
      var found := ReadOneEntry(cursor);
      if found.Err? {
        return Err(found.error);
      }
      LastSchemaConcat(entries, entry.value.entries);
      entries := entries + entry.value.entries;
      if found.value.Some? {
        schema := found.value;
      }
    }
    assert entries + [] == entries;
    return Ok(schema);
  }

  lemma NoSchema()
    ensures LastSchema([]) == None
  {
  }

  /** The metadata map; the answer is its last schema entry. */
  method ReadMetadata(cursor: Cursor) returns (r: Result<Option<ByteString>, SchemaRegistryError>)
    modifies cursor
    ensures r.Ok? <==> ReadBlocks(cursor.data, old(cursor.position)).Some?
    ensures r.Ok? ==>
              var m := ReadBlocks(cursor.data, old(cursor.position)).value;
              cursor.position == m.next && r.value == LastSchema(m.entries)
    ensures r.Err? ==> if BadRangeInBlocks(cursor.data, old(cursor.position)) then r.error.MalformedHeader?
                       else r.error.LongFailure?
  {
    var schema: Option<ByteString> := None;
    ghost var entries: seq<Entry> := [];
    ghost var all := ReadBlocks(cursor.data, cursor.position);
    ghost var bad := BadRangeInBlocks(cursor.data, cursor.position);
    hide ReadLong, ReadEntries, BadRangeInEntries, ReadBlocks, BadRangeInBlocks, LastSchema;
    JoinedNothing(all);
    assert LastSchema([]) == None by { NoSchema(); }
    while true
      invariant all == Joined(entries, ReadBlocks(cursor.data, cursor.position))
      invariant bad == BadRangeInBlocks(cursor.data, cursor.position)
      invariant schema == LastSchema(entries)
      decreases |cursor.data| - cursor.position
    {
      ghost var at := cursor.position;
      var count := cursor.DecodeLong();
      if count.Err? {
        NoBlock(cursor.data, at);
        return Err(LongFailure(count.error));
      }
      var nbEntries := count.value;
      if nbEntries == 0 {
        BlockStep(cursor.data, at, Long(0, cursor.position));
        assert entries + [] == entries;
        break;
      }
      if nbEntries < 0 {
        nbEntries := Negated(nbEntries);
        var size := cursor.DecodeLong();
        if size.Err? {
          NoBlock(cursor.data, at);
          return Err(LongFailure(size.error));
        }
      }
      BlockStep(cursor.data, at, Long(nbEntries, cursor.position));
      ghost var block := ReadEntries(cursor.data, cursor.position, EntryCount(nbEntries));
      var next := ReadBlockEntries(cursor, nbEntries, schema);
      if next.Err? {
        return Err(next.error);
      }
      JoinedJoined(entries, block.value.entries, ReadBlocks(cursor.data, cursor.position));
      LastSchemaConcat(entries, block.value.entries);
      entries := entries + block.value.entries;
      schema := next.value;
    }
    return Ok(schema);
  }

  /** Magic, metadata with a schema, and a sync marker can be read. */
  predicate HasSchema(b: ByteString) {
    ReadLayout(b).Some? && LastSchema(ReadLayout(b).value.entries).Some?
  }

  /** The record count of the first data block. */
  function RecordCount(b: ByteString): Option<Long>
    requires HasSchema(b)
  {
    ReadLong(b, ReadLayout(b).value.next)
  }

  lemma {:induction false} BadBlocksUnreadable(b: ByteString, pos: nat)
    ensures BadRangeInBlocks(b, pos) ==> ReadBlocks(b, pos).None?
    decreases |b| - pos
  {
    hide ReadLong, ReadEntries, BadRangeInEntries;
    if BadRangeInBlocks(b, pos) {
      var header := ReadBlockHeader(b, pos).value;
      var n := EntryCount(header.value);
      BadEntriesUnreadable(b, header.next, n);
      BlockHeaderRange(b, pos);
      EntriesRange(b, header.next, n);
      if ReadEntries(b, header.next, n).Some? {
        BadBlocksUnreadable(b, ReadEntries(b, header.next, n).value.next);
      }
    }
  }

  /** `get_schema_and_startidx`. */
  method GetSchemaAndStartidx(avroBytes: ByteString, utf8: ByteString -> bool)
    returns (r: Result<Header, SchemaRegistryError>)
    ensures r.Ok? <==> ReadHeader(avroBytes, utf8).Some?
    ensures r.Ok? ==> Some(r.value) == ReadHeader(avroBytes, utf8)
    ensures |avroBytes| >= 4 ==> (r == Err(MagicBytesError) <==> avroBytes[..4] != MAGIC)
    ensures r == Err(MalformedHeader) <==>
            |avroBytes| >= 4 && avroBytes[..4] == MAGIC &&
            (BadRangeInBlocks(avroBytes, 4) ||
             (ReadBlocks(avroBytes, 4).Some? && LastSchema(ReadBlocks(avroBytes, 4).value.entries).None?))
    ensures r.Err? && r.error.InvalidRecordCount? <==>
            HasSchema(avroBytes) && RecordCount(avroBytes).Some? && RecordCount(avroBytes).value.value != 1
    ensures r.Err? && r.error.InvalidRecordCount? ==>
              r.error.records == RecordCount(avroBytes).value.value % TWO64
    ensures r == Err(InvalidUtf8) <==>
            HasSchema(avroBytes) && ReadBlockStart(avroBytes, ReadLayout(avroBytes).value.next).Some? &&
            !utf8(LastSchema(ReadLayout(avroBytes).value.entries).value)
  {
    BadBlocksUnreadable(avroBytes, 4);
    hide ReadLong, ReadBlocks, LastSchema, BadRangeInBlocks;
    var cursor := new Cursor(avroBytes);
    if |avroBytes| < 4 {
      return Err(UnexpectedEnd);
    }
    if avroBytes[..4] != MAGIC {
      return Err(MagicBytesError);
    }
    cursor.position := 4;
    var metadata := ReadMetadata(cursor);
    if metadata.Err? {
      return Err(metadata.error);
    }
    if metadata.value.None? {
      return Err(MalformedHeader);
    }
    var schema := metadata.value.value;
    if cursor.position + 16 > |avroBytes| {
      return Err(UnexpectedEnd);
    }
    cursor.position := cursor.position + 16;
    var nbRecords := cursor.DecodeLong();
    if nbRecords.Err? {
      return Err(LongFailure(nbRecords.error));
    }
    if nbRecords.value != 1 {
      return Err(InvalidRecordCount(nbRecords.value % TWO64));
    }
    var size := cursor.DecodeLong();
    if size.Err? {
      return Err(LongFailure(size.error));
    }
    if !utf8(schema) {
      return Err(InvalidUtf8);
    }
    return Ok(Header(schema, cursor.position));
  }
}
