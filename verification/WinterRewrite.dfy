// Rewriting a WINTER container so that its schema has no duplicate field names.
// Source: src/alert/winter.rs (sanitize_winter_avro).
module WinterRewrite {
  import opened Bytes
  import opened Wrappers
  import opened AvroLong
  import opened AvroContainer
  import opened AvroWriter
  import opened SchemaDedupe
  import opened SchemaNames

  /** UTF-8 validation and serde_json, as far as the rewriter relies on them: `number` says which
      number texts, printed, parse back to themselves, `depth` how deep a value may nest to be
      parsed. */
  datatype Codec = Codec(utf8: ByteString -> bool, parse: ByteString -> Option<Json>,
                         print_: Json -> ByteString, number: string -> bool, depth: nat)

  /** A JSON value that survives printing: no object repeats a key, every number's text is stable,
      and arrays and objects nest at most `depth` deep. */
  predicate WellFormed(codec: Codec, value: Json, depth: nat)
    decreases value
  {
    match value
    case Number(text) => codec.number(text)
    case Arr(items) => depth > 0 && forall i :: 0 <= i < |items| ==> WellFormed(codec, items[i], depth - 1)
    case Obj(members) =>
      depth > 0 &&
      (forall i, j :: 0 <= i < j < |members| ==> members[i].key != members[j].key) &&
      forall i :: 0 <= i < |members| ==> WellFormed(codec, members[i].value, depth - 1)
    case _ => true
  }

  /** What is printed is UTF-8, and a value that survives printing parses back. */
  ghost predicate Lawful(codec: Codec) {
    (forall value {:trigger codec.print_(value)} :: codec.utf8(codec.print_(value))) &&
    (forall value {:trigger WellFormed(codec, value, codec.depth)} :: WellFormed(codec, value, codec.depth) ==>
       codec.parse(codec.print_(value)) == Some(value))
  }

  datatype WinterAvroError =
    | BadMagic
    | UnexpectedEof
    | MissingSchema
    | SchemaJson
    | SchemaUtf8
    | UnreadableLong(error: LongError)

  // ----- what the rewriter produces -----

  /** The position of the first schema entry. */
  function FirstSchema(entries: seq<Entry>): (i: nat)
    ensures i <= |entries|
    ensures i < |entries| ==> entries[i].key == SCHEMA_KEY
    ensures forall j :: 0 <= j < i ==> entries[j].key != SCHEMA_KEY
  {
    if entries == [] || entries[0].key == SCHEMA_KEY then 0 else 1 + FirstSchema(entries[1..])
  }

  /** A header with all its entries in one block, followed by sync marker and data. */
  function Container(entries: seq<Entry>, rest: ByteString): ByteString {
    MAGIC + (LongBytes(AsI64(|entries|)) + (EntriesBytes(entries) + (LongBytes(0) + rest)))
  }

  /** The schema with its duplicate names renamed, printed again. */
  function Cleaned(codec: Codec, schema: ByteString): Option<ByteString> {
    if codec.utf8(schema) && codec.parse(schema).Some?
    then Some(codec.print_(Dedupe(codec.parse(schema).value)))
    else None
  }

  function Rewritten(b: ByteString, codec: Codec): Option<ByteString> {
    match ReadLayout(b)
    case None => None
    case Some(layout) =>
      var i := FirstSchema(layout.entries);
      if i == |layout.entries| then None
      else
        match Cleaned(codec, layout.entries[i].value)
        case None => None
        case Some(cleaned) =>
          Some(Container(layout.entries[i := Entry(SCHEMA_KEY, cleaned)], b[layout.next - 16..]))
  }

  // ----- the rewriter -----

  /** One length-prefixed byte string. */
  method TakeBytes(bytes: ByteString, pos: nat) returns (r: Result<Chunk, WinterAvroError>)
    ensures r.Ok? <==> ReadBytes(bytes, pos).Some?
    ensures r.Ok? ==> Some(r.value) == ReadBytes(bytes, pos)
    ensures r.Err? ==> r.error.UnexpectedEof? || r.error.UnreadableLong?
  {
    var len, next := DecodeLong(bytes, pos);
    if len.Err? {
      return Err(UnreadableLong(len.error));
    }
    // a negative length becomes a huge usize, and no such range exists
    if len.value < 0 || next + len.value > |bytes| {
      return Err(UnexpectedEof);
    }
    return Ok(Chunk(bytes[next..next + len.value], next + len.value));
  }

  method TakeEntry(bytes: ByteString, pos: nat) returns (r: Result<Meta, WinterAvroError>)
    ensures r.Ok? <==> ReadEntry(bytes, pos).Some?
    ensures r.Ok? ==> Some(r.value) == ReadEntry(bytes, pos)
    ensures r.Err? ==> r.error.UnexpectedEof? || r.error.UnreadableLong?
  {
    var key := TakeBytes(bytes, pos);
    if key.Err? {
      return Err(key.error);
    }
    var val := TakeBytes(bytes, key.value.next);
    if val.Err? {
      return Err(val.error);
    }
    return Ok(Meta([Entry(key.value.bytes, val.value.bytes)], val.value.next));
  }

  method TakeEntries(bytes: ByteString, start: nat, count: i64) returns (r: Result<Meta, WinterAvroError>)
    ensures r.Ok? <==> ReadEntries(bytes, start, EntryCount(count)).Some?
    ensures r.Ok? ==> Some(r.value) == ReadEntries(bytes, start, EntryCount(count))
    ensures r.Err? ==> r.error.UnexpectedEof? || r.error.UnreadableLong?
  {
    hide ReadEntry;
    var n := EntryCount(count);
    var pos := start;
    var meta: seq<Entry> := [];
    ghost var all := ReadEntries(bytes, start, n);
    JoinedNothing(all);
    for k := 0 to n
      invariant all == Joined(meta, ReadEntries(bytes, pos, n - k))
    {
      CollectEntry(all, bytes, pos, n - k, meta);
      var entry := TakeEntry(bytes, pos);
      if entry.Err? {
        return Err(entry.error);
      }
      meta := meta + entry.value.entries;
      pos := entry.value.next;
    }
    assert meta + [] == meta;
    return Ok(Meta(meta, pos));
  }

  method TakeMetadata(bytes: ByteString, start: nat) returns (r: Result<Meta, WinterAvroError>)
    ensures r.Ok? <==> ReadBlocks(bytes, start).Some?
    ensures r.Ok? ==> Some(r.value) == ReadBlocks(bytes, start)
    ensures r.Err? ==> r.error.UnexpectedEof? || r.error.UnreadableLong?
  {
    var pos := start;
    var meta: seq<Entry> := [];
    JoinedNothing(ReadBlocks(bytes, start));
    while true
      invariant ReadBlocks(bytes, start) == Joined(meta, ReadBlocks(bytes, pos))
      decreases |bytes| - pos
    {
      BlockHeaderRange(bytes, pos);
      var first, next := DecodeLong(bytes, pos);
      if first.Err? {
        return Err(UnreadableLong(first.error));
      }
      var count := first.value;
      if count == 0 {
        pos := next;
        assert meta + [] == meta;
        break;
      }
      if count < 0 {
        count := Negated(count);
        var size;
        size, next := DecodeLong(bytes, next);
        if size.Err? {
          return Err(UnreadableLong(size.error));
        }
      }
      EntriesRange(bytes, next, EntryCount(count));
      var block := TakeEntries(bytes, next, count);
      if block.Err? {
        return Err(block.error);
      }
      JoinedJoined(meta, block.value.entries, ReadBlocks(bytes, block.value.next));
      meta := meta + block.value.entries;
      pos := block.value.next;
    }
    return Ok(Meta(meta, pos));
  }

  lemma EntriesNext(start: ByteString, meta: seq<Entry>, k: nat)
    requires k < |meta|
    ensures start + EntriesBytes(meta[..k + 1]) ==
            start + EntriesBytes(meta[..k]) + BytesBytes(meta[k].key) + BytesBytes(meta[k].value)
  {
    assert meta[..k + 1] == meta[..k] + [meta[k]];
    EntriesBytesConcat(meta[..k], [meta[k]]);
    hide EntriesBytes, BytesBytes;
    OneEntry(meta[k]);
    var all, x, y := EntriesBytes(meta[..k]), BytesBytes(meta[k].key), BytesBytes(meta[k].value);
    assert start + (all + (x + y)) == start + all + x + y;
  }

  method WriteEntries(meta: seq<Entry>, out: ByteBuffer)
    modifies out
    ensures out.data == old(out.data) + EntriesBytes(meta)
  {
    assert EntriesBytes(meta[..0]) == [];
    ghost var start := out.data;
    hide EntriesBytes, BytesBytes;
    assert start + [] == start;
    for k := 0 to |meta|
      invariant out.data == start + EntriesBytes(meta[..k])
    {
      EntriesNext(start, meta, k);
      out.EncodeBytes(meta[k].key);
      out.EncodeBytes(meta[k].value);
    }
    assert meta[..|meta|] == meta;
  }

  /** The rebuilt header and the untouched rest. */
  method WriteContainer(meta: seq<Entry>, rest: ByteString) returns (out: ByteBuffer)
    ensures fresh(out) && out.data == Container(meta, rest)
  {
    out := new ByteBuffer();
    out.ExtendFromSlice(MAGIC);
    out.EncodeLong(AsI64(|meta|));
    WriteEntries(meta, out);
    out.EncodeLong(0);
    out.ExtendFromSlice(rest);
    var e, z := EntriesBytes(meta), LongBytes(0);
    assert out.data == MAGIC + LongBytes(AsI64(|meta|)) + e + z + rest;
    Associate(MAGIC, LongBytes(AsI64(|meta|)), e, z, rest);
  }

  lemma Associate(a: ByteString, b: ByteString, c: ByteString, d: ByteString, e: ByteString)
    ensures a + b + c + d + e == a + (b + (c + (d + e)))
  {
  }

  /** The schema text the rewriter edits: the first one. */
  function SchemaText(b: ByteString): Option<ByteString> {
    match ReadLayout(b)
    case None => None
    case Some(layout) =>
      var i := FirstSchema(layout.entries);
      if i < |layout.entries| then Some(layout.entries[i].value) else None
  }

  method SanitizeWinterAvro(bytes: ByteString, codec: Codec) returns (r: Result<ByteString, WinterAvroError>)
    ensures r.Ok? <==> Rewritten(bytes, codec).Some?
    ensures r.Ok? ==> Some(r.value) == Rewritten(bytes, codec)
    ensures r == Err(BadMagic) <==> |bytes| < 4 || bytes[..4] != MAGIC
    ensures r == Err(MissingSchema) <==>
            ReadLayout(bytes).Some? &&
            FirstSchema(ReadLayout(bytes).value.entries) == |ReadLayout(bytes).value.entries|
    ensures r == Err(SchemaUtf8) <==> SchemaText(bytes).Some? && !codec.utf8(SchemaText(bytes).value)
    ensures r == Err(SchemaJson) <==>
            SchemaText(bytes).Some? && codec.utf8(SchemaText(bytes).value) && codec.parse(SchemaText(bytes).value).None?
    ensures r.Err? && (r.error.UnexpectedEof? || r.error.UnreadableLong?) <==>
            |bytes| >= 4 && bytes[..4] == MAGIC && ReadLayout(bytes).None?
  {
    hide ReadBlocks, Container, Dedupe, FirstSchema;
    if |bytes| < 4 || bytes[..4] != MAGIC {
      return Err(BadMagic);
    }
    var read := TakeMetadata(bytes, 4);
    if read.Err? {
      return Err(read.error);
    }
    var meta, pos := read.value.entries, read.value.next;
    if pos + 16 > |bytes| {
      return Err(UnexpectedEof);
    }
    var schemaIdx := FirstSchema(meta);
    if schemaIdx == |meta| {
      return Err(MissingSchema);
    }
    if !codec.utf8(meta[schemaIdx].value) {
      return Err(SchemaUtf8);
    }
    var schemaJson := codec.parse(meta[schemaIdx].value);
    if schemaJson.None? {
      return Err(SchemaJson);
    }
    var deduped := DedupeRecordFieldNames(schemaJson.value);
    meta := meta[schemaIdx := Entry(SCHEMA_KEY, codec.print_(deduped))];
    var out := WriteContainer(meta, bytes[pos..]);
    return Ok(out.data);
  }

  // ----- reading what was written -----

  lemma ContainerIsOneBlock(entries: seq<Entry>, rest: ByteString)
    ensures Container(entries, rest) == BlockContainer([Block(entries, None)], rest)
    ensures AllEntries([Block(entries, None)]) == entries
  {
    hide LongBytes, EntriesBytes;
    var blocks := [Block(entries, None)];
    assert blocks[1..] == [];
    var n, e, z := LongBytes(AsI64(|entries|)), EntriesBytes(entries), LongBytes(0);
    assert BlocksBytes(blocks) == n + e + z by { assert BlocksBytes([]) == z; }
    assert n + e + z + rest == n + (e + (z + rest));
  }

  /** A written header reads back as the entries written, with the sync marker right behind. */
  lemma ContainerRoundTrip(entries: seq<Entry>, rest: ByteString)
    requires 0 < |entries| && |rest| >= 16 && |Container(entries, rest)| < TWO63
    ensures var out := Container(entries, rest);
            |out| >= |rest| && ReadLayout(out) == Some(Meta(entries, |out| - |rest| + 16)) &&
            out[|out| - |rest|..] == rest
  {
    hide Container, BlockContainer, ReadLayout, AllEntries;
    ContainerIsOneBlock(entries, rest);
    BlockContainerRoundTrip([Block(entries, None)], rest);
  }

  /** Sync marker, and the first data block: its number of records, its size and its data. */
  function Records(sync: ByteString, count: i64, size: i64, data: ByteString): ByteString {
    sync + (LongBytes(count) + (LongBytes(size) + data))
  }

  function Record(sync: ByteString, size: i64, datum: ByteString): ByteString {
    Records(sync, 1, size, datum)
  }

  /** Of the containers with their metadata in any blocks the reader accepts exactly those of one
      record whose last schema entry is text; it finds that entry and starts at the record's first
      byte. */
  lemma BlocksAreAccepted(
    blocks: seq<Block>, sync: ByteString, count: i64, size: i64, data: ByteString, utf8: ByteString -> bool)
    requires NoneEmpty(blocks) && |sync| == 16 && |BlockContainer(blocks, Records(sync, count, size, data))| < TWO63
    ensures var out := BlockContainer(blocks, Records(sync, count, size, data));
            var schema := LastSchema(AllEntries(blocks));
            |data| <= |out| && out[|out| - |data|..] == data &&
            ReadHeader(out, utf8) ==
            if count == 1 && schema.Some? && utf8(schema.value)
            then Some(Header(schema.value, |out| - |data|)) else None
  {
    hide ReadLayout, ReadBlockStart, LongBytes, BlockContainer, LastSchema, At, AllEntries, NoneEmpty;
    var rest := Records(sync, count, size, data);
    var out := BlockContainer(blocks, rest);
    BlockContainerRoundTrip(blocks, rest);
    BlockBehindSync(out, |out| - |rest|, sync, count, size, data);
  }

  /** So it does those with one block, as the rewriter writes them. */
  lemma ContainerIsAccepted(
    entries: seq<Entry>, sync: ByteString, size: i64, datum: ByteString, utf8: ByteString -> bool)
    requires 0 < |entries| && |sync| == 16
    requires LastSchema(entries).Some? && utf8(LastSchema(entries).value)
    requires |Container(entries, Record(sync, size, datum))| < TWO63
    ensures var out := Container(entries, Record(sync, size, datum));
            ReadHeader(out, utf8) == Some(Header(LastSchema(entries).value, |out| - |datum|)) &&
            |datum| <= |out| && out[|out| - |datum|..] == datum
  {
    hide Container, BlockContainer, LastSchema, Records, ReadHeader, AllEntries;
    ContainerIsOneBlock(entries, Record(sync, size, datum));
    BlocksAreAccepted([Block(entries, None)], sync, 1, size, datum, utf8);
  }

  lemma BlockBehindSync(out: ByteString, at: nat, sync: ByteString, count: i64, size: i64, datum: ByteString)
    requires at <= |out| && out[at..] == sync + (LongBytes(count) + (LongBytes(size) + datum))
    ensures |datum| <= |out| && out[|out| - |datum|..] == datum
    ensures ReadBlockStart(out, at + |sync|) == if count == 1 then Some(|out| - |datum|) else None
  {
    hide ReadLong, LongBytes;
    var one, n := LongBytes(count), LongBytes(size);
    var data := at + |sync|;
    assert At(out, at, sync + (one + (n + datum)));
    AtConcat(out, at, sync, one + (n + datum));
    AtConcat(out, data, one, n + datum);
    AtConcat(out, data + |one|, n, datum);
    LongRoundTrip(count, out, data);
    LongRoundTrip(size, out, data + |one|);
  }

  // ----- reading depends only on the bytes from the position on -----

  lemma {:induction false} DigitsShift(b: ByteString, pos: nat, c: ByteString, q: nat, budget: nat)
    requires pos <= |b| && q <= |c| && b[pos..] == c[q..]
    ensures ReadDigits(b, pos, budget).Some? <==> ReadDigits(c, q, budget).Some?
    ensures ReadDigits(b, pos, budget).Some? ==>
              ReadDigits(b, pos, budget).value.value == ReadDigits(c, q, budget).value.value &&
              ReadDigits(b, pos, budget).value.next - pos == ReadDigits(c, q, budget).value.next - q
    decreases budget
  {
    assert |b| - pos == |b[pos..]| == |c[q..]| == |c| - q;
    if budget > 0 && pos < |b| {
      assert b[pos] == b[pos..][0] && c[q] == c[q..][0];
      assert b[pos + 1..] == b[pos..][1..] && c[q + 1..] == c[q..][1..];
      DigitsShift(b, pos + 1, c, q + 1, budget - 1);
    }
  }

  lemma LongShift(b: ByteString, pos: nat, c: ByteString, q: nat)
    requires pos <= |b| && q <= |c| && b[pos..] == c[q..]
    ensures ReadLong(b, pos).Some? <==> ReadLong(c, q).Some?
    ensures ReadLong(b, pos).Some? ==>
              ReadLong(b, pos).value.value == ReadLong(c, q).value.value &&
              ReadLong(b, pos).value.next - pos == ReadLong(c, q).value.next - q
  {
    DigitsShift(b, pos, c, q, 10);
  }

  lemma BlockStartShift(b: ByteString, pos: nat, c: ByteString, q: nat)
    requires pos <= |b| && q <= |c| && b[pos..] == c[q..]
    ensures ReadBlockStart(b, pos).Some? <==> ReadBlockStart(c, q).Some?
    ensures ReadBlockStart(b, pos).Some? ==>
              pos <= ReadBlockStart(b, pos).value <= |b| && q <= ReadBlockStart(c, q).value <= |c| &&
              b[ReadBlockStart(b, pos).value..] == c[ReadBlockStart(c, q).value..]
  {
    LongShift(b, pos, c, q);
    LongRange(b, pos);
    LongRange(c, q);
    if ReadLong(b, pos).Some? {
      var n, m := ReadLong(b, pos).value.next, ReadLong(c, q).value.next;
      assert b[n..] == b[pos..][n - pos..] && c[m..] == c[q..][m - q..];
      LongShift(b, n, c, m);
      LongRange(b, n);
      LongRange(c, m);
      if ReadLong(b, n).Some? {
        var s, t := ReadLong(b, n).value.next, ReadLong(c, m).value.next;
        assert b[s..] == b[pos..][s - pos..] && c[t..] == c[q..][t - q..];
      }
    }
  }

  // ----- the rewrite is faithful -----

  /** Exactly one entry is the schema. */
  predicate OneSchema(entries: seq<Entry>) {
    var i := FirstSchema(entries);
    i < |entries| && LastSchema(entries[i + 1..]).None?
  }

  lemma {:induction false} NoSchemaBefore(entries: seq<Entry>, n: nat)
    requires n <= |entries| && forall j :: 0 <= j < n ==> entries[j].key != SCHEMA_KEY
    ensures LastSchema(entries[..n]).None?
    decreases n
  {
    if n > 0 {
      assert entries[..n][1..] == entries[1..][..n - 1];
      NoSchemaBefore(entries[1..], n - 1);
    }
  }

  lemma {:induction false} SomeSchema(entries: seq<Entry>)
    ensures LastSchema(entries).Some? <==> FirstSchema(entries) < |entries|
  {
    if entries != [] {
      SomeSchema(entries[1..]);
    }
  }

  /** The schema the reader picks, around the first schema entry. */
  lemma SchemaAround(entries: seq<Entry>, i: nat)
    requires i < |entries| && entries[i].key == SCHEMA_KEY
    requires forall j :: 0 <= j < i ==> entries[j].key != SCHEMA_KEY
    ensures LastSchema(entries) ==
            if LastSchema(entries[i + 1..]).Some? then LastSchema(entries[i + 1..])
            else Some(entries[i].value)
  {
    NoSchemaBefore(entries, i);
    assert entries == entries[..i] + entries[i..];
    LastSchemaConcat(entries[..i], entries[i..]);
    assert entries[i..][1..] == entries[i + 1..];
  }

  lemma {:induction false} FirstSchemaUnique(entries: seq<Entry>, i: nat)
    requires i < |entries| && entries[i].key == SCHEMA_KEY
    requires forall j :: 0 <= j < i ==> entries[j].key != SCHEMA_KEY
    ensures FirstSchema(entries) == i
  {
  }

  /** What the reader finds in the rewritten metadata: the cleaned schema when there was one
      schema entry, and the untouched last one otherwise. */
  lemma SchemaAfter(entries: seq<Entry>, cleaned: ByteString)
    requires FirstSchema(entries) < |entries|
    ensures var i := FirstSchema(entries);
            var after := entries[i := Entry(SCHEMA_KEY, cleaned)];
            FirstSchema(after) == i &&
            LastSchema(after) == if OneSchema(entries) then Some(cleaned) else LastSchema(entries)
  {
    var i := FirstSchema(entries);
    var after := entries[i := Entry(SCHEMA_KEY, cleaned)];
    FirstSchemaUnique(after, i);
    SchemaAround(entries, i);
    SchemaAround(after, i);
    assert after[i + 1..] == entries[i + 1..];
  }

  lemma CleanedIsUtf8(codec: Codec, schema: ByteString)
    requires Lawful(codec) && Cleaned(codec, schema).Some?
    ensures codec.utf8(Cleaned(codec, schema).value)
  {
    hide WellFormed, Dedupe;
  }

  lemma {:induction false} DedupeWellFormed(codec: Codec, value: Json, depth: nat)
    requires WellFormed(codec, value, depth)
    ensures WellFormed(codec, Dedupe(value), depth)
    decreases value, 1
  {
    match value
    case Arr(items) =>
      forall i | 0 <= i < |items| ensures WellFormed(codec, DedupeAll(items)[i], depth - 1) {
        DedupeWellFormed(codec, items[i], depth - 1);
      }
    case Obj(members) =>
      var inner := DedupeMembers(members);
      forall i | 0 <= i < |members| ensures WellFormed(codec, inner[i].value, depth - 1) {
        DedupeWellFormed(codec, members[i].value, depth - 1);
      }
      RenameInWellFormed(codec, inner, depth);
    case _ =>
  }

  lemma RenamedWellFormed(codec: Codec, fields: seq<Json>, depth: nat)
    requires WellFormed(codec, Arr(fields), depth)
    ensures WellFormed(codec, Arr(Renamed(fields)), depth)
  {
    forall k | 0 <= k < |fields| ensures WellFormed(codec, Renamed(fields)[k], depth - 1) {
      assert WellFormed(codec, fields[k], depth - 1);
      if NameOf(fields[k]).Some? {
        WithNameWellFormed(codec, fields[k], NewName(fields, k).value, depth - 1);
      }
    }
  }

  lemma RenameInWellFormed(codec: Codec, members: seq<Member>, depth: nat)
    requires WellFormed(codec, Obj(members), depth)
    ensures WellFormed(codec, Obj(RenameIn(members)), depth)
  {
    hide Renamed;
    RenameInGet(members, "name");
    if RecordFields(members).Some? {
      assert WellFormed(codec, members[Find(members, "fields")].value, depth - 1);
      RenamedWellFormed(codec, RecordFields(members).value, depth - 1);
    }
  }

  lemma WithNameWellFormed(codec: Codec, field: Json, name: string, depth: nat)
    requires WellFormed(codec, field, depth) && NameOf(field).Some?
    ensures WellFormed(codec, WithName(field, name), depth)
  {
    WithNameFacts(field, name);
    var after := WithName(field, name).members;
    forall i | 0 <= i < |after| ensures WellFormed(codec, after[i].value, depth - 1) {
      assert WellFormed(codec, field.members[i].value, depth - 1);
    }
  }

  /** Only the first schema's text changes: the rewritten container has the same metadata otherwise, in
      the same order, and is the same byte for byte from the sync marker on. */
  lemma RewriteChangesOnlyTheSchema(b: ByteString, codec: Codec)
    requires |b| < TWO63 && Rewritten(b, codec).Some? && |Rewritten(b, codec).value| < TWO63
    ensures var out := Rewritten(b, codec).value;
            ReadLayout(b).Some? && ReadLayout(out).Some? &&
            var before, after := ReadLayout(b).value, ReadLayout(out).value;
            var i := FirstSchema(before.entries);
            |after.entries| == |before.entries| && i < |after.entries| && after.entries[i].key == SCHEMA_KEY &&
            Some(after.entries[i].value) == Cleaned(codec, before.entries[i].value) &&
            (forall j :: 0 <= j < |before.entries| && j != i ==> after.entries[j] == before.entries[j]) &&
            16 <= before.next <= |b| && 16 <= after.next <= |out| && out[after.next - 16..] == b[before.next - 16..]
  {
    hide ReadLayout, Container, Cleaned;
    var layout := ReadLayout(b).value;
    LayoutRange(b);
    var i := FirstSchema(layout.entries);
    var cleaned := Cleaned(codec, layout.entries[i].value).value;
    ContainerRoundTrip(layout.entries[i := Entry(SCHEMA_KEY, cleaned)], b[layout.next - 16..]);
  }

  /** What the reader makes of a rewritten container: the same data bytes from its start index
      on, and the cleaned schema when the metadata had one schema entry (the untouched last one
      otherwise).  Holds for any block structure of the input's metadata. */
  lemma RewriteReadsBack(b: ByteString, codec: Codec)
    requires |b| < TWO63 && Lawful(codec) && ReadHeader(b, codec.utf8).Some?
    requires Rewritten(b, codec).Some? && |Rewritten(b, codec).value| < TWO63
    ensures var entries := ReadLayout(b).value.entries;
            var h := ReadHeader(b, codec.utf8).value;
            var out := Rewritten(b, codec).value;
            var after := ReadHeader(out, codec.utf8);
            after.Some? && h.startIdx <= |b| && after.value.startIdx <= |out| &&
            out[after.value.startIdx..] == b[h.startIdx..] &&
            Some(after.value.schema) ==
            if OneSchema(entries) then Cleaned(codec, h.schema) else Some(h.schema)
  {
    hide ReadLayout, Container, Cleaned, ReadBlockStart, Lawful;
    var layout := ReadLayout(b).value;
    LayoutRange(b);
    var entries := layout.entries;
    var i := FirstSchema(entries);
    var cleaned := Cleaned(codec, entries[i].value).value;
    var updated := entries[i := Entry(SCHEMA_KEY, cleaned)];
    var rest := b[layout.next - 16..];
    var out := Rewritten(b, codec).value;
    ContainerRoundTrip(updated, rest);
    assert out[|out| - |rest| + 16..] == b[layout.next..] by {
      assert out[|out| - |rest| + 16..] == out[|out| - |rest|..][16..];
      assert b[layout.next..] == rest[16..];
    }
    BlockStartShift(b, layout.next, out, |out| - |rest| + 16);
    SchemaAfter(entries, cleaned);
    SchemaAround(entries, i);
    CleanedIsUtf8(codec, entries[i].value);
  }

  lemma LayoutRange(b: ByteString)
    requires ReadLayout(b).Some?
    ensures 16 <= ReadLayout(b).value.next <= |b| && |ReadLayout(b).value.entries| <= |b|
  {
    BlocksRange(b, 4);
  }

  /** A container the reader accepts, with one JSON schema entry, is rewritten. */
  lemma RewriteSucceeds(b: ByteString, codec: Codec)
    requires ReadHeader(b, codec.utf8).Some? && OneSchema(ReadLayout(b).value.entries)
    requires codec.parse(ReadHeader(b, codec.utf8).value.schema).Some?
    ensures Rewritten(b, codec).Some?
  {
    var entries := ReadLayout(b).value.entries;
    hide Dedupe, Container, ReadLayout, ReadBlockStart;
    SchemaAround(entries, FirstSchema(entries));
  }

  /** Faithful rewrite: for a container the reader accepts, with one JSON schema entry, the
      rewriter succeeds and the reader then finds the deduplicated schema and exactly the same
      data. */
  lemma RewriteIsFaithful(b: ByteString, codec: Codec)
    requires |b| < TWO63 && Lawful(codec) && ReadHeader(b, codec.utf8).Some?
    requires OneSchema(ReadLayout(b).value.entries)
    requires codec.parse(ReadHeader(b, codec.utf8).value.schema).Some?
    requires WellFormed(codec, codec.parse(ReadHeader(b, codec.utf8).value.schema).value, codec.depth)
    requires Rewritten(b, codec).Some? ==> |Rewritten(b, codec).value| < TWO63
    ensures Rewritten(b, codec).Some?
    ensures var h := ReadHeader(b, codec.utf8).value;
            var out := Rewritten(b, codec).value;
            var after := ReadHeader(out, codec.utf8);
            after.Some? && codec.parse(after.value.schema) == Some(Dedupe(codec.parse(h.schema).value)) &&
            h.startIdx <= |b| && after.value.startIdx <= |out| &&
            out[after.value.startIdx..] == b[h.startIdx..]
  {
    var schema := ReadHeader(b, codec.utf8).value.schema;
    RewriteSucceeds(b, codec);
    RewriteReadsBack(b, codec);
    DedupeWellFormed(codec, codec.parse(schema).value, codec.depth);
    Reparses(codec, schema);
    hide WellFormed, Dedupe, ReadHeader, Rewritten, Lawful, OneSchema, ReadLayout, Cleaned;
  }

  lemma OnlySchema(entries: seq<Entry>)
    requires OneSchema(entries)
    ensures LastSchema(entries) == Some(entries[FirstSchema(entries)].value)
  {
    SchemaAround(entries, FirstSchema(entries));
  }

  /** In whatever blocks the metadata of a one-record container come, the rewrite succeeds for one
      JSON schema entry, and the reader finds that schema deduplicated and the same datum. */
  lemma AnyBlocksAreRewritten(blocks: seq<Block>, sync: ByteString, size: i64, datum: ByteString, codec: Codec)
    requires NoneEmpty(blocks) && |sync| == 16 && OneSchema(AllEntries(blocks)) && Lawful(codec)
    requires var schema := AllEntries(blocks)[FirstSchema(AllEntries(blocks))].value;
             codec.utf8(schema) && codec.parse(schema).Some? &&
             WellFormed(codec, codec.parse(schema).value, codec.depth)
    requires |BlockContainer(blocks, Record(sync, size, datum))| < TWO63
    requires var out := Rewritten(BlockContainer(blocks, Record(sync, size, datum)), codec);
             out.Some? ==> |out.value| < TWO63
    ensures var schema := AllEntries(blocks)[FirstSchema(AllEntries(blocks))].value;
            var out := Rewritten(BlockContainer(blocks, Record(sync, size, datum)), codec);
            out.Some? &&
            var after := ReadHeader(out.value, codec.utf8);
            after.Some? && codec.parse(after.value.schema) == Some(Dedupe(codec.parse(schema).value)) &&
            after.value.startIdx <= |out.value| && out.value[after.value.startIdx..] == datum
  {
    var entries := AllEntries(blocks);
    OnlySchema(entries);
    hide OneSchema, WellFormed, Dedupe, Rewritten, Lawful, ReadLayout, BlockContainer, LastSchema, Records, AllEntries,
      NoneEmpty,
      ReadHeader;
    var b := BlockContainer(blocks, Record(sync, size, datum));
    BlockContainerRoundTrip(blocks, Record(sync, size, datum));
    BlocksAreAccepted(blocks, sync, 1, size, datum, codec.utf8);
    RewriteIsFaithful(b, codec);
  }

  lemma Reparses(codec: Codec, schema: ByteString)
    requires Lawful(codec) && codec.parse(schema).Some? && WellFormed(codec, codec.parse(schema).value, codec.depth)
    ensures Cleaned(codec, schema).Some? ==>
              codec.parse(Cleaned(codec, schema).value) == Some(Dedupe(codec.parse(schema).value))
  {
    DedupeWellFormed(codec, codec.parse(schema).value, codec.depth);
    hide WellFormed, Dedupe;
  }

  /** With several schema entries the rewriter cleans the first and the reader reads the last: the
      reader gets its own schema deduplicated exactly when there is one entry, or when no record of
      that schema had two fields of one name. */
  lemma RewriteCleansExactly(b: ByteString, codec: Codec)
    requires |b| < TWO63 && Lawful(codec) && ReadHeader(b, codec.utf8).Some?
    requires Rewritten(b, codec).Some? && |Rewritten(b, codec).value| < TWO63
    ensures var h := ReadHeader(b, codec.utf8).value;
            var after := ReadHeader(Rewritten(b, codec).value, codec.utf8);
            var json := codec.parse(h.schema);
            after.Some? &&
            (json.Some? && WellFormed(codec, json.value, codec.depth) ==>
               (codec.parse(after.value.schema) == Some(Dedupe(json.value)) <==>
                OneSchema(ReadLayout(b).value.entries) || AllDistinct(json.value)))
  {
    RewriteReadsBack(b, codec);
    hide ReadHeader, Rewritten, ReadLayout, OneSchema, WellFormed, Cleaned, Lawful;
    var schema := ReadHeader(b, codec.utf8).value.schema;
    var json := codec.parse(schema);
    if json.Some? && WellFormed(codec, json.value, codec.depth) {
      Reparses(codec, schema);
      if AllDistinct(json.value) {
        CleanIsFixed(json.value);
      }
      if Dedupe(json.value) == json.value {
        FixedIsClean(json.value);
      }
    }
  }

  // ----- two containers on which the rewrite falls short -----

  function NamedField(name: string): Json {
    Obj([Member("name", Str(name))])
  }

  /** A record schema with fields of these names. */
  function RecordOf(names: seq<string>): Json {
    Obj([Member("type", Str("record")),
         Member("fields", Arr(seq(|names|, i requires 0 <= i < |names| => NamedField(names[i]))))])
  }

  lemma RecordOfFields(codec: Codec, names: seq<string>, depth: nat)
    requires depth >= 3
    ensures var fields := RecordFields(RecordOf(names).members);
            fields.Some? && |fields.value| == |names| &&
            forall i :: 0 <= i < |names| ==>
              fields.value[i] == NamedField(names[i]) && NameOf(fields.value[i]) == Some(names[i])
    ensures WellFormed(codec, RecordOf(names), depth)
  {
    var members := RecordOf(names).members;
    assert members[1..][0].key == "fields";
    assert "type" != "fields" && |"type"| != |"fields"|;
    assert Find(members[1..], "fields") == 0;
    forall i | 0 <= i < |names| ensures NameOf(NamedField(names[i])) == Some(names[i]) {
      assert NamedField(names[i]).members[0].key == "name";
    }
    forall i | 0 <= i < |names| ensures WellFormed(codec, NamedField(names[i]), depth - 2) {
    }
  }

  /** A one-record container with these metadata. */
  function OneRecord(entries: seq<Entry>, sync: ByteString, size: i64, datum: ByteString): ByteString {
    Container(entries, Record(sync, size, datum))
  }

  /** A repeated `avro.schema` key: the rewriter succeeds, and the reader finds the schema as it
      was. */
  lemma RepeatedKeyStays(codec: Codec, json: Json, sync: ByteString, size: i64, datum: ByteString)
    requires Lawful(codec) && WellFormed(codec, json, codec.depth) && |sync| == 16
    requires var schema := Entry(SCHEMA_KEY, codec.print_(json));
             var b := OneRecord([schema, schema], sync, size, datum);
             |b| < TWO63 && (Rewritten(b, codec).Some? ==> |Rewritten(b, codec).value| < TWO63)
    ensures var schema := Entry(SCHEMA_KEY, codec.print_(json));
            var b := OneRecord([schema, schema], sync, size, datum);
            Rewritten(b, codec).Some? &&
            var after := ReadHeader(Rewritten(b, codec).value, codec.utf8);
            after.Some? && codec.parse(after.value.schema) == Some(json)
  {
    var schema := Entry(SCHEMA_KEY, codec.print_(json));
    var entries := [schema, schema];
    var b := OneRecord(entries, sync, size, datum);
    assert 0 < |entries| < TWO63;
    hide *;
    TwoSchemas(schema);
    PrintedIsCleaned(codec, json);
    RecordIsRewritten(codec, entries, sync, size, datum);
    RewriteReadsBack(b, codec);
  }

  lemma TwoSchemas(schema: Entry)
    requires schema.key == SCHEMA_KEY
    ensures LastSchema([schema, schema]) == Some(schema.value)
    ensures FirstSchema([schema, schema]) == 0 && !OneSchema([schema, schema])
  {
    var entries := [schema, schema];
    assert entries[1..] == [schema] && [schema][1..] == [];
    assert LastSchema([schema]) == Some(schema.value);
  }

  lemma PrintedIsCleaned(codec: Codec, json: Json)
    requires Lawful(codec) && WellFormed(codec, json, codec.depth)
    ensures codec.utf8(codec.print_(json)) && codec.parse(codec.print_(json)) == Some(json)
    ensures Cleaned(codec, codec.print_(json)).Some?
  {
  }

  /** A written one-record container is rewritten when its first schema can be cleaned, and the
      reader accepts it when its last schema is text. */
  lemma RecordIsRewritten(codec: Codec, entries: seq<Entry>, sync: ByteString, size: i64, datum: ByteString)
    requires 0 < |entries| < TWO63 && |sync| == 16 && |OneRecord(entries, sync, size, datum)| < TWO63
    requires FirstSchema(entries) < |entries| && Cleaned(codec, entries[FirstSchema(entries)].value).Some?
    requires LastSchema(entries).Some? && codec.utf8(LastSchema(entries).value)
    ensures var b := OneRecord(entries, sync, size, datum);
            ReadLayout(b).Some? && ReadLayout(b).value.entries == entries &&
            Rewritten(b, codec).Some? && ReadHeader(b, codec.utf8).Some? &&
            ReadHeader(b, codec.utf8).value.schema == LastSchema(entries).value
  {
    hide Container, ReadLayout, Cleaned, LastSchema, LongBytes, ReadHeader;
    ContainerIsAccepted(entries, sync, size, datum, codec.utf8);
    ContainerRoundTrip(entries, Record(sync, size, datum));
  }

  lemma TwoXsCollide()
    ensures !AllDistinct(RecordOf(["x", "x"]))
  {
    var json := RecordOf(["x", "x"]);
    RecordOfFields(Codec(_ => true, _ => None, _ => [], _ => true, 3), ["x", "x"], 3);
    var fields := RecordFields(json.members).value;
    assert NameOf(fields[0]) == NameOf(fields[1]);
  }

  lemma RenamedXsClash()
    ensures !AllNoClash(RecordOf(["x", "x", "x__dup1"]))
  {
    var json := RecordOf(["x", "x", "x__dup1"]);
    RecordOfFields(Codec(_ => true, _ => None, _ => [], _ => true, 3), ["x", "x", "x__dup1"], 3);
    var fields := RecordFields(json.members).value;
    assert fields == [fields[0], fields[0], fields[2]];
    ClashExample(fields[0], fields[2]);
    RenamedDistinctExactly(fields);
  }

  /** So with two `avro.schema` entries the reader may still find two fields of one name. */
  lemma RepeatedKeyKeepsDuplicates(codec: Codec, sync: ByteString, size: i64, datum: ByteString)
    requires Lawful(codec) && codec.depth >= 3 && |sync| == 16
    requires var schema := Entry(SCHEMA_KEY, codec.print_(RecordOf(["x", "x"])));
             var b := OneRecord([schema, schema], sync, size, datum);
             |b| < TWO63 && (Rewritten(b, codec).Some? ==> |Rewritten(b, codec).value| < TWO63)
    ensures var schema := Entry(SCHEMA_KEY, codec.print_(RecordOf(["x", "x"])));
            var b := OneRecord([schema, schema], sync, size, datum);
            Rewritten(b, codec).Some? &&
            var after := ReadHeader(Rewritten(b, codec).value, codec.utf8);
            after.Some? && codec.parse(after.value.schema).Some? &&
            !AllDistinct(codec.parse(after.value.schema).value)
  {
    hide RecordOf, AllDistinct, OneRecord, Rewritten, ReadHeader, WellFormed, Lawful;
    RecordOfFields(codec, ["x", "x"], codec.depth);
    TwoXsCollide();
    RepeatedKeyStays(codec, RecordOf(["x", "x"]), sync, size, datum);
  }

  // ----- rewriting twice -----

  /** The JSON schema the rewriter works on. */
  function RewrittenSchema(b: ByteString, codec: Codec): Option<Json> {
    match ReadLayout(b)
    case None => None
    case Some(layout) =>
      var i := FirstSchema(layout.entries);
      if i == |layout.entries| then None else codec.parse(layout.entries[i].value)
  }

  /** Rewriting twice gives the same bytes as rewriting once exactly when no record of the schema
      had a field already carrying a generated name. */
  lemma RewriteIdempotentExactly(b: ByteString, codec: Codec)
    requires |b| < TWO63 && Lawful(codec)
    requires Rewritten(b, codec).Some? && |Rewritten(b, codec).value| < TWO63
    requires RewrittenSchema(b, codec).Some? ==> WellFormed(codec, RewrittenSchema(b, codec).value, codec.depth)
    ensures RewrittenSchema(b, codec).Some?
    ensures Rewritten(Rewritten(b, codec).value, codec) == Rewritten(b, codec) <==>
            AllNoClash(RewrittenSchema(b, codec).value)
  {
    hide Container, ReadLayout, AllNoClash;
    var layout := ReadLayout(b).value;
    LayoutRange(b);
    var entries := layout.entries;
    var i := FirstSchema(entries);
    var json := codec.parse(entries[i].value).value;
    var cleaned := codec.print_(Dedupe(json));
    var updated := entries[i := Entry(SCHEMA_KEY, cleaned)];
    var rest := b[layout.next - 16..];
    var out := Rewritten(b, codec).value;
    assert out == Container(updated, rest);
    ContainerRoundTrip(updated, rest);
    SchemaAfter(entries, cleaned);
    DedupeWellFormed(codec, json, codec.depth);
    DedupeWellFormed(codec, Dedupe(json), codec.depth);
    var twice := codec.print_(Dedupe(Dedupe(json)));
    var again := updated[i := Entry(SCHEMA_KEY, twice)];
    assert Rewritten(out, codec) == Some(Container(again, rest));
    DedupeIdempotentExactly(json);
    if Dedupe(Dedupe(json)) != Dedupe(json) {
      assert codec.parse(twice) != codec.parse(cleaned);
      ContainerInjective(updated, again, rest);
    } else {
      assert again == updated;
    }
  }

  lemma ContainerInjective(x: seq<Entry>, y: seq<Entry>, rest: ByteString)
    requires 0 < |x| < TWO63 && 0 < |y| < TWO63 && |rest| >= 16 && |Container(x, rest)| < TWO63
    requires x != y
    ensures Container(x, rest) != Container(y, rest)
  {
    hide Container, ReadLayout;
    if Container(x, rest) == Container(y, rest) {
      ContainerRoundTrip(x, rest);
      ContainerRoundTrip(y, rest);
      assert false;
    }
  }

  /** A schema with fields x, x and x__dup1: rewriting the rewritten container changes it again. */
  lemma ClashIsRewrittenAgain(codec: Codec, sync: ByteString, size: i64, datum: ByteString)
    requires Lawful(codec) && codec.depth >= 3 && |sync| == 16
    requires var schema := Entry(SCHEMA_KEY, codec.print_(RecordOf(["x", "x", "x__dup1"])));
             var b := OneRecord([schema], sync, size, datum);
             |b| < TWO63 && (Rewritten(b, codec).Some? ==> |Rewritten(b, codec).value| < TWO63)
    ensures var schema := Entry(SCHEMA_KEY, codec.print_(RecordOf(["x", "x", "x__dup1"])));
            var b := OneRecord([schema], sync, size, datum);
            Rewritten(b, codec).Some? &&
            Rewritten(Rewritten(b, codec).value, codec) != Rewritten(b, codec)
  {
    var json := RecordOf(["x", "x", "x__dup1"]);
    hide RecordOf, Container, ReadLayout, AllNoClash, LongBytes, WellFormed, Dedupe;
    RecordOfFields(codec, ["x", "x", "x__dup1"], codec.depth);
    RenamedXsClash();
    var schema := Entry(SCHEMA_KEY, codec.print_(json));
    assert FirstSchema([schema]) == 0;
    ContainerRoundTrip([schema], Record(sync, size, datum));
    RewriteIdempotentExactly(OneRecord([schema], sync, size, datum), codec);
  }
}
