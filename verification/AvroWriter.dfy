// Writing the header of an Avro object container file, and reading it back.
// Source: the map encoding and "Object Container Files" of the Apache Avro specification 1.3.2, which
// allows any number of blocks and, before the entries of a block, its size in bytes.
module AvroWriter {
  import opened Bytes
  import opened Wrappers
  import opened AvroLong
  import opened AvroContainer

  function EntriesBytes(entries: seq<Entry>): ByteString {
    if entries == [] then [] else EntryBytes(entries[0]) + EntriesBytes(entries[1..])
  }

  function EntryBytes(entry: Entry): ByteString {
    BytesBytes(entry.key) + BytesBytes(entry.value)
  }

  /** A block of entries. One with a size is written with a negative count and the size behind it;
      without entries its count is the smallest one, whose negation stays negative. */
  datatype Block = Block(entries: seq<Entry>, size: Option<i64>)

  function BlockBytes(block: Block): ByteString {
    var count := AsI64(|block.entries|);
    match block.size
    case None => LongBytes(count) + EntriesBytes(block.entries)
    case Some(size) =>
      LongBytes(if count == 0 then -TWO63 else Negated(count)) + (LongBytes(size) + EntriesBytes(block.entries))
  }

  /** The metadata map in the given blocks, and its terminator. */
  function BlocksBytes(blocks: seq<Block>): ByteString {
    if blocks == [] then LongBytes(0) else BlockBytes(blocks[0]) + BlocksBytes(blocks[1..])
  }

  function AllEntries(blocks: seq<Block>): seq<Entry> {
    if blocks == [] then [] else blocks[0].entries + AllEntries(blocks[1..])
  }

  /** A block with count 0 would end the map. */
  predicate NoneEmpty(blocks: seq<Block>) {
    forall i :: 0 <= i < |blocks| ==> blocks[i].entries != [] || blocks[i].size.Some?
  }

  function BlockContainer(blocks: seq<Block>, rest: ByteString): ByteString {
    MAGIC + (BlocksBytes(blocks) + rest)
  }

  lemma {:induction false} EntriesBytesConcat(a: seq<Entry>, b: seq<Entry>)
    ensures EntriesBytes(a + b) == EntriesBytes(a) + EntriesBytes(b)
  {
    if a == [] {
      assert a + b == b;
    } else {
      assert (a + b)[1..] == a[1..] + b;
      EntriesBytesConcat(a[1..], b);
    }
  }

  lemma OneEntry(entry: Entry)
    ensures EntriesBytes([entry]) == EntryBytes(entry)
  {
    assert [entry][1..] == [];
  }

  lemma BytesRoundTrip(b: ByteString, pos: nat, value: ByteString)
    requires |b| < TWO63 && At(b, pos, BytesBytes(value))
    ensures ReadBytes(b, pos) == Some(Chunk(value, pos + |BytesBytes(value)|))
  {
    AtConcat(b, pos, LongBytes(AsI64(|value|)), value);
    LongRoundTrip(|value|, b, pos);
  }

  /** A length that is negative, or reaches past the end, is the only thing that cannot be read. */
  lemma BytesExactly(b: ByteString, pos: nat, length: i64)
    requires At(b, pos, LongBytes(length))
    ensures ReadBytes(b, pos).Some? <==> 0 <= length && pos + |LongBytes(length)| + length <= |b|
  {
    hide LongBytes, At, ReadLong;
    LongRoundTrip(length, b, pos);
  }

  lemma EntryRoundTrip(b: ByteString, pos: nat, entry: Entry)
    requires |b| < TWO63 && At(b, pos, EntryBytes(entry))
    ensures ReadEntry(b, pos) == Some(Meta([entry], pos + |EntryBytes(entry)|))
  {
    hide At, BytesBytes, ReadBytes;
    AtConcat(b, pos, BytesBytes(entry.key), BytesBytes(entry.value));
    BytesRoundTrip(b, pos, entry.key);
    BytesRoundTrip(b, pos + |BytesBytes(entry.key)|, entry.value);
  }

  lemma EntriesStep(b: ByteString, pos: nat, entries: seq<Entry>, mid: nat, end: nat)
    requires entries != [] && ReadEntry(b, pos) == Some(Meta([entries[0]], mid))
    requires ReadEntries(b, mid, |entries| - 1) == Some(Meta(entries[1..], end))
    ensures ReadEntries(b, pos, |entries|) == Some(Meta(entries, end))
  {
    assert [entries[0]] + entries[1..] == entries;
  }

  lemma EntriesParts(b: ByteString, pos: nat, entries: seq<Entry>)
    requires entries != [] && At(b, pos, EntriesBytes(entries))
    ensures At(b, pos, EntryBytes(entries[0]))
    ensures At(b, pos + |EntryBytes(entries[0])|, EntriesBytes(entries[1..]))
    ensures |EntriesBytes(entries)| == |EntryBytes(entries[0])| + |EntriesBytes(entries[1..])|
  {
    AtConcat(b, pos, EntryBytes(entries[0]), EntriesBytes(entries[1..]));
  }

  lemma {:induction false} EntriesRoundTrip(b: ByteString, pos: nat, entries: seq<Entry>)
    requires |b| < TWO63 && At(b, pos, EntriesBytes(entries))
    ensures ReadEntries(b, pos, |entries|) == Some(Meta(entries, pos + |EntriesBytes(entries)|))
    decreases |entries|
  {
    hide ReadEntry, EntryBytes, At;
    if entries != [] {
      EntriesParts(b, pos, entries);
      var mid := pos + |EntryBytes(entries[0])|;
      EntryRoundTrip(b, pos, entries[0]);
      EntriesRoundTrip(b, mid, entries[1..]);
      EntriesStep(b, pos, entries, mid, pos + |EntriesBytes(entries)|);
    }
  }

  lemma {:induction false} EntriesLength(entries: seq<Entry>)
    ensures |entries| <= |EntriesBytes(entries)|
  {
    if entries != [] {
      EntriesLength(entries[1..]);
      LongNotEmpty(AsI64(|entries[0].key|));
    }
  }

  lemma LongNotEmpty(n: i64)
    ensures LongBytes(n) != []
  {
  }

  /** A block's header tells how many entries follow, and where; its size is not looked at. */
  lemma BlockHeaderRoundTrip(b: ByteString, pos: nat, block: Block)
    requires |b| < TWO63 && NoneEmpty([block]) && At(b, pos, BlockBytes(block))
    ensures ReadBlockHeader(b, pos).Some?
    ensures var header := ReadBlockHeader(b, pos).value;
            header.value != 0 && EntryCount(header.value) == |block.entries| &&
            At(b, header.next, EntriesBytes(block.entries)) &&
            header.next + |EntriesBytes(block.entries)| == pos + |BlockBytes(block)|
  {
    hide ReadLong, LongBytes, EntriesBytes, At;
    assert [block][0] == block;
    var entries := EntriesBytes(block.entries);
    EntriesLength(block.entries);
    AtFits(b, pos, BlockBytes(block));
    var count := |block.entries|;
    match block.size
    case None =>
      AtConcat(b, pos, LongBytes(count), entries);
      LongRoundTrip(count, b, pos);
    case Some(size) =>
      var negative := if count == 0 then -TWO63 else -count;
      var first, second := LongBytes(negative), LongBytes(size);
      AtConcat(b, pos, first, second + entries);
      AtConcat(b, pos + |first|, second, entries);
      LongRoundTrip(negative, b, pos);
      LongRoundTrip(size, b, pos + |first|);
  }

  lemma AtFits(b: ByteString, pos: nat, x: ByteString)
    requires At(b, pos, x)
    ensures pos + |x| <= |b|
  {
  }

  /** A metadata map in any blocks, sized or not, reads back as its entries in order. */
  lemma {:induction false} BlocksRoundTrip(b: ByteString, pos: nat, blocks: seq<Block>)
    requires |b| < TWO63 && NoneEmpty(blocks) && At(b, pos, BlocksBytes(blocks))
    ensures ReadBlocks(b, pos) == Some(Meta(AllEntries(blocks), pos + |BlocksBytes(blocks)|))
    decreases |blocks|
  {
    hide ReadLong, ReadEntries, LongBytes, EntriesBytes, At, BlockBytes, ReadBlockHeader;
    if blocks == [] {
      LongRoundTrip(0, b, pos);
      NoBlocks(b, pos);
    } else {
      var block, rest := blocks[0], blocks[1..];
      var mid := pos + |BlockBytes(block)|;
      AtConcat(b, pos, BlockBytes(block), BlocksBytes(rest));
      BlockHeaderRoundTrip(b, pos, block);
      EntriesRoundTrip(b, ReadBlockHeader(b, pos).value.next, block.entries);
      BlocksRoundTrip(b, mid, rest);
    }
  }

  lemma NoBlocks(b: ByteString, pos: nat)
    requires ReadLong(b, pos).Some? && ReadLong(b, pos).value.value == 0
    ensures ReadBlocks(b, pos) == Some(Meta([], ReadLong(b, pos).value.next))
  {
  }

  /** A container with its metadata in any blocks reads back as those entries, with the sync marker
      right behind. */
  lemma BlockContainerRoundTrip(blocks: seq<Block>, rest: ByteString)
    requires NoneEmpty(blocks) && |rest| >= 16 && |BlockContainer(blocks, rest)| < TWO63
    ensures var out := BlockContainer(blocks, rest);
            |out| >= |rest| && ReadLayout(out) == Some(Meta(AllEntries(blocks), |out| - |rest| + 16)) &&
            out[|out| - |rest|..] == rest
  {
    hide BlocksBytes, ReadBlocks, AllEntries, NoneEmpty;
    var out := BlockContainer(blocks, rest);
    assert At(out, 0, out);
    AtConcat(out, 0, MAGIC, BlocksBytes(blocks) + rest);
    AtConcat(out, 4, BlocksBytes(blocks), rest);
    BlocksRoundTrip(out, 4, blocks);
  }
}
