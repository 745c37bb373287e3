// The schema cache of the alert workers, over the container header reader.
// Source: src/alert/base.rs (SchemaCache::alert_from_avro_bytes).
module SchemaCache {
  import opened Bytes
  import opened Wrappers
  import opened AvroContainer

  /** Schema parsing and datum decoding, which apache_avro does. */
  datatype Avro<!S, !A> = Avro(utf8: ByteString -> bool, parseSchema: ByteString -> Option<S>,
                             decodeDatum: (S, ByteString) -> Option<A>)

  datatype AlertError = HeaderError | SchemaError | DatumError

  datatype Cache<S> = Cache(schema: Option<S>, json: Option<ByteString>)

  /** Decoding a packet on its own: header, schema and datum all computed afresh. */
  function DecodeFresh<S, A>(avro: Avro<S, A>, packet: ByteString): Result<A, AlertError> {
    match ReadHeader(packet, avro.utf8)
    case None => Err(HeaderError)
    case Some(h) =>
      match avro.parseSchema(h.schema)
      case None => Err(SchemaError)
      case Some(schema) =>
        HeaderInRange(packet, avro.utf8);
        match avro.decodeDatum(schema, packet[h.startIdx..])
        case None => Err(DatumError)
        case Some(alert) => Ok(alert)
  }

  /** What goes wrong is what is told, and what is decoded is the data behind the header. */
  lemma DecodeFreshMeans<S, A>(avro: Avro<S, A>, packet: ByteString)
    ensures var header := ReadHeader(packet, avro.utf8);
            var r := DecodeFresh(avro, packet);
            (r == Err(HeaderError) <==> header.None?) &&
            (r == Err(SchemaError) <==> header.Some? && avro.parseSchema(header.value.schema).None?) &&
            forall alert :: r == Ok(alert) <==>
              header.Some? && header.value.startIdx <= |packet| &&
              var schema, datum := avro.parseSchema(header.value.schema), packet[header.value.startIdx..];
              schema.Some? && avro.decodeDatum(schema.value, datum) == Some(alert)
  {
    HeaderInRange(packet, avro.utf8);
    hide ReadHeader;
  }

  /** One packet through the cache: the schema is parsed again only when its text changed. */
  function Step<S, A>(avro: Avro<S, A>, cache: Cache<S>, packet: ByteString)
    : (Cache<S>, Result<A, AlertError>)
  {
    match ReadHeader(packet, avro.utf8)
    case None => (cache, Err(HeaderError))
    case Some(h) =>
      if cache.json != Some(h.schema) && avro.parseSchema(h.schema).None? then (cache, Err(SchemaError))
      else
        var next := if cache.json != Some(h.schema)
                    then Cache(avro.parseSchema(h.schema), Some(h.schema)) else cache;
        HeaderInRange(packet, avro.utf8);
        if next.schema.None? then (next, Err(DatumError))
        else match avro.decodeDatum(next.schema.value, packet[h.startIdx..])
             case None => (next, Err(DatumError))
             case Some(alert) => (next, Ok(alert))
  }

  /** The cached schema is what its cached text parses to. */
  ghost predicate Coherent<S, A>(avro: Avro<S, A>, cache: Cache<S>) {
    cache.json.Some? ==> cache.schema.Some? && avro.parseSchema(cache.json.value) == cache.schema
  }

  lemma StepIsTransparent<S, A>(avro: Avro<S, A>, cache: Cache<S>, packet: ByteString)
    requires Coherent(avro, cache)
    ensures Coherent(avro, Step(avro, cache, packet).0)
    ensures Step(avro, cache, packet).1 == DecodeFresh(avro, packet)
  {
    hide ReadHeader;
  }

  /** The results of a run of packets through one cache. */
  function RunAll<S, A>(avro: Avro<S, A>, cache: Cache<S>, packets: seq<ByteString>)
    : seq<Result<A, AlertError>>
    decreases |packets|
  {
    hide Step;
    if packets == [] then []
    else
      var (next, result) := Step(avro, cache, packets[0]);
      [result] + RunAll(avro, next, packets[1..])
  }

  /** Transparency: over any sequence of packets, including ones whose header or schema is
      rejected and ones of differing header lengths, every result is the uncached one. */
  lemma {:induction false} CacheIsTransparent<S, A>(avro: Avro<S, A>, cache: Cache<S>, packets: seq<ByteString>)
    requires Coherent(avro, cache)
    ensures |RunAll(avro, cache, packets)| == |packets|
    ensures forall i :: 0 <= i < |packets| ==>
              RunAll(avro, cache, packets)[i] == DecodeFresh(avro, packets[i])
    decreases |packets|
  {
    hide Step, DecodeFresh;
    if packets != [] {
      StepIsTransparent(avro, cache, packets[0]);
      CacheIsTransparent(avro, Step(avro, cache, packets[0]).0, packets[1..]);
    }
  }

  /** After a packet whose schema parses, that schema is the one at hand. */
  lemma StepCaches<S, A>(avro: Avro<S, A>, cache: Cache<S>, packet: ByteString)
    requires Coherent(avro, cache)
    ensures var next := Step(avro, cache, packet).0;
            match ReadHeader(packet, avro.utf8)
            case Some(h) => if avro.parseSchema(h.schema).Some? then next.json == Some(h.schema) else next == cache
            case None => next == cache
  {
    hide ReadHeader;
  }

  /** Two decoders that agree on everything but the parsing of schemas. */
  ghost predicate DifferInParsing<S, A>(avro: Avro<S, A>, other: Avro<S, A>) {
    other.utf8 == avro.utf8 && other.decodeDatum == avro.decodeDatum
  }

  /** The schema is parsed only when it changes: as long as the packets carry the schema at hand, the
      answers do not depend on the parser at all. */
  lemma {:induction false} ParsedOnlyOnChange<S, A>(
    avro: Avro<S, A>, other: Avro<S, A>, cache: Cache<S>, packets: seq<ByteString>)
    requires DifferInParsing(avro, other) && cache.schema.Some? && cache.json.Some?
    requires forall i :: 0 <= i < |packets| && ReadHeader(packets[i], avro.utf8).Some? ==>
               cache.json == Some(ReadHeader(packets[i], avro.utf8).value.schema)
    ensures RunAll(other, cache, packets) == RunAll(avro, cache, packets)
    decreases |packets|
  {
    hide ReadHeader, Step;
    if packets != [] {
      HitKeepsCache(avro, other, cache, packets[0]);
      ParsedOnlyOnChange(avro, other, cache, packets[1..]);
    }
  }

  lemma HitKeepsCache<S, A>(avro: Avro<S, A>, other: Avro<S, A>, cache: Cache<S>, packet: ByteString)
    requires DifferInParsing(avro, other) && cache.schema.Some?
    requires ReadHeader(packet, avro.utf8).Some? ==> cache.json == Some(ReadHeader(packet, avro.utf8).value.schema)
    ensures Step(avro, cache, packet).0 == cache && Step(other, cache, packet) == Step(avro, cache, packet)
  {
    hide ReadHeader;
  }

  /** The worker's cache. */
  class SchemaCache<S, A> {
    const avro: Avro<S, A>
    var cachedSchema: Option<S>
    var cachedSchemaJson: Option<ByteString>

    function Contents(): Cache<S>
      reads this
    {
      Cache(cachedSchema, cachedSchemaJson)
    }

    ghost predicate Valid()
      reads this
    {
      Coherent(avro, Contents())
    }

    constructor (avro: Avro<S, A>)
      ensures Valid() && this.avro == avro
    {
      this.avro := avro;
      cachedSchema, cachedSchemaJson := None, None;
    }

    method AlertFromAvroBytes(avroBytes: ByteString) returns (r: Result<A, AlertError>)
      requires Valid()
      modifies this
      ensures Valid()
      ensures r == DecodeFresh(avro, avroBytes)
      ensures Contents() == Step(avro, old(Contents()), avroBytes).0
    {
      hide ReadHeader;
      var header := GetSchemaAndStartidx(avroBytes, avro.utf8);
      if header.Err? {
        return Err(HeaderError);
      }
      var schemaJson, startIdx := header.value.schema, header.value.startIdx;
      if cachedSchemaJson != Some(schemaJson) {
        var parsed := avro.parseSchema(schemaJson);
        if parsed.None? {
          return Err(SchemaError);
        }
        cachedSchema := parsed;
        cachedSchemaJson := Some(schemaJson);
      }
      var schema := cachedSchema.value;
      HeaderInRange(avroBytes, avro.utf8);
      var alert := avro.decodeDatum(schema, avroBytes[startIdx..]);
      if alert.None? {
        return Err(DatumError);
      }
      return Ok(alert.value);
    }
  }
}
