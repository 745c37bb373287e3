// A WINTER packet from its bytes to its alert: the container is rewritten, then decoded through
// the worker's schema cache.
// Source: src/alert/winter.rs (process_alert) over sanitize_winter_avro and SchemaCache.
module WinterDecode {
  import opened Bytes
  import opened Wrappers
  import opened AvroLong
  import opened AvroContainer
  import opened SchemaDedupe
  import opened WinterRewrite
  import Cache = SchemaCache

  datatype DecodeFailure = Unsanitizable(rewrite: WinterAvroError) | Undecodable(alert: Cache.AlertError)

  /** What a schema text and a datum decode to. */
  function DecodeWith<S, A>(avro: Cache.Avro<S, A>, schema: ByteString, datum: ByteString): Result<A, Cache.AlertError> {
    match avro.parseSchema(schema)
    case None => Err(Cache.SchemaError)
    case Some(parsed) =>
      match avro.decodeDatum(parsed, datum)
      case None => Err(Cache.DatumError)
      case Some(alert) => Ok(alert)
  }

  /** Whatever was decoded before, a packet with one JSON schema decodes as its own datum bytes
      under its own schema, deduplicated. */
  lemma DecodesItsOwnDatum<S, A>(b: ByteString, codec: Codec, avro: Cache.Avro<S, A>)
    requires |b| < TWO63 && Lawful(codec) && avro.utf8 == codec.utf8 && ReadHeader(b, codec.utf8).Some?
    requires OneSchema(ReadLayout(b).value.entries)
    requires codec.parse(ReadHeader(b, codec.utf8).value.schema).Some?
    requires Rewritten(b, codec).Some? ==> |Rewritten(b, codec).value| < TWO63
    ensures var h := ReadHeader(b, codec.utf8).value;
            var cleaned := codec.print_(Dedupe(codec.parse(h.schema).value));
            Rewritten(b, codec).Some? && h.startIdx <= |b| &&
            Cache.DecodeFresh(avro, Rewritten(b, codec).value) == DecodeWith(avro, cleaned, b[h.startIdx..])
  {
    RewriteSucceeds(b, codec);
    RewriteReadsBack(b, codec);
    hide ReadHeader, Rewritten, ReadLayout, OneSchema, Lawful, Dedupe;
  }

  /** The decoding steps of `process_alert`. */
  method DecodeWinterAlert<S, A>(cache: Cache.SchemaCache<S, A>, avroBytes: ByteString, codec: Codec)
    returns (r: Result<A, DecodeFailure>)
    requires cache.Valid()
    modifies cache
    ensures cache.Valid()
    ensures Rewritten(avroBytes, codec).None? ==>
              r.Err? && r.error.Unsanitizable? && cache.Contents() == old(cache.Contents())
    ensures Rewritten(avroBytes, codec).Some? ==>
              r == match Cache.DecodeFresh(cache.avro, Rewritten(avroBytes, codec).value)
                   case Ok(alert) => Ok(alert)
                   case Err(e) => Err(Undecodable(e))
  {
    hide Rewritten, Cache.DecodeFresh, Cache.Step;
    var sanitized := SanitizeWinterAvro(avroBytes, codec);
    if sanitized.Err? {
      return Err(Unsanitizable(sanitized.error));
    }
    var alert := cache.AlertFromAvroBytes(sanitized.value);
    match alert {
      case Ok(a) => return Ok(a);
      case Err(e) => return Err(Undecodable(e));
    }
  }
}
