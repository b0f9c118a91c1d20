/**
 AvroFileWriter (esque/avromessage.py): decodes both channels of each
 message, opens a new segment directory when the schema pair changes, and
 appends one record per message to the record stream.

 The writer's mutable fields become the immutable `SegmentState`; the
 working directory is a map from segment name to the two schema files;
 the pickled record stream is a sequence of records.
 */
module AvroFileWriter {
  import opened AvroTypes
  import opened WireFormat
  import opened SegmentNaming

  /** Schema id the writer reports for an absent payload. */
  const AbsentSchemaId: int := -1

  /**
   The writer's fields: the ids of the current segment, its directory name
   (all `None` until the first segment opens), and the next value the
   `it.count(1)` counter yields.
   */
  datatype SegmentState = SegmentState(
    currentKeySchemaId: Option<int>,
    currentValueSchemaId: Option<int>,
    schemaDirName: Option<string>,
    schemaVersion: nat)

  const InitialState: SegmentState := SegmentState(None, None, None, 1)

  /** The working directory's segment directories and the record stream written so far. */
  datatype Archive = Archive(directories: map<string, SegmentSchemas>, records: seq<StoredRecord>)

  datatype Writer = Writer(state: SegmentState, archive: Archive)

  /** A writer just constructed over an empty working directory and an empty file. */
  const FreshWriter: Writer := Writer(InitialState, Archive(map[], []))

  /**
   The outcome of a write: the writer afterwards, and the exception if one
   was raised. A raised exception may still leave the fields mutated, as
   the Python object's would be.
   */
  datatype Written = Ok(writer: Writer) | Raised(error: Error, writer: Writer)

  /** The two schema files a segment for this id pair receives. */
  function SchemasFor(env: Env, keySchemaId: int, valueSchemaId: int): SegmentSchemas {
    SegmentSchemas(env.registry(keySchemaId).original, env.registry(valueSchemaId).original)
  }

  /**
   `decode_bytes`: an absent payload is id -1 with no value, without any
   registry lookup; otherwise the header gives the id, and the body from
   byte 5 on is decoded against that id's parsed schema.
   */
  function DecodeBytes(env: Env, rawData: Option<seq<byte>>): (r: Result<(int, AvroValue)>)
    ensures rawData.None? ==> r == Success((AbsentSchemaId, Null))
    ensures rawData.Some? && |rawData.value| < HeaderLength ==> r == Failure(MalformedWireFormat)
    ensures rawData.Some? && r.Success? ==>
              && 0 <= r.value.0 < SchemaIdBound
              && ExtractSchemaId(rawData.value) == Success(r.value.0)
              && env.codec(rawData.value[HeaderLength..], env.registry(r.value.0).parsed) == Some(r.value.1)
    ensures rawData.Some? && |rawData.value| >= HeaderLength ==>
              (r.Failure? <==> env.codec(rawData.value[HeaderLength..],
                                         env.registry(ExtractSchemaId(rawData.value).value).parsed).None?)
    ensures rawData.Some? && |rawData.value| >= HeaderLength && r.Failure? ==> r.error == UndecodableBody
  {
    match rawData
    case None => Success((AbsentSchemaId, Null))
    case Some(bytes) =>
      var header := if |bytes| < HeaderLength then bytes else bytes[..HeaderLength];
      match ExtractSchemaId(header)
      case Failure(e) => Failure(e)
      case Success(schemaId) =>
        assert header[1..HeaderLength] == bytes[1..HeaderLength];
        ExtractSeesOnlyIdBytes(header, bytes);
        match env.codec(bytes[HeaderLength..], env.registry(schemaId).parsed)
        case None => Failure(UndecodableBody)
        case Some(record) => Success((schemaId, record))
  }

  /**
   Key first, then value: a failing key is reported before the value is
   looked at, and a failing value after a good key raises the value's own
   error.
   */
  function DecodeMessage(env: Env, raw: RawMessage): (r: Result<DecodedAvroMessage>)
    ensures r.Success? <==> DecodeBytes(env, raw.key).Success? && DecodeBytes(env, raw.value).Success?
    ensures DecodeBytes(env, raw.key).Failure? ==> r == Failure(DecodeBytes(env, raw.key).error)
    ensures DecodeBytes(env, raw.key).Success? && DecodeBytes(env, raw.value).Failure? ==>
              r == Failure(DecodeBytes(env, raw.value).error)
    ensures r.Success? ==>
              && (r.value.keySchemaId, r.value.key) == DecodeBytes(env, raw.key).value
              && (r.value.valueSchemaId, r.value.value) == DecodeBytes(env, raw.value).value
  {
    match DecodeBytes(env, raw.key)
    case Failure(e) => Failure(e)
    case Success((keySchemaId, key)) =>
      match DecodeBytes(env, raw.value)
      case Failure(e) => Failure(e)
      case Success((valueSchemaId, value)) =>
        Success(DecodedAvroMessage(key, value, keySchemaId, valueSchemaId))
  }

  /**
   The message can go into the current segment: its key id is the
   segment's, and either its decoded value is `None` (an absent payload or
   an Avro null) or its value id is the segment's too.
   */
  predicate FitsCurrentSegment(s: SegmentState, m: DecodedAvroMessage) {
    && s.currentKeySchemaId == Some(m.keySchemaId)
    && (m.value == Null || s.currentValueSchemaId == Some(m.valueSchemaId))
  }

  /**
   `schema_changed`: the value ids differ while the value is present, or
   the key ids differ. Before the first segment the current ids are `None`
   and differ from every id.
   */
  function SchemaChanged(s: SegmentState, m: DecodedAvroMessage): (changed: bool)
    ensures changed <==> !FitsCurrentSegment(s, m)
  {
    (s.currentValueSchemaId != Some(m.valueSchemaId) && m.value != Null)
    || s.currentKeySchemaId != Some(m.keySchemaId)
  }

  /**
   The condition of line 40: a segment opens on a schema change or when
   there is none yet. A message stays exactly when a segment exists and the
   message fits it.
   */
  function OpensSegment(s: SegmentState, m: DecodedAvroMessage): (opens: bool)
    ensures s.schemaDirName.None? ==> opens
    ensures !opens <==> s.schemaDirName.Some? && FitsCurrentSegment(s, m)
  {
    SchemaChanged(s, m) || s.schemaDirName.None?
  }

  /**
   The segment manager (lines 40-54): when a segment opens, the counter is
   consumed for its name and the current ids and name are set; then the
   directory is created and receives both schemas. `mkdir` raises if the
   name is already taken, after the fields have been set.
   */
  function AdvanceSegment(env: Env, w: Writer, m: DecodedAvroMessage): (r: Written)
    ensures !OpensSegment(w.state, m) ==> r == Ok(w)
    ensures OpensSegment(w.state, m) ==>
              var name := SegmentName(w.state.schemaVersion, m.keySchemaId, m.valueSchemaId);
              && r.writer.state == SegmentState(Some(m.keySchemaId), Some(m.valueSchemaId), Some(name),
                                                w.state.schemaVersion + 1)
              && (r.Ok? <==> name !in w.archive.directories)
              && (r.Ok? ==> r.writer.archive.directories
                              == w.archive.directories[name := SchemasFor(env, m.keySchemaId, m.valueSchemaId)])
              && (r.Raised? ==> r.error == SegmentExists(name))
    ensures r.writer.archive.records == w.archive.records
    ensures r.Ok? ==> r.writer.state.schemaDirName.Some?
  {
    if OpensSegment(w.state, m) then
      var name := SegmentName(w.state.schemaVersion, m.keySchemaId, m.valueSchemaId);
      var state := SegmentState(Some(m.keySchemaId), Some(m.valueSchemaId), Some(name),
                                w.state.schemaVersion + 1);
      if name in w.archive.directories then
        Raised(SegmentExists(name), Writer(state, w.archive))
      else
        var directories := w.archive.directories[name := SchemasFor(env, m.keySchemaId, m.valueSchemaId)];
        Ok(Writer(state, Archive(directories, w.archive.records)))
    else
      Ok(w)
  }

  /**
   `write_message_to_file`: decode, advance the segment if needed, append
   one record naming the current segment. A decode failure comes before
   any mutation.
   */
  function WriteMessageToFile(env: Env, w: Writer, raw: RawMessage): (r: Written)
    ensures DecodeMessage(env, raw).Failure? ==> r == Raised(DecodeMessage(env, raw).error, w)
    ensures r.Raised? ==> r.writer.archive == w.archive
    ensures r.Ok? ==>
              && DecodeMessage(env, raw).Success?
              && r.writer.state.schemaDirName.Some?
              && r.writer.archive.records
                 == w.archive.records + [StoredRecord(DecodeMessage(env, raw).value.key,
                                                      DecodeMessage(env, raw).value.value,
                                                      r.writer.state.schemaDirName.value)]
    ensures DecodeMessage(env, raw).Success? ==>
              var m := DecodeMessage(env, raw).value;
              && (OpensSegment(w.state, m) <==> r.writer.state.schemaVersion == w.state.schemaVersion + 1)
              && (OpensSegment(w.state, m) ==>
                    var name := SegmentName(w.state.schemaVersion, m.keySchemaId, m.valueSchemaId);
                    && r.writer.state == SegmentState(Some(m.keySchemaId), Some(m.valueSchemaId), Some(name),
                                                      w.state.schemaVersion + 1)
                    && (r.Ok? <==> name !in w.archive.directories)
                    && (r.Ok? ==> r.writer.archive.directories
                                    == w.archive.directories[name := SchemasFor(env, m.keySchemaId, m.valueSchemaId)])
                    && (r.Raised? ==> r.error == SegmentExists(name)))
              && (!OpensSegment(w.state, m) ==>
                    r.Ok? && r.writer.state == w.state
                    && r.writer.archive.directories == w.archive.directories)
  {
    match DecodeMessage(env, raw)
    case Failure(e) => Raised(e, w)
    case Success(m) =>
      match AdvanceSegment(env, w, m)
      case Raised(e, advanced) => Raised(e, advanced)
      case Ok(advanced) =>
        var stored := StoredRecord(m.key, m.value, advanced.state.schemaDirName.value);
        var archive := Archive(advanced.archive.directories, advanced.archive.records + [stored]);
        Ok(Writer(advanced.state, archive))
  }

  /** Writes a stream of messages in order, stopping at the first exception. */
  function WriteAll(env: Env, w: Writer, msgs: seq<RawMessage>): (r: Written)
    ensures |r.writer.archive.records| >= |w.archive.records|
    ensures r.Ok? ==> |r.writer.archive.records| == |w.archive.records| + |msgs|
    ensures r.writer.state.schemaVersion >= w.state.schemaVersion
    decreases |msgs|
  {
    if |msgs| == 0 then Ok(w)
    else
      match WriteMessageToFile(env, w, msgs[0])
      case Raised(e, after) => Raised(e, after)
      case Ok(after) => WriteAll(env, after, msgs[1..])
  }

  /** Writing only appends: the records already in the stream stay as they were. */
  lemma {:induction false} WriteAllKeepsRecords(env: Env, w: Writer, msgs: seq<RawMessage>)
    ensures var r := WriteAll(env, w, msgs).writer;
            |r.archive.records| >= |w.archive.records| && r.archive.records[..|w.archive.records|] == w.archive.records
    decreases |msgs|
  {
    if |msgs| > 0 {
      var step := WriteMessageToFile(env, w, msgs[0]);
      if step.Ok? {
        WriteAllKeepsRecords(env, step.writer, msgs[1..]);
        var r := WriteAll(env, step.writer, msgs[1..]).writer;
        assert r.archive.records[..|w.archive.records|] == step.writer.archive.records[..|w.archive.records|];
      }
    }
  }
}
