/**
 Properties of a whole write session of the archive codec
 (esque/avromessage.py): the invariant the writer keeps over the working
 directory and the record stream, how segments are minted, and the round
 trip from writing a message stream to reading it back.
 */
module ArchiveSession {
  import opened AvroTypes
  import opened WireFormat
  import opened SegmentNaming
  import opened AvroFileWriter
  import opened AvroFileReader

  /** A directory that parses as a segment name and holds the registry's schemas for that name's ids. */
  predicate SegmentWellFormed(env: Env, directories: map<string, SegmentSchemas>, name: string) {
    && name in directories
    && ParseSegmentName(name).Some?
    && directories[name] == SchemasFor(env, ParseSegmentName(name).value.keySchemaId,
                                       ParseSegmentName(name).value.valueSchemaId)
  }

  /** Every directory of `small` is in `large` with the same contents: nothing is removed or rewritten. */
  predicate Submap(small: map<string, SegmentSchemas>, large: map<string, SegmentSchemas>) {
    forall name :: name in small ==> name in large && large[name] == small[name]
  }

  /**
   What the writer keeps true of its segments in a session that began over
   an empty working directory:
   - before the first segment there is no directory and the counter is 1;
   - the current segment is the last one minted, named after the current
     ids, and its directory exists;
   - every directory is a well-formed segment minted earlier in the
     session, and no two share a counter.
   */
  predicate SegmentsValid(env: Env, s: SegmentState, directories: map<string, SegmentSchemas>) {
    && s.schemaVersion >= 1
    && (s.schemaDirName.None? ==> s.schemaVersion == 1 && directories == map[])
    && (s.schemaDirName.Some? ==>
          && s.currentKeySchemaId.Some?
          && s.currentValueSchemaId.Some?
          && s.schemaDirName.value
             == SegmentName(s.schemaVersion - 1, s.currentKeySchemaId.value, s.currentValueSchemaId.value)
          && s.schemaDirName.value in directories)
    && (forall name :: name in directories ==>
          SegmentWellFormed(env, directories, name) && 1 <= VersionOf(name) < s.schemaVersion)
    && (forall n1, n2 :: n1 in directories && n2 in directories && VersionOf(n1) == VersionOf(n2) ==> n1 == n2)
  }

  /** Every record names an existing directory, and records' counters never decrease in write order. */
  predicate RecordsValid(directories: map<string, SegmentSchemas>, records: seq<StoredRecord>) {
    && (forall i :: 0 <= i < |records| ==> records[i].schemaDirectoryName in directories)
    && (forall i, j :: 0 <= i < j < |records| ==>
          VersionOf(records[i].schemaDirectoryName) <= VersionOf(records[j].schemaDirectoryName))
  }

  /** The session invariant: valid segments, no record before the first segment, valid records. */
  predicate Valid(env: Env, w: Writer) {
    && SegmentsValid(env, w.state, w.archive.directories)
    && (w.state.schemaDirName.None? ==> w.archive.records == [])
    && RecordsValid(w.archive.directories, w.archive.records)
  }

  /**
   A record written for message `m` holds its key and value, and its
   directory holds the key schema of `m`'s key id, and the value schema of
   `m`'s value id whenever the value is present.
   */
  predicate RecordMatches(env: Env, directories: map<string, SegmentSchemas>, r: StoredRecord, m: DecodedAvroMessage) {
    && r.key == m.key
    && r.value == m.value
    && r.schemaDirectoryName in directories
    && directories[r.schemaDirectoryName].keySchema == env.registry(m.keySchemaId).original
    && (m.value != Null ==> directories[r.schemaDirectoryName].valueSchema == env.registry(m.valueSchemaId).original)
  }

  lemma SubmapTransitive(a: map<string, SegmentSchemas>, b: map<string, SegmentSchemas>, c: map<string, SegmentSchemas>)
    requires Submap(a, b) && Submap(b, c)
    ensures Submap(a, c)
  {
  }

  lemma FreshWriterValid(env: Env)
    ensures Valid(env, FreshWriter)
  {
  }

  lemma RecordMatchesGrows(env: Env, small: map<string, SegmentSchemas>, large: map<string, SegmentSchemas>,
                           r: StoredRecord, m: DecodedAvroMessage)
    requires Submap(small, large) && RecordMatches(env, small, r, m)
    ensures RecordMatches(env, large, r, m)
  {
  }

  /**
   The current segment, once there is one, has its directory, and that
   directory holds the schemas of the current ids.
   */
  predicate CurrentRecorded(env: Env, w: Writer) {
    var s := w.state;
    s.schemaDirName.Some? ==>
      && s.currentKeySchemaId.Some?
      && s.currentValueSchemaId.Some?
      && s.schemaDirName.value in w.archive.directories
      && w.archive.directories[s.schemaDirName.value]
         == SchemasFor(env, s.currentKeySchemaId.value, s.currentValueSchemaId.value)
  }

  lemma ValidCurrentRecorded(env: Env, w: Writer)
    requires Valid(env, w)
    ensures CurrentRecorded(env, w)
  {
    var s := w.state;
    if s.schemaDirName.Some? {
      var version: nat := s.schemaVersion - 1;
      assert s.schemaDirName.value == SegmentName(version, s.currentKeySchemaId.value, s.currentValueSchemaId.value);
      ParseInvertsSegmentName(version, s.currentKeySchemaId.value, s.currentValueSchemaId.value);
    }
  }

  /** Opening a segment from a valid writer never collides with an existing directory, and keeps the invariant. */
  lemma AdvanceKeepsValid(env: Env, w: Writer, m: DecodedAvroMessage)
    requires Valid(env, w) && OpensSegment(w.state, m)
    ensures AdvanceSegment(env, w, m).Ok?
    ensures Valid(env, AdvanceSegment(env, w, m).writer)
  {
    var s := w.state;
    var dirs := w.archive.directories;
    var name := SegmentName(s.schemaVersion, m.keySchemaId, m.valueSchemaId);
    ParseInvertsSegmentName(s.schemaVersion, m.keySchemaId, m.valueSchemaId);
    assert VersionOf(name) == s.schemaVersion;
    assert name !in dirs;
    var w' := AdvanceSegment(env, w, m).writer;
    var dirs' := w'.archive.directories;
    assert dirs' == dirs[name := SchemasFor(env, m.keySchemaId, m.valueSchemaId)];
    forall n | n in dirs'
      ensures SegmentWellFormed(env, dirs', n) && 1 <= VersionOf(n) < w'.state.schemaVersion
    {
      if n != name {
        assert SegmentWellFormed(env, dirs, n);
      }
    }
    forall n1, n2 | n1 in dirs' && n2 in dirs' && VersionOf(n1) == VersionOf(n2)
      ensures n1 == n2
    {
    }
  }

  /** The current segment's name carries the counter value just before the writer's. */
  lemma CurrentSegmentVersion(s: SegmentState)
    requires s.schemaVersion >= 1 && s.schemaDirName.Some?
    requires s.currentKeySchemaId.Some? && s.currentValueSchemaId.Some?
    requires s.schemaDirName.value
             == SegmentName(s.schemaVersion - 1, s.currentKeySchemaId.value, s.currentValueSchemaId.value)
    ensures VersionOf(s.schemaDirName.value) == s.schemaVersion - 1
  {
    var version: nat := s.schemaVersion - 1;
    var keySchemaId := s.currentKeySchemaId.value;
    var valueSchemaId := s.currentValueSchemaId.value;
    assert s.schemaDirName.value == SegmentName(version, keySchemaId, valueSchemaId);
    VersionOfSegmentName(version, keySchemaId, valueSchemaId);
  }

  /** Appending a record that names the current segment keeps the invariant. */
  lemma AppendKeepsValid(env: Env, w: Writer, r: StoredRecord)
    requires Valid(env, w) && w.state.schemaDirName.Some?
    requires r.schemaDirectoryName == w.state.schemaDirName.value
    ensures Valid(env, Writer(w.state, Archive(w.archive.directories, w.archive.records + [r])))
  {
    var s := w.state;
    var before := w.archive.records;
    var records := before + [r];
    var top := VersionOf(r.schemaDirectoryName);
    CurrentSegmentVersion(s);
    assert RecordsValid(w.archive.directories, records) by {
      forall i | 0 <= i < |records|
        ensures records[i].schemaDirectoryName in w.archive.directories
      {
        if i < |before| {
          assert records[i] == before[i];
        }
      }
      forall i | 0 <= i < |before|
        ensures VersionOf(before[i].schemaDirectoryName) <= top
      {
      }
      forall i, j | 0 <= i < j < |records|
        ensures VersionOf(records[i].schemaDirectoryName) <= VersionOf(records[j].schemaDirectoryName)
      {
        assert records[i] == before[i];
        if j < |before| {
          assert records[j] == before[j];
        } else {
          assert records[j] == r;
        }
      }
    }
  }

  /**
   One write from a valid writer keeps the invariant; it raises exactly
   when the message does not decode, and then changes nothing.
   */
  lemma WriteKeepsValid(env: Env, w: Writer, raw: RawMessage)
    requires Valid(env, w)
    ensures Valid(env, WriteMessageToFile(env, w, raw).writer)
    ensures WriteMessageToFile(env, w, raw).Raised? <==> DecodeMessage(env, raw).Failure?
    ensures WriteMessageToFile(env, w, raw).Raised? ==> WriteMessageToFile(env, w, raw).writer == w
  {
    if DecodeMessage(env, raw).Success? {
      var m := DecodeMessage(env, raw).value;
      var adv := if OpensSegment(w.state, m) then AdvanceSegment(env, w, m).writer else w;
      if OpensSegment(w.state, m) {
        AdvanceKeepsValid(env, w, m);
      }
      assert AdvanceSegment(env, w, m) == Ok(adv);
      var stored := StoredRecord(m.key, m.value, adv.state.schemaDirName.value);
      assert WriteMessageToFile(env, w, raw)
             == Ok(Writer(adv.state, Archive(adv.archive.directories, adv.archive.records + [stored])));
      AppendKeepsValid(env, adv, stored);
    }
  }

  /**
   A write keeps every existing directory; when it succeeds, the record it
   appends matches the message and the current segment stays recorded.
   */
  lemma WriteRecordMatches(env: Env, w: Writer, raw: RawMessage)
    requires CurrentRecorded(env, w)
    ensures Submap(w.archive.directories, WriteMessageToFile(env, w, raw).writer.archive.directories)
    ensures var r := WriteMessageToFile(env, w, raw);
            r.Ok? ==>
              && CurrentRecorded(env, r.writer)
              && RecordMatches(env, r.writer.archive.directories, r.writer.archive.records[|w.archive.records|],
                               DecodeMessage(env, raw).value)
  {
  }

  /** A stream written from a valid writer leaves a valid writer, whether or not it raised. */
  lemma {:induction false} WriteAllKeepsValid(env: Env, w: Writer, msgs: seq<RawMessage>)
    requires Valid(env, w)
    ensures Valid(env, WriteAll(env, w, msgs).writer)
    decreases |msgs|
  {
    var r := WriteAll(env, w, msgs);
    if |msgs| == 0 {
      assert r.writer == w;
    } else {
      WriteKeepsValid(env, w, msgs[0]);
      var step := WriteMessageToFile(env, w, msgs[0]);
      if step.Ok? {
        WriteAllKeepsValid(env, step.writer, msgs[1..]);
        assert r == WriteAll(env, step.writer, msgs[1..]);
      } else {
        assert r.writer == w;
      }
    }
  }

  /** From a valid writer, a stream is written without an exception exactly when every message decodes. */
  lemma {:induction false} WriteAllSucceedsIffDecodable(env: Env, w: Writer, msgs: seq<RawMessage>)
    requires Valid(env, w)
    ensures WriteAll(env, w, msgs).Ok? <==> forall i :: 0 <= i < |msgs| ==> DecodeMessage(env, msgs[i]).Success?
    decreases |msgs|
  {
    if |msgs| > 0 {
      WriteKeepsValid(env, w, msgs[0]);
      var step := WriteMessageToFile(env, w, msgs[0]);
      if step.Ok? {
        WriteAllSucceedsIffDecodable(env, step.writer, msgs[1..]);
        assert WriteAll(env, w, msgs) == WriteAll(env, step.writer, msgs[1..]);
        var tail := msgs[1..];
        forall i | 0 <= i < |msgs| ensures DecodeMessage(env, msgs[i]).Success? <==> (i == 0 || DecodeMessage(env, tail[i - 1]).Success?) {
          if i > 0 { assert msgs[i] == tail[i - 1]; }
        }
      }
    }
  }

  /** Directories only accumulate over a stream, and after a successful one the current segment is recorded. */
  lemma {:induction false} WriteAllKeepsDirectories(env: Env, w: Writer, msgs: seq<RawMessage>)
    requires CurrentRecorded(env, w)
    ensures Submap(w.archive.directories, WriteAll(env, w, msgs).writer.archive.directories)
    ensures WriteAll(env, w, msgs).Ok? ==> CurrentRecorded(env, WriteAll(env, w, msgs).writer)
    decreases |msgs|
  {
    var r := WriteAll(env, w, msgs);
    if |msgs| == 0 {
      assert r.writer == w;
    } else {
      WriteRecordMatches(env, w, msgs[0]);
      var step := WriteMessageToFile(env, w, msgs[0]);
      if step.Ok? {
        WriteAllKeepsDirectories(env, step.writer, msgs[1..]);
        assert r == WriteAll(env, step.writer, msgs[1..]);
        SubmapTransitive(w.archive.directories, step.writer.archive.directories, r.writer.archive.directories);
      } else {
        assert r.writer.archive == w.archive;
      }
    }
  }

  /** The first record a successful stream appends matches its first message. */
  lemma FirstRecordMatches(env: Env, w: Writer, msgs: seq<RawMessage>)
    requires CurrentRecorded(env, w)
    requires |msgs| > 0 && WriteAll(env, w, msgs).Ok?
    ensures DecodeMessage(env, msgs[0]).Success?
    ensures var r := WriteAll(env, w, msgs).writer;
            && |w.archive.records| < |r.archive.records|
            && RecordMatches(env, r.archive.directories, r.archive.records[|w.archive.records|],
                             DecodeMessage(env, msgs[0]).value)
  {
    var n := |w.archive.records|;
    WriteRecordMatches(env, w, msgs[0]);
    var w1 := WriteMessageToFile(env, w, msgs[0]).writer;
    var r := WriteAll(env, w1, msgs[1..]).writer;
    assert r == WriteAll(env, w, msgs).writer;
    WriteAllKeepsDirectories(env, w1, msgs[1..]);
    assert r.archive.records[n] == w1.archive.records[n] by {
      WriteAllKeepsRecords(env, w1, msgs[1..]);
      assert r.archive.records[..|w1.archive.records|] == w1.archive.records;
    }
    RecordMatchesGrows(env, w1.archive.directories, r.archive.directories,
                       r.archive.records[n], DecodeMessage(env, msgs[0]).value);
  }

  /** A successful stream began with a successful write, after which the current segment is recorded. */
  lemma SuccessfulFirstStep(env: Env, w: Writer, msgs: seq<RawMessage>)
    requires CurrentRecorded(env, w)
    requires |msgs| > 0 && WriteAll(env, w, msgs).Ok?
    ensures WriteMessageToFile(env, w, msgs[0]).Ok?
    ensures |WriteMessageToFile(env, w, msgs[0]).writer.archive.records| == |w.archive.records| + 1
    ensures CurrentRecorded(env, WriteMessageToFile(env, w, msgs[0]).writer)
    ensures WriteAll(env, w, msgs) == WriteAll(env, WriteMessageToFile(env, w, msgs[0]).writer, msgs[1..])
  {
    WriteRecordMatches(env, w, msgs[0]);
  }

  /**
   The k-th record a successful stream appends, at index `n` of the record
   stream `r`, matches the k-th message `raw`. The result `r`, the index `n`
   and the message `raw` are fixed by `w`, `msgs` and `k`; they are passed
   only so that the recursive call's ensures matches the goal as written.
   */
  lemma {:induction false} WriteAllRecordMatches(env: Env, w: Writer, msgs: seq<RawMessage>, k: nat, r: Writer,
                                                 n: nat, raw: RawMessage)
    requires CurrentRecorded(env, w)
    requires WriteAll(env, w, msgs) == Ok(r)
    requires k < |msgs| && raw == msgs[k] && n == |w.archive.records| + k
    ensures DecodeMessage(env, raw).Success?
    ensures n < |r.archive.records|
    ensures RecordMatches(env, r.archive.directories, r.archive.records[n], DecodeMessage(env, raw).value)
    decreases k, 1
  {
    if k == 0 {
      FirstRecordMatches(env, w, msgs);
    } else {
      LaterRecordMatches(env, w, msgs, k, r, n, raw);
    }
  }

  /**
   The step of `WriteAllRecordMatches` past the first message: the rest of
   the stream is written after it. `r`, `n` and `raw` are fixed as there.
   */
  lemma {:induction false} LaterRecordMatches(env: Env, w: Writer, msgs: seq<RawMessage>, k: nat, r: Writer,
                                              n: nat, raw: RawMessage)
    requires CurrentRecorded(env, w)
    requires WriteAll(env, w, msgs) == Ok(r)
    requires 0 < k < |msgs| && raw == msgs[k] && n == |w.archive.records| + k
    ensures DecodeMessage(env, raw).Success?
    ensures n < |r.archive.records|
    ensures RecordMatches(env, r.archive.directories, r.archive.records[n], DecodeMessage(env, raw).value)
    decreases k, 0
  {
    SuccessfulFirstStep(env, w, msgs);
    var w1 := WriteMessageToFile(env, w, msgs[0]).writer;
    var tail := msgs[1..];
    assert tail[k - 1] == raw;
    WriteAllRecordMatches(env, w1, tail, k - 1, r, n, raw);
  }

  /** Every record a successful stream appends matches its message, in order. */
  lemma AllRecordsMatch(env: Env, w: Writer, msgs: seq<RawMessage>)
    requires CurrentRecorded(env, w)
    requires WriteAll(env, w, msgs).Ok?
    ensures forall k :: 0 <= k < |msgs| ==>
              var r := WriteAll(env, w, msgs).writer;
              && DecodeMessage(env, msgs[k]).Success?
              && |w.archive.records| + k < |r.archive.records|
              && RecordMatches(env, r.archive.directories, r.archive.records[|w.archive.records| + k],
                               DecodeMessage(env, msgs[k]).value)
  {
    forall k | 0 <= k < |msgs|
      ensures var r := WriteAll(env, w, msgs).writer;
              && DecodeMessage(env, msgs[k]).Success?
              && |w.archive.records| + k < |r.archive.records|
              && RecordMatches(env, r.archive.directories, r.archive.records[|w.archive.records| + k],
                               DecodeMessage(env, msgs[k]).value)
    {
      WriteAllRecordMatches(env, w, msgs, k, WriteAll(env, w, msgs).writer, |w.archive.records| + k, msgs[k]);
    }
  }

  /**
   Writing a stream of decodable messages into a fresh archive and reading
   it back gives, in order, each message's key and value, the key schema
   the registry holds for its key id, and the value schema for its value id
   whenever the value is present; every message is read with the schemas
   of the segment its record names.
   */
  lemma WriteThenRead(env: Env, msgs: seq<RawMessage>)
    requires forall i :: 0 <= i < |msgs| ==> DecodeMessage(env, msgs[i]).Success?
    ensures WriteAll(env, FreshWriter, msgs).Ok?
    ensures var a := WriteAll(env, FreshWriter, msgs).writer.archive;
            var out := ReadAll(a.directories, a.records);
            && out.Success?
            && |out.value| == |msgs| == |a.records|
            && forall i :: 0 <= i < |msgs| ==>
                 var m := DecodeMessage(env, msgs[i]).value;
                 var segment := ParseSegmentName(a.records[i].schemaDirectoryName);
                 && out.value[i].key == m.key
                 && out.value[i].value == m.value
                 && out.value[i].keySchema == env.registry(m.keySchemaId).original
                 && (m.value != Null ==> out.value[i].valueSchema == env.registry(m.valueSchemaId).original)
                 && segment.Some?
                 && out.value[i] == KafkaMessage(m.key, m.value,
                                                 env.registry(segment.value.keySchemaId).original,
                                                 env.registry(segment.value.valueSchemaId).original)
  {
    FreshWriterValid(env);
    WriteAllSucceedsIffDecodable(env, FreshWriter, msgs);
    WriteAllKeepsValid(env, FreshWriter, msgs);
    ValidCurrentRecorded(env, FreshWriter);
    AllRecordsMatch(env, FreshWriter, msgs);
    var a := WriteAll(env, FreshWriter, msgs).writer.archive;
    var out := ReadAll(a.directories, a.records);
    forall i | 0 <= i < |msgs|
      ensures var m := DecodeMessage(env, msgs[i]).value;
              var segment := ParseSegmentName(a.records[i].schemaDirectoryName);
              && out.value[i].key == m.key
              && out.value[i].value == m.value
              && out.value[i].keySchema == env.registry(m.keySchemaId).original
              && (m.value != Null ==> out.value[i].valueSchema == env.registry(m.valueSchemaId).original)
              && segment.Some?
              && out.value[i] == KafkaMessage(m.key, m.value,
                                              env.registry(segment.value.keySchemaId).original,
                                              env.registry(segment.value.valueSchemaId).original)
    {
      var name := a.records[i].schemaDirectoryName;
      assert SegmentWellFormed(env, a.directories, name);
      assert out.value[i] == Reconstruct(a.directories, a.records[i]);
    }
  }

  /** Writing `a + b` is writing `a`, then, if that raised nothing, writing `b`. */
  lemma {:induction false} WriteAllAppend(env: Env, w: Writer, a: seq<RawMessage>, b: seq<RawMessage>)
    ensures WriteAll(env, w, a + b)
            == (if WriteAll(env, w, a).Ok? then WriteAll(env, WriteAll(env, w, a).writer, b) else WriteAll(env, w, a))
    decreases |a|
  {
    if |a| == 0 {
      assert a + b == b;
    } else {
      assert (a + b)[0] == a[0];
      assert (a + b)[1..] == a[1..] + b;
      var step := WriteMessageToFile(env, w, a[0]);
      if step.Ok? {
        WriteAllAppend(env, step.writer, a[1..], b);
      }
    }
  }

  /**
   Messages that all fit the current segment (same key id; same value id
   or no value) go into it: no segment opens, nothing on disk changes, and
   each gets one record naming the current segment.
   */
  lemma {:induction false} FittingMessagesStay(env: Env, w: Writer, msgs: seq<RawMessage>)
    requires w.state.schemaDirName.Some?
    requires forall i :: 0 <= i < |msgs| ==>
               DecodeMessage(env, msgs[i]).Success? && FitsCurrentSegment(w.state, DecodeMessage(env, msgs[i]).value)
    ensures var r := WriteAll(env, w, msgs);
            && r.Ok?
            && r.writer.state == w.state
            && r.writer.archive.directories == w.archive.directories
            && |r.writer.archive.records| == |w.archive.records| + |msgs|
            && forall i :: |w.archive.records| <= i < |r.writer.archive.records| ==>
                 r.writer.archive.records[i].schemaDirectoryName == w.state.schemaDirName.value
    decreases |msgs|
  {
    if |msgs| > 0 {
      var w1 := WriteMessageToFile(env, w, msgs[0]).writer;
      assert forall i :: 1 <= i < |msgs| ==> msgs[i] == msgs[1..][i - 1];
      FittingMessagesStay(env, w1, msgs[1..]);
      var r := WriteAll(env, w1, msgs[1..]);
      WriteAllKeepsRecords(env, w1, msgs[1..]);
      assert r.writer.archive.records[..|w1.archive.records|] == w1.archive.records;
      assert forall i :: |w.archive.records| <= i < |w1.archive.records| ==>
               r.writer.archive.records[i] == w1.archive.records[i];
    }
  }

  /** The state a writer is in once `m` has opened a segment at counter `version`. */
  function OpenedState(version: nat, m: DecodedAvroMessage): SegmentState {
    SegmentState(Some(m.keySchemaId), Some(m.valueSchemaId),
                 Some(SegmentName(version, m.keySchemaId, m.valueSchemaId)), version + 1)
  }

  /**
   A message that opens a segment under a fresh name, followed by messages
   that fit that segment: one directory is added, and every record of the
   run names it.
   */
  lemma OpenThenStay(env: Env, w: Writer, msgs: seq<RawMessage>)
    requires |msgs| >= 1 && DecodeMessage(env, msgs[0]).Success?
    requires OpensSegment(w.state, DecodeMessage(env, msgs[0]).value)
    requires var m := DecodeMessage(env, msgs[0]).value;
             SegmentName(w.state.schemaVersion, m.keySchemaId, m.valueSchemaId) !in w.archive.directories
    requires forall i :: 1 <= i < |msgs| ==>
               && DecodeMessage(env, msgs[i]).Success?
               && FitsCurrentSegment(OpenedState(w.state.schemaVersion, DecodeMessage(env, msgs[0]).value),
                                     DecodeMessage(env, msgs[i]).value)
    ensures var r := WriteAll(env, w, msgs);
            var m := DecodeMessage(env, msgs[0]).value;
            var name := SegmentName(w.state.schemaVersion, m.keySchemaId, m.valueSchemaId);
            && r.Ok?
            && r.writer.state == OpenedState(w.state.schemaVersion, m)
            && r.writer.archive.directories
               == w.archive.directories[name := SchemasFor(env, m.keySchemaId, m.valueSchemaId)]
            && |r.writer.archive.records| == |w.archive.records| + |msgs|
            && forall i :: |w.archive.records| <= i < |r.writer.archive.records| ==>
                 r.writer.archive.records[i].schemaDirectoryName == name
  {
    var w1 := WriteMessageToFile(env, w, msgs[0]).writer;
    assert forall i :: 1 <= i < |msgs| ==> msgs[i] == msgs[1..][i - 1];
    FittingMessagesStay(env, w1, msgs[1..]);
    var r := WriteAll(env, w1, msgs[1..]);
    WriteAllKeepsRecords(env, w1, msgs[1..]);
    assert r.writer.archive.records[..|w1.archive.records|] == w1.archive.records;
    assert forall i :: |w.archive.records| <= i < |w1.archive.records| ==>
             r.writer.archive.records[i] == w1.archive.records[i];
  }

  /**
   N >= 1 messages that all decode to one id pair, written into a fresh
   archive, make exactly one segment (counter 1) and N records naming it.
   */
  lemma OnePairOneSegment(env: Env, msgs: seq<RawMessage>, keySchemaId: int, valueSchemaId: int)
    requires |msgs| >= 1
    requires forall i :: 0 <= i < |msgs| ==>
               && DecodeMessage(env, msgs[i]).Success?
               && DecodeMessage(env, msgs[i]).value.keySchemaId == keySchemaId
               && DecodeMessage(env, msgs[i]).value.valueSchemaId == valueSchemaId
    ensures var r := WriteAll(env, FreshWriter, msgs);
            var name := SegmentName(1, keySchemaId, valueSchemaId);
            && r.Ok?
            && r.writer.archive.directories == map[name := SchemasFor(env, keySchemaId, valueSchemaId)]
            && |r.writer.archive.records| == |msgs|
            && forall i :: 0 <= i < |msgs| ==> r.writer.archive.records[i].schemaDirectoryName == name
  {
    OpenThenStay(env, FreshWriter, msgs);
  }

  /**
   A message with no key after a segment with a real key id always opens a
   new segment, whatever its value.
   */
  lemma AbsentKeyForks(env: Env, w: Writer, raw: RawMessage)
    requires w.state.currentKeySchemaId.Some? && w.state.currentKeySchemaId.value >= 0
    requires raw.key.None? && DecodeMessage(env, raw).Success?
    ensures WriteMessageToFile(env, w, raw).writer.state.schemaVersion == w.state.schemaVersion + 1
    ensures WriteMessageToFile(env, w, raw).writer.state.currentKeySchemaId == Some(AbsentSchemaId)
  {
  }

  /**
   The other half of the asymmetry: a message whose value decodes to `None`
   (an absent payload, or a payload holding an Avro null) and that carries
   the current key id stays in the current segment, whatever its value id
   and the segment's.
   */
  lemma NullValueStays(env: Env, w: Writer, raw: RawMessage)
    requires w.state.schemaDirName.Some?
    requires DecodeMessage(env, raw).Success? && DecodeMessage(env, raw).value.value == Null
    requires w.state.currentKeySchemaId == Some(DecodeMessage(env, raw).value.keySchemaId)
    ensures var r := WriteMessageToFile(env, w, raw);
            && r.Ok?
            && r.writer.state == w.state
            && r.writer.archive.directories == w.archive.directories
            && r.writer.archive.records
               == w.archive.records + [StoredRecord(DecodeMessage(env, raw).value.key, Null, w.state.schemaDirName.value)]
  {
  }

  /**
   A message with a payload shorter than the header, in the key or, after a
   key that decodes, in the value, raises the header error and leaves the
   segment state, the directories and the record stream as they were.
   */
  lemma MalformedPayloadChangesNothing(env: Env, w: Writer, raw: RawMessage)
    requires || (raw.key.Some? && |raw.key.value| < HeaderLength)
             || (DecodeBytes(env, raw.key).Success? && raw.value.Some? && |raw.value.value| < HeaderLength)
    ensures WriteMessageToFile(env, w, raw) == Raised(MalformedWireFormat, w)
  {
  }


  /**
   The segment names a stream mints, in order: one per opened segment,
   including a name whose directory creation raised.
   */
  function MintedNames(env: Env, w: Writer, msgs: seq<RawMessage>): (names: seq<string>)
    ensures |names| == WriteAll(env, w, msgs).writer.state.schemaVersion - w.state.schemaVersion
    ensures forall i :: 0 <= i < |names| ==> VersionOf(names[i]) == w.state.schemaVersion + i
    ensures forall i, j :: 0 <= i < j < |names| ==> VersionOf(names[i]) < VersionOf(names[j]) && names[i] != names[j]
    decreases |msgs|
  {
    if |msgs| == 0 then []
    else
      var step := WriteMessageToFile(env, w, msgs[0]);
      var minted :=
        if step.writer.state.schemaVersion == w.state.schemaVersion + 1 then
          var m := DecodeMessage(env, msgs[0]).value;
          VersionOfSegmentName(w.state.schemaVersion, m.keySchemaId, m.valueSchemaId);
          [step.writer.state.schemaDirName.value]
        else [];
      if step.Raised? then minted else minted + MintedNames(env, step.writer, msgs[1..])
  }
}
