/**
 A worked stream for the segment rule of esque/avromessage.py: three
 messages under ids (k, v1), two under (k, v2), a tombstone, and one more
 under (k, v2). The tombstone carries value id -1 but does not fork, so
 the archive ends with exactly two segments.
 */
module ArchiveExample {
  import opened AvroTypes
  import opened SegmentNaming
  import opened AvroFileWriter
  import opened ArchiveSession

  /** A message with the given ids and a value present. */
  predicate WithValue(m: DecodedAvroMessage, keySchemaId: int, valueSchemaId: int) {
    m.keySchemaId == keySchemaId && m.valueSchemaId == valueSchemaId && m.value != Null
  }

  /** A tombstone under the given key id: no value, so value id -1. */
  predicate Tombstone(m: DecodedAvroMessage, keySchemaId: int) {
    m.keySchemaId == keySchemaId && m.valueSchemaId == AbsentSchemaId && m.value == Null
  }

  /** Messages 0 to 2 open segment `0001_k_v1` in a fresh archive and stay in it. */
  lemma FirstRun(env: Env, run: seq<RawMessage>, k: int, v1: int)
    requires |run| == 3
    requires forall i :: 0 <= i < 3 ==>
               DecodeMessage(env, run[i]).Success? && WithValue(DecodeMessage(env, run[i]).value, k, v1)
    ensures var r := WriteAll(env, FreshWriter, run);
            && r.Ok?
            && r.writer.state == SegmentState(Some(k), Some(v1), Some(SegmentName(1, k, v1)), 2)
            && r.writer.archive.directories.Keys == {SegmentName(1, k, v1)}
            && |r.writer.archive.records| == 3
            && forall i :: 0 <= i < 3 ==> r.writer.archive.records[i].schemaDirectoryName == SegmentName(1, k, v1)
  {
    OpenThenStay(env, FreshWriter, run);
  }

  /**
   Message 3 changes the value id while its value is present, so segment
   `0002_k_v2` opens; messages 4 to 6, the tombstone included, stay in it.
   */
  lemma SecondRun(env: Env, w: Writer, run: seq<RawMessage>, k: int, v1: int, v2: int)
    requires v1 != v2
    requires w.state == SegmentState(Some(k), Some(v1), Some(SegmentName(1, k, v1)), 2)
    requires w.archive.directories.Keys == {SegmentName(1, k, v1)}
    requires |run| == 4
    requires forall i :: 0 <= i < 4 ==> DecodeMessage(env, run[i]).Success?
    requires WithValue(DecodeMessage(env, run[0]).value, k, v2)
    requires WithValue(DecodeMessage(env, run[1]).value, k, v2)
    requires Tombstone(DecodeMessage(env, run[2]).value, k)
    requires WithValue(DecodeMessage(env, run[3]).value, k, v2)
    ensures var r := WriteAll(env, w, run);
            && r.Ok?
            && r.writer.archive.directories.Keys == {SegmentName(1, k, v1), SegmentName(2, k, v2)}
            && |r.writer.archive.records| == |w.archive.records| + 4
            && forall i :: |w.archive.records| <= i < |r.writer.archive.records| ==>
                 r.writer.archive.records[i].schemaDirectoryName == SegmentName(2, k, v2)
  {
    SegmentNameInjective(1, k, v1, 2, k, v2);
    var segment := OpenedState(2, DecodeMessage(env, run[0]).value);
    assert segment.currentKeySchemaId == Some(k) && segment.currentValueSchemaId == Some(v2);
    forall i | 1 <= i < 4
      ensures FitsCurrentSegment(segment, DecodeMessage(env, run[i]).value)
    {
      assert i == 1 || i == 2 || i == 3;
    }
    assert SegmentName(2, k, v2) !in w.archive.directories.Keys;
    OpenThenStay(env, w, run);
    var dirs := WriteAll(env, w, run).writer.archive.directories;
    assert dirs.Keys == w.archive.directories.Keys + {SegmentName(2, k, v2)};
  }

  /**
   The whole stream, as the run under (k, v1) followed by the run under
   (k, v2): two distinct segments, the first holding records 0 to 2 and the
   second records 3 to 6. The tombstone's value id -1 opens nothing.
   */
  lemma TombstoneStaysInSegment(env: Env, run1: seq<RawMessage>, run2: seq<RawMessage>, k: int, v1: int, v2: int)
    requires v1 != v2
    requires |run1| == 3 && |run2| == 4
    requires forall i :: 0 <= i < 3 ==>
               DecodeMessage(env, run1[i]).Success? && WithValue(DecodeMessage(env, run1[i]).value, k, v1)
    requires forall i :: 0 <= i < 4 ==> DecodeMessage(env, run2[i]).Success?
    requires WithValue(DecodeMessage(env, run2[0]).value, k, v2)
    requires WithValue(DecodeMessage(env, run2[1]).value, k, v2)
    requires Tombstone(DecodeMessage(env, run2[2]).value, k)
    requires WithValue(DecodeMessage(env, run2[3]).value, k, v2)
    ensures var r := WriteAll(env, FreshWriter, run1 + run2);
            var first := SegmentName(1, k, v1);
            var second := SegmentName(2, k, v2);
            && r.Ok?
            && first != second
            && r.writer.archive.directories.Keys == {first, second}
            && |r.writer.archive.records| == 7
            && (forall i :: 0 <= i < 3 ==> r.writer.archive.records[i].schemaDirectoryName == first)
            && (forall i :: 3 <= i < 7 ==> r.writer.archive.records[i].schemaDirectoryName == second)
  {
    SegmentNameInjective(1, k, v1, 2, k, v2);
    FirstRun(env, run1, k, v1);
    var w1 := WriteAll(env, FreshWriter, run1).writer;
    SecondRun(env, w1, run2, k, v1, v2);
    var w2 := WriteAll(env, w1, run2).writer;
    WriteAllAppend(env, FreshWriter, run1, run2);
    assert WriteAll(env, FreshWriter, run1 + run2) == Ok(w2);
    WriteAllKeepsRecords(env, w1, run2);
    assert w2.archive.records[..3] == w1.archive.records;
    assert forall i :: 0 <= i < 3 ==> w2.archive.records[i] == w1.archive.records[i];
  }
}
