/**
 AvroFileReader (esque/avromessage.py): takes the next record off the
 record stream and pairs its key and value with the two schemas stored in
 the segment directory the record names.
 */
module AvroFileReader {
  import opened AvroTypes

  /** One step of the reader: the end of the stream, or a message and the records after it. */
  datatype ReadStep = EndOfStream | Message(message: KafkaMessage, remaining: seq<StoredRecord>)

  /**
   `read_from_file`: `None` when the stream is exhausted; otherwise the
   record's key and value verbatim with the schemas of its directory. A
   record naming a directory that is not there makes the schema read raise.
   */
  function ReadFromFile(directories: map<string, SegmentSchemas>, stream: seq<StoredRecord>): (r: Result<ReadStep>)
    ensures r == Success(EndOfStream) <==> |stream| == 0
    ensures r.Failure? <==> |stream| > 0 && stream[0].schemaDirectoryName !in directories
    ensures r.Failure? ==> r.error == SegmentMissing(stream[0].schemaDirectoryName)
    ensures r.Success? && r.value.Message? ==>
              && r.value.remaining == stream[1..]
              && r.value.message.key == stream[0].key
              && r.value.message.value == stream[0].value
              && r.value.message.keySchema == directories[stream[0].schemaDirectoryName].keySchema
              && r.value.message.valueSchema == directories[stream[0].schemaDirectoryName].valueSchema
  {
    if |stream| == 0 then Success(EndOfStream)
    else
      var record := stream[0];
      var name := record.schemaDirectoryName;
      if name !in directories then Failure(SegmentMissing(name))
      else
        var schemas := directories[name];
        Success(Message(KafkaMessage(record.key, record.value, schemas.keySchema, schemas.valueSchema),
                        stream[1..]))
  }

  /** The message a record reads back as, given its directory exists. */
  function Reconstruct(directories: map<string, SegmentSchemas>, record: StoredRecord): KafkaMessage
    requires record.schemaDirectoryName in directories
  {
    var schemas := directories[record.schemaDirectoryName];
    KafkaMessage(record.key, record.value, schemas.keySchema, schemas.valueSchema)
  }

  /**
   Calls `read_from_file` until the end of the stream. The first record
   whose segment is missing ends the loop with that segment's error, after
   every earlier record has been read.
   */
  function ReadAll(directories: map<string, SegmentSchemas>, stream: seq<StoredRecord>): (r: Result<seq<KafkaMessage>>)
    ensures r.Success? <==> forall i :: 0 <= i < |stream| ==> stream[i].schemaDirectoryName in directories
    ensures r.Success? ==>
              && |r.value| == |stream|
              && forall i :: 0 <= i < |stream| ==> r.value[i] == Reconstruct(directories, stream[i])
    ensures r.Failure? ==>
              exists i :: && 0 <= i < |stream|
                          && stream[i].schemaDirectoryName !in directories
                          && (forall j :: 0 <= j < i ==> stream[j].schemaDirectoryName in directories)
                          && r.error == SegmentMissing(stream[i].schemaDirectoryName)
    decreases |stream|
  {
    match ReadFromFile(directories, stream)
    case Failure(e) => Failure(e)
    case Success(EndOfStream) => Success([])
    case Success(Message(message, remaining)) =>
      match ReadAll(directories, remaining)
      case Failure(e) => Failure(e)
      case Success(rest) => Success([message] + rest)
  }
}
