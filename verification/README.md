# esque Avro archive codec in Dafny

A model of the schema-aware archive codec in `esque/avromessage.py`. esque
uses this codec to snapshot Kafka topics whose keys and values are Avro
payloads in the schema-registry wire format. The codec has four parts:

- **Wire header.** `extract_schema_id` reads the schema id from a payload:
  a marker byte, then a big-endian unsigned 32-bit id. `decode_bytes`
  decodes the Avro body against that id's schema. An absent payload maps
  to id `-1` and no value.
- **Segment manager.** `AvroFileWriter` keeps the current key and value
  schema ids, the current segment directory name, and a counter starting
  at 1. `schema_changed` decides when a new segment directory
  `{counter:04}_{keyId}_{valueId}` is opened. A key-id change always opens
  one. A value-id change opens one only when the decoded value is not
  `None`, so a tombstone (or a value holding an Avro null) never forks on
  its own.
- **Writer step.** `write_message_to_file` decodes both channels, opens a
  segment if needed, writes its two schema files, and appends exactly one
  record `{key, value, schema_directory_name}`.
- **Reader step.** `read_from_file` returns nothing at the end of the
  stream. Otherwise it returns the record's key and value with the two
  schemas stored in the directory the record names.

The model is functional: the writer's fields are an immutable
`SegmentState`, one write is a pure function, and a session is a fold over
a message sequence. The collaborators are parameters in `Env`:

- the registry is a total function from id to (original schema, parsed schema);
- the Avro decoder is a function from (body bytes, parsed schema) to an
  optional value;
- the working directory is a map from segment name to its two schema files;
- the pickled record stream is a sequence of records.

Files, one module each:

- `avro_types.dfy` (`AvroTypes`): the data model.
- `wire_format.dfy` (`WireFormat`): the 5-byte header.
- `decimal.dfy` (`Decimal`): Python's `str(i)` and `f"{n:04}"`, and a parser for them.
- `segment_naming.dfy` (`SegmentNaming`): segment names and their parser.
- `avro_file_writer.dfy` (`AvroFileWriter`): decoding, the segment rule, the writer step.
- `avro_file_reader.dfy` (`AvroFileReader`): the reader step and reading a whole stream.
- `archive_session.dfy` (`ArchiveSession`): the session invariant, segment minting, the write/read round trip.
- `archive_example.dfy` (`ArchiveExample`): a worked stream with a tombstone.

## Model

| member | source | states |
|---|---|---|
| WireFormat.ExtractSchemaId | esque/avromessage.py:97-99 | Fails with the malformed-header error exactly when the payload has fewer than 5 bytes. Otherwise the id lies in [0, 2^32). |
| WireFormat.ExtractInvertsEncode | esque/avromessage.py:97-99 | For any marker byte, id below 2^32 and body, a marker followed by the id's four big-endian bytes reads back as that id. |
| WireFormat.EncodeInvertsExtract | esque/avromessage.py:97-99 | Conversely, the first five bytes of any payload of 5 or more bytes are its marker followed by the big-endian encoding of the id read from it. So the id is bytes 1 to 4 read as a big-endian u32. |
| WireFormat.ExtractSeesOnlyIdBytes | esque/avromessage.py:98 | Two payloads that agree on bytes 1 to 4 have the same id. Byte 0 and everything after byte 4 are ignored. |
| Decimal.DigitsValueOfNatToString | esque/avromessage.py:41 | The decimal digits Python prints for n denote n. |
| Decimal.ParseNatOfPadded | esque/avromessage.py:41 | The zero-padded counter parses back to the counter, whatever the padding width. |
| Decimal.ParseIntOfIntToString | esque/avromessage.py:41 | `int(str(i)) == i` for every integer, including a negative id such as -1. |
| SegmentNaming.SegmentName | esque/avromessage.py:41 | The name is the counter zero-padded to four digits, `str(keyId)` and `str(valueId)`, joined by `_`. |
| SegmentNaming.SplitSegmentName | esque/avromessage.py:41 | A segment name splits at `_` into exactly the padded counter, the key id text and the value id text. An id of -1 adds no separator. |
| SegmentNaming.ParseInvertsSegmentName | esque/avromessage.py:41 | Parsing a segment name gives back its counter, key id and value id. |
| SegmentNaming.SegmentNameInjective | esque/avromessage.py:41 | Two segment names are equal if and only if their counters and id pairs are equal. |
| SegmentNaming.VersionOfSegmentName | esque/avromessage.py:41 | The numeric prefix of a segment name is the counter value it was minted with. |
| AvroFileWriter.DecodeBytes | esque/avromessage.py:63-71 | An absent payload gives (-1, no value) whatever the registry. A payload under 5 bytes fails with the header error. On success the id is the header's id, below 2^32, and the value is the decoder's result on bytes 5 onward under that id's parsed schema. For a full header, it fails exactly when the decoder rejects the body, and then with the decoder's error, never the header error. |
| AvroFileWriter.DecodeMessage | esque/avromessage.py:35-38 | Succeeds exactly when both channels decode. A key failure is reported before the value is looked at. A value failure after a good key raises the value channel's own error. The ids and values are the two channels' decodings. |
| AvroFileWriter.SchemaChanged | esque/avromessage.py:73-75 | True exactly when the message does not fit the current segment. It fits when its key id is the current one and either its decoded value is `None` (an absent payload or an Avro null) or its value id is the current one. |
| AvroFileWriter.OpensSegment | esque/avromessage.py:40 | A segment opens whenever none exists yet. Otherwise the message stays exactly when a segment exists and the message fits it. |
| AvroFileWriter.AdvanceSegment | esque/avromessage.py:40-54 | When no segment opens, nothing changes. When one opens, the counter is consumed for the name, the ids and name become the message's, and the step succeeds if and only if the name is not already a directory. On success the directory receives the registry's schemas for both ids. A clash raises the directory-exists error after the fields have changed. The record stream is never touched. |
| AvroFileWriter.WriteMessageToFile | esque/avromessage.py:35-61 | A decode failure raises with the writer unchanged, and any raise leaves the archive unchanged. A success appends exactly one record: the message's key and value and the current segment's name. The counter grows by one exactly when a segment opens, and the state becomes the message's ids and the new name. An opening write succeeds if and only if that name is not already a directory. It then adds exactly that directory, holding the registry's schemas for both ids. Otherwise it raises the directory-exists error with that name. When no segment opens, state and directories are unchanged. |
| AvroFileWriter.WriteAll | esque/avromessage.py:35-61 | Over a stream, records never shrink, a successful stream appends exactly one record per message, and the counter never decreases. |
| AvroFileWriter.WriteAllKeepsRecords | esque/avromessage.py:61 | Writing only appends: the records already in the stream stay as they were. |
| AvroFileReader.ReadFromFile | esque/avromessage.py:83-94 | End of stream exactly when the stream is empty. It fails exactly when the first record names a missing directory, with that name. Otherwise it returns that record's key and value verbatim with the directory's two schemas, and consumes exactly one record. |
| AvroFileReader.ReadAll | esque/avromessage.py:83-94 | Reading to the end succeeds exactly when every record's directory exists. It then yields one message per record, in order, each rebuilt from its record and directory. A failure names the directory of the first record whose directory is missing. Every earlier record's directory exists. |
| ArchiveSession.FreshWriterValid | esque/avromessage.py:27-33 | A new writer over an empty working directory satisfies the session invariant: counter 1, no segment, no directory, no record. |
| ArchiveSession.ValidCurrentRecorded | esque/avromessage.py:40-54 | Under the invariant, the current segment's directory exists and holds the registry's schemas for the current ids. |
| ArchiveSession.CurrentSegmentVersion | esque/avromessage.py:41 | The current segment's numeric prefix is one less than the counter's next value. |
| ArchiveSession.AdvanceKeepsValid | esque/avromessage.py:40-54 | From a valid writer, opening a segment never hits an existing directory, and it keeps the invariant: directories are well-formed, their counters unique and below the counter. |
| ArchiveSession.AppendKeepsValid | esque/avromessage.py:56-61 | Appending a record that names the current segment keeps the invariant. Every record names an existing directory, and record counters never decrease in write order. |
| ArchiveSession.WriteKeepsValid | esque/avromessage.py:35-61 | One write from a valid writer keeps the invariant. It raises exactly when the message fails to decode, and then changes nothing. |
| ArchiveSession.WriteRecordMatches | esque/avromessage.py:35-61 | A write keeps every existing directory. A successful write's record holds the message's key and value, and its directory holds the key schema of the key id and, for a present value, the value schema of the value id. |
| ArchiveSession.WriteAllKeepsValid | esque/avromessage.py:35-61 | A whole stream written from a valid writer leaves a valid writer, whether or not it raised. |
| ArchiveSession.WriteAllSucceedsIffDecodable | esque/avromessage.py:35-61 | From a valid writer, a stream is written without an exception exactly when every message decodes. |
| ArchiveSession.WriteAllKeepsDirectories | esque/avromessage.py:45-54 | Directories only accumulate over a stream, never removed or rewritten. After a successful stream, the current segment is recorded. |
| ArchiveSession.FirstRecordMatches | esque/avromessage.py:56-61 | The first record a successful stream appends matches its first message. |
| ArchiveSession.SuccessfulFirstStep | esque/avromessage.py:35-61 | A successful stream begins with a successful write that appends one record. The rest of the stream is written from there. |
| ArchiveSession.WriteAllRecordMatches | esque/avromessage.py:56-61 | The k-th record a successful stream appends matches the k-th message. |
| ArchiveSession.LaterRecordMatches | esque/avromessage.py:56-61 | The same for k > 0, carried over the first write. |
| ArchiveSession.AllRecordsMatch | esque/avromessage.py:56-61 | Every record a successful stream appends matches its message, in order. |
| ArchiveSession.WriteThenRead | esque/avromessage.py:35-94 | Write a stream of decodable messages into a fresh archive, then read it back. The result has one message per input, in order. Each has the input's key and value, the registry's key schema for its key id, and for a present value the value schema for its value id. Each is read with the schemas of the segment its record names. |
| ArchiveSession.WriteAllAppend | esque/avromessage.py:35-61 | Writing `a + b` is writing `a`, then writing `b` if `a` raised nothing. |
| ArchiveSession.FittingMessagesStay | esque/avromessage.py:40-61 | Messages that all fit the current segment leave the segment state and the directories unchanged. Each adds one record naming the current segment. |
| ArchiveSession.OpenThenStay | esque/avromessage.py:40-61 | A message that opens a segment under a fresh name, followed by messages that fit it, adds exactly that one directory. Every record of the run names it. |
| ArchiveSession.OnePairOneSegment | esque/avromessage.py:33-61 | N >= 1 messages with one id pair, written into a fresh archive, give one segment with counter 1 and N records naming it. |
| ArchiveSession.AbsentKeyForks | esque/avromessage.py:63-75 | A message with no key after a segment with a real key id always opens a new segment with key id -1, whatever its value. |
| ArchiveSession.NullValueStays | esque/avromessage.py:73-75 | A message whose value decodes to `None` (an absent payload or an Avro null) and whose key id is the current one stays in the current segment, whatever its value id and the segment's. State and directories are unchanged and exactly one record is appended. |
| ArchiveSession.MalformedPayloadChangesNothing | esque/avromessage.py:35-37 | A payload shorter than the header raises the header error and leaves the writer exactly as it was. This holds for the key, and for the value after a key that decodes. |
| ArchiveSession.MintedNames | esque/avromessage.py:33-41 | A stream mints one name per opened segment, including one whose directory creation raised. The i-th name carries counter start + i, so names are pairwise distinct and strictly increasing in numeric prefix, even when an id pair comes back. |
| ArchiveExample.FirstRun | esque/avromessage.py:40-61 | Three messages under (k, v1) in a fresh archive give segment `0001_k_v1` only, with three records naming it. |
| ArchiveExample.SecondRun | esque/avromessage.py:73-75 | Next come a message under (k, v2), another, a tombstone, and another. They add segment `0002_k_v2` only, and all four records name it. |
| ArchiveExample.TombstoneStaysInSegment | esque/avromessage.py:73-75 | The whole seven-message stream gives exactly two distinct segments. Records 0 to 2 name the first and records 3 to 6 the second. |

## Left out

- The registry client is a total, pure function. Lookup failures and network errors are not modelled. That includes the lookup of id -1 when a segment opens for an absent key or value (esque/avromessage.py:49, 53): the model, like the code, fetches whatever the registry returns for -1.
- fastavro's `schemaless_reader` is an abstract function of the body bytes and the parsed schema. Avro binary decoding is not modelled, and neither are floating-point Avro values.
- `json.dumps` and `load_schema` are the identity on schema text. A schema file reads back as the text that was written.
- pickle framing is a sequence of records. The reader's `EOFError` is the empty remaining sequence. A truncated or corrupt pickle is not modelled.
- The filesystem is a map from segment name to the two schema texts. Two filesystem errors are modelled. The writer's `mkdir` raises on an existing name (line 46). The reader's schema read raises for a directory that is not there (line 91). Permission and disk errors are not modelled, and neither is a schema file missing from an existing directory.
- A file handle is the record sequence it reads or appends. The writer does not model seeking or sharing a file between writers.
- The `FileWriter`, `FileReader` and `KafkaMessage` base classes in `esque/message.py` are not part of this model. `KafkaMessage` is a four-field record.
- `esque/cli/commands.py` is command-line plumbing around this codec and is not modelled.
- ArchiveSession.WriteThenRead: for a message whose value decodes to `None`, it promises only the value schema of the segment its record names. It promises none for the message's own value id. Such a message is an absent payload with id -1, or a payload holding an Avro null under any id. It opens no segment on its own (line 74). It is read back with the value schema of the segment it lands in. That is the registry's schema for the segment's value id, which is the registry's entry for -1 when a message with no value opened the segment (lines 52-54).
