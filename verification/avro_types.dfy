/**
 The values the archive codec of esque/avromessage.py works with: raw Kafka
 payloads, decoded Avro data, registry schemas, archived records and the
 messages the reader hands back. The schema registry and the Avro decoder are
 collaborators outside the model; they enter as the two functions of `Env`.
 */
module AvroTypes {

  newtype byte = x: int | 0 <= x < 256

  datatype Option<+T> = None | Some(value: T)

  /** The exceptions the writer and the reader can raise. */
  datatype Error =
    | MalformedWireFormat          // struct.error: a payload shorter than the 5-byte header
    | UndecodableBody              // the Avro decoder rejected the body
    | SegmentExists(name: string)  // mkdir() of a directory that is already there
    | SegmentMissing(name: string) // read_text() of a schema file whose directory is absent

  datatype Result<+T> = Success(value: T) | Failure(error: Error)

  /**
   A decoded Avro datum, as the Python objects the decoder produces. `Null`
   is Python's `None`: it is what an absent payload decodes to, and also
   what an Avro `null` decodes to.
   */
  datatype AvroValue =
    | Null
    | Boolean(b: bool)
    | Long(n: int)
    | Bytes(bytes: seq<byte>)
    | Str(s: string)
    | Enum(symbol: string)
    | Array(items: seq<AvroValue>)
    | Fields(fields: seq<(string, AvroValue)>)

  /** The registry's original schema document, as written to an .avsc file. */
  type SchemaText = string

  /** The decoder's parsed form of a schema; opaque to the archive codec. */
  datatype ParsedSchema = ParsedSchema(handle: string)

  /** What the registry returns for a schema id. */
  datatype RegisteredSchema = RegisteredSchema(original: SchemaText, parsed: ParsedSchema)

  /**
   The collaborators: the registry lookup (`get_schema_from_id`), total and
   pure, and the schemaless Avro decoder, which yields `None` when it
   cannot decode a body against a schema.
   */
  datatype Env = Env(
    registry: int -> RegisteredSchema,
    codec: (seq<byte>, ParsedSchema) -> Option<AvroValue>)

  /** A message as polled from Kafka: key and value payloads, each possibly absent. */
  datatype RawMessage = RawMessage(key: Option<seq<byte>>, value: Option<seq<byte>>)

  /** DecodedAvroMessage: both channels decoded, with the schema ids they carried. */
  datatype DecodedAvroMessage = DecodedAvroMessage(
    key: AvroValue,
    value: AvroValue,
    keySchemaId: int,
    valueSchemaId: int)

  /** The two files of a segment directory: key_schema.avsc and value_schema.avsc. */
  datatype SegmentSchemas = SegmentSchemas(keySchema: SchemaText, valueSchema: SchemaText)

  /** One pickled record of the archive's record stream. */
  datatype StoredRecord = StoredRecord(key: AvroValue, value: AvroValue, schemaDirectoryName: string)

  /** What the reader returns per record: the data plus the schemas of its segment. */
  datatype KafkaMessage = KafkaMessage(
    key: AvroValue,
    value: AvroValue,
    keySchema: SchemaText,
    valueSchema: SchemaText)
}
