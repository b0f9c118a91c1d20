/**
 The registry wire format of a payload: one marker byte, a big-endian
 unsigned 32-bit schema id, then the Avro body
 (`extract_schema_id`, esque/avromessage.py).
 */
module WireFormat {
  import opened AvroTypes

  /** Marker byte plus the four schema-id bytes. */
  const HeaderLength: nat := 5

  /** Schema ids are unsigned 32-bit integers. */
  const SchemaIdBound: int := 0x1_0000_0000

  /**
   `struct.unpack(">bI", message[:5])`: byte 0 is read and dropped, bytes
   1 to 4 are the schema id, most significant first. Fewer than five bytes
   make `unpack` raise; extra bytes beyond the fifth are never looked at.
   */
  function ExtractSchemaId(message: seq<byte>): (r: Result<int>)
    ensures r.Failure? <==> |message| < HeaderLength
    ensures r.Failure? ==> r.error == MalformedWireFormat
    ensures r.Success? ==> 0 <= r.value < SchemaIdBound
  {
    if |message| < HeaderLength then Failure(MalformedWireFormat)
    else
      Success(message[1] as int * 0x100_0000 + message[2] as int * 0x1_0000
              + message[3] as int * 0x100 + message[4] as int)
  }

  /**
   The producer side of the header: a marker byte followed by the schema id
   in big-endian order. A reference definition to state what
   `ExtractSchemaId` inverts.
   */
  function EncodeHeader(marker: byte, schemaId: int): (h: seq<byte>)
    requires 0 <= schemaId < SchemaIdBound
    ensures |h| == HeaderLength && h[0] == marker
  {
    var lo := schemaId % 0x100;
    var q1 := schemaId / 0x100;
    var mid := q1 % 0x100;
    var q2 := q1 / 0x100;
    var hi := q2 % 0x100;
    var top := q2 / 0x100;
    [marker, top as byte, hi as byte, mid as byte, lo as byte]
  }

  /** Reading the id back from an encoded header yields it, whatever the marker and the body. */
  lemma ExtractInvertsEncode(marker: byte, schemaId: int, body: seq<byte>)
    requires 0 <= schemaId < SchemaIdBound
    ensures ExtractSchemaId(EncodeHeader(marker, schemaId) + body) == Success(schemaId)
  {
    var m := EncodeHeader(marker, schemaId) + body;
    var q1 := schemaId / 0x100;
    var q2 := q1 / 0x100;
    assert schemaId == q1 * 0x100 + m[4] as int;
    assert q1 == q2 * 0x100 + m[3] as int;
    assert q2 == m[1] as int * 0x100 + m[2] as int;
  }

  /** Conversely, the first five bytes of any well-formed payload are the encoding of its marker and id. */
  lemma EncodeInvertsExtract(message: seq<byte>)
    requires |message| >= HeaderLength
    ensures ExtractSchemaId(message).Success?
    ensures EncodeHeader(message[0], ExtractSchemaId(message).value) == message[..HeaderLength]
  {
    var id := ExtractSchemaId(message).value;
    var q2 := message[1] as int * 0x100 + message[2] as int;
    var q1 := q2 * 0x100 + message[3] as int;
    assert id == q1 * 0x100 + message[4] as int;
    DivModUnique(id, q1, message[4] as int);
    DivModUnique(q1, q2, message[3] as int);
    DivModUnique(q2, message[1] as int, message[2] as int);
  }

  /** The schema id depends on bytes 1 to 4 only: the marker and the body do not matter. */
  lemma ExtractSeesOnlyIdBytes(m1: seq<byte>, m2: seq<byte>)
    requires |m1| >= HeaderLength && |m2| >= HeaderLength
    requires m1[1..HeaderLength] == m2[1..HeaderLength]
    ensures ExtractSchemaId(m1) == ExtractSchemaId(m2)
  {
    assert m1[1] == m1[1..HeaderLength][0] == m2[1];
    assert m1[2] == m1[1..HeaderLength][1] == m2[2];
    assert m1[3] == m1[1..HeaderLength][2] == m2[3];
    assert m1[4] == m1[1..HeaderLength][3] == m2[4];
  }

  lemma DivModUnique(n: int, q: int, r: int)
    requires 0 <= r < 0x100 && n == q * 0x100 + r
    ensures n / 0x100 == q && n % 0x100 == r
  {
  }
}
