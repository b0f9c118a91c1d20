/**
 Segment directory names, `f"{version:04}_{keySchemaId}_{valueSchemaId}"`
 (esque/avromessage.py), and the parser that recovers the three numbers
 from a name. The parser is what makes names a stable on-disk contract:
 a name determines its counter and its id pair.
 */
module SegmentNaming {
  import opened AvroTypes
  import opened Decimal

  const Separator: char := '_'

  /** Width the segment counter is zero-padded to. */
  const VersionWidth: nat := 4

  /** The three numbers a segment name is made of. */
  datatype SegmentId = SegmentId(version: nat, keySchemaId: int, valueSchemaId: int)

  /**
   `f"{version:04}_{keySchemaId}_{valueSchemaId}"`: the padded counter,
   then the separator, then two non-empty id fields; the fields themselves
   and the inverse are stated by `SplitSegmentName` and
   `ParseInvertsSegmentName`.
   */
  function SegmentName(version: nat, keySchemaId: int, valueSchemaId: int): string {
    FormatZeroPadded(version, VersionWidth) + [Separator] + IntToString(keySchemaId)
      + [Separator] + IntToString(valueSchemaId)
  }

  /** Index of the first `c` in `s`, or `|s|` when there is none. */
  function IndexOf(s: string, c: char): (i: nat)
    ensures i <= |s|
    ensures i < |s| ==> s[i] == c
    ensures forall j :: 0 <= j < i ==> s[j] != c
  {
    if |s| == 0 then 0 else if s[0] == c then 0 else 1 + IndexOf(s[1..], c)
  }

  /** `s.split(c)`: the pieces between occurrences of `c`, always at least one. */
  function Split(s: string, c: char): (parts: seq<string>)
    ensures |parts| >= 1
    decreases |s|
  {
    var i := IndexOf(s, c);
    if i == |s| then [s] else [s[..i]] + Split(s[i + 1..], c)
  }

  /** Reads a segment name back into its counter and id pair; `None` if it is not one. */
  function ParseSegmentName(name: string): (r: Option<SegmentId>)
    ensures r.Some? ==> |Split(name, Separator)| == 3
  {
    var parts := Split(name, Separator);
    if |parts| != 3 then None
    else
      var version := ParseNat(parts[0]);
      var keyId := ParseInt(parts[1]);
      var valueId := ParseInt(parts[2]);
      if version.Some? && keyId.Some? && valueId.Some? then
        Some(SegmentId(version.value, keyId.value, valueId.value))
      else None
  }

  /** The numeric prefix of a segment name; 0 for a name that does not parse. */
  function VersionOf(name: string): nat {
    match ParseSegmentName(name)
    case Some(id) => id.version
    case None => 0
  }

  lemma SplitNoSeparator(s: string, c: char)
    requires c !in s
    ensures Split(s, c) == [s]
  {
  }

  lemma SplitAtFirst(a: string, c: char, b: string)
    requires c !in a
    ensures Split(a + [c] + b, c) == [a] + Split(b, c)
  {
    var s := a + [c] + b;
    var i := IndexOf(s, c);
    assert s[|a|] == c;
    assert i == |a|;
    assert s[..i] == a;
    assert s[i + 1..] == b;
  }

  lemma NoSeparatorInDigits(s: string)
    requires AllDigits(s)
    ensures Separator !in s
  {
  }

  lemma NoSeparatorInIntToString(i: int)
    ensures Separator !in IntToString(i)
  {
    var s := IntToString(i);
    NoSeparatorInDigits(s[1..]);
    assert s == [s[0]] + s[1..];
  }

  /** Three separator-free pieces joined by two separators split back into the pieces. */
  lemma SplitThree(a: string, b: string, c: string)
    requires Separator !in a && Separator !in b && Separator !in c
    ensures Split(a + [Separator] + b + [Separator] + c, Separator) == [a, b, c]
  {
    var tail := b + [Separator] + c;
    assert a + [Separator] + b + [Separator] + c == a + [Separator] + tail;
    SplitAtFirst(a, Separator, tail);
    SplitAtFirst(b, Separator, c);
    SplitNoSeparator(c, Separator);
  }

  /** A segment name splits at its separators into the padded counter and the two ids. */
  lemma SplitSegmentName(version: nat, keySchemaId: int, valueSchemaId: int)
    ensures Split(SegmentName(version, keySchemaId, valueSchemaId), Separator)
            == [FormatZeroPadded(version, VersionWidth), IntToString(keySchemaId), IntToString(valueSchemaId)]
  {
    NoSeparatorInDigits(FormatZeroPadded(version, VersionWidth));
    NoSeparatorInIntToString(keySchemaId);
    NoSeparatorInIntToString(valueSchemaId);
    SplitThree(FormatZeroPadded(version, VersionWidth), IntToString(keySchemaId), IntToString(valueSchemaId));
  }

  /** Parsing a segment name recovers the counter and both ids it was made from. */
  lemma ParseInvertsSegmentName(version: nat, keySchemaId: int, valueSchemaId: int)
    ensures ParseSegmentName(SegmentName(version, keySchemaId, valueSchemaId))
            == Some(SegmentId(version, keySchemaId, valueSchemaId))
  {
    SplitSegmentName(version, keySchemaId, valueSchemaId);
    ParseNatOfPadded(version, VersionWidth);
    ParseIntOfIntToString(keySchemaId);
    ParseIntOfIntToString(valueSchemaId);
  }

  /** Two segment names are equal exactly when their counters and id pairs are. */
  lemma SegmentNameInjective(v1: nat, k1: int, w1: int, v2: nat, k2: int, w2: int)
    ensures SegmentName(v1, k1, w1) == SegmentName(v2, k2, w2) <==> (v1, k1, w1) == (v2, k2, w2)
  {
    ParseInvertsSegmentName(v1, k1, w1);
    ParseInvertsSegmentName(v2, k2, w2);
  }

  /** The numeric prefix of a segment name is the counter it was minted with. */
  lemma VersionOfSegmentName(version: nat, keySchemaId: int, valueSchemaId: int)
    ensures VersionOf(SegmentName(version, keySchemaId, valueSchemaId)) == version
  {
    ParseInvertsSegmentName(version, keySchemaId, valueSchemaId);
  }
}
