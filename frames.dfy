/**
 * The values exchanged with the Freenet node: inbound messages, outbound
 * commands, the ordered field map both carry, the raw byte source a payload is
 * copied from, and the line layout of an outbound frame.
 */
module Frames {
  import opened Wrappers
  import opened JavaText

  newtype byte = b: int | 0 <= b < 256

  /** An opaque stream, socket or writer; two handles are the same object when their ids agree. */
  datatype Handle = Handle(id: nat)

  datatype Field = Field(key: string, value: string)

  /**
   * An inbound message: its name, its fields in insertion order, the
   * identifier taken out of the reserved field, and the payload spooled after
   * a Data marker.
   */
  datatype Message = Message(name: string, fields: seq<Field>, identifier: Option<string>, payload: Option<seq<byte>>)

  /** The bytes a command sends after its frame, and how many of them to copy. */
  datatype Payload = Payload(stream: Handle, bytes: seq<byte>, length: int)

  /** An outbound command: its name, its fields in order, and an optional payload. */
  datatype Command = Command(name: string, fields: seq<Field>, payload: Option<Payload>)

  const EndMarker: string := "EndMessage"
  const DataMarker: string := "Data"

  predicate HasKey(fields: seq<Field>, key: string) {
    exists k :: 0 <= k < |fields| && fields[k].key == key
  }

  /** The value stored under key, looked up as a map would: the first entry with that key. */
  function Lookup(fields: seq<Field>, key: string): (r: Option<string>)
    ensures r.Some? <==> HasKey(fields, key)
    ensures r.Some? ==> Field(key, r.value) in fields
  {
    if fields == [] then None
    else if fields[0].key == key then Some(fields[0].value)
    else
      var r := Lookup(fields[1..], key);
      assert HasKey(fields, key) ==> HasKey(fields[1..], key) by {
        if HasKey(fields, key) {
          var k :| 0 <= k < |fields| && fields[k].key == key;
          assert fields[1..][k - 1] == fields[k];
        }
      }
      r
  }

  predicate DistinctKeys(fields: seq<Field>) {
    forall i, j :: 0 <= i < j < |fields| ==> fields[i].key != fields[j].key
  }

  /**
   * Message.put on an insertion-ordered map: a new key goes to the end, an
   * existing key keeps its place and gets the new value.
   */
  function Put(fields: seq<Field>, key: string, value: string): (r: seq<Field>)
    ensures Field(key, value) in r
    ensures |fields| <= |r| <= |fields| + 1
  {
    if fields == [] then [Field(key, value)]
    else if fields[0].key == key then [Field(key, value)] + fields[1..]
    else [fields[0]] + Put(fields[1..], key, value)
  }

  /** After a put, the key maps to the new value and every other key to what it mapped to before. */
  lemma {:induction false} PutLookup(fields: seq<Field>, key: string, value: string, other: string)
    ensures Lookup(Put(fields, key, value), key) == Some(value)
    ensures other != key ==> Lookup(Put(fields, key, value), other) == Lookup(fields, other)
  {
    if fields != [] && fields[0].key != key {
      PutLookup(fields[1..], key, value, other);
    }
  }

  /** A put of a new key appends it; a put of a known key keeps the order and the size. */
  lemma {:induction false} PutOrder(fields: seq<Field>, key: string, value: string)
    ensures !HasKey(fields, key) ==> Put(fields, key, value) == fields + [Field(key, value)]
    ensures HasKey(fields, key) ==> |Put(fields, key, value)| == |fields|
    ensures forall k :: 0 <= k < |fields| ==> Put(fields, key, value)[k].key == fields[k].key
  {
    if fields != [] && fields[0].key != key {
      PutOrder(fields[1..], key, value);
      assert HasKey(fields, key) ==> HasKey(fields[1..], key) by {
        if HasKey(fields, key) {
          var k :| 0 <= k < |fields| && fields[k].key == key;
          assert fields[1..][k - 1] == fields[k];
        }
      }
      assert !HasKey(fields, key) ==> !HasKey(fields[1..], key) by {
        if HasKey(fields[1..], key) {
          var k :| 0 <= k < |fields[1..]| && fields[1..][k].key == key;
          assert fields[k + 1] == fields[1..][k];
        }
      }
      assert !HasKey(fields, key) ==> [fields[0]] + (fields[1..] + [Field(key, value)]) == fields + [Field(key, value)];
    }
  }

  /** Keys stay unique under put. */
  lemma PutDistinct(fields: seq<Field>, key: string, value: string)
    requires DistinctKeys(fields)
    ensures DistinctKeys(Put(fields, key, value))
  {
    var r := Put(fields, key, value);
    PutOrder(fields, key, value);
    if !HasKey(fields, key) {
      forall i, j | 0 <= i < j < |r| ensures r[i].key != r[j].key {
        if j == |fields| {
          assert r[i] == fields[i];
        }
      }
    }
  }

  /**
   * Copying n bytes out of a byte source (the role StreamCopier.copy plays):
   * it yields exactly n bytes and the rest of the source, or fails. A copy
   * that runs off the end of the source fails having drained it; a negative
   * count fails without reading.
   */
  function Copy(source: seq<byte>, n: int): (r: (Option<seq<byte>>, seq<byte>))
    ensures r.0.Some? <==> 0 <= n <= |source|
    ensures r.0.Some? ==> |r.0.value| == n && r.0.value + r.1 == source
  {
    if n < 0 then (None, source)
    else if n <= |source| then (Some(source[..n]), source[n..])
    else (None, [])
  }

  /** The line a field is written as. */
  function FieldLine(f: Field): string {
    f.key + "=" + f.value
  }

  function FieldLines(fields: seq<Field>): (r: seq<string>)
    ensures |r| == |fields|
    ensures forall k :: 0 <= k < |fields| ==> r[k] == FieldLine(fields[k])
  {
    if fields == [] then [] else [FieldLine(fields[0])] + FieldLines(fields[1..])
  }

  /** The lines of an outbound frame: the name, one line per field, then EndMessage. */
  function FrameLines(c: Command): (r: seq<string>)
    ensures |r| == |c.fields| + 2 && r[0] == c.name && r[|r| - 1] == EndMarker
    ensures r[1..|r| - 1] == FieldLines(c.fields)
  {
    [c.name] + FieldLines(c.fields) + [EndMarker]
  }

  /** ClientHello, the handshake command connect sends: the client's name and protocol version 2.0. */
  function ClientHello(clientName: string): (c: Command)
    ensures c.payload.None?
    ensures Lookup(c.fields, "Name") == Some(clientName) && Lookup(c.fields, "ExpectedVersion") == Some("2.0")
  {
    Command("ClientHello", [Field("Name", clientName), Field("ExpectedVersion", "2.0")], None)
  }
}
