/**
 * The inbound half of the FCP v2 connection: the line-driven state machine
 * the reader thread runs over the node's stream. Lines are given as a
 * sequence (end of the sequence is readLine returning null); the raw bytes a
 * Data marker announces come from a separate byte source.
 */
module Decoder {
  import opened Wrappers
  import opened JavaText
  import opened Frames

  const HelloName: string := "NodeHello"
  const IdentifierKey: string := "Identifier"
  const DataLengthKey: string := "DataLength"

  /** What happens to a completed message: it becomes the handshake result, or goes to the listeners. */
  datatype Delivery = HelloStored(message: Message) | Dispatched(message: Message)

  /** How the read loop ended. BadDataLength is the NumberFormatException from parsing DataLength. */
  datatype Ending = EndOfInput | UnexpectedLine(line: string) | BadDataLength

  /** The effect of one line: carry on with a new current message and byte source, perhaps having completed a message; or stop. */
  datatype Step = Continue(current: Option<Message>, source: seq<byte>, out: Option<Delivery>) | Stop(ending: Ending)

  /** What the whole loop produced: the deliveries in order, and how it ended. */
  datatype Decoded = Decoded(deliveries: seq<Delivery>, ending: Ending)

  function NewMessage(name: string): Message {
    Message(name, [], None, None)
  }

  /** A completed message goes to exactly one place, chosen by its name. */
  function Complete(m: Message): (d: Delivery)
    ensures d.message == m
    ensures d.HelloStored? <==> m.name == HelloName
  {
    if m.name == HelloName then HelloStored(m) else Dispatched(m)
  }

  /** What a line inside a message is, tested in the order the reader tests it. */
  datatype LineKind = DataLine | EndLine | KeyValue(key: string, value: string) | BlankLine | BadLine

  /** A line inside a message: a marker, else a field split at its first '=' with both halves trimmed, else blank, else bad. */
  function Classify(line: string): (r: LineKind)
    ensures r.DataLine? <==> line == DataMarker
    ensures r.EndLine? <==> line == EndMarker
  {
    if line == DataMarker then DataLine
    else if line == EndMarker then EndLine
    else
      var p := IndexOf(line, '=');
      if p >= 0 then KeyValue(Trim(line[..p]), Trim(line[p + 1..]))
      else if Trim(line) == [] then BlankLine
      else BadLine
  }

  /** One pass of the reader's loop body, for a line that is not the end of input. */
  function StepLine(current: Option<Message>, source: seq<byte>, line: string): (r: Step)
    ensures r.Stop? ==> current.Some?
    ensures r.Continue? && r.out.Some? ==>
      && current.Some? && r.current.None?
      && r.out.value.message.name == current.value.name && r.out.value.message.fields == current.value.fields
  {
    if current.None? then Continue(Some(NewMessage(line)), source, None)
    else
      var m := current.value;
      match Classify(line)
      case DataLine =>
        (match ParseLong(Lookup(m.fields, DataLengthKey))
         case None => Stop(BadDataLength)
         case Some(n) =>
           var copied := Copy(source, n);
           Continue(None, copied.1, Some(Complete(m.(payload := copied.0)))))
      case EndLine => Continue(None, source, Some(Complete(m)))
      case KeyValue(key, value) =>
        if key == IdentifierKey then Continue(Some(m.(identifier := Some(value))), source, None)
        else Continue(Some(m.(fields := Put(m.fields, key, value))), source, None)
      case BlankLine => Continue(current, source, None)
      case BadLine => Stop(UnexpectedLine(line))
  }

  /** A key-value line has a '=' and is not a marker; its key and value are already trimmed. */
  lemma ClassifyKeyValue(line: string)
    requires Classify(line).KeyValue?
    ensures '=' in line && line != DataMarker && line != EndMarker
    ensures IsTrimmed(Classify(line).key) && IsTrimmed(Classify(line).value)
  {
    var p := IndexOf(line, '=');
    IndexOfSpec(line, '=');
    TrimIsTrimmed(line[..p]);
    TrimIsTrimmed(line[p + 1..]);
  }

  /** Every line with a '=' that is not a marker is a key-value line. */
  lemma ClassifyWithEquals(line: string)
    requires '=' in line
    ensures Classify(line).KeyValue?
  {
    IndexOfSpec(line, '=');
    assert '=' !in DataMarker && '=' !in EndMarker;
  }

  /** Whitespace-only lines are blank. */
  lemma ClassifyWhite(line: string)
    requires AllWhite(line)
    ensures Classify(line) == BlankLine
  {
    TrimEmptyIffWhite(line);
    IndexOfSpec(line, '=');
    assert forall k :: 0 <= k < |line| ==> line[k] != '=' by {
      assert !IsWhite('=');
    }
    assert !IsWhite(DataMarker[0]) && !IsWhite(EndMarker[0]);
  }

  /** A line that is no marker, has no '=' and is not whitespace-only is bad. */
  lemma ClassifyOther(line: string)
    requires line != DataMarker && line != EndMarker && '=' !in line && !AllWhite(line)
    ensures Classify(line) == BadLine
  {
    TrimEmptyIffWhite(line);
    IndexOfSpec(line, '=');
  }

  /** The reader's loop from the given state to its end. */
  function DecodeFrom(lines: seq<string>, current: Option<Message>, source: seq<byte>): (r: Decoded)
    ensures 2 * |r.deliveries| <= |lines| + (if current.Some? then 1 else 0)
    decreases |lines|
  {
    if lines == [] then Decoded([], EndOfInput)
    else
      match StepLine(current, source, lines[0])
      case Stop(e) => Decoded([], e)
      case Continue(c, s, out) => Prepended(out, DecodeFrom(lines[1..], c, s))
  }

  function Prepended(out: Option<Delivery>, d: Decoded): Decoded {
    match out
    case None => d
    case Some(delivery) => Decoded([delivery] + d.deliveries, d.ending)
  }

  /** One line that does not stop the loop contributes its deliveries ahead of the rest. */
  lemma ContinueUnfold(lines: seq<string>, current: Option<Message>, source: seq<byte>)
    requires lines != [] && StepLine(current, source, lines[0]).Continue?
    ensures var st := StepLine(current, source, lines[0]);
      DecodeFrom(lines, current, source) == Prepended(st.out, DecodeFrom(lines[1..], st.current, st.source))
  {
  }

  /** The reader's whole run: it starts with no message in progress. */
  function Decode(lines: seq<string>, source: seq<byte>): (r: Decoded)
    ensures 2 * |r.deliveries| <= |lines|
  {
    DecodeFrom(lines, None, source)
  }

  /** With no message in progress, any line at all, markers included, is the next message's name and nothing else. */
  lemma HeaderLineIsName(line: string, rest: seq<string>, source: seq<byte>)
    ensures DecodeFrom([line] + rest, None, source) == DecodeFrom(rest, Some(NewMessage(line)), source)
  {
    assert ([line] + rest)[1..] == rest;
  }

  /** A field line is split at its first '=', both halves trimmed; the reserved key sets the identifier, any other key is put. */
  lemma FieldLineStep(m: Message, source: seq<byte>, line: string, key: string, value: string)
    requires Classify(line) == KeyValue(key, value)
    ensures var st := StepLine(Some(m), source, line);
      && st.Continue? && st.out.None? && st.source == source && st.current.Some?
      && var m' := st.current.value;
      && m'.name == m.name && m'.payload == m.payload
      && (key == IdentifierKey ==> m'.identifier == Some(value) && m'.fields == m.fields)
      && (key != IdentifierKey ==> m'.identifier == m.identifier && Lookup(m'.fields, key) == Some(value))
      && (forall other :: other != key ==> Lookup(m'.fields, other) == Lookup(m.fields, other))
  {
    forall other | other != key ensures Lookup(Put(m.fields, key, value), other) == Lookup(m.fields, other) {
      PutLookup(m.fields, key, value, other);
    }
    PutLookup(m.fields, key, value, key);
  }

  /** EndMessage completes the message, which goes to exactly one place, and the decoder is back to no message. */
  lemma EndMarkerCompletes(m: Message, rest: seq<string>, source: seq<byte>)
    ensures var d := DecodeFrom([EndMarker] + rest, Some(m), source);
      var after := DecodeFrom(rest, None, source);
      d.deliveries == [Complete(m)] + after.deliveries && d.ending == after.ending
  {
    assert ([EndMarker] + rest)[1..] == rest;
  }

  /**
   * Data reads DataLength, copies that many bytes as the payload and completes
   * the message. A failed copy does not stop the loop: the message is still
   * delivered, without a payload.
   */
  lemma DataMarkerCompletes(m: Message, rest: seq<string>, source: seq<byte>, n: int)
    requires ParseLong(Lookup(m.fields, DataLengthKey)) == Some(n)
    ensures var d := DecodeFrom([DataMarker] + rest, Some(m), source);
      var after := DecodeFrom(rest, None, Copy(source, n).1);
      && d.deliveries == [Complete(m.(payload := Copy(source, n).0))] + after.deliveries
      && d.ending == after.ending
      && (0 <= n <= |source| ==> d.deliveries[0].message.payload == Some(source[..n]))
      && (!(0 <= n <= |source|) ==> d.deliveries[0].message.payload == None == Copy(source, n).0)
  {
    assert ([DataMarker] + rest)[1..] == rest;
  }

  /** A missing or unparsable DataLength aborts the loop on the Data line; the message is never delivered. */
  lemma DataMarkerWithoutLength(m: Message, rest: seq<string>, source: seq<byte>)
    requires ParseLong(Lookup(m.fields, DataLengthKey)).None?
    ensures DecodeFrom([DataMarker] + rest, Some(m), source) == Decoded([], BadDataLength)
  {
  }

  /** Inside a message, a whitespace-only line is skipped and the message is left as it was. */
  lemma BlankLineSkipped(m: Message, line: string, rest: seq<string>, source: seq<byte>)
    requires AllWhite(line)
    ensures DecodeFrom([line] + rest, Some(m), source) == DecodeFrom(rest, Some(m), source)
  {
    assert ([line] + rest)[1..] == rest;
    ClassifyWhite(line);
  }

  /** Inside a message, any other line that is not a marker and has no '=' ends the loop with an error. */
  lemma UnexpectedLineAborts(m: Message, line: string, rest: seq<string>, source: seq<byte>)
    requires line != DataMarker && line != EndMarker && '=' !in line && !AllWhite(line)
    ensures DecodeFrom([line] + rest, Some(m), source) == Decoded([], UnexpectedLine(line))
  {
    ClassifyOther(line);
  }

  /** Lines the decoder only accumulates: field lines and whitespace-only lines. */
  predicate Accumulating(line: string) {
    '=' in line || AllWhite(line)
  }

  /** When the input ends inside a message, that partial message is never delivered. */
  lemma {:induction false} PartialMessageDropped(m: Message, lines: seq<string>, source: seq<byte>)
    requires forall k :: 0 <= k < |lines| ==> Accumulating(lines[k])
    ensures DecodeFrom(lines, Some(m), source) == Decoded([], EndOfInput)
    decreases |lines|
  {
    if lines != [] {
      var line := lines[0];
      if '=' in line {
        ClassifyWithEquals(line);
        var kind := Classify(line);
        FieldLineStep(m, source, line, kind.key, kind.value);
        PartialMessageDropped(StepLine(Some(m), source, line).current.value, lines[1..], source);
      } else {
        ClassifyWhite(line);
        PartialMessageDropped(m, lines[1..], source);
      }
    }
  }

  /** Keys as the decoder stores them: unique, trimmed, and never the reserved identifier key. */
  predicate GoodKeys(fields: seq<Field>) {
    && DistinctKeys(fields)
    && forall k :: 0 <= k < |fields| ==> fields[k].key != IdentifierKey && IsTrimmed(fields[k].key)
  }

  /** A message under construction: no payload yet and good keys. */
  predicate Accumulated(m: Message) {
    m.payload.None? && GoodKeys(m.fields)
  }

  /**
   * What every delivered message satisfies: good keys, and a payload only of
   * exactly DataLength bytes.
   */
  predicate WellFormed(m: Message) {
    && GoodKeys(m.fields)
    && (m.payload.Some? ==> ParseLong(Lookup(m.fields, DataLengthKey)) == Some(|m.payload.value|))
  }

  lemma PutGoodKeys(fields: seq<Field>, key: string, value: string)
    requires GoodKeys(fields) && key != IdentifierKey && IsTrimmed(key)
    ensures GoodKeys(Put(fields, key, value))
  {
    var f := Put(fields, key, value);
    PutDistinct(fields, key, value);
    PutOrder(fields, key, value);
    forall k | 0 <= k < |f| ensures f[k].key != IdentifierKey && IsTrimmed(f[k].key) {
      if k < |fields| {
        assert f[k].key == fields[k].key;
      } else {
        assert f[k].key == key;
      }
    }
  }

  lemma AccumulatedStep(m: Message, source: seq<byte>, line: string)
    requires Accumulated(m)
    ensures var st := StepLine(Some(m), source, line);
      st.Continue? ==>
        && (st.current.Some? ==> Accumulated(st.current.value))
        && (st.out.Some? ==> WellFormed(st.out.value.message))
  {
    match Classify(line)
    case DataLine =>
      var n := ParseLong(Lookup(m.fields, DataLengthKey));
      if n.Some? {
        var copied := Copy(source, n.value);
        assert StepLine(Some(m), source, line) == Continue(None, copied.1, Some(Complete(m.(payload := copied.0))));
      }
    case EndLine =>
    case KeyValue(key, value) =>
      if key != IdentifierKey {
        ClassifyKeyValue(line);
        PutGoodKeys(m.fields, key, value);
      }
    case BlankLine =>
    case BadLine =>
  }

  /** Every message the loop delivers is well formed, whatever the input. */
  lemma {:induction false} DeliveriesWellFormed(lines: seq<string>, current: Option<Message>, source: seq<byte>)
    requires current.Some? ==> Accumulated(current.value)
    ensures var d := DecodeFrom(lines, current, source).deliveries;
      forall k :: 0 <= k < |d| ==> WellFormed(d[k].message)
  {
    if lines != [] {
      var st := StepLine(current, source, lines[0]);
      if current.Some? {
        AccumulatedStep(current.value, source, lines[0]);
      }
      if st.Continue? {
        DeliveriesWellFormed(lines[1..], st.current, st.source);
        ContinueUnfold(lines, current, source);
      }
    }
  }

  /** A message is stored as the handshake result exactly when it is named NodeHello, and otherwise dispatched: never both. */
  lemma {:induction false} DeliveriesRoutedByName(lines: seq<string>, current: Option<Message>, source: seq<byte>)
    ensures var d := DecodeFrom(lines, current, source).deliveries;
      forall k :: 0 <= k < |d| ==> (d[k].HelloStored? <==> d[k].message.name == HelloName)
  {
    if lines != [] {
      var st := StepLine(current, source, lines[0]);
      if st.Continue? {
        DeliveriesRoutedByName(lines[1..], st.current, st.source);
        ContinueUnfold(lines, current, source);
      }
    }
  }

  /** Text that stays on one line when written: no line feed and no carriage return. */
  predicate OneLine(s: string) {
    '\n' !in s && '\r' !in s
  }

  /** A field line as Command.write is taken to emit it: a trimmed one-line key without '=' other than Identifier, and a trimmed one-line value. */
  predicate PlainField(f: Field) {
    && '=' !in f.key && f.key != IdentifierKey
    && IsTrimmed(f.key) && IsTrimmed(f.value)
    && OneLine(f.key) && OneLine(f.value)
  }

  predicate PlainFields(fields: seq<Field>) {
    DistinctKeys(fields) && forall k :: 0 <= k < |fields| ==> PlainField(fields[k])
  }

  /** The message a command's frame decodes to. */
  function Received(c: Command): Message {
    Message(c.name, c.fields, None, None)
  }

  /** The line of a plain field classifies back to that field's key and value. */
  lemma ClassifyPlainField(f: Field)
    requires PlainField(f)
    ensures Classify(FieldLine(f)) == KeyValue(f.key, f.value)
  {
    FieldLineSplits(f);
    FieldLineIsNoMarker(f);
    TrimOfTrimmed(f.key);
    TrimOfTrimmed(f.value);
  }

  /** The first '=' of a field line is the one after the key, when the key has none. */
  lemma FieldLineSplits(f: Field)
    requires '=' !in f.key
    ensures var line := FieldLine(f);
      IndexOf(line, '=') == |f.key| && line[..|f.key|] == f.key && line[|f.key| + 1..] == f.value
  {
    var line := FieldLine(f);
    assert line[|f.key|] == '=';
    assert line[..|f.key|] == f.key && line[|f.key| + 1..] == f.value;
    assert forall k :: 0 <= k < |f.key| ==> line[k] == f.key[k];
    IndexOfAt(line, '=', |f.key|);
  }

  lemma FieldLineIsNoMarker(f: Field)
    ensures FieldLine(f) != DataMarker && FieldLine(f) != EndMarker
  {
    var line := FieldLine(f);
    assert line[|f.key|] == '=';
    assert '=' !in DataMarker && '=' !in EndMarker;
  }

  /** A plain field line whose key is new appends that field to the message. */
  lemma PlainFieldStep(m: Message, f: Field, source: seq<byte>)
    requires PlainField(f) && !HasKey(m.fields, f.key)
    ensures StepLine(Some(m), source, FieldLine(f)) == Continue(Some(m.(fields := m.fields + [f])), source, None)
  {
    ClassifyPlainField(f);
    PutOrder(m.fields, f.key, f.value);
  }

  /** Keys not yet in the message and unique among themselves. */
  predicate FreshKeys(m: Message, fields: seq<Field>) {
    && PlainFields(fields)
    && forall k :: 0 <= k < |fields| ==> !HasKey(m.fields, fields[k].key)
  }

  lemma FreshKeysTail(m: Message, fields: seq<Field>)
    requires FreshKeys(m, fields) && fields != []
    ensures FreshKeys(m.(fields := m.fields + [fields[0]]), fields[1..])
  {
    var m' := m.(fields := m.fields + [fields[0]]);
    forall k | 0 <= k < |fields[1..]| ensures !HasKey(m'.fields, fields[1..][k].key) {
      assert fields[1..][k] == fields[k + 1];
      forall j | 0 <= j < |m'.fields| ensures m'.fields[j].key != fields[k + 1].key {
        if j < |m.fields| {
          assert m'.fields[j] == m.fields[j];
        } else {
          assert m'.fields[j] == fields[0];
        }
      }
    }
    assert PlainFields(fields[1..]) by {
      forall i, j | 0 <= i < j < |fields[1..]| ensures fields[1..][i].key != fields[1..][j].key {
        assert fields[1..][i] == fields[i + 1] && fields[1..][j] == fields[j + 1];
      }
      forall k | 0 <= k < |fields[1..]| ensures PlainField(fields[1..][k]) {
        assert fields[1..][k] == fields[k + 1];
      }
    }
  }

  /** One plain field line with a new key appends that field and moves on. */
  lemma PlainFieldLine(m: Message, f: Field, lines: seq<string>, source: seq<byte>)
    requires PlainField(f) && !HasKey(m.fields, f.key)
    requires lines != [] && lines[0] == FieldLine(f)
    ensures DecodeFrom(lines, Some(m), source) == DecodeFrom(lines[1..], Some(m.(fields := m.fields + [f])), source)
  {
    PlainFieldStep(m, f, source);
    ContinueUnfold(lines, Some(m), source);
  }

  lemma FieldLinesCons(fields: seq<Field>, rest: seq<string>)
    requires fields != []
    ensures (FieldLines(fields) + rest)[0] == FieldLine(fields[0])
    ensures (FieldLines(fields) + rest)[1..] == FieldLines(fields[1..]) + rest
  {
  }

  lemma AppendCons(front: seq<Field>, fields: seq<Field>)
    requires fields != []
    ensures (front + [fields[0]]) + fields[1..] == front + fields
  {
  }

  lemma {:induction false} FieldLinesAccumulate(m: Message, fields: seq<Field>, rest: seq<string>, source: seq<byte>)
    requires FreshKeys(m, fields)
    ensures DecodeFrom(FieldLines(fields) + rest, Some(m), source)
         == DecodeFrom(rest, Some(m.(fields := m.fields + fields)), source)
    decreases |fields|
  {
    if fields == [] {
      assert m.fields + fields == m.fields;
      assert FieldLines(fields) + rest == rest;
    } else {
      var lines := FieldLines(fields) + rest;
      FieldLinesCons(fields, rest);
      PlainFieldLine(m, fields[0], lines, source);
      FreshKeysTail(m, fields);
      var m' := m.(fields := m.fields + [fields[0]]);
      FieldLinesAccumulate(m', fields[1..], rest, source);
      AppendCons(m.fields, fields);
    }
  }

  /**
   * A frame laid out as execute writes it decodes to a message with the same
   * name and the same fields in the same order, and the decoder is then back
   * to no message, whatever follows.
   */
  lemma FrameRoundTrip(c: Command, rest: seq<string>, source: seq<byte>)
    requires OneLine(c.name) && PlainFields(c.fields)
    ensures var d := DecodeFrom(FrameLines(c) + rest, None, source);
      var after := DecodeFrom(rest, None, source);
      d.deliveries == [Complete(Received(c))] + after.deliveries && d.ending == after.ending
  {
    var tail := [EndMarker] + rest;
    var m := NewMessage(c.name);
    FrameLinesSplit(c, rest);
    HeaderLineIsName(c.name, FieldLines(c.fields) + tail, source);
    assert m.fields + c.fields == c.fields;
    FieldLinesAccumulate(m, c.fields, tail, source);
    EndMarkerCompletes(Received(c), rest, source);
  }

  lemma FrameLinesSplit(c: Command, rest: seq<string>)
    ensures FrameLines(c) + rest == [c.name] + (FieldLines(c.fields) + ([EndMarker] + rest))
  {
  }

  function AllFrameLines(cs: seq<Command>): seq<string> {
    if cs == [] then [] else FrameLines(cs[0]) + AllFrameLines(cs[1..])
  }

  /** A stream of frames laid out as execute writes them decodes to those messages, in order, up to the end of input. */
  lemma {:induction false} FramesRoundTrip(cs: seq<Command>, source: seq<byte>)
    requires forall k :: 0 <= k < |cs| ==> OneLine(cs[k].name) && PlainFields(cs[k].fields)
    ensures var d := Decode(AllFrameLines(cs), source);
      && d.ending == EndOfInput && |d.deliveries| == |cs|
      && forall k :: 0 <= k < |cs| ==> d.deliveries[k] == Complete(Received(cs[k]))
  {
    if cs != [] {
      FrameRoundTrip(cs[0], AllFrameLines(cs[1..]), source);
      FramesRoundTrip(cs[1..], source);
    }
  }
}
