# FCP v2 connection engine

A Dafny model of the client side of a Freenet Client Protocol (FCP) v2
connection, as implemented by the `Connection` class of the plugin base
library. The model covers the following:

- **The reader loop (`NodeReader.run`).** This is a line-driven state
  machine that turns the node's lines into messages:
  - the first line of a message is its name;
  - `key=value` lines are fields, except `Identifier`, which sets the
    message's identifier;
  - `Data` reads `DataLength` raw bytes as a payload;
  - `Data` and `EndMessage` complete the message;
  - blank lines are skipped, and anything else ends the loop.

  A completed `NodeHello` is kept as the handshake result. Every other
  message goes to the registered listeners.
- **The outbound frame `execute` writes.** It writes the command name, one
  line per field, then `EndMessage` and a flush. If the command has a
  payload, the payload bytes follow with another flush, and the payload
  stream is closed either way. `execute` refuses to run without a socket.
- **The connection's resources.** These are the four nullable handles
  (writer, output stream, input stream, socket) plus the reader and the
  stored `NodeHello`, changed by `connect` and `disconnect` and read by
  `isConnected`.
- **The listener registry.** `add` appends, `remove` drops the first equal
  entry, and notifications visit the list in order.

Files:

- `wrappers.dfy`: `Option`.
- `java_text.dfy`: the three pieces of `java.lang` the reader relies on, namely
  `String.trim`, `String.indexOf` and `Long.parseLong`.
- `frames.dfy`: messages and commands, stated as follows:
  - the insertion-ordered field map (`get`/`put`);
  - the byte source a payload is copied from;
  - the line layout of an outbound frame.
- `decoder.dfy`: the reader loop as a function from the node's lines and bytes
  to the messages delivered and how the loop ended, with its properties. This
  includes the round trip from an outbound frame back to the same message.
- `listeners.dfy`: `List.remove` on the listener list and the callback
  sequences a broadcast produces.
- `connection.dfy`: the `Connection` class. It records the observable effects
  in three logs: what was written to the node, which handles were closed, and
  which listener callbacks were made. The reader loop is a `while` loop proved
  against the decoder function.

Sockets and streams are opaque `Handle` values. The node's inbound stream has
two parts: a sequence of lines, whose end stands for `readLine` returning
null, and a byte sequence the `Data` payloads are copied from. The reader
thread and the handshake wait are not modelled as concurrency. `Connect`
takes two parameters instead:
- the handles that opening the socket produced, or none when that throws;
- the `NodeHello` the reader stored during the wait, if any.

Where the code and its documentation disagree, the model follows the code:

- `disconnect` fires `connectionTerminated` on every call, not just once.
- A failed payload copy on `Data` is caught, so the message is still
  delivered, without a payload.
- Listeners are notified by iterating the live list.
- A `DataLength` that does not parse throws `NumberFormatException`. The
  reader does not catch it, so the loop stops, its streams are closed, and
  `disconnect` is not called.
- `connect` does not clear `nodeHello`, so a `NodeHello` kept from an
  earlier connection makes `connect` return true even when the new node has
  not answered yet.

## Model

| member | source | states |
|---|---|---|
| JavaText.Trim | src/pluginbase/de/todesbaum/util/freenet/fcp2/Connection.java:362-363 | trimming never makes a key, value or line longer |
| JavaText.TrimStartSpec | src/pluginbase/de/todesbaum/util/freenet/fcp2/Connection.java:362-363 | trimming the front drops exactly a leading run of chars at or below U+0020 and keeps the rest as a suffix |
| JavaText.TrimEndSpec | src/pluginbase/de/todesbaum/util/freenet/fcp2/Connection.java:362-363 | trimming the back drops exactly a trailing run of chars at or below U+0020 and keeps the rest as a prefix |
| JavaText.TrimEmptyIffWhite | src/pluginbase/de/todesbaum/util/freenet/fcp2/Connection.java:372 | `trim()` is empty exactly when every char of the line is whitespace |
| JavaText.TrimIsTrimmed | src/pluginbase/de/todesbaum/util/freenet/fcp2/Connection.java:362-363 | a trimmed key or value has no whitespace at either end, and trimming it again changes nothing |
| JavaText.TrimOfTrimmed | src/pluginbase/de/todesbaum/util/freenet/fcp2/Connection.java:362-363 | trimming a string that has no whitespace at either end returns it unchanged |
| JavaText.IndexOf | src/pluginbase/de/todesbaum/util/freenet/fcp2/Connection.java:360 | `indexOf` returns -1 or a valid position in the line |
| JavaText.IndexOfSpec | src/pluginbase/de/todesbaum/util/freenet/fcp2/Connection.java:360-361 | -1 exactly when the char is absent; otherwise the position of its first occurrence |
| JavaText.IndexOfAt | src/pluginbase/de/todesbaum/util/freenet/fcp2/Connection.java:360-361 | a char at position i that does not occur before i is found at i |
| JavaText.ParseLong | src/pluginbase/de/todesbaum/util/freenet/fcp2/Connection.java:340 | a parsed DataLength is always within the range of a Java long |
| JavaText.ParseLongOfDecimal | src/pluginbase/de/todesbaum/util/freenet/fcp2/Connection.java:340 | every non-negative long written in decimal parses back to itself |
| JavaText.ParseLongOfNegative | src/pluginbase/de/todesbaum/util/freenet/fcp2/Connection.java:340 | a minus sign before the digits gives the negated value, down to the smallest long |
| JavaText.ParseLongRejectsNonDigit | src/pluginbase/de/todesbaum/util/freenet/fcp2/Connection.java:340 | a string with a char that is neither a digit nor a leading sign does not parse |
| Frames.Lookup | src/pluginbase/de/todesbaum/util/freenet/fcp2/Connection.java:340 | `message.get(key)` is non-null exactly when the key is present, and then the pair is one of the message's fields |
| Frames.Put | src/pluginbase/de/todesbaum/util/freenet/fcp2/Connection.java:367 | after `put` the new pair is among the fields, and the field count grows by at most one |
| Frames.PutLookup | src/pluginbase/de/todesbaum/util/freenet/fcp2/Connection.java:367 | after `put`, the key maps to the new value and every other key to its old value |
| Frames.PutOrder | src/pluginbase/de/todesbaum/util/freenet/fcp2/Connection.java:367 | `put` appends a new key at the end; a known key keeps its place, so the size stays the same and every position keeps its key |
| Frames.PutDistinct | src/pluginbase/de/todesbaum/util/freenet/fcp2/Connection.java:367 | keys stay unique under `put` |
| Frames.Copy | src/pluginbase/de/todesbaum/util/freenet/fcp2/Connection.java:341 | a copy of n bytes succeeds exactly when 0 <= n <= the bytes available, and then yields exactly n bytes followed by the unread rest |
| Frames.FieldLines | src/pluginbase/de/todesbaum/util/freenet/fcp2/Connection.java:272 | one `key=value` line per field, in field order |
| Frames.FrameLines | src/pluginbase/de/todesbaum/util/freenet/fcp2/Connection.java:271-273 | a frame is the name line, then the field lines, then `EndMessage` |
| Frames.ClientHello | src/pluginbase/de/todesbaum/util/freenet/fcp2/Connection.java:186-189 | ClientHello has no payload; `Name` is the connection's name and `ExpectedVersion` is `2.0` |
| Decoder.Classify | src/pluginbase/de/todesbaum/util/freenet/fcp2/Connection.java:333-376 | a line is taken as `Data` exactly when it is `Data`, and as the end of the message exactly when it is `EndMessage`; every other line is a field, blank or unexpected line |
| Decoder.StepLine | src/pluginbase/de/todesbaum/util/freenet/fcp2/Connection.java:329-376 | only a message in progress can stop the loop; a pass delivers only a message in progress, with the name and fields it had, and leaves the reader with no message |
| Decoder.DecodeFrom | src/pluginbase/de/todesbaum/util/freenet/fcp2/Connection.java:323-377 | every delivered message used up at least two lines (its name and `Data` or `EndMessage`), counting the name line of a message already in progress |
| Decoder.Decode | src/pluginbase/de/todesbaum/util/freenet/fcp2/Connection.java:323-377 | a run over n lines delivers at most n/2 messages |
| Decoder.Complete | src/pluginbase/de/todesbaum/util/freenet/fcp2/Connection.java:349-356 | a completed message is stored as the handshake result exactly when it is named `NodeHello`, and dispatched otherwise |
| Decoder.ClassifyKeyValue | src/pluginbase/de/todesbaum/util/freenet/fcp2/Connection.java:360-363 | a field line contains `=`, is no marker, and its key and value are trimmed |
| Decoder.ClassifyWithEquals | src/pluginbase/de/todesbaum/util/freenet/fcp2/Connection.java:360-361 | every line with a `=` that is not a marker is a field line |
| Decoder.ClassifyWhite | src/pluginbase/de/todesbaum/util/freenet/fcp2/Connection.java:371-374 | a whitespace-only line is a blank line |
| Decoder.ClassifyOther | src/pluginbase/de/todesbaum/util/freenet/fcp2/Connection.java:371-376 | a line that is no marker, has no `=` and is not blank is an unexpected line |
| Decoder.HeaderLineIsName | src/pluginbase/de/todesbaum/util/freenet/fcp2/Connection.java:329-332 | with no message in progress, any line (a marker or one with `=` included) becomes the new message's name verbatim and nothing else happens |
| Decoder.FieldLineStep | src/pluginbase/de/todesbaum/util/freenet/fcp2/Connection.java:360-369 | a field line sets the identifier for `Identifier` (fields untouched) and otherwise puts the trimmed key and value; every other key, the name and the payload are unchanged |
| Decoder.EndMarkerCompletes | src/pluginbase/de/todesbaum/util/freenet/fcp2/Connection.java:348-358 | `EndMessage` delivers the message first and the decoder continues with no message |
| Decoder.DataMarkerCompletes | src/pluginbase/de/todesbaum/util/freenet/fcp2/Connection.java:333-358 | `Data` copies DataLength bytes and delivers the message: with exactly those bytes as payload when they are there, without a payload when the copy fails, and the loop goes on |
| Decoder.DataMarkerWithoutLength | src/pluginbase/de/todesbaum/util/freenet/fcp2/Connection.java:340 | a missing or unparsable DataLength stops the loop on the `Data` line without delivering the message |
| Decoder.BlankLineSkipped | src/pluginbase/de/todesbaum/util/freenet/fcp2/Connection.java:371-374 | a whitespace-only line inside a message leaves the message and the rest of the run unchanged |
| Decoder.UnexpectedLineAborts | src/pluginbase/de/todesbaum/util/freenet/fcp2/Connection.java:375-376 | any other line ends the loop with that line as the error and delivers nothing more |
| Decoder.PartialMessageDropped | src/pluginbase/de/todesbaum/util/freenet/fcp2/Connection.java:324-328 | when the input ends inside a message after only field and blank lines, nothing is delivered and the loop ends at end of input |
| Decoder.DeliveriesWellFormed | src/pluginbase/de/todesbaum/util/freenet/fcp2/Connection.java:333-369 | every delivered message has unique, trimmed keys other than `Identifier`, and a payload only of exactly DataLength bytes |
| Decoder.DeliveriesRoutedByName | src/pluginbase/de/todesbaum/util/freenet/fcp2/Connection.java:348-356 | across a whole run, a message is stored exactly when it is named `NodeHello`, and dispatched otherwise, never both |
| Decoder.FrameRoundTrip | src/pluginbase/de/todesbaum/util/freenet/fcp2/Connection.java:271-273 | a frame laid out as `execute` writes it (a one-line name and plain one-line `key=value` fields) decodes to one message with the same name and the same fields in order, and the decoder is then back to no message |
| Decoder.FramesRoundTrip | src/pluginbase/de/todesbaum/util/freenet/fcp2/Connection.java:271-273 | a stream of such frames decodes to exactly those messages, in order, ending at end of input |
| Listeners.RemoveFirst | src/pluginbase/de/todesbaum/util/freenet/fcp2/Connection.java:118-120 | `remove` shortens the list by one exactly when the listener is registered, and otherwise leaves its length alone |
| Listeners.RemoveFirstAt | src/pluginbase/de/todesbaum/util/freenet/fcp2/Connection.java:118-120 | remove drops only the first equal entry and keeps everything before and after it in order |
| Listeners.RemoveFirstAbsent | src/pluginbase/de/todesbaum/util/freenet/fcp2/Connection.java:118-120 | removing a listener that is not registered changes nothing |
| Listeners.RemoveFirstCount | src/pluginbase/de/todesbaum/util/freenet/fcp2/Connection.java:118-120 | remove takes out exactly one occurrence of the listener and nothing else |
| Listeners.RemoveFirstKeepsLater | src/pluginbase/de/todesbaum/util/freenet/fcp2/Connection.java:107-120 | a listener added twice is still registered after one removal |
| Listeners.AddThenRemove | src/pluginbase/de/todesbaum/util/freenet/fcp2/Connection.java:107-120 | adding a new listener and then removing it restores the list |
| Listeners.Broadcast | src/pluginbase/de/todesbaum/util/freenet/fcp2/Connection.java:127-131 | one `messageReceived` per listener |
| Listeners.Terminated | src/pluginbase/de/todesbaum/util/freenet/fcp2/Connection.java:136-140 | one `connectionTerminated` per listener |
| Connections.Transmission | src/pluginbase/de/todesbaum/util/freenet/fcp2/Connection.java:271-284 | what `execute` sends begins with the frame's lines and a flush, and for a command without a payload that is all of it |
| Connections.Notifications | src/pluginbase/de/todesbaum/util/freenet/fcp2/Connection.java:354-356 | with no listeners registered, a run of deliveries makes no callback |
| Connections.LastHello | src/pluginbase/de/todesbaum/util/freenet/fcp2/Connection.java:349-350 | the reader never clears `nodeHello`: a run that starts with one set ends with one set |
| Connections.LastHelloKnown | src/pluginbase/de/todesbaum/util/freenet/fcp2/Connection.java:349-350 | once the reader has stored a `NodeHello`, `nodeHello` is set for the rest of the run |
| Connections.LastHelloIsHello | src/pluginbase/de/todesbaum/util/freenet/fcp2/Connection.java:349-350 | if the run changed `nodeHello`, the new value is a `NodeHello` message the run delivered |
| Connections.NotificationsAreDispatches | src/pluginbase/de/todesbaum/util/freenet/fcp2/Connection.java:354-356 | the reader only ever makes `messageReceived` callbacks, and never for a `NodeHello` |
| Connections.Connection.constructor | src/pluginbase/de/todesbaum/util/freenet/fcp2/Connection.java:97-100 | a new connection has its name, no listeners, no handles and no `NodeHello` |
| Connections.Connection.AddConnectionListener | src/pluginbase/de/todesbaum/util/freenet/fcp2/Connection.java:107-109 | the listener is appended to the list |
| Connections.Connection.RemoveConnectionListener | src/pluginbase/de/todesbaum/util/freenet/fcp2/Connection.java:118-120 | the first equal entry is removed, exactly one occurrence goes, and an unregistered listener leaves the list unchanged |
| Connections.Connection.FireMessageReceived | src/pluginbase/de/todesbaum/util/freenet/fcp2/Connection.java:127-131 | every listener receives the message, in list order |
| Connections.Connection.FireConnectionTerminated | src/pluginbase/de/todesbaum/util/freenet/fcp2/Connection.java:136-140 | every listener is told the connection terminated, in list order |
| Connections.Connection.IsConnected | src/pluginbase/de/todesbaum/util/freenet/fcp2/Connection.java:209-211 | a connected connection in a consistent state has a writer to `execute` through, and `disconnect` would close all four handles |
| Connections.Connection.Close | src/pluginbase/de/todesbaum/util/freenet/fcp2/Connection.java:226-231 | a handle is closed only if the field holds one |
| Connections.Connection.Disconnect | src/pluginbase/de/todesbaum/util/freenet/fcp2/Connection.java:225-258 | closes writer, output, input and socket in that order (each only if set), leaves all four null so `isConnected()` is false, and notifies every listener on every call |
| Connections.Connection.CloseHandles | src/pluginbase/de/todesbaum/util/freenet/fcp2/Connection.java:226-253 | writer, output, input and socket are closed in that order, each only if set, and all four end up null |
| Connections.Connection.WriteFrame | src/pluginbase/de/todesbaum/util/freenet/fcp2/Connection.java:271-274 | the frame's lines are written, then the writer is flushed |
| Connections.Connection.SendPayload | src/pluginbase/de/todesbaum/util/freenet/fcp2/Connection.java:275-284 | the payload stream is closed whether or not the copy succeeds; the bytes and a flush follow only on success |
| Connections.Connection.Execute | src/pluginbase/de/todesbaum/util/freenet/fcp2/Connection.java:267-285 | fails without writing exactly when the socket is null; otherwise writes the frame and a flush, then the payload bytes only for a command with a payload; fails with the copy's error exactly when that copy fails |
| Connections.Connection.Connect | src/pluginbase/de/todesbaum/util/freenet/fcp2/Connection.java:169-201 | clears all five handles first; if opening fails, disconnects and fails; otherwise holds the new handles, has sent ClientHello, and returns whether `nodeHello` is set, whether newly stored or kept from before; a `nodeHello` it changed is a `NodeHello` message |
| Connections.Connection.Open | src/pluginbase/de/todesbaum/util/freenet/fcp2/Connection.java:176-181 | the socket, both streams, the writer and the reader are all set together, so the handles are consistent |
| Connections.Connection.Deliver | src/pluginbase/de/todesbaum/util/freenet/fcp2/Connection.java:349-356 | a `NodeHello` is stored and nobody is notified; any other message goes to every listener and `nodeHello` is unchanged |
| Connections.Connection.HandleLine | src/pluginbase/de/todesbaum/util/freenet/fcp2/Connection.java:329-376 | one pass of the loop body computes the decoder's step for the line, and its delivery, if any, has exactly the step's effect on `nodeHello` and the listeners |
| Connections.Connection.CompleteLine | src/pluginbase/de/todesbaum/util/freenet/fcp2/Connection.java:348-358 | `Data` or `EndMessage` delivers the message (with its payload for `Data`) as the decoder's step says, with that delivery's effect on `nodeHello` and the listeners |
| Connections.Connection.ReadPayload | src/pluginbase/de/todesbaum/util/freenet/fcp2/Connection.java:333-347 | `Data` either stops the loop on a DataLength that does not parse, or delivers the message with the copied bytes as payload (none when the copy fails), as the decoder's step says |
| Connections.Connection.AddFieldLine | src/pluginbase/de/todesbaum/util/freenet/fcp2/Connection.java:360-376 | any other line in a message makes the decoder's step: a field or the identifier, a skipped blank line, or a stop on the unexpected line, with no delivery and no bytes read |
| Connections.Connection.ReadMessages | src/pluginbase/de/todesbaum/util/freenet/fcp2/Connection.java:323-377 | the loop ends as the decoder says; `nodeHello` is the last `NodeHello` delivered (or unchanged); the listeners got every other message in order |
| Connections.Connection.RunReader | src/pluginbase/de/todesbaum/util/freenet/fcp2/Connection.java:317-395 | after the loop, the line stream and the input stream are closed; `disconnect` follows unless the DataLength parse threw; consistent handles stay consistent |

## Left out

- Socket creation, the receive-buffer size and the UTF-8 writer are left out, because they are I/O. `Connect` takes the opened handles, or their absence, as a parameter.
- Only a failure of the whole open is modelled. A socket opened with a failing stream is not, so `Connect` never sees some handles set and others not.
- The reader thread, the ten-second wait in `connect`, `notify` and the `synchronized` blocks are left out, because they are concurrency. `Connect` takes the `NodeHello` the reader stored during the wait as a parameter.
- `Connections.Connection.Connect`: does not model a `NodeHello` arriving after the wait, or the reader running at the same time as `execute`. The reader runs during the wait and may dispatch messages to the listeners, or call `disconnect` (clearing the handles and notifying) on end of input or an unexpected line, before `connect` returns; the model does not capture those effects inside `Connect`. An `IOException` from `execute(clientHello)` at line 189, which the catch at lines 197-199 answers with `disconnect` and a rethrow, is not modelled: the model takes sending ClientHello to succeed.
- `Connections.Connection.Execute`: an `IOException` from the writer's `write` or `flush` at lines 271-274 is not modelled; every write is taken to succeed, so `Execute` has no outcome for it.
- `Connections.Connection.SendPayload`: a copy that fails is modelled as putting nothing on the wire. The real copy may already have sent part of the payload before it fails.
- `Connections.Connection.IsConnected`: `Socket.isConnected` is taken to be true for a socket made by connecting.
- `Connections.Connection.Disconnect`: an `IOException` from a `close` call is ignored in the source, and it cannot arise in the model.
- The node's stream is modelled as lines plus a separate byte source. A payload copy that fails after reading some bytes desynchronises the real stream, and the model does not capture this.
- `Frames.Copy`: a failed copy is modelled as consuming all remaining bytes. The exact number of bytes a failing copy reads is not modelled. `StreamCopier` is not part of this model, so its handling of a negative length (modelled as failing without reading) is an assumption.
- Temp-file spooling of payloads, `deleteOnExit` and a failure to create the temp file are left out as file I/O. A payload is modelled as its bytes.
- An `IOException` from `readLine` is not modelled. It ends the loop the same way end of input does.
- `Command.write` is not part of this model. It is taken to write one `key=value` line per field, in field order, and the round-trip lemmas assume fields whose key has no `=`, is not `Identifier`, and has no surrounding whitespace, and a command name, keys and values with no line feed or carriage return (`Command.write` does not escape them, so such text would split into extra lines).
- `Message`, `Command`, `StreamCopier`, `LineInputStream`, `TempFileInputStream` and `Closer` are not part of this model. Messages and commands are records, and the copier is `Frames.Copy`.
- `JavaText.ParseLong`: accepts ASCII digits only. Java also accepts other Unicode decimal digits.
- `JavaText.Trim`: works on chars, so supplementary characters are not treated specially, as in Java.
- Listener callbacks are modelled as recorded events with no effect on the connection. A listener that adds or removes listeners during a broadcast (a `ConcurrentModificationException` in Java) is left out.
- `getName`, `getNodeHello` and `setTempDirectory` are plain accessors and are not modelled as separate members.
- `SingleJob` is left out: it is thread supervision by wall-clock polling, with no functional core.
