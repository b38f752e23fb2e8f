/**
 * The Connection object: its four stream handles, the NodeHello it keeps, its
 * listener list, and the operations connect, disconnect, isConnected, execute
 * and the reader thread's run. What the object does to the outside world is
 * recorded in three logs: what went out on the wire, which handles were
 * closed, and which listener callbacks were made.
 */
module Connections {
  import opened Wrappers
  import opened JavaText
  import opened Frames
  import opened Decoder
  import opened Listeners

  /** One write to the node: a line through the writer, a flush, or raw payload bytes through the output stream. */
  datatype WireItem = Text(line: string) | Flushed | Bytes(data: seq<byte>)

  /** The handles opening a socket yields: the socket, its input and output streams, the UTF-8 writer, and the reader thread. */
  datatype Streams = Streams(socket: Handle, input: Handle, output: Handle, writer: Handle, reader: Handle)

  /** connect either throws the IOException from opening the socket, or reports whether a NodeHello is known. */
  datatype ConnectResult = ConnectFailed | Connected(handshake: bool)

  /** execute returns normally, throws IllegalStateException, or throws the IOException of a failed payload copy. */
  datatype Status = Sent | NotConnected | CopyFailed

  /** Lines as the writer sends them, each followed by the line feed. */
  function Written(lines: seq<string>): (r: seq<WireItem>)
    ensures |r| == |lines|
  {
    seq(|lines|, k requires 0 <= k < |lines| => Text(lines[k]))
  }

  lemma WrittenAppend(a: seq<string>, b: seq<string>)
    ensures Written(a + b) == Written(a) + Written(b)
  {
  }

  /** The name line, the field lines and the EndMessage line, written one after the other, are the frame. */
  lemma FrameWritten(c: Command)
    ensures Written([c.name]) + Written(FieldLines(c.fields)) + Written([EndMarker]) == Written(FrameLines(c))
  {
    WrittenAppend([c.name] + FieldLines(c.fields), [EndMarker]);
    WrittenAppend([c.name], FieldLines(c.fields));
  }

  /** What execute sends for a command: the frame's lines, a flush, then the payload bytes and a flush if the copy succeeds. */
  function Transmission(c: Command): (r: seq<WireItem>)
    ensures Written(FrameLines(c)) + [Flushed] <= r
    ensures c.payload.None? ==> |r| == |FrameLines(c)| + 1
  {
    var frame := Written(FrameLines(c)) + [Flushed];
    match c.payload
    case None => frame
    case Some(p) =>
      var copied := Copy(p.bytes, p.length);
      if copied.0.Some? then frame + [Bytes(copied.0.value), Flushed] else frame
  }

  /** The handle, if the field holds one: what closing a nullable field closes. */
  function Closable(h: Option<Handle>): seq<Handle> {
    if h.Some? then [h.value] else []
  }

  /** The callbacks a run of deliveries causes: each dispatched message goes to every listener; a stored NodeHello to none. */
  function Notifications(ds: seq<Delivery>, ls: seq<Listener>): (r: seq<Notice>)
    ensures |ls| == 0 ==> |r| == 0
  {
    if ds == [] then []
    else
      var last := ds[|ds| - 1];
      Notifications(ds[..|ds| - 1], ls) + (if last.Dispatched? then Broadcast(ls, last.message) else [])
  }

  lemma NotificationsAppend(ds: seq<Delivery>, d: Delivery, ls: seq<Listener>)
    ensures Notifications(ds + [d], ls) == Notifications(ds, ls) + (if d.Dispatched? then Broadcast(ls, d.message) else [])
  {
    assert (ds + [d])[..|ds|] == ds;
  }

  /** The nodeHello field after a run of deliveries: the last NodeHello stored, or what it held before. */
  function LastHello(ds: seq<Delivery>, before: Option<Message>): (r: Option<Message>)
    ensures before.Some? ==> r.Some?
  {
    if ds == [] then before
    else
      var last := ds[|ds| - 1];
      if last.HelloStored? then Some(last.message) else LastHello(ds[..|ds| - 1], before)
  }

  lemma LastHelloAppend(ds: seq<Delivery>, d: Delivery, before: Option<Message>)
    ensures LastHello(ds + [d], before) == if d.HelloStored? then Some(d.message) else LastHello(ds, before)
  {
    assert (ds + [d])[..|ds|] == ds;
  }

  /** Once a NodeHello has been delivered, nodeHello is known, and it stays known. */
  lemma {:induction false} LastHelloKnown(ds: seq<Delivery>, before: Option<Message>, i: nat)
    requires i < |ds| && ds[i].HelloStored?
    ensures LastHello(ds, before).Some?
  {
    if !ds[|ds| - 1].HelloStored? {
      LastHelloKnown(ds[..|ds| - 1], before, i);
    }
  }

  /** Deliveries routed as the reader routes them: stored exactly when named NodeHello. */
  predicate RoutedByName(ds: seq<Delivery>) {
    forall k :: 0 <= k < |ds| ==> (ds[k].HelloStored? <==> ds[k].message.name == HelloName)
  }

  /** Listeners only ever hear messageReceived, and never for a NodeHello. */
  lemma {:induction false} NotificationsAreDispatches(ds: seq<Delivery>, ls: seq<Listener>)
    requires RoutedByName(ds)
    ensures var ns := Notifications(ds, ls);
      forall k :: 0 <= k < |ns| ==> ns[k].MessageReceived? && ns[k].message.name != HelloName
  {
    if ds != [] {
      var front := ds[..|ds| - 1];
      assert RoutedByName(front) by {
        forall k | 0 <= k < |front| ensures front[k] == ds[k] { }
      }
      NotificationsAreDispatches(front, ls);
      assert forall k :: 0 <= k < |Notifications(front, ls)| ==> Notifications(front, ls)[k].MessageReceived? && Notifications(front, ls)[k].message.name != HelloName;
      var last := ds[|ds| - 1];
      var tail := if last.Dispatched? then Broadcast(ls, last.message) else [];
      assert Notifications(ds, ls) == Notifications(front, ls) + tail;
      assert last.Dispatched? ==> last.message.name != HelloName;
      forall k | 0 <= k < |tail| ensures tail[k].MessageReceived? && tail[k].message.name != HelloName {
        assert tail[k] == MessageReceived(ls[k], last.message);
      }
      var ns, nf := Notifications(ds, ls), Notifications(front, ls);
      forall k | 0 <= k < |ns| ensures ns[k].MessageReceived? && ns[k].message.name != HelloName {
        if k < |nf| {
          assert ns[k] == nf[k];
          assert nf[k].MessageReceived? && nf[k].message.name != HelloName;
        } else {
          assert ns[k] == tail[k - |nf|];
        }
      }
    }
  }

  /** A nodeHello the reader replaced is a NodeHello message that it delivered. */
  lemma {:induction false} LastHelloIsHello(ds: seq<Delivery>, before: Option<Message>)
    requires RoutedByName(ds)
    ensures var r := LastHello(ds, before);
      r != before ==> r.Some? && r.value.name == HelloName && exists k :: 0 <= k < |ds| && ds[k] == HelloStored(r.value)
  {
    if ds != [] && !ds[|ds| - 1].HelloStored? {
      var front := ds[..|ds| - 1];
      assert RoutedByName(front) by {
        forall k | 0 <= k < |front| ensures front[k] == ds[k] { }
      }
      LastHelloIsHello(front, before);
      var r := LastHello(ds, before);
      if r != before {
        var k :| 0 <= k < |front| && front[k] == HelloStored(r.value);
        assert ds[k] == front[k];
      }
    }
  }

  /** A decoded run with the deliveries already made put in front. */
  function Joined(done: seq<Delivery>, d: Decoded): Decoded {
    Decoded(done + d.deliveries, d.ending)
  }

  lemma JoinedStep(done: seq<Delivery>, out: Option<Delivery>, d: Decoded)
    ensures Joined(done, Prepended(out, d)) == Joined(done + (if out.Some? then [out.value] else []), d)
  {
    if out.Some? {
      assert done + ([out.value] + d.deliveries) == (done + [out.value]) + d.deliveries;
    }
  }

  lemma Regrouped<T>(a: seq<T>, b: seq<T>, c: seq<T>)
    ensures (a + b) + c == a + (b + c)
  {
  }

  /** The delivery one pass of the loop makes: none, or the message it completed. */
  function Out(step: Step): (r: seq<Delivery>)
    ensures |r| <= 1
  {
    if step.Continue? && step.out.Some? then [step.out.value] else []
  }

  /** Adding one pass's delivery to those made: nodeHello and the callbacks follow the pass on its own. */
  lemma AppendOut(done: seq<Delivery>, step: Step, before: Option<Message>, ls: seq<Listener>)
    ensures LastHello(done + Out(step), before) == LastHello(Out(step), LastHello(done, before))
    ensures Notifications(done + Out(step), ls) == Notifications(done, ls) + Notifications(Out(step), ls)
  {
    if Out(step) == [] {
      assert done + Out(step) == done;
    } else {
      var d := step.out.value;
      LastHelloAppend(done, d, before);
      NotificationsAppend(done, d, ls);
      LastHelloAppend([], d, LastHello(done, before));
      NotificationsAppend([], d, ls);
      assert [] + [d] == [d];
    }
  }

  /** One pass of the reader's loop, as seen from the whole run: a line that stops the loop ends it there; any other line adds its delivery to those made and leaves the rest of the run to the following lines. */
  lemma LoopStep(done: seq<Delivery>, lines: seq<string>, i: nat, current: Option<Message>, source: seq<byte>)
    requires i < |lines|
    ensures var step := StepLine(current, source, lines[i]);
      && (step.Stop? ==> Joined(done, DecodeFrom(lines[i..], current, source)) == Decoded(done, step.ending))
      && (step.Continue? ==>
            Joined(done, DecodeFrom(lines[i..], current, source))
            == Joined(done + Out(step), DecodeFrom(lines[i + 1..], step.current, step.source)))
  {
    var step := StepLine(current, source, lines[i]);
    assert lines[i..][0] == lines[i] && lines[i..][1..] == lines[i + 1..];
    if step.Continue? {
      ContinueUnfold(lines[i..], current, source);
      JoinedStep(done, step.out, DecodeFrom(lines[i + 1..], step.current, step.source));
    } else {
      assert done + [] == done;
    }
  }

  /**
   * The loop's invariant carried over one pass that does not stop: the
   * delivery the pass made joins those made, and nodeHello and the callbacks
   * match the longer run.
   */
  lemma {:induction false} LoopAdvance(done: seq<Delivery>, lines: seq<string>, i: nat, current: Option<Message>, source: seq<byte>,
                                       target: Decoded, before: Option<Message>, hello: Option<Message>,
                                       start: seq<Notice>, notices: seq<Notice>, ls: seq<Listener>)
    requires i < |lines|
    requires Joined(done, DecodeFrom(lines[i..], current, source)) == target
    requires StepLine(current, source, lines[i]).Continue?
    requires var step := StepLine(current, source, lines[i]);
      && hello == LastHello(Out(step), LastHello(done, before))
      && notices == start + Notifications(done, ls) + Notifications(Out(step), ls)
    ensures var step := StepLine(current, source, lines[i]);
      && Joined(done + Out(step), DecodeFrom(lines[i + 1..], step.current, step.source)) == target
      && hello == LastHello(done + Out(step), before)
      && notices == start + Notifications(done + Out(step), ls)
  {
    var step := StepLine(current, source, lines[i]);
    LoopStep(done, lines, i, current, source);
    AppendOut(done, step, before, ls);
    Regrouped(start, Notifications(done, ls), Notifications(Out(step), ls));
  }

  /** A pass that stops ends the whole run with its ending. */
  lemma LoopStops(done: seq<Delivery>, lines: seq<string>, i: nat, current: Option<Message>, source: seq<byte>, target: Decoded)
    requires i < |lines|
    requires Joined(done, DecodeFrom(lines[i..], current, source)) == target
    requires StepLine(current, source, lines[i]).Stop?
    ensures target == Decoded(done, StepLine(current, source, lines[i]).ending)
  {
    LoopStep(done, lines, i, current, source);
  }

  /** The end of input ends the run with the deliveries made. */
  lemma LoopEnds(done: seq<Delivery>, lines: seq<string>, current: Option<Message>, source: seq<byte>, target: Decoded)
    requires Joined(done, DecodeFrom(lines[|lines|..], current, source)) == target
    ensures target == Decoded(done, EndOfInput)
  {
    assert lines[|lines|..] == [] && done + [] == done;
  }

  class Connection {
    /** The name sent in ClientHello. */
    const name: string
    var listeners: seq<Listener>
    var socket: Option<Handle>
    var input: Option<Handle>
    var output: Option<Handle>
    var writer: Option<Handle>
    var reader: Option<Handle>
    var nodeHello: Option<Message>

    /** Everything written to the node, in order. */
    var wire: seq<WireItem>
    /** Every handle closed, in order. */
    var closed: seq<Handle>
    /** Every listener callback made, in order. */
    var notices: seq<Notice>

    /** The four stream handles are all set or all null. */
    ghost predicate Valid()
      reads this
    {
      (socket.Some? <==> input.Some?) && (input.Some? <==> output.Some?) && (output.Some? <==> writer.Some?)
    }

    /** The handles disconnect closes, in the order it closes them. */
    function OpenHandles(): seq<Handle>
      reads this
    {
      Closable(writer) + Closable(output) + Closable(input) + Closable(socket)
    }

    constructor (name: string)
      ensures Valid() && this.name == name
      ensures listeners == [] && nodeHello == None && reader == None
      ensures socket == None && input == None && output == None && writer == None
      ensures wire == [] && closed == [] && notices == []
    {
      this.name := name;
      listeners := [];
      socket, input, output, writer, reader := None, None, None, None, None;
      nodeHello := None;
      wire, closed, notices := [], [], [];
    }

    method AddConnectionListener(l: Listener)
      modifies this`listeners
      ensures listeners == old(listeners) + [l]
    {
      listeners := listeners + [l];
    }

    /** Searches the list front to back and drops the first entry equal to l. */
    method RemoveConnectionListener(l: Listener)
      modifies this`listeners
      ensures listeners == RemoveFirst(old(listeners), l)
      ensures l !in old(listeners) ==> listeners == old(listeners)
      ensures multiset(listeners) == multiset(old(listeners)) - multiset{l}
    {
      var i := 0;
      while i < |listeners| && listeners[i] != l
        invariant 0 <= i <= |listeners|
        invariant forall k :: 0 <= k < i ==> listeners[k] != l
      {
        i := i + 1;
      }
      RemoveFirstCount(listeners, l);
      if i < |listeners| {
        RemoveFirstAt(listeners, l, i);
        listeners := listeners[..i] + listeners[i + 1..];
      } else {
        RemoveFirstAbsent(listeners, l);
      }
    }

    /** Calls messageReceived on every listener, in list order. */
    method FireMessageReceived(m: Message)
      modifies this`notices
      ensures notices == old(notices) + Broadcast(listeners, m)
    {
      for i := 0 to |listeners|
        invariant notices == old(notices) + Broadcast(listeners[..i], m)
      {
        assert Broadcast(listeners[..i + 1], m) == Broadcast(listeners[..i], m) + [MessageReceived(listeners[i], m)];
        notices := notices + [MessageReceived(listeners[i], m)];
      }
      assert listeners[..|listeners|] == listeners;
    }

    /** Calls connectionTerminated on every listener, in list order. */
    method FireConnectionTerminated()
      modifies this`notices
      ensures notices == old(notices) + Terminated(listeners)
    {
      for i := 0 to |listeners|
        invariant notices == old(notices) + Terminated(listeners[..i])
      {
        assert Terminated(listeners[..i + 1]) == Terminated(listeners[..i]) + [ConnectionTerminated(listeners[i])];
        notices := notices + [ConnectionTerminated(listeners[i])];
      }
      assert listeners[..|listeners|] == listeners;
    }

    /** A NodeHello is known and a socket is open (a socket made by connecting reports itself connected). */
    predicate IsConnected(): (r: bool)
      reads this
      ensures r && Valid() ==> writer.Some? && |OpenHandles()| == 4
    {
      nodeHello.Some? && socket.Some?
    }

    /** Closes a handle if the field holds one; a failing close is ignored. */
    method Close(h: Option<Handle>)
      modifies this`closed
      ensures closed == old(closed) + Closable(h)
    {
      if h.Some? {
        closed := closed + [h.value];
      }
    }

    /**
     * Closes writer, output, input and socket, each only if set, and clears
     * them all; then tells every listener the connection terminated. Every
     * call notifies, not only the first.
     */
    method Disconnect()
      modifies this`writer, this`output, this`input, this`socket, this`closed, this`notices
      ensures Valid() && !IsConnected()
      ensures socket == None && input == None && output == None && writer == None
      ensures closed == old(closed) + old(OpenHandles())
      ensures notices == old(notices) + Terminated(listeners)
    {
      CloseHandles();
      FireConnectionTerminated();
    }

    /** The closing half of disconnect: writer, output, input and socket, in that order. */
    method CloseHandles()
      modifies this`writer, this`output, this`input, this`socket, this`closed
      ensures socket == None && input == None && output == None && writer == None
      ensures closed == old(closed) + old(OpenHandles())
    {
      ghost var w, o, i, s := Closable(writer), Closable(output), Closable(input), Closable(socket);
      Close(writer);
      writer := None;
      Close(output);
      output := None;
      Close(input);
      input := None;
      Close(socket);
      socket := None;
      Regrouped(old(closed), w, o);
      Regrouped(old(closed), w + o, i);
      Regrouped(old(closed), w + o + i, s);
    }

    /** Writes the name line, the field lines and EndMessage through the writer, then flushes it. */
    method WriteFrame(c: Command)
      modifies this`wire
      ensures wire == old(wire) + Written(FrameLines(c)) + [Flushed]
    {
      FrameWritten(c);
      wire := wire + Written([c.name]);
      wire := wire + Written(FieldLines(c.fields));
      wire := wire + Written([EndMarker]) + [Flushed];
    }

    /** Copies a payload's bytes to the output stream and flushes it, closing the payload stream whether the copy succeeds or throws. */
    method SendPayload(p: Payload) returns (copiedOk: bool)
      modifies this`wire, this`closed
      ensures var copied := Copy(p.bytes, p.length);
        && (copiedOk <==> copied.0.Some?)
        && closed == old(closed) + [p.stream]
        && wire == old(wire) + (if copiedOk then [Bytes(copied.0.value), Flushed] else [])
    {
      var copied := Copy(p.bytes, p.length);
      closed := closed + [p.stream];
      if copied.0.None? {
        return false;
      }
      wire := wire + [Bytes(copied.0.value), Flushed];
      return true;
    }

    /**
     * Sends a command: fails with IllegalStateException when there is no
     * socket; otherwise writes the name line, one line per field, EndMessage
     * and a flush, and for a command with a payload copies its bytes and
     * flushes again, closing the payload stream whether the copy worked or not.
     */
    method Execute(c: Command) returns (status: Status)
      requires Valid()
      modifies this`wire, this`closed
      ensures socket.None? <==> status == NotConnected
      ensures status == NotConnected ==> wire == old(wire) && closed == old(closed)
      ensures status != NotConnected ==> wire == old(wire) + Transmission(c)
      ensures status != NotConnected ==> closed == old(closed) + (if c.payload.Some? then [c.payload.value.stream] else [])
      ensures status == CopyFailed <==> socket.Some? && c.payload.Some? && Copy(c.payload.value.bytes, c.payload.value.length).0.None?
    {
      if socket.None? {
        return NotConnected;
      }
      WriteFrame(c);
      if c.payload.Some? {
        var copiedOk := SendPayload(c.payload.value);
        if !copiedOk {
          return CopyFailed;
        }
      }
      return Sent;
    }

    /**
     * Clears the handles, opens the socket and its streams (attempt is None when
     * that throws), starts the reader and sends ClientHello. The reader thread
     * runs during the bounded wait; storedByReader is the NodeHello it stored
     * meanwhile, if any. The result is whether nodeHello is set, which a
     * NodeHello from an earlier connection also satisfies.
     */
    method Connect(attempt: Option<Streams>, storedByReader: Option<Message>) returns (result: ConnectResult)
      requires storedByReader.Some? ==> storedByReader.value.name == HelloName
      modifies this`socket, this`input, this`output, this`writer, this`reader, this`nodeHello
      modifies this`wire, this`closed, this`notices
      ensures Valid()
      ensures attempt.None? ==>
        && result == ConnectFailed
        && socket == None && input == None && output == None && writer == None && reader == None
        && closed == old(closed) && wire == old(wire) && nodeHello == old(nodeHello)
        && notices == old(notices) + Terminated(listeners)
      ensures attempt.Some? ==>
        && var s := attempt.value;
        && socket == Some(s.socket) && input == Some(s.input) && output == Some(s.output)
        && writer == Some(s.writer) && reader == Some(s.reader)
        && wire == old(wire) + Transmission(ClientHello(name))
        && closed == old(closed) && notices == old(notices)
        && nodeHello == (if storedByReader.Some? then storedByReader else old(nodeHello))
        && result == Connected(nodeHello.Some?)
        && (result.handshake <==> storedByReader.Some? || old(nodeHello).Some?)
      ensures nodeHello != old(nodeHello) ==> nodeHello.Some? && nodeHello.value.name == HelloName
    {
      socket, input, output, writer, reader := None, None, None, None, None;
      if attempt.None? {
        Disconnect();
        return ConnectFailed;
      }
      Open(attempt.value);
      var hello := ClientHello(name);
      var status := Execute(hello);
      if storedByReader.Some? {
        nodeHello := storedByReader;
      }
      return Connected(nodeHello.Some?);
    }

    /** Takes the socket, its streams, the writer and the reader just opened. */
    method Open(s: Streams)
      modifies this`socket, this`input, this`output, this`writer, this`reader
      ensures socket == Some(s.socket) && input == Some(s.input) && output == Some(s.output)
      ensures writer == Some(s.writer) && reader == Some(s.reader)
      ensures Valid()
    {
      socket := Some(s.socket);
      input := Some(s.input);
      output := Some(s.output);
      writer := Some(s.writer);
      reader := Some(s.reader);
    }

    /** A completed message: a NodeHello is stored (and connect's wait woken), any other message goes to every listener. */
    method Deliver(m: Message)
      modifies this`nodeHello, this`notices
      ensures var d := Complete(m);
        && nodeHello == (if d.HelloStored? then Some(m) else old(nodeHello))
        && notices == old(notices) + (if d.Dispatched? then Broadcast(listeners, m) else [])
      ensures nodeHello == LastHello([Complete(m)], old(nodeHello))
      ensures notices == old(notices) + Notifications([Complete(m)], listeners)
    {
      if m.name == HelloName {
        nodeHello := Some(m);
      } else {
        FireMessageReceived(m);
      }
      assert [] + [Complete(m)] == [Complete(m)];
      LastHelloAppend([], Complete(m), old(nodeHello));
      NotificationsAppend([], Complete(m), listeners);
    }

    /**
     * One pass of the reader's loop body for a line that is not the end of
     * input: the first line names a new message; Data and EndMessage complete
     * the message; any other line goes into it or ends the loop.
     */
    method HandleLine(current: Option<Message>, rest: seq<byte>, line: string) returns (step: Step)
      modifies this`nodeHello, this`notices
      ensures step == StepLine(current, rest, line)
      ensures nodeHello == LastHello(Out(step), old(nodeHello))
      ensures notices == old(notices) + Notifications(Out(step), listeners)
    {
      if current.None? {
        return Continue(Some(NewMessage(line)), rest, None);
      }
      if line == DataMarker || line == EndMarker {
        step := CompleteLine(current.value, rest, line);
      } else {
        step := AddFieldLine(current.value, rest, line);
        assert Out(step) == [];
      }
    }

    /**
     * Data or EndMessage delivers the message, with its payload for Data, and
     * the reader is back to no message.
     */
    method CompleteLine(m: Message, rest: seq<byte>, line: string) returns (step: Step)
      requires line == DataMarker || line == EndMarker
      modifies this`nodeHello, this`notices
      ensures step == StepLine(Some(m), rest, line)
      ensures nodeHello == LastHello(Out(step), old(nodeHello))
      ensures notices == old(notices) + Notifications(Out(step), listeners)
    {
      if line == DataMarker {
        step := ReadPayload(m, rest);
        if step.Stop? {
          return;
        }
      } else {
        assert Classify(line) == EndLine;
        step := Continue(None, rest, Some(Complete(m)));
      }
      Deliver(step.out.value.message);
      assert Out(step) == [Complete(step.out.value.message)];
    }

    /**
     * Data reads DataLength and copies that many bytes from the byte stream
     * as the payload; a failed copy leaves the message without one.
     */
    method ReadPayload(m: Message, rest: seq<byte>) returns (step: Step)
      ensures step == StepLine(Some(m), rest, DataMarker)
      ensures step.Continue? ==> step.out.Some? && step.out.value == Complete(step.out.value.message)
    {
      assert Classify(DataMarker) == DataLine;
      var length := ParseLong(Lookup(m.fields, DataLengthKey));
      if length.None? {
        return Stop(BadDataLength);
      }
      var copied := Copy(rest, length.value);
      var message := m.(payload := copied.0);
      return Continue(None, copied.1, Some(Complete(message)));
    }

    /**
     * Any other line inside a message: split at the first '=', both halves
     * trimmed, it sets the identifier or puts a field; a whitespace-only line
     * is skipped; anything else ends the loop with that line as the error.
     */
    method AddFieldLine(m: Message, rest: seq<byte>, line: string) returns (step: Step)
      requires line != DataMarker && line != EndMarker
      ensures step == StepLine(Some(m), rest, line)
      ensures step.Continue? ==> step.out.None? && step.source == rest
    {
      var p := IndexOf(line, '=');
      if p > -1 {
        var key := Trim(line[..p]);
        var value := Trim(line[p + 1..]);
        assert Classify(line) == KeyValue(key, value);
        if key == IdentifierKey {
          return Continue(Some(m.(identifier := Some(value))), rest, None);
        }
        return Continue(Some(m.(fields := Put(m.fields, key, value))), rest, None);
      }
      if |Trim(line)| == 0 {
        assert Classify(line) == BlankLine;
        return Continue(Some(m), rest, None);
      }
      assert Classify(line) == BadLine;
      return Stop(UnexpectedLine(line));
    }

    /**
     * The reader thread's loop over the node's lines and raw bytes, as Decode
     * describes it: each completed message is stored as nodeHello when it is a
     * NodeHello, and otherwise dispatched to every listener, as it completes.
     */
    method ReadMessages(lines: seq<string>, source: seq<byte>) returns (ending: Ending)
      modifies this`nodeHello, this`notices
      ensures var d := Decode(lines, source);
        && ending == d.ending
        && nodeHello == LastHello(d.deliveries, old(nodeHello))
        && notices == old(notices) + Notifications(d.deliveries, listeners)
    {
      var i := 0;
      var current: Option<Message> := None;
      var rest := source;
      ghost var done: seq<Delivery> := [];
      ghost var target := Decode(lines, source);
      assert lines[0..] == lines;
      while true
        invariant 0 <= i <= |lines|
        invariant Joined(done, DecodeFrom(lines[i..], current, rest)) == target
        invariant nodeHello == LastHello(done, old(nodeHello))
        invariant notices == old(notices) + Notifications(done, listeners)
        decreases |lines| - i
      {
        if i == |lines| {
          LoopEnds(done, lines, current, rest, target);
          return EndOfInput;
        }
        var step := HandleLine(current, rest, lines[i]);
        if step.Stop? {
          LoopStops(done, lines, i, current, rest, target);
          return step.ending;
        }
        LoopAdvance(done, lines, i, current, rest, target, old(nodeHello), nodeHello, old(notices), notices, listeners);
        done := done + Out(step);
        i, current, rest := i + 1, step.current, step.source;
      }
    }

    /**
     * The reader thread's run: the loop, then closing the line stream and the
     * input stream, then disconnect. A DataLength that does not parse throws a
     * NumberFormatException, which the loop does not catch: the streams are
     * still closed, but run ends before disconnect.
     */
    method RunReader(lineStream: Handle, stream: Handle, lines: seq<string>, source: seq<byte>) returns (ending: Ending)
      modifies this
      ensures var d := Decode(lines, source);
        && ending == d.ending
        && nodeHello == LastHello(d.deliveries, old(nodeHello))
        && listeners == old(listeners) && wire == old(wire) && reader == old(reader)
        && (ending == BadDataLength ==>
              && notices == old(notices) + Notifications(d.deliveries, listeners)
              && closed == old(closed) + [lineStream, stream]
              && socket == old(socket) && input == old(input) && output == old(output) && writer == old(writer))
        && (ending != BadDataLength ==>
              && notices == old(notices) + Notifications(d.deliveries, listeners) + Terminated(listeners)
              && closed == old(closed) + [lineStream, stream] + old(OpenHandles())
              && socket == None && input == None && output == None && writer == None)
      ensures old(Valid()) ==> Valid()
    {
      ending := ReadMessages(lines, source);
      closed := closed + [lineStream, stream];
      if ending != BadDataLength {
        Disconnect();
      }
    }
  }
}
