/**
 * The session layer: a context owns a frame decoder and a serial device, keeps
 * an `opened` flag that guards every device operation, sends messages as
 * frames, and drains the device byte by byte, handing every decoder result to
 * the error or message callback.
 *
 * The device is not modelled: each operation takes the device's answer as a
 * parameter (the outcome of open, write and wait, and the script of answers to
 * the one-byte reads), and the calls made on it are recorded in `deviceCalls`.
 * Callback invocations are recorded in `events`. Message (de)serialisation is
 * the context's `deserialize` function and, on the sending side, the
 * serialiser's outcome passed to SendMessage.
 */
module Session {
  import opened Results
  import opened Codec
  import opened FrameDecoder

  /** The answer of the device to a one-byte read. */
  datatype ReadOutcome = Data(b: byte) | EndOfStream | ReadError(error: Error)

  /** The answer of the device to a write: the number of bytes written, or an error. */
  datatype WriteOutcome = Wrote(count: nat) | WriteError(error: Error)

  /** A call on the serial device. */
  datatype DeviceCall = DeviceOpen(path: string) | DeviceClose | DeviceWrite(bytes: seq<byte>) | DeviceRead | DeviceWait(timeoutMs: int)

  /** A callback invocation: error_cb with an error, or new_message_cb with a message. */
  datatype Event<M> = ErrorEvent(error: Error) | MessageEvent(msg: M)

  /** Which of the two callbacks are set (non-NULL). */
  datatype Callbacks = Callbacks(onMessage: bool, onError: bool)

  /** The events of smp_context_notify_error. */
  function ErrorNotice<M>(cbs: Callbacks, e: Error): seq<Event<M>> {
    if cbs.onError then [ErrorEvent(e)] else []
  }

  /** The events of smp_context_process_serial_frame for a completed frame. */
  function FrameNotice<M>(cbs: Callbacks, deserialize: seq<byte> -> Result<M>, frame: seq<byte>): (r: seq<Event<M>>)
    ensures |r| <= 1
    ensures deserialize(frame).Failure? ==> r == ErrorNotice(cbs, deserialize(frame).error)
    ensures deserialize(frame).Success? && cbs.onMessage ==> r == [MessageEvent(deserialize(frame).value)]
    ensures deserialize(frame).Success? && !cbs.onMessage ==> r == []
  {
    match deserialize(frame)
    case Failure(e) => ErrorNotice(cbs, e)
    case Success(m) => if cbs.onMessage then [MessageEvent(m)] else []
  }

  /** What the read loop of smp_context_process_fd does with one decoder result. */
  function Dispatch<M>(cbs: Callbacks, deserialize: seq<byte> -> Result<M>, out: Output): (r: seq<Event<M>>)
    ensures |r| <= 2
    // a notification is delivered only through a callback that is set
    ensures forall i :: 0 <= i < |r| && r[i].ErrorEvent? ==> cbs.onError
    ensures forall i :: 0 <= i < |r| && r[i].MessageEvent? ==>
      cbs.onMessage && out.frame.Some? && deserialize(out.frame.value) == Success(r[i].msg)
    // a decoder error is notified first
    ensures out.code.Err? && cbs.onError ==> |r| >= 1 && r[0] == ErrorEvent(out.code.error)
    // a byte that completes nothing and fails nothing is silent
    ensures out.code.Ok? && out.frame.None? ==> r == []
  {
    (if out.code.Err? then ErrorNotice(cbs, out.code.error) else [])
    + (if out.frame.Some? then FrameNotice(cbs, deserialize, out.frame.value) else [])
  }

  /** Dispatch of a sequence of decoder results, in order. */
  function DispatchAll<M>(cbs: Callbacks, deserialize: seq<byte> -> Result<M>, outs: seq<Output>): (r: seq<Event<M>>)
    ensures forall i :: 0 <= i < |r| && r[i].ErrorEvent? ==> cbs.onError
    ensures forall i :: 0 <= i < |r| && r[i].MessageEvent? ==> cbs.onMessage
    decreases |outs|
  {
    if outs == [] then [] else Dispatch(cbs, deserialize, outs[0]) + DispatchAll(cbs, deserialize, outs[1..])
  }

  /**
   * Per byte the decoder reports an error or a frame, never both, so every byte
   * read causes at most one notification: exactly one error notification for a
   * decoder error, exactly the frame's notification for a completed frame.
   */
  lemma OneNoticePerByte<M>(cbs: Callbacks, deserialize: seq<byte> -> Result<M>, v: DecoderView, capacity: nat, b: byte)
    ensures var t := Step(v, capacity, b);
      var ev := Dispatch(cbs, deserialize, t.out);
      && |ev| <= 1
      && (t.out.code.Err? ==> ev == ErrorNotice(cbs, t.out.code.error))
      && (t.out.frame.Some? ==> ev == FrameNotice(cbs, deserialize, t.out.frame.value))
  {
  }

  lemma {:induction false} DispatchAllAppend<M>(cbs: Callbacks, deserialize: seq<byte> -> Result<M>, a: seq<Output>, b: seq<Output>)
    ensures DispatchAll(cbs, deserialize, a + b) == DispatchAll(cbs, deserialize, a) + DispatchAll(cbs, deserialize, b)
    decreases |a|
  {
    if a == [] {
      assert a + b == b;
    } else {
      assert (a + b)[0] == a[0] && (a + b)[1..] == a[1..] + b;
      DispatchAllAppend(cbs, deserialize, a[1..], b);
    }
  }

  lemma {:induction false} DispatchAllQuiets<M>(cbs: Callbacks, deserialize: seq<byte> -> Result<M>, n: nat)
    ensures DispatchAll(cbs, deserialize, Quiets(n)) == []
  {
    if n > 0 {
      assert Quiets(n)[0] == Quiet && Quiets(n)[1..] == Quiets(n - 1);
      DispatchAllQuiets(cbs, deserialize, n - 1);
    }
  }

  /** Silent results followed by one result notify what that one result notifies. */
  lemma DispatchQuietsThen<M>(cbs: Callbacks, deserialize: seq<byte> -> Result<M>, n: nat, out: Output)
    ensures DispatchAll(cbs, deserialize, Quiets(n) + [out]) == Dispatch(cbs, deserialize, out)
  {
    DispatchAllAppend(cbs, deserialize, Quiets(n), [out]);
    DispatchAllQuiets(cbs, deserialize, n);
    assert [out][1..] == [];
    assert DispatchAll(cbs, deserialize, [out]) == Dispatch(cbs, deserialize, out) + [];
  }

  /** The bytes the device delivers before its first answer that is not a byte. */
  function DataPrefix(input: seq<ReadOutcome>): (r: seq<byte>)
    ensures |r| <= |input|
    ensures forall i :: 0 <= i < |r| ==> input[i] == Data(r[i])
    ensures |r| < |input| ==> !input[|r|].Data?
  {
    if input == [] || !input[0].Data? then [] else [input[0].b] + DataPrefix(input[1..])
  }

  /** The answer that ends the read loop; past the end of the script the device would block. */
  function StopOutcome(input: seq<ReadOutcome>): (o: ReadOutcome)
    ensures !o.Data?
  {
    var k := |DataPrefix(input)|;
    if k < |input| then input[k] else ReadError(WouldBlock)
  }

  /** What smp_context_process_fd returns for the answer that ends its loop. */
  function StatusOf(o: ReadOutcome): (s: Status)
    ensures s.Err? <==> o.ReadError? && o.error != WouldBlock
    ensures s.Err? ==> s.error == o.error
  {
    match o
    case ReadError(e) => if e == WouldBlock then Ok else Err(e)
    case _ => Ok
  }

  /** A byte stream as the device delivers it, one read per byte. */
  function ToReads(bytes: seq<byte>): (r: seq<ReadOutcome>)
    ensures |r| == |bytes|
    ensures forall i :: 0 <= i < |r| ==> r[i] == Data(bytes[i])
  {
    if bytes == [] then [] else [Data(bytes[0])] + ToReads(bytes[1..])
  }

  /** The result of draining the device: final decoder, callbacks made, return value, reads made. */
  datatype Reception<M> = Reception(decoder: DecoderView, events: seq<Event<M>>, status: Status, readCount: nat)

  /**
   * The read loop of smp_context_process_fd over a script of device answers:
   * a byte goes through the decoder and its result is dispatched; WOULD_BLOCK
   * and a 0-byte read end the loop with 0; any other read error is returned.
   */
  function Receive<M>(cbs: Callbacks, deserialize: seq<byte> -> Result<M>, v: DecoderView, capacity: nat,
                      input: seq<ReadOutcome>): (r: Reception<M>)
    ensures 1 <= r.readCount <= |input| + 1
    ensures r.status.Err? ==> r.status.error != WouldBlock
    decreases |input|
  {
    if input == [] then Reception(v, [], Ok, 1)
    else
      match input[0]
      case EndOfStream => Reception(v, [], Ok, 1)
      case ReadError(e) => Reception(v, [], if e == WouldBlock then Ok else Err(e), 1)
      case Data(b) =>
        var t := Step(v, capacity, b);
        var rest := Receive(cbs, deserialize, t.next, capacity, input[1..]);
        Reception(rest.decoder, Dispatch(cbs, deserialize, t.out) + rest.events, rest.status, rest.readCount + 1)
  }

  /** One turn of the read loop, at position i of the script. */
  lemma ReceiveAt<M>(cbs: Callbacks, deserialize: seq<byte> -> Result<M>, v: DecoderView, capacity: nat,
                     input: seq<ReadOutcome>, i: nat)
    requires i <= |input|
    ensures i < |input| && input[i].Data? ==>
      var t := Step(v, capacity, input[i].b);
      var rest := Receive(cbs, deserialize, t.next, capacity, input[i + 1..]);
      Receive(cbs, deserialize, v, capacity, input[i..])
      == Reception(rest.decoder, Dispatch(cbs, deserialize, t.out) + rest.events, rest.status, rest.readCount + 1)
    ensures i == |input| ==> Receive(cbs, deserialize, v, capacity, input[i..]) == Reception(v, [], Ok, 1)
    ensures i < |input| && !input[i].Data? ==>
      Receive(cbs, deserialize, v, capacity, input[i..]) == Reception(v, [], StatusOf(input[i]), 1)
  {
    if i < |input| {
      assert input[i..][0] == input[i] && input[i..][1..] == input[i + 1..];
    } else {
      assert input[i..] == [];
    }
  }

  /**
   * Draining the device is feeding the decoder the bytes read before the first
   * non-byte answer, dispatching each result, and returning that answer's status.
   */
  lemma {:induction false} ReceiveIsFeed<M>(cbs: Callbacks, deserialize: seq<byte> -> Result<M>, v: DecoderView,
                                            capacity: nat, input: seq<ReadOutcome>)
    ensures var bytes := DataPrefix(input);
      var run := Feed(v, capacity, bytes);
      Receive(cbs, deserialize, v, capacity, input)
      == Reception(run.last, DispatchAll(cbs, deserialize, run.outs), StatusOf(StopOutcome(input)), |bytes| + 1)
    decreases |input|
  {
    if input != [] && input[0].Data? {
      var tail := input[1..];
      var t := Step(v, capacity, input[0].b);
      ReceiveIsFeed(cbs, deserialize, t.next, capacity, tail);
      var bytes := DataPrefix(input);
      assert bytes == [input[0].b] + DataPrefix(tail);
      assert bytes[0] == input[0].b && bytes[1..] == DataPrefix(tail);
      var run := Feed(t.next, capacity, DataPrefix(tail));
      assert Feed(v, capacity, bytes) == Run(run.last, [t.out] + run.outs);
      assert ([t.out] + run.outs)[0] == t.out && ([t.out] + run.outs)[1..] == run.outs;
      assert StopOutcome(input) == StopOutcome(tail);
    } else {
      assert DataPrefix(input) == [];
      assert Feed(v, capacity, []) == Run(v, []);
    }
  }

  lemma {:induction false} DataPrefixOfReads(bytes: seq<byte>, stop: ReadOutcome)
    requires !stop.Data?
    ensures DataPrefix(ToReads(bytes) + [stop]) == bytes
    ensures StopOutcome(ToReads(bytes) + [stop]) == stop
    decreases |bytes|
  {
    var input := ToReads(bytes) + [stop];
    if bytes != [] {
      assert input[0] == Data(bytes[0]);
      assert input[1..] == ToReads(bytes[1..]) + [stop];
      DataPrefixOfReads(bytes[1..], stop);
      assert bytes == [bytes[0]] + bytes[1..];
    } else {
      assert input == [stop];
    }
  }

  /**
   * End to end: a context decoder in WAIT_HEADER that reads the wire image of p
   * and then any answer other than a byte ends in WAIT_HEADER, notifies exactly
   * what the frame p calls for (its message, or the deserialisation error) and
   * nothing else, and returns the status of the final answer.
   */
  lemma ReceiveFrame<M>(cbs: Callbacks, deserialize: seq<byte> -> Result<M>, stale: seq<byte>, overflowed: bool,
                        capacity: nat, p: seq<byte>, stop: ReadOutcome)
    requires |p| + 1 <= capacity && !stop.Data?
    ensures Receive(cbs, deserialize, DecoderView(WaitHeader, stale, overflowed), capacity, ToReads(Frame(p)) + [stop])
         == Reception(DecoderView(WaitHeader, p + [Checksum(p)], false), FrameNotice(cbs, deserialize, p),
                      StatusOf(stop), |Frame(p)| + 1)
  {
    var v := DecoderView(WaitHeader, stale, overflowed);
    var delivered := Output(Ok, Some(p));
    var n := |Frame(p)| - 1;
    DataPrefixOfReads(Frame(p), stop);
    ReceiveIsFeed(cbs, deserialize, v, capacity, ToReads(Frame(p)) + [stop]);
    RoundTrip(stale, overflowed, capacity, p);
    DispatchQuietsThen(cbs, deserialize, n, delivered);
  }

  /** What smp_context_send_message returns for the device's answer to writing `size` bytes. */
  function WriteStatus(w: WriteOutcome, size: nat): (s: Status)
    ensures s == Ok <==> w == Wrote(size)
    ensures w.WriteError? ==> s == Err(w.error)
    ensures w.Wrote? && w.count != size ==> s == Err(IO)
  {
    match w
    case WriteError(e) => Err(e)
    case Wrote(n) => if n != size then Err(IO) else Ok
  }

  /** n read calls. */
  function Reads(n: nat): (r: seq<DeviceCall>)
    ensures |r| == n
  {
    if n == 0 then [] else Reads(n - 1) + [DeviceRead]
  }

  /** SmpContext. */
  class Context<M> {
    const decoder: Decoder
    const cbs: Callbacks
    const deserialize: seq<byte> -> Result<M>
    var isOpen: bool
    /** Callback invocations, oldest first. */
    var events: seq<Event<M>>
    /** Calls made on the serial device, oldest first. */
    var deviceCalls: seq<DeviceCall>

    ghost predicate Valid()
      reads this, decoder
    {
      decoder.Valid()
    }

    /** smp_context_new: closed, with a decoder of the default buffer size. */
    constructor New(cbs: Callbacks, deserialize: seq<byte> -> Result<M>)
      ensures Valid() && fresh(decoder) && fresh(decoder.buf)
      ensures this.cbs == cbs && this.deserialize == deserialize
      ensures !isOpen && events == [] && deviceCalls == []
      ensures decoder.state == WaitHeader && !decoder.overflowed && decoder.buf.Length == DEFAULT_BUFFER_SIZE
    {
      decoder := new Decoder.New(0);
      this.cbs := cbs;
      this.deserialize := deserialize;
      isOpen := false;
      events := [];
      deviceCalls := [];
    }

    /** smp_context_open; `deviceOpen` is what the device's open reports. */
    method Open(device: string, deviceOpen: Status) returns (r: Status)
      modifies this`isOpen, this`deviceCalls
      ensures old(isOpen) ==> r == Err(Busy) && isOpen && deviceCalls == old(deviceCalls)
      ensures !old(isOpen) ==>
        r == deviceOpen && isOpen == deviceOpen.Ok? && deviceCalls == old(deviceCalls) + [DeviceOpen(device)]
    {
      if isOpen {
        return Err(Busy);
      }
      deviceCalls := deviceCalls + [DeviceOpen(device)];
      if deviceOpen.Err? {
        return deviceOpen;
      }
      isOpen := true;
      r := Ok;
    }

    /** smp_context_close: closes the device only if it is open. */
    method Close()
      modifies this`isOpen, this`deviceCalls
      ensures !isOpen
      ensures deviceCalls == old(deviceCalls) + (if old(isOpen) then [DeviceClose] else [])
    {
      if !isOpen {
        return;
      }
      deviceCalls := deviceCalls + [DeviceClose];
      isOpen := false;
    }

    /** smp_context_notify_error. */
    method NotifyError(e: Error)
      modifies this`events
      ensures events == old(events) + ErrorNotice(cbs, e)
    {
      if cbs.onError {
        events := events + [ErrorEvent(e)];
      }
    }

    /** smp_context_notify_new_message. */
    method NotifyNewMessage(msg: M)
      modifies this`events
      ensures events == old(events) + (if cbs.onMessage then [MessageEvent(msg)] else [])
    {
      if cbs.onMessage {
        events := events + [MessageEvent(msg)];
      }
    }

    /** smp_context_process_serial_frame. */
    method ProcessSerialFrame(frame: seq<byte>)
      modifies this`events
      ensures events == old(events) + FrameNotice(cbs, deserialize, frame)
    {
      var msg := deserialize(frame);
      if msg.Failure? {
        NotifyError(msg.error);
        return;
      }
      NotifyNewMessage(msg.value);
    }

    /**
     * smp_context_send_message. `serialized` is the outcome of serialising the
     * message; `written` is the device's answer to the write of the frame.
     */
    method SendMessage(serialized: Result<seq<byte>>, written: WriteOutcome) returns (r: Status)
      modifies this`deviceCalls
      ensures !isOpen ==> r == Err(BadFd) && deviceCalls == old(deviceCalls)
      ensures isOpen && serialized.Failure? ==> r == Err(serialized.error) && deviceCalls == old(deviceCalls)
      ensures isOpen && serialized.Success? ==>
        && deviceCalls == old(deviceCalls) + [DeviceWrite(Frame(serialized.value))]
        && r == WriteStatus(written, |Frame(serialized.value)|)
    {
      if !isOpen {
        return Err(BadFd);
      }
      if serialized.Failure? {
        return Err(serialized.error);
      }
      var payload := serialized.value;
      var msgbuf := new byte[|payload|](i requires 0 <= i < |payload| => payload[i]);
      assert msgbuf[..] == payload;
      var encoded, txbuf := Encode(msgbuf, null);
      var wire := txbuf[..encoded.value];
      deviceCalls := deviceCalls + [DeviceWrite(wire)];
      match written
      case WriteError(e) =>
        r := Err(e);
      case Wrote(n) =>
        if n != encoded.value {
          r := Err(IO);
        } else {
          r := Ok;
        }
    }

    /**
     * smp_context_process_fd over the device answers `input`: the loop stops
     * at the first answer that is not a byte, and the decoder, the callbacks
     * and the return value are those of Receive.
     */
    method ProcessFd(input: seq<ReadOutcome>) returns (r: Status)
      requires Valid()
      modifies this`events, this`deviceCalls, decoder, decoder.buf
      ensures Valid()
      ensures !old(isOpen) ==>
        && r == Err(BadFd) && events == old(events) && deviceCalls == old(deviceCalls)
        && decoder.View() == old(decoder.View())
      ensures old(isOpen) ==>
        var rec := Receive(cbs, deserialize, old(decoder.View()), decoder.buf.Length, input);
        && r == rec.status && decoder.View() == rec.decoder
        && events == old(events) + rec.events
        && deviceCalls == old(deviceCalls) + Reads(rec.readCount)
    {
      if !isOpen {
        return Err(BadFd);
      }
      ghost var start := decoder.View();
      ghost var acc: seq<Event<M>> := [];
      var i := 0;
      while true
        invariant Valid() && i <= |input|
        invariant events == old(events) + acc
        invariant deviceCalls == old(deviceCalls) + Reads(i)
        invariant var rest := Receive(cbs, deserialize, decoder.View(), decoder.buf.Length, input[i..]);
          Receive(cbs, deserialize, start, decoder.buf.Length, input)
          == Reception(rest.decoder, acc + rest.events, rest.status, i + rest.readCount)
        decreases |input| - i
      {
        var outcome := if i < |input| then input[i] else ReadError(WouldBlock);
        deviceCalls := deviceCalls + [DeviceRead];
        ConcatAssoc(old(deviceCalls), Reads(i), [DeviceRead]);
        ReceiveAt(cbs, deserialize, decoder.View(), decoder.buf.Length, input, i);
        if !outcome.Data? {
          assert acc + [] == acc;
          return StatusOf(outcome);
        }
        ghost var capacity := decoder.buf.Length;
        ghost var t := Step(decoder.View(), capacity, outcome.b);
        ghost var dispatched := Dispatch(cbs, deserialize, t.out);
        ghost var rest := Receive(cbs, deserialize, t.next, capacity, input[i + 1..]);
        ConcatAssoc(acc, dispatched, rest.events);
        assert Receive(cbs, deserialize, start, capacity, input)
            == Reception(rest.decoder, (acc + dispatched) + rest.events, rest.status, (i + 1) + rest.readCount);
        ProcessByte(outcome.b);
        ConcatAssoc(old(events), acc, dispatched);
        acc := acc + dispatched;
        i := i + 1;
      }
    }

    /** One turn of the loop of smp_context_process_fd: decode a byte and dispatch the result. */
    method ProcessByte(b: byte)
      requires Valid()
      modifies this`events, decoder, decoder.buf
      ensures Valid()
      ensures var t := Step(old(decoder.View()), decoder.buf.Length, b);
        decoder.View() == t.next && events == old(events) + Dispatch(cbs, deserialize, t.out)
    {
      var code, frame, framesize := decoder.ProcessByte(b);
      if code.Err? {
        NotifyError(code.error);
      }
      if frame {
        ProcessSerialFrame(decoder.buf[..framesize]);
      }
    }

    /**
     * smp_context_wait_and_process: `ready` is what the device's wait reports;
     * on success the device is drained as by ProcessFd.
     */
    method WaitAndProcess(timeoutMs: int, ready: Status, input: seq<ReadOutcome>) returns (r: Status)
      requires Valid()
      modifies this`events, this`deviceCalls, decoder, decoder.buf
      ensures Valid()
      ensures !old(isOpen) ==>
        && r == Err(BadFd) && events == old(events) && deviceCalls == old(deviceCalls)
        && decoder.View() == old(decoder.View())
      ensures old(isOpen) && ready.Err? ==>
        && r == ready && events == old(events) && deviceCalls == old(deviceCalls) + [DeviceWait(timeoutMs)]
        && decoder.View() == old(decoder.View())
      ensures old(isOpen) && ready.Ok? ==>
        var rec := Receive(cbs, deserialize, old(decoder.View()), decoder.buf.Length, input);
        && r == rec.status && decoder.View() == rec.decoder
        && events == old(events) + rec.events
        && deviceCalls == old(deviceCalls) + [DeviceWait(timeoutMs)] + Reads(rec.readCount)
    {
      if !isOpen {
        return Err(BadFd);
      }
      deviceCalls := deviceCalls + [DeviceWait(timeoutMs)];
      if ready.Err? {
        return ready;
      }
      r := ProcessFd(input);
    }
  }
}
