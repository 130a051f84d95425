/**
 * The incremental frame decoder of the serial protocol: a three-state machine
 * over a bounded buffer, fed one byte at a time. `Step` is the specification of
 * one call of process_byte, corrected in two places (see StepAsWritten, which
 * is the function as written); `Feed` runs it over a byte stream. The class
 * `Decoder` is the in-place implementation, proved to follow `Step`.
 */
module FrameDecoder {
  import opened Results
  import opened Codec

  /** Buffer size used when the caller asks for 0. */
  const DEFAULT_BUFFER_SIZE: nat := 1024

  datatype DecoderState = WaitHeader | InFrame | InFrameEsc

  /**
   * What a decoder holds: its state, the accumulated bytes `buf[..offset]`, and
   * whether a byte of the current frame was dropped for lack of room. The last
   * exists only in the corrected decoder; StepAsWritten carries it untouched.
   */
  datatype DecoderView = DecoderView(state: DecoderState, data: seq<byte>, overflowed: bool)

  /** What one call of process_byte reports: its return code and the completed frame, if any. */
  datatype Output = Output(code: Status, frame: Option<seq<byte>>)

  /** A byte that is consumed without any report. */
  const Quiet := Output(Ok, None)

  datatype Transition = Transition(next: DecoderView, out: Output)

  /** Store a data byte, or report TOO_BIG and remember the loss when the buffer is full. */
  function Append(v: DecoderView, capacity: nat, b: byte): Transition {
    if |v.data| >= capacity then Transition(DecoderView(InFrame, v.data, true), Output(Err(TooBig), None))
    else Transition(DecoderView(InFrame, v.data + [b], v.overflowed), Quiet)
  }

  /**
   * One byte through the corrected decoder. It differs from StepAsWritten in two
   * places: an escaped byte that does not fit returns the decoder to IN_FRAME,
   * and END rejects a frame one of whose bytes was dropped.
   */
  function Step(v: DecoderView, capacity: nat, b: byte): (t: Transition)
    // offset never exceeds bufsize
    ensures |v.data| <= capacity ==> |t.next.data| <= capacity
    // outside a frame only START matters, and nothing is ever reported
    ensures v.state == WaitHeader ==>
      t.out == Quiet && t.next == (if b == START then DecoderView(InFrame, [], false) else v)
    // a START inside a frame restarts the frame and reports the aborted one
    ensures v.state == InFrame && b == START ==>
      t == Transition(DecoderView(InFrame, [], false), Output(Err(BadMessage), None))
    // END always closes the frame; the frame is delivered exactly when no byte of
    // it was dropped and the last buffered byte is the checksum of the ones before it
    ensures v.state == InFrame && b == END ==> t.next == DecoderView(WaitHeader, v.data, false)
    ensures t.out.frame.Some? <==>
      && v.state == InFrame && b == END && !v.overflowed
      && |v.data| >= 1 && Checksum(v.data[..|v.data| - 1]) == v.data[|v.data| - 1]
    ensures t.out.frame.Some? ==>
      t.out.code == Ok && v.data == t.out.frame.value + [Checksum(t.out.frame.value)]
    ensures v.state == InFrame && b == END && t.out.frame.None? ==> t.out.code == Err(BadMessage)
    // overflow: reported for a byte to be stored when the buffer is full; nothing is stored
    ensures t.out.code == Err(TooBig) <==>
      v.state != WaitHeader && |v.data| >= capacity && (v.state == InFrameEsc || !IsMagic(b))
    ensures t.out.code == Err(TooBig) ==> t.next == DecoderView(InFrame, v.data, true)
    // the overflow memory is set by TOO_BIG, cleared when a frame starts or ends, and kept otherwise
    ensures t.next.overflowed <==>
      || t.out.code == Err(TooBig)
      || (v.overflowed && !(b == START && v.state != InFrameEsc) && !(b == END && v.state == InFrame))
    ensures t.out.code.Err? ==> t.out.code.error == TooBig || t.out.code.error == BadMessage
  {
    match v.state
    case WaitHeader =>
      if b == START then Transition(DecoderView(InFrame, [], false), Quiet) else Transition(v, Quiet)
    case InFrame =>
      if b == START then
        Transition(DecoderView(InFrame, [], false), Output(Err(BadMessage), None))
      else if b == ESC then
        Transition(DecoderView(InFrameEsc, v.data, v.overflowed), Quiet)
      else if b == END then
        var closed := DecoderView(WaitHeader, v.data, false);
        if v.overflowed || |v.data| < 1 then
          Transition(closed, Output(Err(BadMessage), None))
        else
          var payload := v.data[..|v.data| - 1];
          if Checksum(payload) != v.data[|v.data| - 1] then
            Transition(closed, Output(Err(BadMessage), None))
          else
            Transition(closed, Output(Ok, Some(payload)))
      else
        Append(v, capacity, b)
    case InFrameEsc =>
      Append(v, capacity, b)
  }

  /**
   * process_byte as written. It has no overflow memory (the flag is carried
   * along untouched), so END accepts whatever the buffer holds when its last
   * byte is the checksum of the rest, even after bytes were dropped; and an
   * escaped byte that does not fit leaves the decoder in IN_FRAME_ESC.
   */
  function StepAsWritten(v: DecoderView, capacity: nat, b: byte): (t: Transition)
    ensures |v.data| <= capacity ==> |t.next.data| <= capacity
    ensures t.next.overflowed == v.overflowed
    ensures t.out.frame.Some? <==>
      v.state == InFrame && b == END && |v.data| >= 1 && Checksum(v.data[..|v.data| - 1]) == v.data[|v.data| - 1]
    ensures t.out.frame.Some? ==> t.out.code == Ok && v.data == t.out.frame.value + [Checksum(t.out.frame.value)]
    ensures v.state == InFrameEsc && |v.data| >= capacity ==> t == Transition(v, Output(Err(TooBig), None))
  {
    match v.state
    case WaitHeader =>
      if b == START then Transition(v.(state := InFrame, data := []), Quiet) else Transition(v, Quiet)
    case InFrame =>
      if b == START then
        Transition(v.(data := []), Output(Err(BadMessage), None))
      else if b == ESC then
        Transition(v.(state := InFrameEsc), Quiet)
      else if b == END then
        var closed := v.(state := WaitHeader);
        if |v.data| < 1 then
          Transition(closed, Output(Err(BadMessage), None))
        else
          var payload := v.data[..|v.data| - 1];
          if Checksum(payload) != v.data[|v.data| - 1] then
            Transition(closed, Output(Err(BadMessage), None))
          else
            Transition(closed, Output(Ok, Some(payload)))
      else if |v.data| >= capacity then
        Transition(v, Output(Err(TooBig), None))
      else
        Transition(v.(data := v.data + [b]), Quiet)
    case InFrameEsc =>
      if |v.data| >= capacity then Transition(v, Output(Err(TooBig), None))
      else Transition(v.(state := InFrame, data := v.data + [b]), Quiet)
  }

  /** The outcome of feeding a stream: the final decoder and one output per byte. */
  datatype Run = Run(last: DecoderView, outs: seq<Output>)

  function Feed(v: DecoderView, capacity: nat, bytes: seq<byte>): (r: Run)
    ensures |r.outs| == |bytes|
    ensures |v.data| <= capacity ==> |r.last.data| <= capacity
    decreases |bytes|
  {
    if bytes == [] then Run(v, [])
    else
      var t := Step(v, capacity, bytes[0]);
      var rest := Feed(t.next, capacity, bytes[1..]);
      Run(rest.last, [t.out] + rest.outs)
  }

  function FeedAsWritten(v: DecoderView, capacity: nat, bytes: seq<byte>): (r: Run)
    ensures |r.outs| == |bytes|
    ensures |v.data| <= capacity ==> |r.last.data| <= capacity
    decreases |bytes|
  {
    if bytes == [] then Run(v, [])
    else
      var t := StepAsWritten(v, capacity, bytes[0]);
      var rest := FeedAsWritten(t.next, capacity, bytes[1..]);
      Run(rest.last, [t.out] + rest.outs)
  }

  /** n outputs with no code other than OK and no frame. */
  function Quiets(n: nat): (r: seq<Output>)
    ensures |r| == n
  {
    if n == 0 then [] else [Quiet] + Quiets(n - 1)
  }

  lemma {:induction false} QuietsAdd(a: nat, b: nat)
    ensures Quiets(a) + Quiets(b) == Quiets(a + b)
  {
    if a == 0 {
      assert Quiets(a) + Quiets(b) == Quiets(b);
    } else {
      QuietsAdd(a - 1, b);
      assert Quiets(a) + Quiets(b) == [Quiet] + (Quiets(a - 1) + Quiets(b));
    }
  }

  lemma {:induction false} QuietsAreQuiet(n: nat)
    ensures forall i :: 0 <= i < n ==> Quiets(n)[i] == Quiet
  {
    if n > 0 {
      QuietsAreQuiet(n - 1);
      assert forall i :: 1 <= i < n ==> Quiets(n)[i] == Quiets(n - 1)[i - 1];
    }
  }

  /** No output of the run carries a completed frame. */
  ghost predicate NoFrame(outs: seq<Output>) {
    forall i :: 0 <= i < |outs| ==> outs[i].frame.None?
  }

  lemma NoFrameAppend(a: seq<Output>, b: seq<Output>)
    ensures NoFrame(a + b) <==> NoFrame(a) && NoFrame(b)
  {
    if NoFrame(a) && NoFrame(b) {
      forall i | 0 <= i < |a + b| ensures (a + b)[i].frame.None? {
        if i >= |a| {
          assert (a + b)[i] == b[i - |a|];
        }
      }
    }
    if NoFrame(a + b) {
      forall i | 0 <= i < |a| ensures a[i].frame.None? {
        assert (a + b)[i] == a[i];
      }
      forall i | 0 <= i < |b| ensures b[i].frame.None? {
        assert (a + b)[|a| + i] == b[i];
      }
    }
  }

  lemma NoFrameQuiets(n: nat)
    ensures NoFrame(Quiets(n))
  {
    QuietsAreQuiet(n);
  }

  lemma ConcatAssoc<T>(a: seq<T>, b: seq<T>, c: seq<T>)
    ensures a + (b + c) == (a + b) + c
  {
  }

  /** Feeding a stream in two pieces is feeding it whole. */
  lemma {:induction false} FeedAppend(v: DecoderView, capacity: nat, a: seq<byte>, b: seq<byte>)
    ensures Feed(v, capacity, a + b)
         == var r := Feed(v, capacity, a);
            var s := Feed(r.last, capacity, b);
            Run(s.last, r.outs + s.outs)
    decreases |a|
  {
    if a == [] {
      assert a + b == b;
    } else {
      assert (a + b)[0] == a[0] && (a + b)[1..] == a[1..] + b;
      var t := Step(v, capacity, a[0]);
      FeedAppend(t.next, capacity, a[1..], b);
      var r := Feed(t.next, capacity, a[1..]);
      var s := Feed(r.last, capacity, b);
      assert [t.out] + (r.outs + s.outs) == ([t.out] + r.outs) + s.outs;
    }
  }

  /** One stuffed byte inside a frame with room for it is stored, silently. */
  lemma StuffedByteIsStored(data: seq<byte>, overflowed: bool, capacity: nat, x: byte)
    requires |data| < capacity
    ensures Feed(DecoderView(InFrame, data, overflowed), capacity, Stuff(x))
         == Run(DecoderView(InFrame, data + [x], overflowed), Quiets(|Stuff(x)|))
  {
    var v := DecoderView(InFrame, data, overflowed);
    var stored := DecoderView(InFrame, data + [x], overflowed);
    assert Feed(stored, capacity, []) == Run(stored, []);
    assert Quiets(1) == [Quiet];
    if IsMagic(x) {
      var t := Step(v, capacity, ESC);
      assert t == Transition(DecoderView(InFrameEsc, data, overflowed), Quiet);
      assert Step(t.next, capacity, x) == Transition(stored, Quiet);
      assert [x][1..] == [];
      assert Feed(t.next, capacity, [x]) == Run(stored, [Quiet]);
      assert Stuff(x) == [ESC, x] && [ESC, x][1..] == [x];
      assert Quiets(2) == [Quiet, Quiet];
    } else {
      assert Step(v, capacity, x) == Transition(stored, Quiet);
      assert Stuff(x) == [x] && [x][1..] == [];
    }
  }

  /**
   * One stuffed byte inside a full frame is dropped: its escape, if any, is
   * silent, the byte itself is TOO_BIG, and the loss is remembered.
   */
  lemma StuffedByteOverflows(data: seq<byte>, overflowed: bool, capacity: nat, x: byte)
    requires |data| >= capacity
    ensures Feed(DecoderView(InFrame, data, overflowed), capacity, Stuff(x))
         == Run(DecoderView(InFrame, data, true), Quiets(|Stuff(x)| - 1) + [Output(Err(TooBig), None)])
  {
    var v := DecoderView(InFrame, data, overflowed);
    var dropped := DecoderView(InFrame, data, true);
    var tooBig := Output(Err(TooBig), None);
    assert Feed(dropped, capacity, []) == Run(dropped, []);
    assert Quiets(1) == [Quiet];
    if IsMagic(x) {
      var t := Step(v, capacity, ESC);
      assert t == Transition(DecoderView(InFrameEsc, data, overflowed), Quiet);
      assert Step(t.next, capacity, x) == Transition(dropped, tooBig);
      assert [x][1..] == [];
      assert Feed(t.next, capacity, [x]) == Run(dropped, [tooBig]);
      assert Stuff(x) == [ESC, x] && [ESC, x][1..] == [x];
    } else {
      assert Step(v, capacity, x) == Transition(dropped, tooBig);
      assert Stuff(x) == [x] && [x][1..] == [];
    }
  }

  lemma SplitLast(data: seq<byte>, p: seq<byte>)
    requires p != []
    ensures data + p == data + p[..|p| - 1] + [p[|p| - 1]]
  {
    assert p == p[..|p| - 1] + [p[|p| - 1]];
  }

  /** A stuffed payload that fits is accumulated byte for byte, silently. */
  lemma {:induction false} StuffedPayloadIsStored(data: seq<byte>, overflowed: bool, capacity: nat, p: seq<byte>)
    requires |data| + |p| <= capacity
    ensures Feed(DecoderView(InFrame, data, overflowed), capacity, StuffAll(p))
         == Run(DecoderView(InFrame, data + p, overflowed), Quiets(|StuffAll(p)|))
    decreases |p|
  {
    if p == [] {
      assert data + p == data;
    } else {
      var init, x := p[..|p| - 1], p[|p| - 1];
      var v := DecoderView(InFrame, data, overflowed);
      var mid := DecoderView(InFrame, data + init, overflowed);
      assert StuffAll(p) == StuffAll(init) + Stuff(x);
      FeedAppend(v, capacity, StuffAll(init), Stuff(x));
      StuffedPayloadIsStored(data, overflowed, capacity, init);
      assert Feed(v, capacity, StuffAll(init)) == Run(mid, Quiets(|StuffAll(init)|));
      StuffedByteIsStored(data + init, overflowed, capacity, x);
      SplitLast(data, p);
      assert Feed(mid, capacity, Stuff(x)) == Run(DecoderView(InFrame, data + p, overflowed), Quiets(|Stuff(x)|));
      QuietsAdd(|StuffAll(init)|, |Stuff(x)|);
    }
  }

  /**
   * Any stuffed payload inside a frame: the buffer keeps what fits, the decoder
   * stays IN_FRAME, it remembers a loss exactly when the payload did not fit,
   * and no frame is reported.
   */
  lemma {:induction false} StuffedPayloadInFrame(data: seq<byte>, overflowed: bool, capacity: nat, p: seq<byte>)
    requires |data| <= capacity
    ensures var r := Feed(DecoderView(InFrame, data, overflowed), capacity, StuffAll(p));
      && r.last.state == InFrame
      && |r.last.data| == (if |data| + |p| <= capacity then |data| + |p| else capacity)
      && (r.last.overflowed <==> overflowed || |data| + |p| > capacity)
      && NoFrame(r.outs)
    decreases |p|
  {
    if p != [] {
      var init, x := p[..|p| - 1], p[|p| - 1];
      assert StuffAll(p) == StuffAll(init) + Stuff(x);
      var v := DecoderView(InFrame, data, overflowed);
      FeedAppend(v, capacity, StuffAll(init), Stuff(x));
      StuffedPayloadInFrame(data, overflowed, capacity, init);
      var r1 := Feed(v, capacity, StuffAll(init));
      var mid := DecoderView(InFrame, r1.last.data, r1.last.overflowed);
      assert r1.last == mid;
      if |r1.last.data| < capacity {
        StuffedByteIsStored(r1.last.data, r1.last.overflowed, capacity, x);
        NoFrameQuiets(|Stuff(x)|);
      } else {
        StuffedByteOverflows(r1.last.data, r1.last.overflowed, capacity, x);
        NoFrameQuiets(|Stuff(x)| - 1);
        NoFrameAppend(Quiets(|Stuff(x)| - 1), [Output(Err(TooBig), None)]);
      }
      NoFrameAppend(r1.outs, Feed(mid, capacity, Stuff(x)).outs);
    }
  }

  /** START, the stuffed bytes of q, the stuffed byte cs, END: the layout of a wire image. */
  lemma StuffedLayout(q: seq<byte>, cs: byte)
    ensures [START] + StuffAll(q) + Stuff(cs) + [END] == [START] + (StuffAll(q + [cs]) + [END])
  {
    var r := q + [cs];
    assert r[..|r| - 1] == q && r[|r| - 1] == cs;
    assert StuffAll(r) == StuffAll(q) + Stuff(cs);
    ConcatAssoc([START], StuffAll(q), Stuff(cs));
    ConcatAssoc([START], StuffAll(q) + Stuff(cs), [END]);
  }

  /** Feeding a stream that begins with START is one step on it, then the rest. */
  lemma FeedStart(v: DecoderView, capacity: nat, rest: seq<byte>)
    ensures var t := Step(v, capacity, START);
      var r := Feed(t.next, capacity, rest);
      Feed(v, capacity, [START] + rest) == Run(r.last, [t.out] + r.outs)
  {
    assert ([START] + rest)[0] == START && ([START] + rest)[1..] == rest;
  }

  /** The wire image is START, the stuffed payload-plus-checksum, END. */
  lemma FrameLayout(p: seq<byte>)
    ensures Frame(p) == [START] + (StuffAll(p + [Checksum(p)]) + [END])
  {
    assert (p + [Checksum(p)])[..|p|] == p;
  }

  /** What END reports for a buffer holding q and then the claimed checksum cs, with nothing dropped. */
  function Verdict(q: seq<byte>, cs: byte): Output {
    if Checksum(q) == cs then Output(Ok, Some(q)) else Output(Err(BadMessage), None)
  }

  /**
   * From an empty open frame, the stuffed bytes of q and of a claimed checksum
   * cs, then END: all silent until the END, which delivers q exactly when cs is
   * the checksum of q and reports BAD_MESSAGE otherwise.
   */
  lemma BodyAfterStart(q: seq<byte>, cs: byte, capacity: nat)
    requires |q| + 1 <= capacity
    ensures var body := StuffAll(q + [cs]);
      Feed(DecoderView(InFrame, [], false), capacity, body + [END])
      == Run(DecoderView(WaitHeader, q + [cs], false),
             Quiets(|body|) + [Verdict(q, cs)])
  {
    var body := q + [cs];
    var open := DecoderView(InFrame, [], false);
    FeedAppend(open, capacity, StuffAll(body), [END]);
    StuffedPayloadIsStored([], false, capacity, body);
    assert [] + body == body;
    assert body[..|body| - 1] == q;
    var r1 := Feed(open, capacity, StuffAll(body));
    var closed := DecoderView(WaitHeader, body, false);
    assert r1.last == DecoderView(InFrame, body, false);
    assert Step(r1.last, capacity, END) == Transition(closed, Verdict(q, cs));
    assert Feed(r1.last, capacity, [END]) == Run(closed, [Verdict(q, cs)]);
  }

  /** Feeding Frame(p) is one step on its START, then the rest of the wire image. */
  lemma FeedFrame(v: DecoderView, capacity: nat, p: seq<byte>)
    ensures var t := Step(v, capacity, START);
      var r := Feed(t.next, capacity, StuffAll(p + [Checksum(p)]) + [END]);
      Feed(v, capacity, Frame(p)) == Run(r.last, [t.out] + r.outs)
  {
    FrameLayout(p);
    FeedStart(v, capacity, StuffAll(p + [Checksum(p)]) + [END]);
  }

  /**
   * Round trip: from WAIT_HEADER, whatever stale bytes the buffer holds, the
   * wire image of p produces no error and exactly one frame, equal to p, on
   * the final END, and leaves the decoder in WAIT_HEADER.
   */
  lemma RoundTrip(stale: seq<byte>, overflowed: bool, capacity: nat, p: seq<byte>)
    requires |p| + 1 <= capacity
    ensures Feed(DecoderView(WaitHeader, stale, overflowed), capacity, Frame(p))
         == Run(DecoderView(WaitHeader, p + [Checksum(p)], false), Quiets(|Frame(p)| - 1) + [Output(Ok, Some(p))])
  {
    FrameLayout(p);
    ClaimedFrame(stale, overflowed, capacity, p, Checksum(p));
  }

  /**
   * Resynchronisation: inside an unfinished frame, the wire image of p reports
   * the aborted frame once (BAD_MESSAGE on its START) and then delivers p.
   */
  lemma Resync(data: seq<byte>, overflowed: bool, capacity: nat, p: seq<byte>)
    requires |p| + 1 <= capacity
    ensures Feed(DecoderView(InFrame, data, overflowed), capacity, Frame(p))
         == Run(DecoderView(WaitHeader, p + [Checksum(p)], false),
                [Output(Err(BadMessage), None)] + Quiets(|Frame(p)| - 2) + [Output(Ok, Some(p))])
  {
    var body := StuffAll(p + [Checksum(p)]);
    FrameLayout(p);
    assert |Frame(p)| - 2 == |body|;
    AbortedThenBody(data, overflowed, capacity, p);
  }

  /** Resync, stated on the layout of the wire image. */
  lemma AbortedThenBody(data: seq<byte>, overflowed: bool, capacity: nat, p: seq<byte>)
    requires |p| + 1 <= capacity
    ensures var body := StuffAll(p + [Checksum(p)]);
      Feed(DecoderView(InFrame, data, overflowed), capacity, [START] + (body + [END]))
      == Run(DecoderView(WaitHeader, p + [Checksum(p)], false),
             [Output(Err(BadMessage), None)] + Quiets(|body|) + [Output(Ok, Some(p))])
  {
    var v := DecoderView(InFrame, data, overflowed);
    var aborted := Output(Err(BadMessage), None);
    var body := StuffAll(p + [Checksum(p)]);
    FeedStart(v, capacity, body + [END]);
    assert Step(v, capacity, START) == Transition(DecoderView(InFrame, [], false), aborted);
    BodyAfterStart(p, Checksum(p), capacity);
    assert Verdict(p, Checksum(p)) == Output(Ok, Some(p));
    ConcatAssoc([aborted], Quiets(|body|), [Output(Ok, Some(p))]);
  }



  /**
   * Whatever state the corrected decoder is in, a START followed by the wire
   * image of p delivers p: every state is left for IN_FRAME by the first byte.
   */
  lemma ResyncFromAnyState(v: DecoderView, capacity: nat, p: seq<byte>)
    requires |p| + 1 <= capacity
    ensures var r := Feed(v, capacity, [START] + Frame(p));
      && r.last == DecoderView(WaitHeader, p + [Checksum(p)], false)
      && r.outs[|r.outs| - 1] == Output(Ok, Some(p))
  {
    FeedAppend(v, capacity, [START], Frame(p));
    var t := Step(v, capacity, START);
    assert t.next.state == InFrame;
    Resync(t.next.data, t.next.overflowed, capacity, p);
  }

  /**
   * Integrity: the wire image of p with one payload byte changed before
   * stuffing, but the checksum of the original p, is never accepted: every
   * byte is silent up to the END, which reports BAD_MESSAGE and no frame.
   */
  lemma CorruptedFrameRejected(stale: seq<byte>, overflowed: bool, capacity: nat, p: seq<byte>, i: nat, x: byte)
    requires i < |p| && x != p[i] && |p| + 1 <= capacity
    ensures var wire := [START] + StuffAll(p[i := x]) + Stuff(Checksum(p)) + [END];
      Feed(DecoderView(WaitHeader, stale, overflowed), capacity, wire)
      == Run(DecoderView(WaitHeader, p[i := x] + [Checksum(p)], false),
             Quiets(|wire| - 1) + [Output(Err(BadMessage), None)])
  {
    ChecksumDetectsSingleByteChange(p, i, x);
    WrongChecksumRejected(stale, overflowed, capacity, p[i := x], Checksum(p));
  }

  /** A wire image whose stuffed checksum byte is not the checksum of its payload is rejected on END. */
  lemma WrongChecksumRejected(stale: seq<byte>, overflowed: bool, capacity: nat, q: seq<byte>, cs: byte)
    requires |q| + 1 <= capacity && Checksum(q) != cs
    ensures var wire := [START] + StuffAll(q) + Stuff(cs) + [END];
      Feed(DecoderView(WaitHeader, stale, overflowed), capacity, wire)
      == Run(DecoderView(WaitHeader, q + [cs], false), Quiets(|wire| - 1) + [Output(Err(BadMessage), None)])
  {
    var body := StuffAll(q + [cs]);
    StuffedLayout(q, cs);
    assert |[START] + StuffAll(q) + Stuff(cs) + [END]| - 1 == |body| + 1;
    ClaimedFrame(stale, overflowed, capacity, q, cs);
  }


  /**
   * From WAIT_HEADER, START, the stuffed bytes of q and of a claimed checksum
   * cs, END: silent up to the END, which delivers q exactly when cs is the
   * checksum of q and reports BAD_MESSAGE otherwise.
   */
  lemma ClaimedFrame(stale: seq<byte>, overflowed: bool, capacity: nat, q: seq<byte>, cs: byte)
    requires |q| + 1 <= capacity
    ensures var body := StuffAll(q + [cs]);
      Feed(DecoderView(WaitHeader, stale, overflowed), capacity, [START] + (body + [END]))
      == Run(DecoderView(WaitHeader, q + [cs], false),
             Quiets(|body| + 1) + [Verdict(q, cs)])
  {
    var body := StuffAll(q + [cs]);
    FeedStart(DecoderView(WaitHeader, stale, overflowed), capacity, body + [END]);
    BodyAfterStart(q, cs, capacity);
    QuietThen(|body|, Verdict(q, cs));
  }

  lemma QuietThen(n: nat, o: Output)
    ensures [Quiet] + (Quiets(n) + [o]) == Quiets(n + 1) + [o]
  {
  }

  /**
   * An oversized frame is never accepted: from any state but IN_FRAME_ESC, the
   * wire image of a payload that does not fit with its checksum reports no
   * frame, ends with BAD_MESSAGE on its END and leaves the decoder in
   * WAIT_HEADER with the loss forgotten.
   */
  lemma OversizedFrameRejected(v: DecoderView, capacity: nat, q: seq<byte>)
    requires v.state != InFrameEsc && |q| + 1 > capacity
    ensures var r := Feed(v, capacity, Frame(q));
      && r.last.state == WaitHeader && !r.last.overflowed
      && NoFrame(r.outs)
      && r.outs[|r.outs| - 1] == Output(Err(BadMessage), None)
  {
    var open := DecoderView(InFrame, [], false);
    var t := Step(v, capacity, START);
    assert t.next == open && t.out.frame.None?;
    var body := StuffAll(q + [Checksum(q)]);
    FeedFrame(v, capacity, q);
    FeedAppend(open, capacity, body, [END]);
    StuffedPayloadInFrame([], false, capacity, q + [Checksum(q)]);
    var r1 := Feed(open, capacity, body);
    var rejected := Output(Err(BadMessage), None);
    assert Step(r1.last, capacity, END) == Transition(DecoderView(WaitHeader, r1.last.data, false), rejected);
    assert Feed(r1.last, capacity, [END]).outs == [rejected];
    NoFrameAppend(r1.outs, [rejected]);
    NoFrameAppend([t.out], r1.outs + [rejected]);
  }

  /** After an oversized frame the next frame that fits is delivered, and it is the only frame. */
  lemma OversizedFrameThenNext(v: DecoderView, capacity: nat, q: seq<byte>, p: seq<byte>)
    requires v.state != InFrameEsc && |q| + 1 > capacity && |p| + 1 <= capacity
    ensures var r := Feed(v, capacity, Frame(q) + Frame(p));
      && r.last == DecoderView(WaitHeader, p + [Checksum(p)], false)
      && NoFrame(r.outs[..|r.outs| - 1])
      && r.outs[|r.outs| - 1] == Output(Ok, Some(p))
  {
    FeedAppend(v, capacity, Frame(q), Frame(p));
    OversizedFrameRejected(v, capacity, q);
    var r1 := Feed(v, capacity, Frame(q));
    assert r1.last == DecoderView(WaitHeader, r1.last.data, false);
    RoundTrip(r1.last.data, false, capacity, p);
    var quiet := Quiets(|Frame(p)| - 1);
    var delivered := Output(Ok, Some(p));
    assert (r1.outs + (quiet + [delivered]))[..|r1.outs| + |quiet|] == r1.outs + quiet;
    NoFrameQuiets(|quiet|);
    NoFrameAppend(r1.outs, quiet);
  }

  /** With a full buffer, each plain data byte is rejected as TOO_BIG and dropped. */
  lemma {:induction false} OverflowBurst(data: seq<byte>, overflowed: bool, capacity: nat, xs: seq<byte>)
    requires |data| >= capacity
    requires forall i :: 0 <= i < |xs| ==> !IsMagic(xs[i])
    ensures var r := Feed(DecoderView(InFrame, data, overflowed), capacity, xs);
      && r.last == DecoderView(InFrame, data, overflowed || xs != [])
      && forall i :: 0 <= i < |r.outs| ==> r.outs[i] == Output(Err(TooBig), None)
    decreases |xs|
  {
    if xs != [] {
      OverflowBurst(data, true, capacity, xs[1..]);
    }
  }

  /**
   * A frame cut short by the next START after overflowing: one TOO_BIG per
   * excess plain byte, BAD_MESSAGE on the START, and the next frame delivered.
   */
  lemma OverflowThenRecover(data: seq<byte>, overflowed: bool, capacity: nat, xs: seq<byte>, p: seq<byte>)
    requires |data| >= capacity && |p| + 1 <= capacity
    requires forall i :: 0 <= i < |xs| ==> !IsMagic(xs[i])
    ensures var r := Feed(DecoderView(InFrame, data, overflowed), capacity, xs + Frame(p));
      && r.last == DecoderView(WaitHeader, p + [Checksum(p)], false)
      && |r.outs| == |xs| + |Frame(p)|
      && (forall i :: 0 <= i < |xs| ==> r.outs[i] == Output(Err(TooBig), None))
      && r.outs[|xs|] == Output(Err(BadMessage), None)
      && r.outs[|r.outs| - 1] == Output(Ok, Some(p))
  {
    FeedAppend(DecoderView(InFrame, data, overflowed), capacity, xs, Frame(p));
    OverflowBurst(data, overflowed, capacity, xs);
    Resync(data, overflowed || xs != [], capacity, p);
  }

  /**
   * Away from overflow the two machines are one: a step of the corrected
   * decoder that is not TOO_BIG, from a view with no remembered loss, is the
   * step process_byte takes as written, and remembers no loss either.
   */
  lemma StepAgreesWithoutOverflow(v: DecoderView, capacity: nat, b: byte)
    requires !v.overflowed && Step(v, capacity, b).out.code != Err(TooBig)
    ensures StepAsWritten(v, capacity, b) == Step(v, capacity, b)
    ensures !Step(v, capacity, b).next.overflowed
  {
  }

  /** A run of the corrected decoder with no TOO_BIG in it is also the run of the decoder as written. */
  lemma {:induction false} FeedAgreesWithoutOverflow(v: DecoderView, capacity: nat, bytes: seq<byte>)
    requires !v.overflowed
    requires forall i :: 0 <= i < |bytes| ==> Feed(v, capacity, bytes).outs[i].code != Err(TooBig)
    ensures FeedAsWritten(v, capacity, bytes) == Feed(v, capacity, bytes)
    decreases |bytes|
  {
    if bytes != [] {
      var r := Feed(v, capacity, bytes);
      var t := Step(v, capacity, bytes[0]);
      var rest := Feed(t.next, capacity, bytes[1..]);
      assert r.outs[0] == t.out;
      StepAgreesWithoutOverflow(v, capacity, bytes[0]);
      forall i | 0 <= i < |bytes| - 1
        ensures rest.outs[i].code != Err(TooBig)
      {
        assert r.outs[i + 1] == rest.outs[i];
      }
      FeedAgreesWithoutOverflow(t.next, capacity, bytes[1..]);
    }
  }

  /** A frame with one payload byte changed is rejected by process_byte as written, too. */
  lemma CorruptedFrameRejectedAsWritten(stale: seq<byte>, capacity: nat, p: seq<byte>, i: nat, x: byte)
    requires i < |p| && x != p[i] && |p| + 1 <= capacity
    ensures var wire := [START] + StuffAll(p[i := x]) + Stuff(Checksum(p)) + [END];
      FeedAsWritten(DecoderView(WaitHeader, stale, false), capacity, wire)
      == Run(DecoderView(WaitHeader, p[i := x] + [Checksum(p)], false),
             Quiets(|wire| - 1) + [Output(Err(BadMessage), None)])
  {
    var v := DecoderView(WaitHeader, stale, false);
    var wire := [START] + StuffAll(p[i := x]) + Stuff(Checksum(p)) + [END];
    CorruptedFrameRejected(stale, false, capacity, p, i, x);
    var n := |wire| - 1;
    var outs := Quiets(n) + [Output(Err(BadMessage), None)];
    QuietsAreQuiet(n);
    forall k | 0 <= k < |wire|
      ensures Feed(v, capacity, wire).outs[k].code != Err(TooBig)
    {
      if k < n {
        assert outs[k] == Quiets(n)[k];
      }
    }
    FeedAgreesWithoutOverflow(v, capacity, wire);
  }

  /** The round trip holds for process_byte as written. */
  lemma RoundTripAsWritten(stale: seq<byte>, capacity: nat, p: seq<byte>)
    requires |p| + 1 <= capacity
    ensures FeedAsWritten(DecoderView(WaitHeader, stale, false), capacity, Frame(p))
         == Run(DecoderView(WaitHeader, p + [Checksum(p)], false), Quiets(|Frame(p)| - 1) + [Output(Ok, Some(p))])
  {
    var v := DecoderView(WaitHeader, stale, false);
    RoundTrip(stale, false, capacity, p);
    var n := |Frame(p)| - 1;
    var outs := Quiets(n) + [Output(Ok, Some(p))];
    QuietsAreQuiet(n);
    forall i | 0 <= i < |Frame(p)|
      ensures Feed(v, capacity, Frame(p)).outs[i].code != Err(TooBig)
    {
      if i < n {
        assert outs[i] == Quiets(n)[i];
      }
    }
    FeedAgreesWithoutOverflow(v, capacity, Frame(p));
  }

  /** Resynchronisation holds for process_byte as written. */
  lemma ResyncAsWritten(data: seq<byte>, capacity: nat, p: seq<byte>)
    requires |p| + 1 <= capacity
    ensures FeedAsWritten(DecoderView(InFrame, data, false), capacity, Frame(p))
         == Run(DecoderView(WaitHeader, p + [Checksum(p)], false),
                [Output(Err(BadMessage), None)] + Quiets(|Frame(p)| - 2) + [Output(Ok, Some(p))])
  {
    var v := DecoderView(InFrame, data, false);
    Resync(data, false, capacity, p);
    var n := |Frame(p)| - 2;
    var outs := [Output(Err(BadMessage), None)] + Quiets(n) + [Output(Ok, Some(p))];
    QuietsAreQuiet(n);
    forall i | 0 <= i < |Frame(p)|
      ensures Feed(v, capacity, Frame(p)).outs[i].code != Err(TooBig)
    {
      if 1 <= i <= n {
        assert outs[i] == Quiets(n)[i - 1];
      }
    }
    FeedAgreesWithoutOverflow(v, capacity, Frame(p));
  }

  /** A frame cut short by the next START after overflowing, for process_byte as written. */
  lemma {:induction false} OverflowThenRecoverAsWritten(data: seq<byte>, capacity: nat, xs: seq<byte>, p: seq<byte>)
    requires |data| >= capacity && |p| + 1 <= capacity
    requires forall i :: 0 <= i < |xs| ==> !IsMagic(xs[i])
    ensures var r := FeedAsWritten(DecoderView(InFrame, data, false), capacity, xs + Frame(p));
      && r.last == DecoderView(WaitHeader, p + [Checksum(p)], false)
      && (forall i :: 0 <= i < |xs| ==> r.outs[i] == Output(Err(TooBig), None))
      && r.outs[|xs|] == Output(Err(BadMessage), None)
      && r.outs[|r.outs| - 1] == Output(Ok, Some(p))
    decreases |xs|
  {
    var v := DecoderView(InFrame, data, false);
    if xs == [] {
      assert xs + Frame(p) == Frame(p);
      ResyncAsWritten(data, capacity, p);
    } else {
      var tooBig := Output(Err(TooBig), None);
      assert xs + Frame(p) == [xs[0]] + (xs[1..] + Frame(p));
      assert StepAsWritten(v, capacity, xs[0]) == Transition(v, tooBig);
      FeedAsWrittenCons(v, capacity, xs[0], xs[1..] + Frame(p));
      OverflowThenRecoverAsWritten(data, capacity, xs[1..], p);
      var rest := FeedAsWritten(v, capacity, xs[1..] + Frame(p));
      assert forall i :: 1 <= i < |xs| ==> ([tooBig] + rest.outs)[i] == rest.outs[i - 1];
    }
  }

  /** The wire image used by AsWrittenTruncatedFrameAccepted: no byte of it needs escaping. */
  lemma TruncatedExampleWire()
    ensures Frame([0x00, 0x00, 0x07]) == [START, 0x00, 0x00, 0x07, 0x07, END]
  {
    var p: seq<byte> := [0x00, 0x00, 0x07];
    assert p[..2] == [0x00, 0x00] && [0x00, 0x00][..1] == [0x00] && [0x00][..0] == [];
    assert Checksum([0x00]) == 0x00;
    assert Checksum([0x00, 0x00]) == 0x00;
    assert Checksum(p) == 0x07;
    assert p[..1] == [0x00];
    assert StuffAll(p) == [0x00, 0x00, 0x07];
  }

  /**
   * As written, an oversized frame can be accepted truncated: with a two-byte
   * buffer the wire image of [0x00, 0x00, 0x07] (checksum 0x07) keeps [0x00, 0x00],
   * drops both 0x07 bytes as TOO_BIG, and on END delivers [0x00], a frame that
   * was never sent. The corrected decoder rejects the same bytes on END.
   */
  lemma AsWrittenTruncatedFrameAccepted()
    ensures FeedAsWritten(DecoderView(WaitHeader, [], false), 2, Frame([0x00, 0x00, 0x07]))
         == Run(DecoderView(WaitHeader, [0x00, 0x00], false),
                [Quiet, Quiet, Quiet, Output(Err(TooBig), None), Output(Err(TooBig), None), Output(Ok, Some([0x00]))])
    ensures Feed(DecoderView(WaitHeader, [], false), 2, Frame([0x00, 0x00, 0x07])).outs[5]
         == Output(Err(BadMessage), None)
  {
    TruncatedExampleWire();
    TruncatedExampleHead();
    OversizedFrameRejected(DecoderView(WaitHeader, [], false), 2, [0x00, 0x00, 0x07]);
  }

  /** Feeding process_byte as written a stream that begins with b is one step on b, then the rest. */
  lemma FeedAsWrittenCons(v: DecoderView, capacity: nat, b: byte, rest: seq<byte>)
    ensures var t := StepAsWritten(v, capacity, b);
      var r := FeedAsWritten(t.next, capacity, rest);
      FeedAsWritten(v, capacity, [b] + rest) == Run(r.last, [t.out] + r.outs)
  {
    assert ([b] + rest)[0] == b && ([b] + rest)[1..] == rest;
  }

  /** The first three bytes of that wire image open a frame and fill the two-byte buffer. */
  lemma TruncatedExampleHead()
    ensures FeedAsWritten(DecoderView(WaitHeader, [], false), 2, [START, 0x00, 0x00, 0x07, 0x07, END])
         == Run(DecoderView(WaitHeader, [0x00, 0x00], false),
                [Quiet, Quiet, Quiet, Output(Err(TooBig), None), Output(Err(TooBig), None), Output(Ok, Some([0x00]))])
  {
    var v0 := DecoderView(WaitHeader, [], false);
    var v1 := DecoderView(InFrame, [], false);
    var v2 := DecoderView(InFrame, [0x00], false);
    var v3 := DecoderView(InFrame, [0x00, 0x00], false);
    var tail: seq<byte> := [0x07, 0x07, END];
    TruncatedExampleTail();
    assert v2.data + [0x00] == v3.data;
    assert StepAsWritten(v2, 2, 0x00) == Transition(v3, Quiet);
    FeedAsWrittenCons(v2, 2, 0x00, tail);
    assert v1.data + [0x00] == v2.data;
    assert StepAsWritten(v1, 2, 0x00) == Transition(v2, Quiet);
    FeedAsWrittenCons(v1, 2, 0x00, [0x00] + tail);
    assert StepAsWritten(v0, 2, START) == Transition(v1, Quiet);
    FeedAsWrittenCons(v0, 2, START, [0x00] + ([0x00] + tail));
    var wire: seq<byte> := [START, 0x00, 0x00, 0x07, 0x07, END];
    assert [START] + ([0x00] + ([0x00] + tail)) == wire;
  }

  /** The last three bytes of that wire image, from a buffer holding [0x00, 0x00]. */
  lemma TruncatedExampleTail()
    ensures FeedAsWritten(DecoderView(InFrame, [0x00, 0x00], false), 2, [0x07, 0x07, END])
         == Run(DecoderView(WaitHeader, [0x00, 0x00], false),
                [Output(Err(TooBig), None), Output(Err(TooBig), None), Output(Ok, Some([0x00]))])
  {
    var full := DecoderView(InFrame, [0x00, 0x00], false);
    var last := DecoderView(WaitHeader, [0x00, 0x00], false);
    var tooBig := Output(Err(TooBig), None);
    var one: seq<byte> := [0x00];
    assert one[..0] == [] && Checksum(one) == 0x00 && full.data[..1] == one;
    assert StepAsWritten(full, 2, END) == Transition(last, Output(Ok, Some(one)));
    assert FeedAsWritten(last, 2, []) == Run(last, []);
    var end: seq<byte> := [END];
    assert end[1..] == [];
    assert FeedAsWritten(full, 2, end) == Run(last, [Output(Ok, Some(one))]);
    var bytes: seq<byte> := [0x07, 0x07, END];
    assert bytes[1..][1..] == end;
    assert FeedAsWritten(full, 2, bytes[1..]) == Run(last, [tooBig, Output(Ok, Some(one))]);
  }

  /**
   * As written, once an escaped byte overflows the buffer the decoder never
   * leaves IN_FRAME_ESC: every later byte, START and END included, is TOO_BIG.
   */
  lemma {:induction false} AsWrittenEscapedOverflowNeverRecovers(data: seq<byte>, capacity: nat, bytes: seq<byte>)
    requires |data| >= capacity
    ensures var r := FeedAsWritten(DecoderView(InFrameEsc, data, false), capacity, bytes);
      && r.last == DecoderView(InFrameEsc, data, false)
      && forall i :: 0 <= i < |r.outs| ==> r.outs[i] == Output(Err(TooBig), None)
    decreases |bytes|
  {
    if bytes != [] {
      AsWrittenEscapedOverflowNeverRecovers(data, capacity, bytes[1..]);
    }
  }

  /** A one-byte buffer reaches that state on START, 0x01, ESC. */
  lemma AsWrittenWedgeIsReachable()
    ensures FeedAsWritten(DecoderView(WaitHeader, [], false), 1, [START, 0x01, ESC]).last
         == DecoderView(InFrameEsc, [0x01], false)
  {
    var v1 := DecoderView(InFrame, [], false);
    var v2 := DecoderView(InFrame, [0x01], false);
    var v3 := DecoderView(InFrameEsc, [0x01], false);
    assert StepAsWritten(DecoderView(WaitHeader, [], false), 1, START).next == v1;
    assert StepAsWritten(v1, 1, 0x01).next == v2;
    assert StepAsWritten(v2, 1, ESC).next == v3;
    assert [ESC][1..] == [];
    assert FeedAsWritten(v2, 1, [ESC]).last == v3;
    assert [0x01, ESC][1..] == [ESC];
    assert FeedAsWritten(v1, 1, [0x01, ESC]).last == v3;
    assert [START, 0x01, ESC][1..] == [0x01, ESC];
  }

  /**
   * SmpSerialProtocolDecoder: state, offset and a buffer of fixed capacity,
   * plus the overflow memory of the corrected decoder.
   */
  class Decoder {
    var state: DecoderState
    var offset: nat
    var overflowed: bool
    const buf: array<byte>
    /** The buffer was supplied by the caller and is never freed by the decoder. */
    const staticallyAllocated: bool

    ghost predicate Valid()
      reads this
    {
      offset <= buf.Length
    }

    ghost function View(): DecoderView
      reads this, buf
      requires Valid()
    {
      DecoderView(state, buf[..offset], overflowed)
    }

    /** smp_serial_protocol_decoder_new: an owned buffer, 0 meaning the default size. */
    constructor New(bufsize: nat)
      ensures Valid() && fresh(buf) && !staticallyAllocated
      ensures buf.Length == if bufsize == 0 then DEFAULT_BUFFER_SIZE else bufsize
      ensures state == WaitHeader && !overflowed
    {
      var size := if bufsize == 0 then DEFAULT_BUFFER_SIZE else bufsize;
      state := WaitHeader;
      offset := 0;
      overflowed := false;
      buf := new byte[size];
      staticallyAllocated := false;
    }

    /** smp_serial_protocol_decoder_new_from_static: a caller-supplied, non-empty buffer. */
    constructor FromStatic(storage: array<byte>)
      requires storage.Length != 0
      ensures Valid() && buf == storage && staticallyAllocated
      ensures state == WaitHeader && !overflowed
    {
      state := WaitHeader;
      offset := 0;
      overflowed := false;
      buf := storage;
      staticallyAllocated := true;
    }

    /** smp_serial_protocol_decoder_process_byte. */
    method ProcessByte(b: byte) returns (code: Status, frame: bool, framesize: nat)
      requires Valid()
      modifies this, buf
      ensures Valid()
      ensures frame ==> framesize < offset
      ensures Step(old(View()), buf.Length, b)
           == Transition(View(), Output(code, if frame then Some(buf[..framesize]) else None))
    {
      frame, framesize := false, 0;
      match state {
        case WaitHeader =>
          if b == START {
            state := InFrame;
            offset := 0;
            overflowed := false;
          }
          code := Ok;
        case InFrame =>
          code, frame, framesize := ProcessByteInFrame(b);
        case InFrameEsc =>
          if offset >= buf.Length {
            code := Err(TooBig);
            overflowed := true;
            state := InFrame;
          } else {
            buf[offset] := b;
            offset := offset + 1;
            state := InFrame;
            code := Ok;
          }
      }
    }

    /** smp_serial_protocol_decoder_process_byte_inframe. */
    method ProcessByteInFrame(b: byte) returns (code: Status, frame: bool, framesize: nat)
      requires Valid() && state == InFrame
      modifies this, buf
      ensures Valid()
      ensures frame ==> framesize < offset
      ensures Step(old(View()), buf.Length, b)
           == Transition(View(), Output(code, if frame then Some(buf[..framesize]) else None))
    {
      frame, framesize := false, 0;
      if b == START {
        offset := 0;
        overflowed := false;
        code := Err(BadMessage);
      } else if b == ESC {
        state := InFrameEsc;
        code := Ok;
      } else if b == END {
        state := WaitHeader;
        if overflowed || offset < 1 {
          overflowed := false;
          code := Err(BadMessage);
          return;
        }
        framesize := offset - 1;
        var cs := ComputeChecksum(buf, framesize);
        assert buf[..offset][..framesize] == buf[..framesize];
        if cs != buf[offset - 1] {
          code := Err(BadMessage);
        } else {
          frame := true;
          code := Ok;
        }
      } else {
        if offset >= buf.Length {
          overflowed := true;
          code := Err(TooBig);
          return;
        }
        buf[offset] := b;
        offset := offset + 1;
        code := Ok;
      }
    }
  }
}
