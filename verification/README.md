# libsmp serial framing and session, in Dafny

libsmp sends messages over a serial line as frames. A frame is the byte
`START` (0x10), then the payload, then the XOR checksum of the payload, then
`END` (0xFF). A payload or checksum byte equal to `START`, `END` or `ESC`
(0x1B) is preceded by `ESC` (byte stuffing). A three-state decoder
(`WAIT_HEADER`, `IN_FRAME`, `IN_FRAME_ESC`) reads the line one byte at a time
into a bounded buffer and hands back completed frames. A context (`SmpContext`)
owns a decoder and a serial device. Its `opened` flag guards every device
operation. It sends messages as frames and drains the device byte by byte. Each
decoder error goes to the error callback and each completed frame to the message
callback.

The project has four modules:

- `Results` (`results.dfy`): the error taxonomy, a status, a result and an
  option.
- `Codec` (`codec.dfy`): the encoding half of `src/serial-protocol.c`. It holds
  the specification functions `Checksum`, `Stuff`, `StuffAll` and `Frame`. It
  also holds the array methods that mirror the C loops (`ComputeChecksum`,
  `ComputePayloadSize`, `WriteByte`, `Encode`), each proved against those
  functions.
- `FrameDecoder` (`decoder.dfy`): the decoder.
  - `StepAsWritten` is one call of `process_byte` exactly as written, on a view
    of the decoder (state plus `buf[..offset]`). `FeedAsWritten` runs it over a
    stream.
  - `Step` is the corrected decoder, and `Feed` runs it over a stream. It
    differs from `StepAsWritten` in two places (second and third rows of
    Findings). An escaped byte that does not fit returns it to IN_FRAME. It also
    remembers, in one more field of the view, that a byte of the current frame
    was dropped, and then rejects that frame on its END.
  - `FeedAgreesWithoutOverflow` proves that the two machines produce the same
    run whenever no byte reports TOO_BIG. The round trip and resynchronisation
    therefore hold for the code as written too (`RoundTripAsWritten`,
    `ResyncAsWritten`).
  - The class `Decoder` keeps the C fields (`state`, `offset`, `buf`,
    `statically_allocated`) and the overflow memory, and updates them in place.
    Its `ProcessByte` is proved to perform exactly `Step`.
  - The lemmas prove the round trip, resynchronisation, integrity against a
    changed byte, and overflow behaviour on `Feed`.
- `Session` (`context.dfy`): the context.
  - The device is replaced by its answers, which are passed as parameters: the
    outcome of open, write and wait, and a script of answers to the one-byte
    reads.
  - The field `deviceCalls` records the calls made on the device. The field
    `events` records the callback invocations.
  - Message deserialisation is a function fixed at construction. The
    serialiser's outcome is a parameter of `SendMessage`.
  - `Receive` specifies the read loop of `process_fd`. `ReceiveIsFeed` proves
    that it is the decoder's `Feed` over the bytes read, with each result
    dispatched.

## Model

| member | source | states |
|---|---|---|
| `Codec.IsMagic` | src/serial-protocol.c:25-34 | a byte is magic exactly when it is START (0x10), END (0xFF) or ESC (0x1B) |
| `Codec.PayloadSize` | src/serial-protocol.c:36-51 | the size compute_payload_size reports: the payload length plus three, plus one per magic payload byte, so between length + 3 and 2 length + 3 |
| `Codec.Stuff` | src/serial-protocol.c:67-78 | a byte is written as two bytes exactly when it is START, END or ESC; the first of the two is ESC and the last byte written is always the byte itself |
| `Codec.StuffAll` | src/serial-protocol.c:278-279 | the stuffed payload is one byte longer than the payload per magic byte |
| `Codec.Frame` | src/serial-protocol.c:277-287 | the wire image starts with START, ends with END, and is payload length + 3 + one per magic payload byte + one more when the checksum is magic |
| `Codec.ChecksumAppend` | src/serial-protocol.c:53-63 | the checksum of a concatenation is the XOR of the checksums of the parts |
| `Codec.ChecksumDetectsSingleByteChange` | src/serial-protocol.c:53-63 | changing any single payload byte changes the checksum |
| `Codec.PayloadSizeUndercount` | src/serial-protocol.c:36-51 | the size compute_payload_size reports is the true frame length, minus one when the checksum is magic |
| `Codec.PayloadSizeTooSmallForStartPayload` | src/serial-protocol.c:265-283 | for the payload [0x10] the reported size is 5 while the frame written is the 6 bytes 10 1B 10 1B 10 FF |
| `Codec.ComputeChecksum` | src/serial-protocol.c:53-63 | the loop returns the XOR of the first `size` bytes |
| `Codec.ComputePayloadSize` | src/serial-protocol.c:36-51 | the loop returns size + 3 + the number of magic bytes, hence between size + 3 and 2 size + 3 |
| `Codec.ComputeFrameSize` | src/serial-protocol.c:265 | corrected size computation: returns exactly the length of the frame written |
| `Codec.WriteByte` | src/serial-protocol.c:67-78 | writes the stuffed form of the byte at the given offset, returns how many bytes it wrote, and leaves every byte before the offset and after the written ones alone |
| `Codec.WritePayload` | src/serial-protocol.c:277-279 | after the START slot, the output holds each payload byte stuffed, in order, the returned offset is one past them, and nothing from that offset on is changed |
| `Codec.WriteFrame` | src/serial-protocol.c:277-287 | the output buffer starts with exactly the wire image, the returned offset is its length, and nothing after the frame is changed |
| `Codec.Encode` | src/serial-protocol.c:252-288 | a zero-length caller buffer gives INVALID_PARAM; a caller buffer shorter than the frame gives OVERFLOW and is not written; otherwise the result is the number of bytes written, the buffer (caller's or freshly allocated with exactly that length) starts with the wire image, and a caller's buffer is unchanged past the frame |
| `FrameDecoder.Step` | src/serial-protocol.c:206-249 | corrected decoder: WAIT_HEADER ignores everything but START, which opens an empty frame; START inside a frame restarts it with BAD_MESSAGE; END goes to WAIT_HEADER and delivers a frame exactly when no byte of the frame was dropped and the last stored byte is the checksum of the others, BAD_MESSAGE otherwise; TOO_BIG exactly when a byte to be stored finds the buffer full, with nothing stored, the decoder back in IN_FRAME and the loss remembered; the loss is forgotten only when a frame starts or ends; the stored length never exceeds the capacity |
| `FrameDecoder.StepAsWritten` | src/serial-protocol.c:80-134 | as written: a frame is delivered exactly when END finds, in IN_FRAME, a last stored byte that is the checksum of the others, whether or not bytes were dropped; an escaped byte that finds the buffer full is TOO_BIG and leaves the decoder unchanged, still in IN_FRAME_ESC; the stored length never exceeds the capacity |
| `FrameDecoder.FeedAsWritten` | src/serial-protocol.c:206-249 | as written, over any stream: one result per byte fed, and the stored length stays within the capacity |
| `FrameDecoder.Feed` | src/serial-protocol.c:206-249 | corrected decoder: one result per byte fed, and the stored length stays within the capacity over any stream |
| `FrameDecoder.StuffedByteIsStored` | src/serial-protocol.c:93-96 | inside a frame with room, the stuffed form of a byte stores that byte and reports nothing |
| `FrameDecoder.StuffedPayloadIsStored` | src/serial-protocol.c:122-130 | inside a frame with room, a stuffed payload is stored byte for byte, one silent result per wire byte |
| `FrameDecoder.StuffedByteOverflows` | src/serial-protocol.c:232-236 | corrected decoder: inside a full frame, the stuffed form of a byte gives silence for its escape and TOO_BIG for the byte itself (lines 123-126 for a plain byte), stores nothing, ends in IN_FRAME and marks the frame as having lost a byte; as written an escaped byte leaves the decoder in IN_FRAME_ESC instead |
| `FrameDecoder.StuffedPayloadInFrame` | src/serial-protocol.c:123-126 | corrected decoder: inside a frame, any stuffed payload leaves the decoder in IN_FRAME holding as much as fits, marks a loss exactly when the payload did not fit, and reports no frame |
| `FrameDecoder.BodyAfterStart` | src/serial-protocol.c:97-120 | after START, the stuffed bytes of q and of a claimed checksum, then END, are silent up to the END, which delivers q exactly when the claimed checksum is that of q and gives BAD_MESSAGE otherwise, back in WAIT_HEADER |
| `FrameDecoder.ClaimedFrame` | src/serial-protocol.c:97-120 | the same from WAIT_HEADER with any stale buffer, START included |
| `FrameDecoder.RoundTrip` | src/serial-protocol.c:252-288 | from WAIT_HEADER with any stale buffer and capacity at least payload length + 1, the wire image gives silent results on every byte but the last, the payload as a frame on the last, and ends in WAIT_HEADER |
| `FrameDecoder.Resync` | src/serial-protocol.c:88-92 | inside an unfinished frame, the wire image of p gives BAD_MESSAGE on its START, then silence, then p on its END |
| `FrameDecoder.AbortedThenBody` | src/serial-protocol.c:88-120 | inside an unfinished frame, START, the stuffed payload and checksum, and END give BAD_MESSAGE, silence, then the payload |
| `FrameDecoder.ResyncFromAnyState` | src/serial-protocol.c:218-241 | from any state of the corrected decoder, START followed by the wire image of p delivers p and ends in WAIT_HEADER |
| `FrameDecoder.OverflowBurst` | src/serial-protocol.c:122-126 | with a full buffer, every plain data byte gives TOO_BIG and leaves state and buffer unchanged |
| `FrameDecoder.CorruptedFrameRejected` | src/serial-protocol.c:97-117 | the wire image of p with one payload byte changed before stuffing, carrying the checksum of the original p, is silent up to its END, which gives BAD_MESSAGE and no frame |
| `FrameDecoder.CorruptedFrameRejectedAsWritten` | src/serial-protocol.c:97-117 | as written: from WAIT_HEADER, the wire image of p with one payload byte changed before stuffing, carrying the checksum of the original p, is silent up to its END, which gives BAD_MESSAGE and no frame |
| `FrameDecoder.WrongChecksumRejected` | src/serial-protocol.c:97-117 | from WAIT_HEADER, a wire image whose stuffed checksum byte is not the checksum of its payload is silent up to its END, which gives BAD_MESSAGE and no frame |
| `FrameDecoder.OversizedFrameRejected` | src/serial-protocol.c:97-128 | corrected decoder: the wire image of a payload that does not fit with its checksum, fed in any state but IN_FRAME_ESC, reports no frame, ends with BAD_MESSAGE on its END, and leaves the decoder in WAIT_HEADER |
| `FrameDecoder.OversizedFrameThenNext` | src/serial-protocol.c:97-128 | corrected decoder: an oversized frame followed by a frame that fits delivers the second payload on the last byte and no frame before it |
| `FrameDecoder.OverflowThenRecover` | src/serial-protocol.c:88-92 | a frame cut short by the next START while its buffer is full: one TOO_BIG per excess plain byte, BAD_MESSAGE on the START, then the next frame delivered on its END |
| `FrameDecoder.StepAgreesWithoutOverflow` | src/serial-protocol.c:206-249 | with no loss remembered, a corrected step that is not TOO_BIG is the step the code takes as written, and remembers no loss |
| `FrameDecoder.FeedAgreesWithoutOverflow` | src/serial-protocol.c:206-249 | with no loss remembered, a corrected run with no TOO_BIG in it is the run of the code as written |
| `FrameDecoder.RoundTripAsWritten` | src/serial-protocol.c:206-249 | the round trip of `RoundTrip`, for the code as written |
| `FrameDecoder.ResyncAsWritten` | src/serial-protocol.c:88-92 | the resynchronisation of `Resync`, for the code as written |
| `FrameDecoder.OverflowThenRecoverAsWritten` | src/serial-protocol.c:122-126 | the frame cut short by a START of `OverflowThenRecover`, for the code as written |
| `FrameDecoder.AsWrittenTruncatedFrameAccepted` | src/serial-protocol.c:97-126 | as written, with a two-byte buffer the wire image 10 00 00 07 07 FF of [0x00, 0x00, 0x07] gives three silent results, TOO_BIG twice, then delivers the frame [0x00]; the corrected decoder gives BAD_MESSAGE on that END |
| `FrameDecoder.AsWrittenEscapedOverflowNeverRecovers` | src/serial-protocol.c:232-236 | as written, once an escaped byte finds the buffer full the decoder stays in IN_FRAME_ESC and answers TOO_BIG to every later byte, START and END included |
| `FrameDecoder.AsWrittenWedgeIsReachable` | src/serial-protocol.c:218-241 | as written, a one-byte buffer reaches that state on the input 10 01 1B |
| `FrameDecoder.Decoder.New` | src/serial-protocol.c:153-172 | a new decoder is in WAIT_HEADER, with no loss remembered, with an owned buffer of the requested size, 1024 when 0 is requested |
| `FrameDecoder.Decoder.FromStatic` | src/serial-protocol.c:175-192 | a decoder over a caller's non-empty buffer is in WAIT_HEADER with no loss remembered and marked statically allocated |
| `FrameDecoder.Decoder.ProcessByte` | src/serial-protocol.c:206-249 | the new state, offset and buffer prefix, the return code and the frame reported are exactly those of `Step`; a reported frame lies inside the stored bytes |
| `FrameDecoder.Decoder.ProcessByteInFrame` | src/serial-protocol.c:80-134 | corrected decoder: in IN_FRAME, the update and the results are exactly those of `Step`, so END after a dropped byte gives BAD_MESSAGE |
| `Session.FrameNotice` | src/context.c:42-55 | a completed frame causes at most one notification: the deserialisation error through the error callback, or the message through the message callback, each only when that callback is set |
| `Session.Dispatch` | src/context.c:275-281 | a decoder result causes notifications only through set callbacks; a message notification carries the deserialised frame; a decoder error is notified first; a silent result notifies nothing |
| `Session.DispatchAll` | src/context.c:258-282 | over any run, error notifications only when the error callback is set and message notifications only when the message callback is set |
| `Session.OneNoticePerByte` | src/context.c:275-281 | every byte read causes at most one notification: exactly the error notification for a decoder error, exactly the frame's notification for a completed frame |
| `Session.DispatchQuietsThen` | src/context.c:275-281 | silent decoder results followed by one result notify only what that result notifies |
| `Session.DataPrefix` | src/context.c:265-273 | the bytes consumed are the answers before the first answer that is not a byte |
| `Session.StopOutcome` | src/context.c:265-273 | the loop always ends on an answer that is not a byte |
| `Session.StatusOf` | src/context.c:266-273 | the loop returns an error exactly for a read error other than WOULD_BLOCK, and then that error |
| `Session.Receive` | src/context.c:253-283 | the loop makes between 1 and one more than the number of answers reads and never returns WOULD_BLOCK |
| `Session.ReceiveIsFeed` | src/context.c:258-282 | draining the device leaves the decoder as feeding it the bytes read would, notifies the dispatch of each decoder result in order, returns the status of the stopping answer, and reads one more time than there were bytes |
| `Session.ReceiveFrame` | src/context.c:258-282 | a decoder in WAIT_HEADER, whatever its buffer holds, that reads the wire image of p and then a non-byte answer ends in WAIT_HEADER and notifies exactly what frame p calls for |
| `Session.WriteStatus` | src/context.c:226-235 | send succeeds exactly when the device wrote the whole frame; a write error is returned as is and a short write is IO |
| `Session.Context.New` | src/context.c:68-88 | a new context is closed, has no device calls and no notifications, and its decoder is in WAIT_HEADER with a 1024-byte buffer |
| `Session.Context.Open` | src/context.c:113-129 | on an open context: BUSY and nothing changes; otherwise the device is opened, its result is returned, and the context is open exactly when that succeeded |
| `Session.Context.Close` | src/context.c:137-146 | the context ends closed; the device is closed only if the context was open |
| `Session.Context.NotifyError` | src/context.c:36-40 | an error is notified exactly when the error callback is set |
| `Session.Context.NotifyNewMessage` | src/context.c:30-34 | a message is notified exactly when the message callback is set |
| `Session.Context.ProcessSerialFrame` | src/context.c:42-55 | the notifications appended are those of `FrameNotice` for the frame |
| `Session.Context.SendMessage` | src/context.c:192-241 | closed: BAD_FD without touching the device; serialiser error: returned without touching the device; otherwise exactly the wire image of the serialised message is written and the result is `WriteStatus` of the device's answer |
| `Session.Context.ProcessFd` | src/context.c:253-283 | closed: BAD_FD, nothing read, decoder and notifications unchanged; open: decoder, notifications, return value and reads are those of `Receive` |
| `Session.Context.ProcessByte` | src/context.c:275-281 | one turn of the loop moves the decoder by `Step` and appends the `Dispatch` of its result |
| `Session.Context.WaitAndProcess` | src/context.c:295-307 | closed: BAD_FD, device untouched; a failed wait is returned with nothing read; a successful wait is followed by exactly one `ProcessFd` pass |

## Left out

- The serial device (`src/serial-device-posix.c`) is not part of this model. Its open, read, write and wait results are parameters. The bytes of a write appear only as the recorded `DeviceWrite` call.
- `smp_context_set_serial_config` and `smp_context_get_fd` forward to the device and are not modelled.
- The wait of `wait_and_process` is modelled only as success or failure. Its timeout semantics, and a positive value it might return (which the C code would return unchanged), are not represented.
- Allocation failures (the NO_MEM paths of encode, decoder creation, context creation and send) and all freeing are left out. This includes `smp_serial_protocol_decoder_free` and `smp_context_free`. The latter frees the decoder with `free` rather than `smp_serial_protocol_decoder_free`, so an owned decoder buffer leaks (src/context.c:100); this is a resource issue, not protocol behaviour.
- Message serialisation (`smp_message_get_encoded_size`, `smp_message_encode`, `smp_message_init_from_buffer`) is not part of this model. The serialiser's outcome is a parameter of `SendMessage`, and deserialisation is a function supplied at construction that may fail.
- The numeric values of the error codes are not part of this model. Errors form a datatype, and `Os(errno)` stands for a negated system error passed through from the device.
- NULL-argument guards (`return_val_if_fail`) are left out because Dafny references are never null. Encode's "allocate for me" request is a null `outbuf`.
- The `default: SMP_ERROR_OTHER` branch of `process_byte` cannot be reached with a three-valued state and is not modelled.
- The C read loop of `process_fd` runs until the device stops delivering bytes. The model reads a finite script of answers; past its end the device answers WOULD_BLOCK. A device that delivers bytes forever, on which the C loop would not return, is not represented.
- `smp_serial_protocol_decoder_init` does not set `offset`, so a decoder made from static storage starts with whatever offset that storage held. The model starts every decoder at offset 0. Every frame starts with START, which resets the offset, so no result depends on this.
- The frame handed to the message callback is an address inside the decoder's buffer and is valid only until the next byte. The model passes a copy of the bytes.
- The `userdata` argument and the context argument of the callbacks are not modelled.
- Integer widths (`size_t`, `ssize_t`, `int`) are unbounded in the model. Negative return codes are `Result`/`Status` values.
- FrameDecoder.Step: differs from the code in two places. An escaped byte that finds the buffer full moves the corrected decoder to IN_FRAME, whereas as written it stays in IN_FRAME_ESC (second row of Findings). END also rejects a frame that lost a byte to TOO_BIG, whereas as written it accepts the truncated buffer when its last byte happens to be the checksum of the rest (third row of Findings). The first correction copies what the code itself does in IN_FRAME: there a full buffer does not block START, which restarts the frame (src/serial-protocol.c:88-92, 123-126). `StepAsWritten` and `FeedAsWritten` model the code as written.
- FrameDecoder.Decoder.ProcessByte: follows the corrected `Step` in both cases. Its `overflowed` field has no counterpart in the C structure.
- FrameDecoder.Decoder.ProcessByteInFrame: follows the corrected `Step`. Its END rejects a frame that lost a byte to TOO_BIG, where src/serial-protocol.c:101-117 accept it when the last stored byte is the checksum of the rest; its TOO_BIG branch also sets `overflowed`, which the C structure lacks.
- FrameDecoder.Feed: folds the corrected `Step`, so it rejects END after a loss and leaves IN_FRAME_ESC on an escaped byte that finds the buffer full, as process_byte as written does not. `FeedAsWritten` is the run of the code as written, and `FeedAgreesWithoutOverflow` says where the two coincide.
- Session.Receive: runs the corrected decoder. After the IN_FRAME_ESC wedge, the program as written reports TOO_BIG to the error callback for every later byte and never delivers another frame; the model does not. Likewise a truncated oversized frame reaches the message callback in the program but not in the model.
- Session.Context.ProcessFd: drives the corrected decoder, with the same two differences as `Session.Receive`.
- Session.Context.ProcessByte: moves the decoder by the corrected `Step`, with the same two differences as `Session.Receive`.
- Session.Context.WaitAndProcess: runs one `ProcessFd` pass, so it drives the corrected decoder too, with the same two differences as `Session.Receive`.
- Codec.Encode: sizes the output with the corrected `ComputeFrameSize` rather than `compute_payload_size`, so its overflow check and allocation cover the whole frame (first row of Findings). `ComputePayloadSize` models the size as written.

## Findings

| source | as written | input that shows it | evidently intended | confidence | as-written member | corrected member |
|---|---|---|---|---|---|---|
| src/serial-protocol.c:36-51 | `compute_payload_size` counts an escape for each magic payload byte but not for the checksum. Encode allocates, or checks the caller's `outsize` against, that size and then writes one byte more when the checksum is magic | payload `[0x10]`: size 5 is computed, 6 bytes `10 1B 10 1B 10 FF` are written | the size covers the stuffed checksum too, so no frame is written past the buffer | high (not executed) | `Codec.PayloadSizeTooSmallForStartPayload` | `Codec.ComputeFrameSize` |
| src/serial-protocol.c:232-236 | in IN_FRAME_ESC with a full buffer the byte is rejected with TOO_BIG and the state stays IN_FRAME_ESC. The next byte is then also an escaped byte that does not fit, so the decoder answers TOO_BIG to every byte forever, START included, and never delivers another frame | decoder of buffer size 1 fed `10 01 1B`, then any stream | the overflow burst ends at the next START, as it does in IN_FRAME, so the decoder resynchronises | medium (not executed) | `FrameDecoder.AsWrittenEscapedOverflowNeverRecovers` | `FrameDecoder.ResyncFromAnyState` |
| src/serial-protocol.c:97-126 | a data byte that finds the buffer full is rejected with TOO_BIG but the frame stays open and nothing records the loss. On END the truncated buffer is checked as if it were the whole frame, and it is accepted when its last byte is the checksum of the bytes before it | buffer size 2 fed `10 00 00 07 07 FF`, the frame of payload `[0x00, 0x00, 0x07]`: the result is TOO_BIG twice, then the frame `[0x00]` is delivered | a frame that lost a byte is never delivered; END rejects it | medium (not executed) | `FrameDecoder.AsWrittenTruncatedFrameAccepted` | `FrameDecoder.OversizedFrameRejected` |
