# Telemetry frame assembler of the serial receiver

This project models the receiving side of the serial link in
`src/nucleo_communicate/protocol.py`. A host sends the one-byte request
`0x01` to the device. The device answers with an 8-byte frame of four
little-endian 16-bit fields: `flex1`, `flex2`, `current`, `voltage`. The
receiver assembles the frame byte by byte as the transport delivers chunks of
any size. A byte whose position since the last request is `n` goes into field
`n / 2`: into its low half when `n` is even, into its high half when `n` is
odd. Bytes after the eighth are ignored until the next request. A second
receiver also offers every filled frame to a downstream channel.

Modules:

- `Wrappers` (wrappers.dfy): the `Option` type used for unset fields.
- `Bits` (bits.dfy): the integer operations the code uses. These are
  `value & 0xFF`, `x << n` and `a | b` on unbounded non-negative integers.
  `|` is defined bit by bit. The lemma that or-ing into zero bits is addition
  gives the decoding equation `field = low + 256 * high`.
- `FrameAssembly` (frame_assembly.dfy): the assembler as values. `Step` is one
  byte and `Feed` is a chunk. `Consistent` is the invariant. `Reference` is an
  independent description of the state after a reset. The lemmas cover
  decoding, chunking, completion and re-offering.
- `Protocol` (protocol.dfy): the classes `RecvBuffer`, `RecvProtocol` and
  `RecvChanProtocol`, with fields updated in place. Each method is proved to
  change the state exactly as `FrameAssembly` says.

The transport is represented by two ghost fields: a `connected` flag set by
`ConnectionMade` and cleared by `ConnectionLost`, and a `written` log of the
bytes sent. The downstream channel is represented by a ghost `offered` log of
frames.

Choices where the code decides:

- Unset fields are `None`, the dataclass default of `RecvBuffer`
  (src/nucleo_communicate/protocol.py:15-18); no numeric sentinel is used.
- `request_data` writes the request byte first and then clears the buffer.
  The model keeps that order. The ghost write log cannot observe the order,
  because nothing else runs in between.
- `request_data` asserts that a transport is attached. It does not return a
  "not connected" error. The model turns that assertion into the precondition
  `connected`.
- `RecvChanProtocol` subclasses `RecvProtocol`. The model holds the base
  receiver in a field `base` and calls it where the subclass calls `super()`.
- Field values are unbounded naturals, as in the code. The invariant proves
  that they stay below 65536.

## Model

| member | source | states |
|---|---|---|
| `Bits.Mask` | src/nucleo_communicate/protocol.py:55 | `value & 0xFF` is a byte congruent to `value` modulo 256, and it is `value` itself when `value` is already a byte |
| `Bits.Shl` | src/nucleo_communicate/protocol.py:55-76 | `x << n` leaves the low `n` bits zero and shifting back gives `x`; `x << 0` is `x` |
| `Bits.Or` | src/nucleo_communicate/protocol.py:58 | bitwise or of `a` and `b` is at least each operand and at most their sum |
| `Bits.OrDisjoint` | src/nucleo_communicate/protocol.py:55-58 | when `a` fits in `k` bits, or-ing `b << k` onto `a` equals adding it |
| `Bits.LittleEndianOr` | src/nucleo_communicate/protocol.py:54-58 | low byte or-ed with the high byte shifted by 8 is `low + 256 * high`, which is below 65536 |
| `FrameAssembly.OrZero` | src/nucleo_communicate/protocol.py:54-72 | `field or 0` is 0 for an unset field and the field's value otherwise (a stored 0 also gives 0) |
| `FrameAssembly.Filled` | src/nucleo_communicate/protocol.py:81-82 | `progress > 7` on the state value; under the invariant it holds iff progress is 8, and then all four fields are set |
| `FrameAssembly.Step` | src/nucleo_communicate/protocol.py:51-79 | below 8, one byte raises progress by exactly one and leaves every field other than field `progress / 2` alone; at 8 or more it changes nothing |
| `FrameAssembly.Feed` | src/nucleo_communicate/protocol.py:84-86 | a chunk raises progress to `min(progress + length, 8)` |
| `FrameAssembly.StepKeepsConsistent` | src/nucleo_communicate/protocol.py:51-79 | one byte keeps `0 <= progress <= 8` and "field k is set iff progress > 2k", so the `is not None` assertions at lines 57, 63, 69 and 75 cannot fail; an even byte stores the byte alone, an odd byte turns the low byte into `low + 256 * high` |
| `FrameAssembly.FeedKeepsConsistent` | src/nucleo_communicate/protocol.py:84-86 | every chunk keeps the invariant |
| `FrameAssembly.FeedFromCleared` | src/nucleo_communicate/protocol.py:45-86 | after a reset, the state after any bytes equals the independent description: progress `min(n, 8)`, field k unset before byte 2k, then the low byte alone, then `low + 256 * high` |
| `FrameAssembly.DecodeFrame` | src/nucleo_communicate/protocol.py:53-76 | eight bytes after a reset fill the frame, and field k is `b[2k] + 256 * b[2k+1]`, in `[0, 65535]` |
| `FrameAssembly.FilledExactlyAtEighthByte` | src/nucleo_communicate/protocol.py:81-82 | after a reset, the frame is filled after the i-th byte iff i >= 8, for every prefix of any byte sequence |
| `FrameAssembly.FeedConcat` | src/nucleo_communicate/protocol.py:84-86 | chunking independence: feeding `a + b` equals feeding `a` and then `b`, from any state |
| `FrameAssembly.ExtraBytesIgnored` | src/nucleo_communicate/protocol.py:77-78 | once the frame is filled, any further bytes leave progress and every field unchanged |
| `FrameAssembly.Offer` | src/nucleo_communicate/protocol.py:106-111 | a chunk offers at most one snapshot: one exactly when the frame is filled after the chunk, and it is the frame after the chunk |
| `FrameAssembly.RepeatedOffer` | src/nucleo_communicate/protocol.py:106-111 | once a chunk has filled the frame, every later chunk before the next reset offers the same single frame again |
| `FrameAssembly.EncodeDecode` | src/nucleo_communicate/protocol.py:53-76 | round trip: four values below 65536 written as little-endian bytes and fed in after a reset fill the frame and come back unchanged |
| `FrameAssembly.DecodeCountingFrame` | src/nucleo_communicate/protocol.py:53-76 | `01 00 02 00 03 00 04 00` decodes to (1, 2, 3, 4) |
| `FrameAssembly.DecodeAllOnesFrame` | src/nucleo_communicate/protocol.py:53-76 | eight `FF` bytes decode to 65535 in every field |
| `FrameAssembly.DecodeChunkedFrame` | src/nucleo_communicate/protocol.py:84-86 | chunks of 3, 2 and 3 bytes leave the same state as the 8 bytes at once |
| `Protocol.RecvBuffer.constructor` | src/nucleo_communicate/protocol.py:13-18 | the buffer holds exactly the four given optional fields, each `None` when not given |
| `Protocol.RecvBuffer.Clear` | src/nucleo_communicate/protocol.py:20-24 | all four fields become unset |
| `Protocol.RecvProtocol.constructor` | src/nucleo_communicate/protocol.py:28-33 | a new receiver has no transport, has written nothing, has progress 0 and all fields unset, and satisfies the invariant |
| `Protocol.RecvProtocol.ConnectionMade` | src/nucleo_communicate/protocol.py:35-38 | the transport is attached; progress, fields and the write log are unchanged |
| `Protocol.RecvProtocol.ConnectionLost` | src/nucleo_communicate/protocol.py:40-43 | the transport is detached; progress, fields (the partial frame) and the write log are unchanged |
| `Protocol.RecvProtocol.RequestData` | src/nucleo_communicate/protocol.py:45-49 | with a transport attached, appends exactly the byte `0x01` to the write log and leaves progress 0 with all fields unset, so the buffer is not filled |
| `Protocol.RecvProtocol.AppendData` | src/nucleo_communicate/protocol.py:51-79 | the new state is `Step` of the old one on `value & 0xFF`, and the invariant is kept |
| `Protocol.RecvProtocol.FilledBuffer` | src/nucleo_communicate/protocol.py:81-82 | equals `Filled` of the receiver's state: true iff progress is 8, and then all four fields are set |
| `Protocol.RecvProtocol.DataReceived` | src/nucleo_communicate/protocol.py:84-89 | the new state is `Feed` of the old one on the chunk, and the invariant is kept |
| `Protocol.RecvProtocol.GetBuffer` | src/nucleo_communicate/protocol.py:91-92 | returns a newly allocated buffer holding the current four fields, unset ones as `None` |
| `Protocol.CopyIsDetached` | src/nucleo_communicate/protocol.py:91-92 | a copy from `GetBuffer` keeps its fields through later chunks and a new request |
| `Protocol.RecvChanProtocol.constructor` | src/nucleo_communicate/protocol.py:96-99 | a new forwarding receiver wraps a fresh receiver and has offered nothing |
| `Protocol.RecvChanProtocol.SendBuffer` | src/nucleo_communicate/protocol.py:101-104 | appends the buffer's snapshot to the offered log |
| `Protocol.RecvChanProtocol.DataReceived` | src/nucleo_communicate/protocol.py:106-111 | assembles the chunk like the base receiver, then appends exactly one snapshot to the offered log iff the frame is filled after the chunk, and nothing otherwise |

## Left out

- The channel hand-off in `RecvChanProtocol._send_buffer` (src/nucleo_communicate/protocol.py:101-104) crosses threads. It uses `run_coroutine_threadsafe`, a put with a 0.1 s timeout, and a suppressed timeout error. This is concurrency and timing, so the model records only that a snapshot was offered. A dropped offer is not observable.
- `RecvChanProtocol.__init__` takes an event loop and a channel. They serve only the hand-off and are not modelled.
- `LogProtocol` (src/nucleo_communicate/protocol.py:114-143) only logs its callbacks.
- The logging calls, and the `super()` callbacks of the asyncio base class, do nothing that the model can observe.
- The serial transport (`SerialTransport.write`) is foreign I/O. It becomes the ghost `connected` flag and the ghost `written` log.
- `Protocol.RecvProtocol.RequestData`: when no transport is attached, the code fails its assertion with an exception. The model requires a transport instead of modelling that failure.
- The plotting script `src/nucleo_communicate/plot_anime.py` is not modelled. It covers the animation, float scaling, channel polling and the sliding window.
- The entry point `src/nucleo_communicate/scripts.py` is not modelled. It is an endless request loop on a real serial port.
