# The protocol engine of an HTTP/3 library, modelled and proved in Dafny

The library's protocol engine consists of four stateful components that do no input or output of their own. This
project models all four and proves what they keep over whole runs.

**Frames.** A variable-length integer codec (section 16 of RFC 9000), an HTTP/3 frame codec (section 7 of RFC 9114)
and an incremental parser that is fed chunks of bytes. `Varint.dfy` ties the shifting and masking code, on machine
words (`Bits.dfy`), to the numbers it denotes. `Parsing.dfy` says what a parser call does; `FrameParser.dfy` is the
parser object, proved to do that. `FrameMeaning.dfy` says what the bytes of any frame mean and what a receiver makes
of every frame sent. `ParserRuns.dfy` shows what the way the input is cut into chunks can and cannot change and that
the buffer stays small, `WireFormat.dfy` that encoded frames come back, `ParserHistory.dfy` that every byte and
every frame is accounted for, `ParserErrors.dfy` what happens after an error, `ParserQuery.dfy` when the look-ahead
query is right.

**Flow control.** Send and receive windows for the connection and its streams. `FlowControl.dfy` says what each
operation does, `FlowController.dfy` is the object. `FlowProperties.dfy` proves what one controller keeps,
`FlowEvents.dfy` what it tells its caller and `Resizing.dfy` what a change of the initial sizes does;
`FlowProtocol.dfy` composes a sender and a receiver over reordering channels and proves credit safety;
`FlowLiveness.dfy` adds the receiver that widens windows when asked to and proves who can send once nothing is in
flight.

**Acknowledgements.** `Acks.dfy` and `AckTracker.dfy` cover ranges, the tracker object and the loop that builds a
frame from the numbers received; `AckCodec.dfy`, `Packets.dfy` and `PacketFields.dfy` the wire formats;
`AckProtocol.dfy` a sender and a receiver over a network that loses, duplicates and reorders; `Rtt.dfy` the
round-trip estimator in whole nanoseconds.

**Streams.** `Streams.dfy` and `StreamState.dfy` cover one stream, `StreamLife.dfy` what its history says about it;
`Manager.dfy` and `StreamManager.dfy` the table of streams with its queue, its dependency lists and its flow
controller; `Scheduling.dfy` the order in which streams are served; `ManagerEffects.dfy` what each operation does,
`ManagerRuns.dfy` identifiers, parents and cleanup over whole runs, `ServerRuns.dfy` what servers accept,
`Overwriting.dfy` when a record is overwritten once frames open streams too, `ManagerRecords.dfy` which records tell
the truth and what outlives them.

A component that updates fields is a class here. Each of its methods is proved equal to a function on the values of
the fields (`Abstract()`), and the theorems are about those functions, so they hold of the methods.

Time is a parameter: a reading of the clock is a natural number, durations are whole nanoseconds, and dividing a
duration rounds down. Where the source walks a hash map, the model walks it in an arbitrary order. A `usize` is 64
bits wide.

## What the code does, where its documentation or a reader may expect otherwise

- The design document says that malformed frames are skipped (`.kiro/specs/wasm-h3-implementation/design.md:276`).
  The code skips a frame only when its payload does not decode. When it meets an unknown frame type or an oversized
  length nothing more is consumed and every later call fails in the same way (`ErrorSticksIff`, `DrainErrorSticksIff`,
  `StuckForever`).
- A call of `parse_frames` that fails drops the frames it had parsed. So the frames that come back before an error
  depend on how the input was cut (`SplitMattersOnError`), by exactly the frames dropped (`FramesBeforeError`,
  `FramesAccounted`).
- `has_complete_frame` reads the buffer as if an acceptable header came next. While a header is awaited it is right
  except exactly for whole frames of an unknown type or an oversized length, which can never be consumed
  (`QueryRightIff`, `QueryWrongOnUnknown`). While a payload is awaited it is never in the buffer, so the right answer is
  no (`AwaitedNeverHeld`); the query says yes in some run exactly for payloads of three bytes or more that the parser
  takes and whose header the buffer has room for (`FalseAlarmIff`).
- Identifiers from 2^62 on are written with their top two bits lost (`RoundTrip`, `Erase`).
- Data refused by a stream's receive window has already been charged to the connection's: a refusal changes nothing
  exactly when the connection itself refuses (`RefusedReceptionUnchangedIff`, `RefusedReceptionCharges`). In the same
  way a resize with a bad stream size has already resized the connection (`FailedResizeUnchangedIff`).
- Data that arrives before the receiver initialised its stream is refused, and the sender is never given that credit
  back; between peers with the same initial windows no other data of a stream that neither side removed, started over
  or used uninitialised is refused (`AdmittedDataAcceptedIff`), and none of a stream that its receiver initialised
  first (`ReceiverFirstNeverLoses`). It costs the stream for good and the connection until the next arrival
  that is taken (`ConnectionShortfall`), so it can silence the stream or the whole connection (`EarlyDeliveryStarves`,
  `EarlyDeliveryStarvesConnection`); `QuietCanSendIff` says exactly when.
- Credit that arrives after a stream was removed makes the stream known again (`LateCreditRecreates`).
- Reserving zero bytes on an unknown stream succeeds and creates the stream's window, although `can_send` says no
  (`GrantedIffCanSend`, `EmptyReservationCreatesStream`).
- A number received without a neighbour is not acknowledged unless it is the largest (`IsolatedNotAcked`).
- Packet numbers are cut to 32 bits on the wire. A packet that never arrived can be taken for acknowledged if and only
  if some number sent is what the header makes of another (`SafeIffSeparate`); numbers below 2^32 are always safe
  (`FittingIsSeparate`), and every number from 2^32 on spoils the run that also sends its low half
  (`TruncationBreaksSafety`).
- Of the four long packet types only `Initial` comes back as itself (`TypeSurvivesIff`). An identifier announced as
  longer than sixteen bytes is neither stored nor skipped, so its bytes are read as what follows (`LongHeaderFields`).
- Data without an end is still accepted after the peer ended its side (`DataAfterRemoteEnd`), and frames received do not
  count as activity, so a stream that only receives is swept as idle (`ActivityIsHistory`, `SweepIff`).
- An end of stream refused by a stream's state has already moved the window and set the flags
  (`RefusedEndStillCharges`, `RefusedEndOfHeaders`, `FailedFrameUnchangedIff`).
- The type requested for a new stream is not what its identifier says, except for a client's bidirectional streams
  (`CreatedTypeIff`; compare section 2.1 of RFC 9000).
- A server counts its identifiers from 0 in the client's number space: no client accepts a stream that a server creates
  (`ClientNeverAccepts`), no server accepts a client's first stream (`FirstStreamNeverAccepted`) or one that arrives
  after a later one (`RecordsAccepted`), and a server that removes nothing overwrites no record exactly when no
  identifier is both created and accepted (`NeverOverwritesIff`, and with removals `OverwritesIff`).
- A frame for an unknown stream opens it, whatever the role and the limit (`FrameOpens`). Most parsed frames name stream
  0 (`ParsedFrameStream`), so one that precedes a client's first stream makes that stream overwrite a record
  (`ParsedDataOverwrites`); a client overwrites a record for no other reason (`ClientOverwritesIff`).
- The first stream that either role creates is stream 0, which the flow controller takes for the connection, so it
  never has windows of its own (`FirstStreamHasNoWindows`, `AlwaysWindowed`).
- `close_stream` marks a record as closed without asking who ended the stream; exactly then a record that is closed and
  not reset may not have been ended by both sides (`AlwaysHonestIff`).
- `cleanup_closed_streams` removes records only. It alone can leave a stream queued or with a window but without a
  record, exactly when it purges one that is (`StepRecordedIff`, `AlwaysRecordedIff`). Unless a frame opens it again, a
  client's stream then keeps its queue entry, its key in the tree and its windows for good, because sweeps only look at
  records (`OrphansStay`, `PurgeLeavesEntry`).
- A priority set for a stream that does not exist yet can leave that stream with two parents later
  (`UnknownPriorityBreaksIt`). The only step that ever does so is the creation, under a parent, of a stream that is
  somebody's child already (`StepSingleParentIff`, `RunSingleParentIff`, `OneParent`).

## Model

| member | source | states |
|---|---|---|
| Varint.RoundTrip | src/protocol/frame.rs:653-694 | Reading a written integer gives it back modulo 2^62, uses exactly the bytes written and ignores what follows, for every 64-bit value. |
| Varint.StrictPrefixIncomplete | src/protocol/frame.rs:653-667 | Every strict prefix of a written integer reads as incomplete. |
| Varint.Minimal | src/protocol/frame.rs:724-734 | No byte string that reads as a value is shorter than `varint_size` of it. |
| Varint.ShortestIsEncoding | src/protocol/frame.rs:653-694 | The written form is the only shortest byte string that reads as the value. |
| Varint.Extend | src/protocol/frame.rs:653-670 | More input never changes an integer that was complete. |
| Varint.ReadsItsOwnBytes | src/protocol/frame.rs:653-670 | An integer is read from the bytes it consumes alone, non-minimal forms included. |
| Varint.ReadIff | src/protocol/frame.rs:653-670 | Reading gives a value and a length exactly when the bytes begin with that value in the form of that length, of the four forms of RFC 9000, minimal or not; without a form nothing is read. |
| Varint.ReadVarint | src/protocol/frame.rs:653-670 | The byte-by-byte loop of shifts and ors on 64-bit words computes the number of RFC 9000 from any cursor position. |
| Varint.WriteVarint | src/protocol/frame.rs:673-694 | The casts, shifts and tag masks write the tag and the value as one number in network order, in the four sizes. |
| Frames.SettingsRoundTrip | src/protocol/frame.rs:621-636 | Settings come back, values modulo 2^62, from bytes written in any iteration order and on top of any settings already read. |
| Frames.PayloadRoundTrip | src/protocol/frame.rs:512-618 | Decoding an encoded payload gives the frame without what the codec drops (stream id, end flag, priority, headers, bits above 2^62). |
| FrameMeaning.PayloadMeansIff | src/protocol/frame.rs:511-636 | For every payload: DATA and HEADERS always decode, to frames with all of it and with nothing of it; CANCEL_PUSH, PUSH_PROMISE, GOAWAY and MAX_PUSH_ID decode exactly to the identifier they begin with, whatever follows; SETTINGS decode exactly when the payload is a list of whole pairs, to the last value of each known code; every other payload is incomplete. |
| FrameMeaning.FrameMeansIff | src/protocol/frame.rs:350-575 | Any whole frame within the limit, whoever wrote it: the parser returns exactly the frame it says and goes on after it; otherwise an unknown code stays and is reported, and a payload that does not decode is skipped. |
| FrameMeaning.HeaderIsJudged | src/protocol/frame.rs:410-446 | An unknown code is reported before the length is there, an oversized length before the payload is, and anything else is waited for. |
| FrameMeaning.HeaderIsAwaited | src/protocol/frame.rs:410-446 | Below two bytes, and until both integers are there, the parser waits and keeps everything. |
| FrameMeaning.ReceivedIff | src/protocol/frame.rs:492-721 | A sent frame is received as exactly that frame which can travel and agrees with it in what the wire carries: identifiers modulo 2^62, the data, the settings. |
| FrameParsers.FrameParser.constructor | src/protocol/frame.rs:289-297 | A new parser awaits a header with an empty buffer, limits 16384 and 65536, and counters at zero. |
| FrameParsers.FrameParser.WithMaxFrameSize | src/protocol/frame.rs:300-308 | The buffer limit is four times the frame limit. |
| FrameParsers.FrameParser.WithConfig | src/protocol/frame.rs:311-319 | Both limits are the caller's. |
| FrameParsers.FrameParser.Clear | src/protocol/frame.rs:342-345 | Empties the buffer and forgets a pending header; limits and counters stay. |
| FrameParsers.FrameParser.ResetStats | src/protocol/frame.rs:327-329 | Only the counters change. |
| FrameParsers.FrameParser.TryParseHeader | src/protocol/frame.rs:410-447 | The header is consumed exactly when it is whole and acceptable; on every other outcome buffer, state and counters are unchanged. |
| FrameParsers.FrameParser.ParseFrame | src/protocol/frame.rs:350-405 | The two-state loop ends with the outcome, state, buffer and counters of looking for one frame in buffer and data, or of an overflow that changes one counter only. |
| FrameParsers.FrameParser.ParseFrames | src/protocol/frame.rs:451-473 | The loop over single-frame calls drains the buffer as the recursive one-shot parse does; frames parsed before an error are counted but not returned. |
| FrameParsers.FrameParser.HasCompleteFrame | src/protocol/frame.rs:476-490 | Says whether the buffer, read as header and payload whatever the state, is long enough. |
| FrameParsers.FrameParser.ParseFramePayload | src/protocol/frame.rs:512-571 | The result for each of the seven frame types, with an error exactly when an integer is cut short. |
| FrameParsers.FrameParser.ParseSettings | src/protocol/frame.rs:621-636 | The cursor loop reads pairs to the end, keeps the last value of each known setting, ignores unknown ones, and fails on a cut pair. |
| FrameParsers.FrameParser.EncodeFrame | src/protocol/frame.rs:493-509 | The bytes are type, length and payload of the frame for some iteration order of its settings. |
| FrameParsers.FrameParser.EncodeFramePayload | src/protocol/frame.rs:574-618 | The payload bytes of each frame type, for the iteration order taken. |
| FrameParsers.FrameParser.EncodeSettingsMap | src/protocol/frame.rs:595-600 | Whatever order the map is walked in, each setting is written once, in that order. |
| FrameParsers.DrainUnfolds | src/protocol/frame.rs:463-470 | One turn of the `parse_frames` loop is one unfolding of the one-shot parse, and makes progress. |
| ParserRuns.ParseOneExtend | src/protocol/frame.rs:350-447 | A frame or an error found in a prefix is found again in any extension, and waiting for more loses nothing. |
| ParserRuns.DrainExtend | src/protocol/frame.rs:451-473 | Draining more input is draining what was there and going on from where that stopped. |
| ParserRuns.ChunksAreOneShot | src/protocol/frame.rs:350-473 | For any chunks: on success the frames, state and buffer are those of parsing the whole input at once; a parse error is the same error, and the frames returned followed by those the failing call dropped are the frames of the whole input, the bytes left followed by the chunks unread its remainder. |
| ParserRuns.ChunkingIndependence | src/protocol/frame.rs:350-473 | Two splits of one input on which every call succeeds give the same frames, the same state and the same buffer. |
| ParserRuns.FramesBeforeError | src/protocol/frame.rs:463-470 | In every run the frames returned are those of parsing the chunks before the failing one at once; after a parse error they are all the frames of the input exactly when the failing call had parsed none. |
| ParserRuns.SplitMattersOnError | src/protocol/frame.rs:463-470 | An empty data frame and an unknown type, fed at once and in two chunks: the same error, no frame returned and one frame returned. |
| ParserRuns.SettledIsSmall | src/protocol/frame.rs:386-391 | After a successful call the buffer holds less than the larger of 16 bytes and the frame limit. |
| ParserRuns.SmallChunksNeverOverflow | src/protocol/frame.rs:451-459 | Chunks that leave room for that residue never overflow the buffer, over any number of calls. |
| ParserRuns.SmallChunksSucceedIff | src/protocol/frame.rs:350-473 | With such chunks feeding reports exactly the error, or none, of parsing the whole input at once. |
| WireFormat.FrameRoundTrip | src/protocol/frame.rs:410-509 | An encoded frame followed by anything comes back without what the codec drops if its payload is within the limit, and otherwise is refused as too large and left in the buffer. |
| WireFormat.SerializedSizeBounds | src/protocol/frame.rs:216-232 | The announced serialized size is never below the length of the encoding, and equal exactly for data frames, eight-byte identifiers, empty settings and headers without text. |
| WireFormat.EstimateSurplus | src/protocol/frame.rs:216-231 | By how much the estimate is too high: by the text of the headers, by the bytes a short identifier saves, and by at most fourteen bytes a setting, exactly that if all values are below 64. |
| WireFormat.SequenceRoundTrip | src/protocol/frame.rs:451-636 | A list of encoded frames, cut into any chunks and with settings in any order, comes back in order from a new parser, which ends empty, unless a call overflows the buffer, which is the only error possible. |
| WireFormat.SmallChunksRoundTrip | src/protocol/frame.rs:451-636 | With chunks that the buffer always has room for no call overflows, so the list comes back. |
| ParserHistory.BytesConserved | src/protocol/frame.rs:327-473 | Over any mix of parsing, clearing and resetting, errors included: bytes counted are those of whole frames taken, of the pending header and of the buffer, and frames counted are the taken ones that decode, once what was cleared and what was reset is accounted for; and the input since the last `clear` is exactly these bytes in order. |
| ParserHistory.FramesAccounted | src/protocol/frame.rs:327-473 | Over any such mix the frames parsed are those returned and those lost in failing calls, and callers got exactly the frames parsed, in order, if and only if none was lost. |
| ParserHistory.OverflowIff | src/protocol/frame.rs:350-473 | A call overflows exactly when its data does not fit the buffer, to the last byte, and then changes that counter only; every other failure adds one parse error. |
| ParserHistory.ErrorsCounted | src/protocol/frame.rs:327-473 | Over any run the two error counters are the numbers of calls since the last reset that failed in the two ways. |
| ParserHistory.Unambiguous | src/protocol/frame.rs:410-447 | Of two ways to read one input as well-formed frames, one continues the other. |
| ParserErrors.ErrorSticksIff | src/protocol/frame.rs:364-447 | A failing `parse_frame` leaves the parser stuck with its error exactly when a header is awaited and the one in the buffer is unacceptable, and then nothing is consumed; otherwise exactly one whole frame was, and its payload does not decode. |
| ParserErrors.DrainErrorSticksIff | src/protocol/frame.rs:463-470 | The same for a failing `parse_frames`: stuck exactly when the input, after a payload that is awaited and decodes, is a list of well-formed frames that decode followed by a header that is unacceptable; every frame taken was then parsed and dropped. Otherwise one frame more was taken, and its payload does not decode. |
| ParserErrors.StoppedIff | src/protocol/frame.rs:451-473 | The drain loop stops at an unacceptable header exactly when the input has that form. |
| ParserErrors.StuckForever | src/protocol/frame.rs:425-440 | Once stuck, every parsing call of every later run without `clear` fails with the same error or an overflow and the buffer only grows. |
| ParserErrors.ClearUnsticks | src/protocol/frame.rs:342-345 | After `clear` no error sticks. |
| ParserQuery.QueryRightIff | src/protocol/frame.rs:476-490 | For every buffer, while a header is awaited the query agrees with whether a frame is consumed exactly when the buffer does not start with a type and a length of which one is unacceptable and with the bytes that length announces. |
| ParserQuery.QueryWrongOnUnknown | src/protocol/frame.rs:410-490 | One call that feeds an empty frame of unknown type to a new parser leads there. |
| ParserQuery.PayloadNeeds | src/protocol/frame.rs:382-391 | While a payload is awaited a frame is consumed exactly when its length is there. |
| ParserQuery.AwaitedNeverHeld | src/protocol/frame.rs:382-490 | In every run of a new parser, while a payload is awaited it is not in the buffer and no frame can be consumed, so the query is right exactly when it says no. |
| ParserQuery.FalseAlarmIff | src/protocol/frame.rs:382-490 | Some run of a new parser ends with an awaited payload of a given type and length that the query announces, if and only if the length is at least three, within the frame limit, below 2^62, and its shortest header fits the buffer. |
| FlowControl.ThresholdIsHalf | src/protocol/flow_control.rs:339-347 | The single-precision threshold is exactly half the window below 2^24, off by at most 64.5 above, and below the window, so that the update size never underflows. |
| FlowEvents.ThresholdIsSinglePrecision | src/protocol/flow_control.rs:339-342 | The threshold is half, rounded down, of the single-precision number nearest to the initial window, ties to even. |
| FlowControllers.FlowController.constructor | src/protocol/flow_control.rs:71-86 | All connection windows start at the initial size; no stream is known. |
| FlowControllers.FlowController.InitializeStream | src/protocol/flow_control.rs:89-101 | Both windows of the stream become the initial size, replacing any it had; id 0 is refused without a change. |
| FlowControllers.FlowController.RemoveStream | src/protocol/flow_control.rs:104-107 | Both windows of the stream go and nothing else changes. |
| FlowControllers.FlowController.CanSend | src/protocol/flow_control.rs:110-128 | True exactly when the connection, and for a stream its known window, has room. |
| FlowControllers.FlowController.ReserveSendWindow | src/protocol/flow_control.rs:131-179 | New state and events are those of the reservation whose properties are below. |
| FlowControllers.FlowController.ProcessReceivedData | src/protocol/flow_control.rs:182-238 | New state, events and error are those of the specified reception, the connection being charged before the stream is asked. |
| FlowControllers.FlowController.UpdateSendWindow | src/protocol/flow_control.rs:241-273 | The window grows by the increment, or nothing changes and an overflow is reported. |
| FlowControllers.FlowController.UpdateRecvWindow | src/protocol/flow_control.rs:276-308 | The same for receive windows. |
| FlowControllers.FlowController.EffectiveSendWindow | src/protocol/flow_control.rs:329-336 | The largest number of bytes that a reservation on the stream is granted: it is granted exactly up to there. |
| FlowControllers.FlowController.UpdateInitialWindowSizes | src/protocol/flow_control.rs:391-439 | Each level's windows are moved by the difference of the initial sizes and clamped; a bad stream size is refused after the connection was resized. |
| FlowControllers.FlowController.Reset | src/protocol/flow_control.rs:380-388 | The state of a new controller with the current initial sizes. |
| FlowProperties.ReserveAllOrNothing | src/protocol/flow_control.rs:131-179 | A refused reservation changes nothing; a granted one takes the bytes from both levels, counts them, and touches no other stream. |
| FlowProperties.GrantedIffCanSend | src/protocol/flow_control.rs:110-179 | Reservation and `can_send` agree exactly when it is not the case that no bytes are asked for on an unknown stream. |
| FlowProperties.EffectiveWindowIsLargest | src/protocol/flow_control.rs:110-336 | A reservation is granted exactly up to the effective window; so `can_send` allows exactly that much, except that it never allows anything, not even no bytes, on an unknown stream. |
| FlowEvents.ReserveReports | src/protocol/flow_control.rs:131-179 | A blocked reservation names the level that blocks, the connection first, with its window and the bytes asked for; a granted one names exactly the windows it used up. |
| FlowEvents.ReceiveCharges | src/protocol/flow_control.rs:182-238 | Data that both levels have room for is taken from those two windows and no other; a refusal names the level. |
| FlowEvents.ReceiveReports | src/protocol/flow_control.rs:182-238 | Updates are asked for exactly at windows down to the threshold, the stream first, by what is missing from the initial window. |
| FlowEvents.AskedUpdateRestores | src/protocol/flow_control.rs:182-347 | An update asked for takes its window back to the initial size and leaves every other as it is. |
| FlowEvents.CreditIff | src/protocol/flow_control.rs:241-308 | Credit is accepted exactly up to 2^31 - 1, then adds to one window and touches nothing else; otherwise nothing changes. |
| FlowEvents.EnterAndLeave | src/protocol/flow_control.rs:89-107 | A stream enters with both windows at the initial size, 0 excepted, and leaves with both; no other stream is touched. |
| FlowProperties.EmptyReservationCreatesStream | src/protocol/flow_control.rs:145-160 | In that case the reservation turns `can_send` from no to yes. |
| FlowProperties.LateCreditRecreates | src/protocol/flow_control.rs:104-273 | Credit for a removed stream makes it known again with that credit as its window. |
| FlowProperties.RefusedReceptionUnchangedIff | src/protocol/flow_control.rs:188-212 | Received data is refused exactly when the connection or the stream has no room; a refusal changes nothing exactly when the connection refuses, and otherwise leaves the connection charged and the bytes counted. |
| FlowProperties.RefusedReceptionCharges | src/protocol/flow_control.rs:188-212 | One byte for a stream that was never initialised is refused and costs the connection a byte. |
| FlowProperties.FailedResizeUnchangedIff | src/protocol/flow_control.rs:391-424 | A resize fails exactly on a size out of range, and changes nothing then exactly when the connection size is absent, out of range, or the one in force with no window above the limit. |
| FlowProperties.FailedResizeResizes | src/protocol/flow_control.rs:391-424 | A good connection size with a bad stream size fails and resizes the connection. |
| FlowProperties.ShiftNeverTruncates | src/protocol/flow_control.rs:403-436 | For windows within the limit the 32-bit cast of a resize drops nothing. |
| FlowProperties.ShiftUndoneIff | src/protocol/flow_control.rs:403-436 | Moving a window forth and back restores it exactly when it was not clamped. |
| FlowProperties.RunBounded | src/protocol/flow_control.rs:89-439 | Started within the limit, every window stays within it in every run of all operations, resizes and resets included. |
| Resizing.ResizeMovesWindows | src/protocol/flow_control.rs:391-439 | In every state of every new controller a resize succeeds exactly on sizes from 1024 to 2^31 - 1; it sets the initial sizes given, moves every window of their levels by the difference, clamped, in both directions, keeps the streams known, and leaves a level without a size alone. |
| Resizing.ResizeUndoneIff | src/protocol/flow_control.rs:391-439 | Asking for the former sizes gives back the former state exactly when they are allowed and no window of the levels resized was clamped. |
| FlowProperties.ConnectionConserved | src/protocol/flow_control.rs:131-388 | In every run without a resize, window left plus bytes sent (or received) equals what the window started with, or was last reset to, plus the credit accepted since, on error paths too. |
| FlowProperties.StreamsConserved | src/protocol/flow_control.rs:89-273 | In every such run of a new controller the bytes counted as sent since the last reset are those sent on the connection itself, plus, over the known streams, the initial window and the accepted increments minus the window left, plus what streams removed or initialised again had spent by then. |
| FlowProtocol.AdmittedDataAcceptedIff | src/protocol/flow_control.rs:131-238 | Of the data that the sender's controller admitted for the connection and for undisturbed streams (whose windows neither side removed, started over, or used uninitialised), the receiver's accepts exactly that of the connection and of streams it has initialised, and empty data; the connection is charged for all of it. |
| FlowProtocol.CreditNeverOverflows | src/protocol/flow_control.rs:241-273 | For these, credit that the receiver granted never takes the sender's window over the limit. |
| FlowProtocol.CreditSafety | src/protocol/flow_control.rs:89-308 | In every reachable state of two controllers with equal initial windows and reordering channels, with data arriving, either side initialising a stream first, removing it, or using one it has not initialised, at any time: receive window = send window + data in flight + credit in flight for the connection, and, with the data refused added, for each undisturbed stream; hence the two facts above always. |
| FlowProtocol.ReceiverFirstNeverLoses | src/protocol/flow_control.rs:89-238 | Of a stream that the receiver initialised before the sender did, as `create_stream` does for the data that comes back, no data is refused in any later state in which the stream is undisturbed, and all that is in flight would be taken. |
| FlowLiveness.EagerDelivery | src/protocol/flow_control.rs:182-238 | With updates applied at once, an arrival refills each window it drained below the threshold and touches no other stream; it takes from the connection without refilling it exactly when the data comes before its stream is initialised. |
| FlowLiveness.EagerInvariant | src/protocol/flow_control.rs:182-347 | In every state so reached, data arriving at any time and either side initialising a stream first, credit is conserved, the windows of initialised streams are above the threshold, and no window is above its initial size. |
| FlowLiveness.ConnectionShortfall | src/protocol/flow_control.rs:182-238 | In every such state the connection's receive window is what it was after the last arrival that was not refused, which is above the threshold, less the bytes refused since; so it is above the threshold exactly when these are few enough. |
| FlowLiveness.QuietCanSendIff | src/protocol/flow_control.rs:110-238 | With nothing in flight a stream can send a number of bytes exactly when the receiver's connection window and its window for the stream, less the data of the stream refused, have room for it. |
| FlowLiveness.QuietMeansSendable | src/protocol/flow_control.rs:110-128 | If no data arrived early, with nothing in flight every send window exceeds the threshold, so every stream can send more than the threshold. |
| FlowLiveness.NoDeadlock | src/protocol/flow_control.rs:182-347 | In any order of arrivals, early ones included, only boundedly many are possible; when none is left nothing is in flight, and each stream can send exactly what `QuietCanSendIff` says. |
| FlowLiveness.TimelyNeverDeadlocks | src/protocol/flow_control.rs:182-347 | If no data arrives before its stream is initialised, every stream can then send more than a threshold. |
| FlowLiveness.ReachableNeverDeadlocks | src/protocol/flow_control.rs:131-347 | The same from every state reached from the start of a connection with positive initial windows and no early data. |
| FlowLiveness.ReceiverFirstIsTimely | src/protocol/flow_control.rs:89-238 | If every stream is initialised by its receiver before its sender, no data is early, so the results about timely arrivals hold of every such run. |
| FlowLiveness.EarlyDeliveryStarves | src/protocol/flow_control.rs:197-212 | For all positive initial windows, the stream's at most the connection's, there is a run in which one early message leaves nothing in flight, a full stream window at the receiver that asks for no update, and a sender that can send nothing on the stream. |
| FlowLiveness.EarlyDeliveryStarvesConnection | src/protocol/flow_control.rs:188-212 | For all positive initial windows, the connection's at most the stream's, there is a run in which one early message leaves nothing in flight and no window of the connection on either side, so that nothing can be sent at all. |
| StableSort.SortSorts | src/protocol/stream.rs:718-725 | The sort used for ranges, numbers and the queue is sorted for every total preorder. |
| StableSort.SortPermutes | src/protocol/stream.rs:718-725 | It keeps every element as often as it was there. |
| StableSort.SortStable | src/protocol/stream.rs:718-725 | It keeps the order of elements that the order does not separate. |
| Acks.AddRangeAcks | src/transport/packet.rs:339-348 | Adding a range acknowledges its numbers and no others and leaves the ranges sorted and bounded. |
| Acks.IsolatedNotAcked | src/transport/packet.rs:497-517 | A received number is left unacknowledged exactly when it is not the largest and has no received neighbour. |
| AckTrackers.AckTracker.constructor | src/transport/packet.rs:428-435 | Nothing is awaited, nothing was received and no frame was sent. |
| AckTrackers.AckTracker.TrackSent | src/transport/packet.rs:438-442 | A packet that elicits an acknowledgement is awaited under its number; any other changes nothing. |
| AckTrackers.AckTracker.TrackReceived | src/transport/packet.rs:445-452 | The loop keeps the last thousand numbers. |
| AckTrackers.AckTracker.ProcessAck | src/transport/packet.rs:455-469 | What stays is what the frame does not acknowledge; what it does is returned, each packet once, in some order. |
| AckTrackers.AckTracker.GenerateAck | src/transport/packet.rs:472-522 | No frame exactly when nothing was received or the last frame is at most 25 ms old; otherwise a frame that acknowledges exactly the largest number and those with a received neighbour, with sorted and bounded ranges. |
| AckTrackers.AckTracker.AddRanges | src/transport/packet.rs:497-517 | The loop over the sorted numbers, duplicates included, closes ranges so that the acknowledged set is exact. |
| AckTrackers.AckTracker.Largest | src/transport/packet.rs:488 | The largest of the numbers received. |
| AckTrackers.WindowIsLatest | src/transport/packet.rs:445-452 | After any arrivals, duplicates included, the numbers kept are the last thousand arrivals in order. |
| AckTrackers.AwaitedIff | src/transport/packet.rs:438-442 | After any packets were sent, exactly those that elicit an acknowledgement are awaited, the last of each number. |
| AckCodec.EncodeFrame | src/transport/packet.rs:351-373 | The loop writes type, largest number, microseconds, count and ranges as 64-bit words. |
| AckCodec.DecodeFrame | src/transport/packet.rs:376-410 | The loop reads the same layout, with the error of the first field that is cut short. |
| AckCodec.AckRoundTrip | src/transport/packet.rs:351-410 | A frame with any number of ranges comes back with its delay in whole microseconds, whatever follows it. |
| AckCodec.DecodeIff | src/transport/packet.rs:376-410 | Any byte string is refused with the error of the first field that is wrong or cut short, and otherwise has its fields at fixed places. |
| AckCodec.DelayLoss | src/transport/packet.rs:360-390 | Less than a microsecond of the delay is lost exactly when it fits 64 bits of microseconds; otherwise a multiple of 2^64 of them is. |
| AckCodec.Reencode | src/transport/packet.rs:351-410 | Encoding a decoded frame gives back exactly the bytes that were read. |
| Packets.UsedWithin | src/transport/packet.rs:125-222 | A decoded header never claims more bytes than there are, so a packet decodes whenever its header does. |
| Packets.HeaderRoundTrip | src/transport/packet.rs:82-222 | Decoding an encoded header reports its exact length and gives back type, identifiers, version and number as far as the wire carries them. |
| Packets.PacketRoundTrip | src/transport/packet.rs:256-282 | A packet comes back with payload and identifiers, its number modulo 2^32 and every long type turned into `Initial`. |
| Packets.TypeSurvivesIff | src/transport/packet.rs:34-222 | Decoding an encoded header gives back its type exactly for `Initial`, `OneRTT` and `VersionNegotiation`. |
| PacketFields.TypeIff | src/transport/packet.rs:34-45 | The top four bits of the first byte decide the type, and which bytes are refused. |
| PacketFields.LongHeaderErrors | src/transport/packet.rs:146-184 | A long header is refused exactly when version or identifiers are cut short, with the error of the first that is. |
| PacketFields.LongHeaderFields | src/transport/packet.rs:146-222 | Otherwise it holds version, two identifiers of any length up to sixteen, filled up with zeros, and the number, each where the lengths put it; a longer identifier is neither stored nor skipped, and without room for a number the header ends before it. |
| PacketFields.ShortHeaderIff | src/transport/packet.rs:185-193 | A short header is refused exactly below seventeen bytes, and holds the identifier and the number. |
| PacketFields.NegotiationIff | src/transport/packet.rs:194-212 | A version negotiation is refused exactly below six bytes; an identifier that does not fit is passed over. |
| PacketFields.FirstByte | src/transport/packet.rs:18-31 | The first byte of an encoded header, type by type. |
| PacketFields.ArrivesAsIff | src/transport/packet.rs:82-222 | An encoded header arrives as exactly that header which the wire can carry and which agrees with it. |
| AckProtocol.AlwaysPartitioned | src/transport/packet.rs:438-469 | In every run, whatever the numbers, the tracked packets are those returned, each once, and those still awaited; and only numbers seen on the wire are acknowledged. |
| AckProtocol.AckSafety | src/transport/packet.rs:438-522 | Under any loss, duplication and reordering, with fresh numbers none of which is the 32-bit truncation of another, every packet returned as acknowledged arrived. |
| AckProtocol.FittingIsSeparate | src/transport/packet.rs:118-119 | Numbers below 2^32 meet that condition. |
| AckProtocol.OnWireIsDecoded | src/transport/packet.rs:118-282 | The number that the protocol assumes to arrive is the one the packet codec decodes. |
| AckProtocol.SafeIffSeparate | src/transport/packet.rs:118-522 | The condition is exact: for every set of numbers, all runs that send only these are safe if and only if none is the truncation of another. |
| AckProtocol.TruncationBreaksSafety | src/transport/packet.rs:118-119 | For every number from 2^32 on there is a run that returns as acknowledged a packet that never arrived. |
| Rtt.RttEstimator.constructor | src/transport/packet.rs:619-625 | No estimate yet and a variation of 250 ms. |
| Rtt.RttEstimator.Update | src/transport/packet.rs:628-654 | The variation is moved by the deviation from the previous estimate and the estimate by the sample, with integer rounding; the first sample sets both. |
| Rtt.RttEstimator.Rto | src/transport/packet.rs:657-660 | Estimate, or 500 ms, plus four variations, and at least 200 ms. |
| Rtt.EstimateBounded | src/transport/packet.rs:628-660 | After any samples the estimate lies between the smallest and the largest, the variation is at most half the first or the spread, the minimum is the smallest, and the timeout is at least 200 ms. |
| Rtt.TimeoutBounded | src/transport/packet.rs:628-660 | After any samples the timeout is at least the smallest sample, the estimate and four variations, and 200 ms, and at most 200 ms or the largest sample and four times the bound on the variation. |
| Rtt.FirstTimeouts | src/transport/packet.rs:628-660 | Before any sample the timeout is 1.5 s; after the first it is three times the sample, up to rounding, or 200 ms. |
| Rtt.SampleMoves | src/transport/packet.rs:628-653 | A sample moves the estimate an eighth of the way to itself and the variation a quarter of the way to its distance from the estimate before, up to less than a nanosecond. |
| Rtt.DistanceDecays | src/transport/packet.rs:651 | Under a constant sample the distance of the estimate after n updates is (7/8)^n of what it was, up to 7 ns. |
| Rtt.SmoothApproaches | src/transport/packet.rs:651 | With a constant sample the estimate gets strictly closer until it is at most 7 ns below, and then stays. |
| Rtt.Converges | src/transport/packet.rs:628-660 | From any estimate a constant sample leads, within an explicit number of updates and for good, to an estimate at most 7 ns below it, a variation of at most 7 ns and a timeout from 7 ns below to 28 ns above it (or 200 ms). |
| Streams.StepIsEdge | src/protocol/stream.rs:176-379 | Every change of state made by a method is an edge of `can_transition_to`. |
| Streams.RunHonest | src/protocol/stream.rs:176-347 | In every run of a new stream, a half-closed or closed state agrees with the end-of-stream flags, a closed stream that was not reset was ended by both sides, and a reset stream is closed with a code. |
| Streams.DoneIsForever | src/protocol/stream.rs:226-347 | Once the local side is done it stays done, closed stays closed, and the bytes sent never change again. |
| Streams.SendingIsAtomic | src/protocol/stream.rs:293-347 | A send that fails changes nothing; it succeeds exactly in the sending states with window for data, or with headers not yet sent. |
| Streams.RefusedEndStillCharges | src/protocol/stream.rs:190-243 | A data frame fails exactly when it does not fit the window, unchanged then, or ends the stream outside the receiving states; then the window is charged and the flag set nevertheless. |
| Streams.RefusedEndOfHeaders | src/protocol/stream.rs:180-243 | A headers frame fails exactly when it ends the stream outside the receiving states, and then both flags are set nevertheless. |
| Streams.FailedFrameUnchangedIff | src/protocol/stream.rs:176-243 | A failing frame leaves the record as it was exactly when its data did not fit, or it carried nothing new: no data and flags that were set already. |
| Streams.WindowsBalanced | src/protocol/stream.rs:176-379 | In every run, error paths included, send window plus bytes sent equals the start plus accepted credit, and receive window plus data taken in likewise. |
| StreamLife.SucceedsIff | src/protocol/stream.rs:183-379 | When each operation of a stream succeeds, in terms of states and windows. |
| StreamLife.ErrorsName | src/protocol/stream.rs:183-379 | What a failing operation reports: the state it found, or else the limit it met. |
| StreamLife.HeadersOnce | src/protocol/stream.rs:293-318 | Headers are sent at most once in any run, and the flag says whether they were. |
| StreamLife.StateIsHistory | src/protocol/stream.rs:129-347 | In every run of a new stream the state is determined by which of four things succeeded: opening, this side's end, the peer's end, a reset. |
| StreamLife.TableIsSteps | src/protocol/stream.rs:403-436 | Between the states that streams take, the transition table allows exactly the moves that some operation makes. |
| StreamLife.ReservedTransitions | src/protocol/stream.rs:403-436 | What the table allows from and to the reserved states, which no operation enters. |
| StreamLife.NothingAfterLocalEnd | src/protocol/stream.rs:246-347 | A successful send with the end flag takes an open stream to half closed and a half-closed one to closed; in every later run nothing is sent and every attempt fails. |
| StreamLife.NothingAfterRemoteEnd | src/protocol/stream.rs:183-243 | A frame whose end is accepted moves the state the other way, and in every later run no second end is accepted. |
| StreamLife.DataAfterRemoteEnd | src/protocol/stream.rs:202-219 | Data without an end is still taken after the peer's end, window permitting. |
| StreamLife.ResetIsFinal | src/protocol/stream.rs:268-274 | A reset closes the stream in any state and for good, with its code; only another reset changes the code. |
| StreamLife.ActivityIsHistory | src/protocol/stream.rs:268-379 | The last activity is that of the last successful opening, sending, window update or reset; frames received do not count, nor are their bytes ever added up. |
| StreamLife.EventsAre | src/protocol/stream.rs:183-229 | The events of a frame taken: its headers if they are the first, its data, its end, in this order. |
| StreamLife.ReportsAreExact | src/protocol/stream.rs:183-229 | Over any run the events hand over the data of the frames taken, each byte once and in order; the peer's end is reported exactly once if it succeeded; headers at most once. |
| StreamStates.StreamState.constructor | src/protocol/stream.rs:131-152 | An idle stream with full windows, clear flags and the type its identifier says. |
| StreamStates.StreamState.ProcessFrame | src/protocol/stream.rs:176-223 | New record, events and error for each frame type, data over the window being refused unchanged. |
| StreamStates.StreamState.UpdateStateOnEndStreamReceived | src/protocol/stream.rs:226-243 | The state moves from the two receiving states and nothing else changes; from every other state it is an error without a change. |
| StreamStates.StreamState.UpdateStateOnEndStreamSent | src/protocol/stream.rs:246-265 | The flag is set on every path; the state moves from the two sending states only. |
| StreamStates.StreamState.Reset | src/protocol/stream.rs:268-274 | Closed, marked as reset, with the code. |
| StreamStates.StreamState.Open | src/protocol/stream.rs:277-290 | Only an idle stream opens. |
| StreamStates.StreamState.SendHeaders | src/protocol/stream.rs:293-318 | Headers go out once, in a sending state, and may end the stream. |
| StreamStates.StreamState.SendData | src/protocol/stream.rs:321-347 | Data moves from the window to the bytes sent, in a sending state with window for it, and may end the stream. |
| StreamStates.StreamState.UpdateSendWindow | src/protocol/stream.rs:350-363 | The window grows unless that overflows 32 bits, and then nothing changes. |
| StreamStates.StreamState.UpdateRecvWindow | src/protocol/stream.rs:366-379 | The same for the receive window. |
| StreamManagers.StreamManager.constructor | src/protocol/stream.rs:519-537 | Empty tables, counters by role, a limit of 100 streams, a timeout of five minutes, and a controller of its own. |
| StreamManagers.StreamManager.CreateStream | src/protocol/stream.rs:540-583 | Every table after the call, with limit and role checked before the identifier is taken. |
| StreamManagers.StreamManager.CreateStreamWithPriority | src/protocol/stream.rs:649-676 | A created stream is also queued and becomes its parent's last child; a failed creation changes no table. |
| StreamManagers.StreamManager.UpdateStreamPriority | src/protocol/stream.rs:679-711 | The first queue entry of the stream changes in place, the stream leaves every list of children and joins its new parent's. |
| StreamManagers.StreamManager.UpdateEntry | src/protocol/stream.rs:685-694 | The search changes the first entry of the stream and no other. |
| StreamManagers.StreamManager.DropFromAll | src/protocol/stream.rs:698-700 | Every list of children loses the stream, whatever order the lists are visited in. |
| StreamManagers.StreamManager.GetSendableStreams | src/protocol/stream.rs:714-736 | The result is that of sorting the queue and keeping what can send, of which the two scheduling theorems speak. |
| StreamManagers.StreamManager.TakeReady | src/protocol/stream.rs:728-734 | The loop keeps exactly the entries whose stream is there, can send and has window left, in order. |
| StreamManagers.StreamManager.CanAcceptStream | src/protocol/stream.rs:753-776 | True exactly for an identifier of the other role above all accepted ones and within the limit. |
| StreamManagers.StreamManager.AcceptStream | src/protocol/stream.rs:779-800 | An accepted stream is recorded as idle with windows and raises the largest remote identifier to its own. |
| StreamManagers.StreamManager.CloseStream | src/protocol/stream.rs:596-605 | The record is marked closed and the windows go; an unknown stream is an error without a change. |
| StreamManagers.StreamManager.ProcessFrame | src/protocol/stream.rs:608-626 | A frame works on the record of its stream, opening one first if there is none; a frame without a stream changes nothing. |
| StreamManagers.StreamManager.CleanupClosedStreams | src/protocol/stream.rs:639-641 | The records of closed streams go, and only they. |
| StreamManagers.StreamManager.SetMaxConcurrentStreams | src/protocol/stream.rs:644-646 | Only the limit changes. |
| StreamManagers.StreamManager.CleanupIdleStreams | src/protocol/stream.rs:803-838 | Removing the expired streams one by one, in any order, equals forgetting them all at once in every table; before thirty seconds nothing happens. |
| StreamManagers.ForgetOneMore | src/protocol/stream.rs:821-835 | Forgetting one stream after others is forgetting all of them together, in records, queue, lists and both window maps. |
| Scheduling.FilterSort | src/protocol/stream.rs:718-734 | Sorting the queue and then filtering is filtering and then sorting. |
| Scheduling.ScheduleIsStableSort | src/protocol/stream.rs:714-736 | The streams served are the eligible entries, each as often as queued: Urgent before High before Normal before Low before Background, among equals the heavier first, with equal weight in the order queued. |
| Scheduling.EligibleIff | src/protocol/stream.rs:728-734 | Eligible are exactly the entries of recorded streams that are open or half closed by the peer and have window left. |
| Scheduling.ServedIff | src/protocol/stream.rs:714-736 | A stream is served exactly when it is queued, recorded, open or half closed by the peer, and has window left. |
| ManagerEffects.IdentifierBits | src/protocol/stream.rs:61-83 | The two low bits of an identifier say who opened the stream and whether it goes both ways. |
| ManagerEffects.CreateIff | src/protocol/stream.rs:540-583 | A stream is created exactly below the limit and in one's own role, the limit being looked at first; it is recorded open and unused under the next identifier, with windows unless that is 0, and nothing else changes. |
| ManagerEffects.CreatedCanSend | src/protocol/stream.rs:540-583 | A created stream can send its initial window and not a byte more. |
| ManagerEffects.AcceptIff | src/protocol/stream.rs:753-800 | A stream is accepted exactly if its identifier is of the other role, above every one accepted before, and within the limit; it is recorded idle, and nothing can be sent on it before it is opened. |
| ManagerEffects.HundredStreams | src/protocol/stream.rs:519-583 | A new manager of either role hands out 0, 4 and so on up to 396, and then reports its limit. |
| ManagerEffects.ForeignIsOne | src/protocol/stream.rs:519-583 | In every run of either role the counter of the other role is the one it started with. |
| ManagerEffects.AlwaysConfigured | src/protocol/stream.rs:519-838 | In every run of either role the manager's controller keeps the configured window size for the connection and for the streams to come. |
| ManagerEffects.PriorityTakesEffect | src/protocol/stream.rs:679-711 | The stream's first entry has the new priority, weight and dependency, every other entry is as and where it was; the stream is its new parent's last child and nobody else's, and the other children are as before. |
| ManagerEffects.CreatedWithPriority | src/protocol/stream.rs:649-676 | The created stream is queued last with its priority and becomes its parent's last child. |
| ManagerEffects.UrgentIsServedFirst | src/protocol/stream.rs:679-736 | A stream that could be served and is made the only urgent one is the next one served. |
| ManagerEffects.CloseThenPurge | src/protocol/stream.rs:596-641 | Closing is possible exactly for recorded streams and silences them; a purge then takes that record and those of other closed streams, and no other. |
| ManagerEffects.SweepIff | src/protocol/stream.rs:803-838 | A sweep, at the earliest thirty seconds after the last, takes exactly the streams that are closed or inactive for longer than the timeout. |
| ManagerEffects.LeftAloneIsSwept | src/protocol/stream.rs:519-838 | A new manager's first stream, left alone, is swept after five minutes and not before. |
| ManagerRuns.CreateFresh | src/protocol/stream.rs:540-583 | A client's created stream takes the next identifier, which no stream had, within the limit; the counter moves on by four. |
| ManagerRuns.AcceptFresh | src/protocol/stream.rs:753-800 | A client's accepted stream has an odd identifier above all accepted before and no stream had it. |
| ManagerRuns.FreshIds | src/protocol/stream.rs:519-583 | Over any client run short of wrapping the counter: identifiers created are 0, 4, 8 and so on, those accepted are odd and strictly increasing, removals notwithstanding. |
| ManagerRuns.InsertionsAreFresh | src/protocol/stream.rs:540-800 | After any such run a step inserts at most one stream, never over a live one and never beyond the limit in force; other steps add none. |
| ManagerRuns.RunRoleCounters | src/protocol/stream.rs:519-583 | In every run of either role the counter in use stays a multiple of four. |
| ManagerRuns.CreatedTypeIff | src/protocol/stream.rs:545-571 | The identifier handed out denotes the requested type exactly for client bidirectional streams. |
| ServerRuns.RecordsAccepted | src/protocol/stream.rs:753-800 | Streams that arrive at a server with room for all of them, in any order and repeatedly: exactly the client-initiated ones above 0 and above every client-initiated one that arrived before are accepted. |
| ServerRuns.FirstStreamNeverAccepted | src/protocol/stream.rs:519-766 | No server accepts the first stream of a client. |
| ServerRuns.ClientNeverAccepts | src/protocol/stream.rs:540-776 | No client accepts a stream that a server created. |
| ManagerRuns.StepKeys | src/protocol/stream.rs:540-838 | The streams recorded after any step are those recorded before it that the step does not remove, and the one it inserts. |
| ServerRuns.NewServerIsNew | src/protocol/stream.rs:519-537 | A new manager in the server role is where the next two rows start: its counter at 0, nothing accepted, nothing recorded. |
| ServerRuns.ServerCounts | src/protocol/stream.rs:540-800 | Over any server run short of wrapping the counter, identifiers created are 0, 4, 8 and so on, and those accepted are positive and at most the largest remote identifier. |
| ServerRuns.NeverOverwritesIff | src/protocol/stream.rs:540-800 | Over a server run that removes nothing, no step overwrites a record exactly when the identifiers created and those accepted are disjoint. |
| ServerRuns.ServerOverwrites | src/protocol/stream.rs:540-800 | A server that accepts stream 4 and creates two overwrites it. |
| Overwriting.FrameStream | src/protocol/frame.rs:194-204 | Which frames speak of a stream, and of which. |
| Overwriting.FrameOpens | src/protocol/stream.rs:608-626 | A frame for a stream without a record adds just that record, whatever the role and the limit, and without windows; a frame for a recorded stream is one step of its record; every other record and table stays. |
| Overwriting.FrameReports | src/protocol/stream.rs:608-626 | The caller gets what the record makes of the frame; a frame that opens its stream is taken exactly if its data fits the initial window, with its events, its end included. |
| Overwriting.OpenedIsAlive | src/protocol/stream.rs:608-626 | The frame that opens a stream may end the peer's side of it at once, but the stream can always still send. |
| Overwriting.FrameWindowedIff | src/protocol/stream.rs:608-626 | Streams that are recorded and not closed keep both windows exactly when the frame opens no stream, or stream 0, or one whose windows were left behind. |
| Overwriting.FrameKeepsRecords | src/protocol/stream.rs:608-626 | Frames keep records honest and leave no stream queued or windowed without a record. |
| Overwriting.LiveIff | src/protocol/stream.rs:540-838 | In any run of either role, frames included, a stream is recorded exactly when some step or frame entered it and no later one removed it. |
| Overwriting.NewManagerIsNew | src/protocol/stream.rs:519-537 | A new manager of either role is where the next two rows start. |
| Overwriting.OverwritesIff | src/protocol/stream.rs:540-838 | After any run of either role short of wrapping the counter, removals and frames included, a stream that enters takes the place of a recorded one exactly when it had entered by something of another kind (a creation, an acceptance, a frame) and was not removed since. |
| Overwriting.ClientOverwritesIff | src/protocol/stream.rs:540-838 | For a client this means: exactly when a frame opened that stream and nothing removed it since. |
| Overwriting.ParsedFrameStream | src/protocol/frame.rs:511-575 | A decoded DATA, HEADERS or PUSH_PROMISE frame names stream 0 whatever its payload, and of the others only GOAWAY names a stream. |
| Overwriting.ParsedDataOverwrites | src/protocol/stream.rs:540-626 | One parsed DATA frame, even one too large for the window, before a client's first stream makes that stream overwrite a record. |
| ManagerRuns.AddChildIff | src/protocol/stream.rs:668-673 | Adding a child keeps parents unique exactly when the stream was nobody's child. |
| ManagerRuns.PrioritizeSound | src/protocol/stream.rs:696-708 | Changing a priority moves a stream and never gives it a second parent. |
| ManagerRuns.OneParent | src/protocol/stream.rs:649-838 | In every client run that changes priorities of streams already created or accepted, each stream has at most one parent. |
| ManagerRuns.StepSingleParentIff | src/protocol/stream.rs:649-838 | Of all steps of either role, exactly the creation under a parent of a stream that is already somebody's child gives a stream a second parent. |
| ManagerRuns.RunSingleParentIff | src/protocol/stream.rs:649-838 | Each stream has at most one parent throughout a run exactly when no step of the run is such a creation. |
| ManagerRuns.UnknownPriorityBreaksIt | src/protocol/stream.rs:679-708 | Such a run exists: two calls that leave stream 0 with two parents. |
| ManagerRuns.CleanupForgetsEverywhere | src/protocol/stream.rs:803-838 | A sweep leaves no trace of an expired stream in records, queue, tree keys, children or window maps; the other entries of queue and lists stay as often and in the order they were, the other records and windows unchanged. |
| ManagerRecords.StepHonestIff | src/protocol/stream.rs:596-605 | Of all steps, exactly the closing of a stream that was neither reset nor ended by both sides leaves a record that is closed without the truth about how it ended. |
| ManagerRecords.AlwaysHonestIff | src/protocol/stream.rs:540-877 | In every run of a new manager, records agree with how their streams ended throughout exactly when no step closes a stream in this way. |
| ManagerRecords.CloseAfterCreateIsAbrupt | src/protocol/stream.rs:540-605 | Closing a stream right after its creation is such a step. |
| ManagerRecords.AlwaysWindowed | src/protocol/stream.rs:540-838 | In every run of either role, a stream that is recorded and not closed has both windows, except for stream 0, which never has any. |
| ManagerRecords.FirstStreamHasNoWindows | src/protocol/stream.rs:540-583 | The first stream of either role is stream 0, recorded and open without windows. |
| ManagerRecords.StepRecordedIff | src/protocol/stream.rs:540-838 | Of all steps, exactly a purge of closed streams of which one is queued or has a window makes the queue or the windows name a stream without a record. |
| ManagerRecords.AlwaysRecordedIff | src/protocol/stream.rs:540-838 | In every run of a new manager, everything queued or with a window is recorded throughout exactly when no step is such a purge. |
| ManagerRecords.OrphansStay | src/protocol/stream.rs:639-838 | Once a client's stream has lost its record, its queue entry, its key in the tree and its windows stay in every later run, sweeps included, and it gets no record again. |
| ManagerRecords.PurgeLeavesEntry | src/protocol/stream.rs:596-676 | A stream created with a priority, closed and purged is such a stream. |

## Left out

- The header compression of `parse_headers` and `encode_headers`: both are stubs in the source, so headers are simply dropped by the codec.
- Header text is measured in characters, which for the source's header names and values are bytes.
- `src/network`, `src/crypto`, `src/client`, `src/server`, `src/config.rs`, `src/error.rs` and the connection and endpoint of `src/transport`: sockets, cryptography, builders and placeholders.
- `LossDetector` and `get_lost_packets`: filters over the tables with one comparison each.
- Getters, statistics and the queries that list streams needing window updates or reacting to back pressure: each is one expression over fields that are modelled.
- ManagerRuns.InsertionsAreFresh: the runs of `ManagerRuns` and `ManagerRecords` hold no frame that opens a stream (src/protocol/stream.rs:608-626); what such frames change for records and windows is the subject of `Overwriting`.
- The flow-control calls that the stream manager passes on to its controller, and the two setters for the idle timeout and pending updates.
- StreamManagers.StreamManager.CreateStream: stream records are values in the manager's table, not objects of the class `StreamState`, so a reference obtained from `get_stream` is modelled as a step on one record (`OnStream`).
- AckTrackers.AckTracker.AddRanges: an acknowledgement frame is a value; `add_range` is a function on it, and `sort`, `sort_by`, `max` and `retain` of the standard library are functions with their promised result.
- AckTrackers.AckTracker.GenerateAck: the check whether a number continues a range is a subtraction here; the addition in the source would overflow for the number 2^64 - 1.
- FlowControllers.FlowController.ProcessReceivedData: byte totals are unbounded, the wrap-around of 64-bit counters is not modelled; the same holds of the parser's and the streams' counters.
- Rtt.RttEstimator.Update: durations are unbounded naturals, so the panics of the source's `Duration` on overflow are not modelled.
- ManagerRuns.FreshIds: the identifier counters wrap at 2^64 in the model, and the theorem is stated for runs too short to reach that.
- Packets.PacketRoundTrip: the time of arrival is a parameter, and the destination identifier, which is never written, comes back absent.
- FlowProtocol.CreditSafety: data flows in one direction, and no window is resized and no controller reset while it does.
- FlowLiveness.NoDeadlock: streams are neither removed nor started over while the eager receiver is at work.
- AckProtocol.AckSafety: the network carries packet numbers and acknowledgement frames; their byte layout is the subject of `AckCodec` and `Packets`.
- Allocation failure, logging, debug strings in errors and creation times.
