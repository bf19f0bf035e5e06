# A model of the vtelem telemetry core

vtelem turns *channels* (named primitives that are emitted at a rate and report
their changes as events) and *messages* (arbitrary bytes) into *frames* that fit
a maximum transmission unit, sends the frames with a length prefix over a byte
stream, and recovers them on the other side. Its work is done by *daemons* that
are started, paused and stopped by controlling threads, in dependency order.

This project models three parts of it and proves what they promise.

* **The wire protocol.** Sender and receiver are separate imperative code that
  must undo each other. Each stateful object of the sender (`ByteBuffer`,
  `Frame`, `ChannelFrame`, `MessageFrame`, `Framer`, `ChannelFramer`,
  `MessageFramer`) and of the receiver (`FrameProcessor`, the cursor-driven
  parsers, `MessageCache`) is a class or a method proved against a function on
  values. The theorems relate those functions to each other:
  - `EndToEnd.MessagesArrive`: a batch of messages, cut into fragments, framed,
    length-prefixed, concatenated, delivered in *any* chunks, re-framed, decoded
    and ingested in *any* order: a message whose key is its own completes exactly
    on its last missing fragment, byte for byte as sent, exactly once, and its
    callbacks are called with it once (`Callbacks.EachCallbackOnce` counts them
    over the whole batch). `EndToEnd.ArrivesExactly` says for which messages that
    holds: those whose fragments can be counted by a 16-bit field.
    `Resends.StreamAnnouncesExactly`: every message sent is announced if and only
    if no two have the same type and checksum. `Cuts.WholeExactly`: fragments of one
    message cut in several ways bring it back if and only if all are of one cut.
  - `Processor.ChunkInvarianceExactly`: whatever came before, the result of the
    stream parser does not depend on how the stream is cut into chunks, if and only
    if the stream has no oversize header or every four-byte window after it reads
    as the same length.
  - `RoundTrips.ChannelFrameRoundTrip` and `RoundTrips.MessageFrameRoundTrip`:
    what the decoder returns, or that it refuses, for every frame the sender
    builds. `Corruption.NoticedExactly` and `ChannelCorruption.ChannelNoticedExactly`:
    exactly which changes of one byte the receiver of a frame does not notice.
    `CrcPolynomial.ChecksumIsDefined`: the checksum is the remainder of the division
    of polynomials that defines CRC-32.
  - `Delivery.FramesDeliver`: greedy packing of channel data and events loses
    nothing, respects the MTU and uses the fewest frames possible.
* **Channels.** `EventLog.LogReplays`: a channel's events chain and replay to its
  value, at every moment of a run if and only if no event was lost
  (`EventLog.LogReplaysExactly`); `EventLog.EventsAreChanges`: its events are its
  changes, each with the value and the time before it; `Emission.EmissionsExactly`:
  it is emitted exactly when its rate has elapsed.
* **Daemons.** `Scheduling.FinishesExactly`: the worklist that performs an
  operation on all daemons runs empty if and only if no daemon that is reached
  depends on itself through any chain, although the worklist grows;
  `Scheduling.FinishedRun`: it then performed exactly what is reachable, once,
  dependencies first.
  `Lifecycle.LifecycleSafety` holds over every interleaving of any number of
  controllers with the worker, and `Lifecycle.MetricsExactly` says what is counted; `Lifecycle.TruthfulExactly` says when the state
  can be trusted, and `Lifecycle.HandleSafeExactly` when the thread handle can be
  missed.

## How it is laid out

One module per file. `Wrappers`, `Sets` and `Sequences` are helpers.
`Primitives`, `Crc`, `CrcPolynomial`, `CrcCheck`, `ByteBuffers` and `Wire` hold
values, checksums, bytes and lists of fields; `Frames`, `Framers`, `MessageFramers`, `Packing` and `ChannelFramers` the
sender; `Processor`, `Registries`, `Parsing`, `MessageCaches` and `Reassembly` the
receiver; `RoundTrips`, `Corruption`, `ChannelCorruption`, `Delivery`, `EndToEnd`,
`Callbacks`, `Resends` and `Cuts` join the two. `Channels`, `EventLog` and `Emission` are about channels,
`Scheduling` and `Lifecycle` about daemons. `dafny verify dfyconfig.toml` verifies
all of them.

## Where the code does not do what one might expect

Each of these is kept as the code has it, and is stated by the lemma or the
contract named.

* After a header above the MTU, the stream parser drops the rest of the chunk
  and never clears the size it read, so later chunks shorter than a header are
  dropped too. Which bytes are lost depends on the chunking
  (`Processor.ChunkingMatters`, `Processor.ChunkInvarianceExactly`).
* The cache asks whether it has a fragment already by looking for the index among
  the names of the entry's own fields, and so never finds it. Its counter counts
  deliveries: a fragment repeated before completion makes the cache mark a message
  complete that it does not hold, and reading it raises (`Reassembly.CompletionExactly`,
  with an input in `Reassembly.RepeatBreaks`).
* A fragment count above 65535 does not fit its field; the failed assignment is
  ignored and the field stays zero, so that the message never completes
  (`EndToEnd.UncountableNeverArrives`, with an input in
  `EndToEnd.UncountableExample`). A message number above 65535 is sent as zero.
* An MTU that leaves exactly no room for message bytes divides by zero; a smaller
  one silently sends nothing (`MessageFramers.MessageFramer.SerializeMessage`).
* A boolean byte above one is read as true and written back as one
  (`Primitives.EncodeDecode`).
* A change event is lost when the event queue holds 256 events; its channel's log
  no longer replays (`EventLog.StepConsistent`, with an input in
  `EventLog.FullQueueLosesEvent`).
* `stop` clears the thread handle after joining, without asking whose it is. With
  two controllers it can clear the handle of a thread that was just created, and
  that thread is never started: the daemon stays starting, whatever is done with
  it (`Lifecycle.RaceIsFinal`), and its state is wrong about that
  (`Lifecycle.TruthfulExactly`). It can also try to join such a thread before it
  was started, which raises (`Lifecycle.JoinMeetsNewThread`).
* Daemons that depend on each other are deferred for ever
  (`Scheduling.CycleNeverFinishes`).
* A message frame of which one byte of the type or the size was changed can be
  taken for good. With type zero its checksum is not looked at
  (`Corruption.InvalidTypeAccepted`). With a size that is one to four too large
  there is no room left for a checksum, and bytes of the checksum are taken for
  bytes of the message (`Corruption.GrownSizeAccepted`). `Corruption.NoticedExactly`
  has the whole list; a change anywhere else is always noticed. In a data or event
  frame a changed identifier can also go unnoticed, if it is that of a channel of
  another size (`ChannelCorruption.ChannelNoticedExactly`, with an input in
  `ChannelCorruption.WiderChannelAccepted`).
* docs/message.md (lines 147-148) says that a message number is only incremented
  for a new payload, and that receivers compare contents. The code increments it
  on every call (`Resends.NumbersAdvance`), and identifies contents by type and
  checksum alone: a second message with the key of a first changes the stored
  number and is never announced, whatever its bytes (`Resends.SameKeySecondLost`).
* Nor does the cache compare what it puts together with that checksum. Fragments of
  one message that two framers cut differently have one key, and bytes that nobody
  sent can be announced under it (`Cuts.WholeExactly`, with an input in
  `Cuts.SplicedExample`).

## Model

| member | source | states |
|---|---|---|
| Primitives.Accept | vtelem/classes/type_primitive.py:60-84 | a primitive takes a value exactly if it is of its kind and in range; a boolean given to an integer becomes 0 or 1; whatever is taken can be stored |
| Primitives.AcceptsBooleans | vtelem/classes/type_primitive.py:66-84 | an integer takes true as one and false as nought, a floating-point type takes no boolean, and only integers take integers |
| Primitives.PrimitiveTable | vtelem/enums/primitive.py:51-131 | the sizes of all types and the ranges of all integer types, as numbers |
| Primitives.DefaultValue | vtelem/enums/primitive.py:163-166 | the default of a type can be stored by it |
| Primitives.DefaultIsZero | vtelem/enums/primitive.py:163-166 | the default of a type is the one value whose bytes are all zero |
| Primitives.FromToBigEndian | vtelem/classes/byte_buffer.py:161-173 | an unsigned number that fits its bytes is read back from them |
| Primitives.ToFromBigEndian | vtelem/classes/byte_buffer.py:115-122 | any bytes read as an unsigned number in range, which writes the same bytes |
| Primitives.DecodeEncodeInteger | vtelem/enums/primitive.py:35-48 | a signed or unsigned integer within the bounds for its width is read back from its two's complement |
| Primitives.EncodeDecodeInteger | vtelem/enums/primitive.py:35-48 | any bytes read as an integer within the bounds for their number, which writes the same bytes |
| Primitives.BoundsAreExact | vtelem/enums/primitive.py:35-48 | an integer is within the bounds of its primitive if and only if some byte pattern of that width denotes it |
| Primitives.DecodeEncode | vtelem/classes/byte_buffer.py:115-173 | for every primitive, writing and reading is the identity on the values it can store |
| Primitives.DecodeHolds | vtelem/classes/byte_buffer.py:115-122 | whatever is read can be stored by the primitive it was read as |
| Primitives.EncodeDecode | vtelem/classes/byte_buffer.py:115-173 | reading and writing restores the bytes if and only if they are not a boolean byte above one |
| Primitives.EncodeAt | vtelem/classes/byte_buffer.py:161-173 | byte k of an integer of n bytes is its digit of base 256 for the power n - 1 - k: the highest comes first, and negative integers are in two's complement |
| Primitives.BooleanBytes | vtelem/classes/byte_buffer.py:115-173 | true is written as one and false as zero, and every byte but zero is read as true |
| Primitives.PatternBytes | vtelem/classes/byte_buffer.py:115-173 | a floating-point pattern is written and read as it is |
| Crc.ShiftOneInjective | vtelem/classes/byte_buffer.py:15-20 | one step of the CRC-32 register (section 8 of RFC 1952) can be undone |
| CrcPolynomial.ConstantIsDivisor | vtelem/classes/byte_buffer.py:15-20 | the constant of the register has the coefficients of x^32 + x^26 + x^23 + x^22 + x^16 + x^12 + x^11 + x^10 + x^8 + x^7 + x^5 + x^4 + x^2 + x + 1 |
| CrcPolynomial.RegisterIsRemainder | vtelem/classes/byte_buffer.py:15-20 | the register holds the remainder, by long division modulo that polynomial, of the data's bits times x^32 with the first thirty-two complemented |
| CrcPolynomial.ChecksumIsDefined | vtelem/classes/byte_buffer.py:15-20 | for all data the checksum is that remainder, complemented and read with the highest power as the lowest bit |
| CrcCheck.CheckValue | docs/message.md:53-53 | the checksum of the digits one to nine is 0xCBF43926 |
| Crc.ChangedByteChangesCrc | vtelem/classes/byte_buffer.py:15-20 | changing any one byte of any data always changes its CRC-32 |
| ByteBuffers.ByteBuffer.constructor | vtelem/classes/byte_buffer.py:29-45 | a buffer starts at position zero with the given bytes and size; it is valid if and only if it has that many bytes |
| ByteBuffers.ByteBuffer.Reset | vtelem/classes/byte_buffer.py:47-53 | only a mutable buffer can be reset, and is then empty |
| ByteBuffers.ByteBuffer.ExpandTo | vtelem/classes/byte_buffer.py:72-76 | the storage grows with zeros to the length asked for, and never shrinks |
| ByteBuffers.ExpandedWithZeros | vtelem/classes/byte_buffer.py:72-76 | what a buffer grows by is zero |
| ByteBuffers.ByteBuffer.SetPos | vtelem/classes/byte_buffer.py:78-83 | moves the cursor, growing the storage if it lies beyond, and leaves the size |
| ByteBuffers.ByteBuffer.Advance | vtelem/classes/byte_buffer.py:85-90 | moves the cursor on; the size follows only if asked to and only upwards |
| ByteBuffers.ByteBuffer.ReadBytes | vtelem/classes/byte_buffer.py:124-140 | returns the bytes at the cursor; chomping removes them from the front and otherwise nothing but the cursor changes |
| ByteBuffers.ByteBuffer.Read | vtelem/classes/byte_buffer.py:115-122 | returns what the bytes at the cursor denote for the primitive |
| ByteBuffers.ByteBuffer.Append | vtelem/classes/byte_buffer.py:142-154 | the contents up to the size are followed by the new bytes; the cursor moves along only if it was at the end of a buffer that was not empty; what a length beyond the given bytes does |
| ByteBuffers.ByteBuffer.Write | vtelem/classes/byte_buffer.py:161-173 | a mutable buffer has the encoded value at the cursor and is otherwise the same; an immutable one ignores the write |
| Wire.ReadBack | vtelem/classes/type_primitive.py:109-127 | a field is read back as written, whatever surrounds it |
| Wire.UnpackPack | vtelem/frame/message.py:31-34 | a list of fields of any types is read back as written, whatever surrounds it |
| Wire.PackUnpack | vtelem/parsing/frames.py:82-83 | writing the fields that were read restores the bytes if and only if every boolean byte among them was zero or one |
| Processor.FrameProcessor.constructor | vtelem/frame/processor.py:19-24 | a new processor is in the fresh state |
| Processor.FrameProcessor.ReadFrameSize | vtelem/frame/processor.py:26-40 | reads a header if one is due and there, and clears the buffer whenever the size it holds exceeds the MTU, read just now or not |
| Processor.FrameProcessor.ProcessData | vtelem/frame/processor.py:42-61 | the loop ends for every input, empty frames too, never chomps away from the front, and does what the functional step does |
| Processor.ProcessRefines | vtelem/frame/processor.py:42-61 | one call delivers the frames that a reference parser of length-prefixed streams finds in all unread bytes, and keeps the incomplete tail |
| Processor.SplitAppend | vtelem/frame/processor.py:42-61 | the reference parse of two pieces resumes from the incomplete tail of the first |
| Processor.AfterRests | vtelem/frame/processor.py:42-61 | the state left behind holds exactly the incomplete tail, and is one that the next call can start from |
| Processor.ProcessAllRefines | vtelem/frame/processor.py:26-61 | any number of calls agrees with the reference parse of the whole stream |
| Processor.AmbiguousSplit | vtelem/frame/processor.py:33-40 | every ambiguous stream has a chunking with a different result, which is constructed |
| Processor.RestingExactly | vtelem/frame/processor.py:26-61 | from a state that has met no oversize header, frames and residual state are the same for every chunking if and only if the rest of the stream has no oversize header, or every four-byte window after it equals its length |
| Processor.SkippingExactly | vtelem/frame/processor.py:33-40 | just after an oversize header, they are the same for every chunking if and only if every four-byte window of what follows equals its length |
| Processor.ReachedBetween | vtelem/frame/processor.py:26-61 | no chunks lead to any state but those two kinds |
| Processor.ChunkInvarianceExactly | vtelem/frame/processor.py:26-61 | after any chunks at all, frames and residual state of what follows are the same for every chunking if and only if it is unambiguous in that sense |
| Processor.ChunkingMatters | vtelem/frame/processor.py:37-40 | a concrete stream whose second frame is delivered in two chunks and lost in one |
| Processor.StreamRecovered | vtelem/frame/processor.py:42-61 | however a stream of prefixed frames is cut, a fresh processor delivers exactly those frames, with nothing left over |
| Frames.Frame.constructor | vtelem/frame/__init__.py:27-63 | a new frame holds its header with a zero count, and has accounted for the checksum to come |
| Frames.Frame.Write | vtelem/frame/__init__.py:65-68 | a field is appended to the body and accounted for |
| Frames.Frame.IncrementCount | vtelem/frame/__init__.py:76-79 | the count grows by the amount |
| Frames.CountPatched | vtelem/frame/__init__.py:135-137 | writing the count at its reserved place changes the count of the header, and no other byte |
| Frames.Frame.PatchCount | vtelem/frame/__init__.py:135-137 | the count is in the header, while body, size and cursor are as before |
| Frames.Frame.FrameWithSizeHeader | vtelem/frame/__init__.py:108-121 | the frame is prefixed by its own length, which reads back from the prefix whatever its integer type; with the default type, in the form the stream parser expects |
| Frames.Frame.Seal | vtelem/frame/__init__.py:143-153 | the checksum of everything before it (or a given wrong one) is appended if wanted, and the size equals what was accounted for |
| Frames.ChannelFrame.constructor | vtelem/frame/channel.py:20-31 | a new channel frame has no items |
| Frames.ChannelFrame.AppendItem | vtelem/frame/channel.py:88-95 | the identifier goes to one buffer and the fields to the other, and both stay in step with the list of items |
| Frames.ChannelFrame.Add | vtelem/frame/channel.py:78-96 | an item is taken if and only if the frame is open and it fits the MTU; otherwise nothing changes; a boolean for an integer channel is taken as 0 or 1 |
| Frames.ChannelFrame.AddEvent | vtelem/frame/channel.py:39-76 | an event is taken if and only if the frame is open and it fits the MTU; otherwise nothing changes |
| Frames.EventItemFaithful | vtelem/frame/channel.py:59-73 | an event is sent as it happened if and only if its values and times fit their types |
| Frames.ChannelFrame.FinalizeHook | vtelem/frame/channel.py:33-37 | the element buffer is spliced on behind the identifiers |
| Frames.ChannelFrame.Finalize | vtelem/frame/__init__.py:126-153 | the bytes are header with count, identifiers, fields and checksum, as many as were accounted for; finalizing again changes nothing |
| Frames.MessageFrame.constructor | vtelem/frame/__init__.py:27-63 | a new message frame is not initialized |
| Frames.MessageFrame.Initialize | vtelem/frame/message.py:23-40 | the fields in their order and the fragment are written and accounted for |
| Frames.MessageFrame.Finalize | vtelem/frame/__init__.py:126-153 | the bytes are header with the fragment's length, fields, fragment and checksum, as many as were accounted for; finalizing again changes nothing |
| Registries.Registry.constructor | vtelem/registry/__init__.py:20-36 | a new registry is empty |
| Registries.Registry.GetItem | vtelem/registry/__init__.py:48-53 | finds exactly the item that was added under the identifier, if any |
| Registries.Registry.GetId | vtelem/registry/__init__.py:55-62 | finds an identifier exactly if the name was added, and the one whose entry has that name |
| Registries.Registry.Add | vtelem/registry/__init__.py:64-79 | a new name gets the next identifier, so names and identifiers stay in bijection; a known name is rejected and changes nothing |
| Parsing.ParseHeader | vtelem/parsing/encapsulation.py:21-39 | reads the header, or tells another sender from a header that is too short or has no known type |
| Parsing.FrameTypeCodes | vtelem/types/frame.py:19-26 | the values of the frame types on the wire, in both directions, and no others |
| Parsing.ParseChannels | vtelem/parsing/frames.py:35-41 | reads the identifiers; fails on a short buffer, an unknown channel or a stream channel |
| Parsing.ParseElements | vtelem/parsing/frames.py:65-70 | reads each channel's fields in the order of the identifiers; fails on a short buffer |
| Parsing.ParseChannelFrame | vtelem/parsing/frames.py:28-72 | a data or event body, and where it ends |
| Parsing.ParseMessageFrame | vtelem/parsing/frames.py:75-84 | the message fields and as many fragment bytes as the header says, or failure |
| Parsing.ParseStreamFrame | vtelem/parsing/frames.py:87-99 | the stream channel, the index and the elements' bytes, or failure |
| Parsing.ParseFrameBody | vtelem/parsing/encapsulation.py:67-69 | the parser for the type of frame is used; an invalid frame is skipped to its end |
| Parsing.ParseFrame | vtelem/parsing/encapsulation.py:51-83 | for any bytes at all, the decoded frame, a refusal (other sender, wrong checksum) or an exception, as the functional decoder says |
| RoundTrips.HeadReadBack | vtelem/frame/__init__.py:44-54 | sender, type, timestamp and count are where the parser looks for them |
| RoundTrips.SealedDecodes | vtelem/parsing/encapsulation.py:51-83 | a sealed frame decodes to its header and body, and is refused exactly if the sender is not the expected one or the checksum is wrong |
| RoundTrips.ChannelFrameRoundTrip | vtelem/parsing/frames.py:28-72 | data and event frames decode to the same elements in the same order with the same header, with a checksum or without; exactly when they are refused |
| RoundTrips.MessageFrameRoundTrip | vtelem/parsing/frames.py:75-84 | message frames decode to the same fields and fragment with the same header, with a checksum or without; exactly when they are refused |
| RoundTrips.MessageLayout | docs/message.md:144-155 | each message field is at its documented place behind the header, and the fragment follows |
| RoundTrips.IdentifierLayout | docs/message.md:79-91 | identifier j of a data or event frame is at its place in the first array |
| RoundTrips.FieldsLayout | docs/message.md:79-120 | the fields of element j are at their place in the second array, behind those of the elements before it |
| RoundTrips.FooterLayout | docs/message.md:46-53 | the last four bytes of a frame are the checksum of all bytes before them |
| RoundTrips.StreamFrameRoundTrip | vtelem/parsing/frames.py:87-99 | a stream frame as documented is read back with its channel, index and data, and raises if its channel is unknown or no stream |
| RoundTrips.OutcomeExactly | vtelem/parsing/encapsulation.py:51-83 | for any bytes: they raise if and only if they are not from another sender and have no readable header and body; they are refused if and only if they are from another sender or a wrong checksum follows the body |
| Corruption.ChecksumFails | vtelem/parsing/encapsulation.py:71-81 | one changed byte of a frame makes the checksum at its end wrong |
| Corruption.ChangedByteRefused | vtelem/parsing/encapsulation.py:71-81 | a frame with one changed byte is refused whenever the parser still finds the checksum at its place |
| Corruption.CorruptedMessageRefused | vtelem/parsing/encapsulation.py:71-81 | a message frame with any one byte changed, other than in its type and size, is always refused |
| Corruption.ResizedDecodes | vtelem/parsing/frames.py:82-83 | what becomes of a message frame with any size in its header: beyond the end it raises; up to four bytes too large it is taken without a checksum; otherwise exactly if the word then taken for the checksum is right |
| Corruption.TypeByteChanged | vtelem/parsing/encapsulation.py:67-81 | what becomes of a message frame with any type in its header: zero is taken unseen, above four raises, and otherwise it is taken exactly if it passes for a frame of that type |
| Corruption.NoticedExactly | vtelem/parsing/encapsulation.py:51-83 | a message frame with one changed byte is taken if and only if the sender is accepted and the change is one of the type or size that the conditions above let through |
| Corruption.InvalidTypeAccepted | vtelem/parsing/frames.py:18-25 | every message frame with its type changed to zero is taken, and no checksum is looked at |
| Corruption.GrownSizeAccepted | vtelem/parsing/encapsulation.py:42-48 | every message frame with its size raised by one to four in the last byte is taken without a checksum, and with bytes of the checksum behind its message |
| ChannelCorruption.BodyExactly | vtelem/parsing/frames.py:28-72 | the body of a data or event frame is found in any bytes if and only if its channels are known and no streams and their elements fit; it ends after them |
| ChannelCorruption.IdentifierChanged | vtelem/parsing/frames.py:35-45 | a changed identifier passes if and only if it is that of a known channel with elements of another size, and they then end too near the end for a checksum or where the right one happens to be |
| ChannelCorruption.ChannelNoticedExactly | vtelem/parsing/encapsulation.py:51-83 | a data or event frame with one changed byte is taken if and only if the sender is accepted and the change is such an identifier, or a type or size that these bytes pass for; any other change is noticed |
| ChannelCorruption.WiderChannelAccepted | vtelem/parsing/frames.py:43-45 | a one-byte value taken for one of four bytes is taken with bytes of the checksum in it |
| Framers.TimeToIntRoundsDown | vtelem/frame/__init__.py:17-21 | taking integer and fractional part separately is rounding down to milliseconds, for negative times too |
| Framers.Framer.constructor | vtelem/frame/framer.py:41-64 | frames can be built if and only if the MTU leaves room beyond the overhead and fits the count fields; every type of frame then has the timestamp zero |
| Framers.Framer.NewOrigin | vtelem/frame/framer.py:66-78 | a frame gets the given time or, without one, the last time of its type; other types keep theirs |
| MessageFramers.FragmentCount | vtelem/frame/message.py:96-105 | the ceiling division gives exactly the number of fragments that cutting produces |
| MessageFramers.FragmentsCover | vtelem/message/framer.py:70-83 | the fragments joined are the message; all but the last are full and none is empty |
| MessageFramers.FramesLength | vtelem/message/framer.py:77-85 | the total is the message's length plus the overhead for each frame |
| MessageFramers.MessageFramesFit | vtelem/message/framer.py:52-85 | as many frames as required, none above the MTU, all but the last exactly the MTU, and the total length |
| MessageFramers.FillFrame | vtelem/message/framer.py:72-77 | a fresh frame is filled with its index and fragment and sealed |
| MessageFramers.MessageFramer.constructor | vtelem/message/framer.py:22-35 | every message type starts at number zero; frames can be built if and only if the MTU allows it |
| MessageFramers.MessageFramer.NewMessageFrame | vtelem/message/framer.py:37-42 | an empty message frame with this framer's sender and time |
| MessageFramers.MessageFramer.FrameMessage | vtelem/message/framer.py:67-85 | the loop never meets an exhausted message, and builds the frames of the fragments in order with their total length |
| MessageFramers.MessageFramer.SerializeMessage | vtelem/message/framer.py:44-85 | the frames of the message under the type's next number, which is used up; a division by zero without room, and no frames with negative room |
| MessageCaches.MessageCache.constructor | vtelem/message/cache.py:61-79 | a new cache knows nothing and has called nobody |
| MessageCaches.MessageCache.AddCallback | vtelem/message/cache.py:36-44 | a callback is added behind those of its type |
| MessageCaches.MessageCache.StoreFragment | vtelem/message/cache.py:115-125 | the fragment is held under its key and index, and all others as before |
| MessageCaches.MessageCache.ReadContent | vtelem/message/cache.py:143-163 | a complete message's number and its fragments joined in order; raises exactly if it is marked complete and one is missing |
| MessageCaches.MessageCache.ServiceCallbacks | vtelem/message/cache.py:46-52 | each callback of the type is called once, in order |
| MessageCaches.CallsInOrder | vtelem/message/cache.py:46-52 | the callbacks are called in the order of their registration, each with the type, number and content |
| MessageCaches.MessageCache.Ingest | vtelem/message/cache.py:184-216 | one key changes as its transition says and no other key; callbacks are called exactly on completion, and it raises exactly if completion finds a gap |
| MessageCaches.MessageCache.IngestFrame | vtelem/message/cache.py:178-216 | an unknown message type raises and changes nothing; otherwise the frame's fragment is ingested |
| MessageCaches.MessageTypeCodes | vtelem/types/frame.py:60-68 | the values of the message types on the wire, in both directions, and no others |
| MessageCaches.OneMoreTaken | vtelem/message/cache.py:184-191 | a fragment that arrives is taken by its own message and by no other |
| MessageCaches.MessageCache.IngestAll | tests/message/test_cache.py:30-35 | over any interleaving, every key is as if only its own fragments had arrived, and the calls made are those of each arrival |
| Reassembly.Pigeonhole | vtelem/message/cache.py:199-209 | as many fragments as there are indices cover every index if and only if none repeats |
| Reassembly.CountsDeliveries | vtelem/message/cache.py:199-209 | the counter of an incomplete message is the number of deliveries, repeated or not, and it completes exactly on reaching the total |
| Reassembly.CompletionExactly | vtelem/message/cache.py:199-216 | on reaching the total every fragment is held if and only if none was delivered twice; otherwise completing it raises |
| Reassembly.RepeatBreaks | vtelem/message/cache.py:199-216 | the first of two fragments delivered twice: the message counts as complete without its second, and raises |
| Reassembly.RepeatsAreQuiet | vtelem/message/cache.py:193-197 | once complete, deliveries change the number and nothing else, and call nobody |
| Reassembly.ZeroTotalNeverCompletes | vtelem/message/cache.py:204-207 | fragments that state a total of zero never complete |
| Reassembly.Reassembles | vtelem/message/cache.py:143-216 | all fragments once, in any order, give the message on the last of them and nothing before |
| Reassembly.ReassemblesOnce | vtelem/message/cache.py:193-216 | whatever arrives after that, the message has completed exactly once |
| EndToEnd.FrameReceived | vtelem/parsing/encapsulation.py:51-83 | each frame of a message decodes to its own fragment |
| EndToEnd.FragmentSays | vtelem/message/framer.py:56-76 | what a received fragment says: type, checksum, the message's number or zero if that is above 65535, its index, and the total or zero if that is above 65535 |
| EndToEnd.BatchReceived | vtelem/parsing/encapsulation.py:51-83 | all frames of a batch decode to all fragments in order, and fit the stream |
| EndToEnd.MessageArrives | vtelem/message/cache.py:178-216 | among any arrivals, in any order, all fragments of a message bring it back on the last of them, once, with one round of its callbacks, whatever else comes with its key after them |
| EndToEnd.MessagesArrive | vtelem/message/framer.py:44-85 | the whole path: any batch of non-empty messages, any chunking of its stream and any order of ingestion bring a countable message back byte for byte, exactly once and on its last fragment, with its number (zero if that does not fit its field), and call its callbacks once, if its key is its own or its fragments come first among those with its key |
| Callbacks.EachCallbackOnce | vtelem/message/cache.py:46-52 | over a batch with distinct keys each callback is called with each countable message once for each time it is registered, and no more |
| EndToEnd.UncountableNeverArrives | vtelem/frame/message.py:79-93 | a message of more than 65535 fragments never completes, whichever are delivered and however often |
| EndToEnd.UncountableExample | vtelem/frame/message.py:79-93 | 65536 bytes in frames with room for one byte cannot be counted |
| EndToEnd.ArrivesExactly | vtelem/message/framer.py:56-64 | all fragments of a message complete it if and only if there are at most 65535 of them |
| Resends.NumbersAdvance | vtelem/message/framer.py:56-65 | of two messages of one type the later has the larger number, also for equal bytes |
| Resends.SameKeySecondLost | vtelem/message/cache.py:193-197 | of messages delivered in turn, one is announced on its last fragment if and only if no earlier one had its key; otherwise it changes the stored number and does nothing else |
| Resends.OncePerKey | vtelem/message/cache.py:184-216 | of messages delivered in turn, exactly as many are announced as there are different keys |
| Resends.AllAnnouncedExactly | vtelem/message/cache.py:184-216 | every message delivered in turn is announced if and only if no two have the same key |
| Resends.StreamAnnouncesExactly | vtelem/message/cache.py:178-216 | over the whole path, in any chunks, every countable message sent is announced if and only if no two have the same key |
| Resends.ResendAnnouncedOnce | docs/message.md:147-148 | the same bytes sent twice get two numbers, which the document says they should not, and are announced once |
| Cuts.MixedCompletion | vtelem/message/cache.py:199-216 | deliveries that disagree on the total complete on the first that makes up its own; they raise if and only if their indices are then not exactly the first ones |
| Cuts.LatestHeld | vtelem/message/cache.py:121-125 | of a fragment that came more than once before completion, what came last is held |
| Cuts.PiecesComplete | vtelem/message/cache.py:143-163 | what is announced is the first fragment of one cut, the second of another, and so on; or completing raises |
| Cuts.WholeExactly | vtelem/message/cache.py:199-216 | countable pieces of any cuts of a message bring it back, whatever its bytes, if and only if each came once and all are of one cut |
| Cuts.SplicedExample | vtelem/message/cache.py:199-216 | the first of three fragments and the second of two announce two bytes for a message of three |
| Channels.EventQueue.constructor | vtelem/classes/event_queue.py:19-23 | a new queue is empty |
| Channels.EventQueue.Enqueue | vtelem/classes/event_queue.py:25-32 | an event is appended unless the queue is full, and then refused |
| Channels.EventQueue.Consume | vtelem/classes/event_queue.py:34-41 | all events in order of arrival, leaving none |
| Channels.Channel.constructor | vtelem/channel/__init__.py:23-54 | a channel starts with its default value, never set and never emitted |
| Channels.Channel.Set | vtelem/classes/type_primitive.py:60-97 | a value that is accepted is stored with its time and reported if it differs from the previous one; a rejected one changes nothing |
| Channels.Channel.Emit | vtelem/channel/__init__.py:71-81 | the value if the rate has elapsed since the last emission, which is then now |
| EventLog.StepConsistent | vtelem/channel/__init__.py:42-47 | an operation keeps a channel's log replayable if and only if it does not lose that channel's event |
| EventLog.LogReplays | vtelem/classes/type_primitive.py:76-89 | over any run without overflow every channel's events chain from the default value and replay to its current value |
| EventLog.LogReplaysExactly | vtelem/classes/event_queue.py:25-32 | no event of a run is lost if and only if every channel's log replays to its value at every moment of the run |
| EventLog.FullQueueLosesEvent | vtelem/classes/event_queue.py:28-32 | a channel switched 257 times without consuming loses its last change, and its log no longer replays |
| EventLog.ReportsExactly | vtelem/classes/event_queue.py:34-41 | over any run consumed batches and queue together grow by exactly the changes that found room, in order: nothing else is lost, repeated or reordered |
| EventLog.HoldsLastSet | vtelem/classes/type_primitive.py:81-84 | over any run a channel holds the value and the time of the last assignment it accepted, also of one that changed nothing, and the default and zero before the first |
| EventLog.EventsAreChanges | vtelem/classes/type_primitive.py:76-89 | over any run without overflow a channel's events are exactly its changes, each with the value and time of the assignment accepted before it and those of its own |
| Emission.EmissionSpacing | vtelem/channel/__init__.py:71-81 | over any dispatch times emissions are at least the rate apart, and the k-th comes no earlier than k periods |
| Emission.EmissionBound | vtelem/channel/__init__.py:71-81 | up to any time a channel emits at most as often as whole periods have passed |
| Emission.EmissionsExactly | vtelem/channel/__init__.py:71-81 | over any dispatch times a channel is emitted at one if and only if that is at least its rate after its last emission |
| Emission.FullRate | vtelem/channel/__init__.py:71-81 | dispatched once in every period, it is emitted every time |
| Emission.EmissionBoundMet | vtelem/channel/__init__.py:71-81 | dispatched at every multiple of its rate up to some time, it is emitted exactly as often as whole periods have passed |
| Packing.PutAllSound | vtelem/channel/framer.py:80-96 | every closed frame and the open one fit, closed ones are not empty, and together they are the items in order |
| Packing.GreedySplits | vtelem/channel/framer.py:117-141 | greedy packing splits the items into non-empty frames that fit |
| Packing.GreedyAhead | vtelem/channel/framer.py:117-141 | at every point it has used no more frames than any other split, or as many with the last filled no further |
| Packing.GreedyOptimal | vtelem/channel/framer.py:106-143 | no split of the same items into consecutive frames has fewer frames |
| ChannelFramers.FrameQueue.Put | vtelem/channel/framer.py:132-132 | the frame is last in the queue |
| ChannelFramers.ChannelFramer.constructor | vtelem/channel/framer.py:29-43 | a framer for the given channels and registry; frames can be built if and only if the MTU allows it |
| ChannelFramers.ChannelFramer.AddChannel | vtelem/channel/framer.py:59-62 | one more channel, behind the others |
| ChannelFramers.ChannelFramer.NewFrame | vtelem/channel/framer.py:45-57 | an empty frame with this framer's sender and the given or the last time |
| ChannelFramers.ChannelFramer.Flush | vtelem/channel/framer.py:98-102 | the bytes of the frame's items are put into the queue |
| ChannelFramers.ChannelFramer.Rollover | vtelem/channel/framer.py:90-93 | the open frame is closed and a new one with the same timestamp is open |
| ChannelFramers.ChannelFramer.PlaceEvent | vtelem/channel/framer.py:86-96 | an event goes into the open frame or, if it does not fit, into a new one, where it always fits |
| ChannelFramers.ChannelFramer.PlaceValue | vtelem/channel/framer.py:128-135 | a value goes into the open frame or, if it does not fit, into a new one, where it always fits |
| ChannelFramers.ChannelFramer.FinishFrames | vtelem/channel/framer.py:137-143 | the last frame is put into the queue if there was anything to send |
| ChannelFramers.ChannelFramer.FrameEvents | vtelem/channel/framer.py:80-96 | the loop packs the events greedily and counts the closed frames |
| ChannelFramers.ChannelFramer.BuildEventFrames | vtelem/channel/framer.py:64-104 | the queue of events is emptied and exactly its greedy frames are queued, all with one timestamp; both counts |
| ChannelFramers.ChannelFramer.EmitInto | vtelem/channel/framer.py:119-135 | a channel that is due is placed and its last emission is now; another is left alone |
| ChannelFramers.ChannelFramer.FrameEmissions | vtelem/channel/framer.py:117-135 | the loop packs the emissions greedily, counts them and the closed frames, and updates each channel once |
| ChannelFramers.ChannelFramer.BuildDataFrames | vtelem/channel/framer.py:106-143 | exactly the greedy frames of the channels that are due are queued, all with one timestamp; both counts; every channel's new state |
| Delivery.GroupLength | vtelem/frame/channel.py:84-86 | a frame is as long as the space its items were said to require, plus the overhead |
| Delivery.FramesDeliver | vtelem/channel/framer.py:64-143 | the queued frames decode to exactly the items in order; none is empty or above the MTU, all have one header, and no split needs fewer |
| Delivery.FewestFrames | vtelem/channel/framer.py:106-143 | no way to cut the items into frames of at most MTU bytes needs fewer frames |
| Delivery.EventsKnown | vtelem/channel/framer.py:82-84 | events of registered channels that are no streams can be decoded with that registry |
| Delivery.EmissionsKnown | vtelem/channel/framer.py:124-126 | emissions of registered channels that are no streams can be decoded with that registry |
| Delivery.EmissionsFaithful | vtelem/channel/framer.py:119-130 | each channel that is due is sent once, in order, under its identifier, with its type and current value |
| Delivery.DueExactly | vtelem/channel/framer.py:119-123 | the channels that are sent are those whose rate has elapsed since their last emission, in their order |
| Delivery.EventsFaithful | vtelem/channel/framer.py:81-89 | an event is sent under its channel's identifier with both values as its type accepts them and both times in milliseconds; what does not fit is replaced by what was sent before it, at first by the default |
| Delivery.ChangesFaithful | vtelem/frame/channel.py:59-73 | the event of an assignment carries the value the channel held before and the one it holds now, a boolean given to an integer channel as 0 or 1, with both times if they fit |
| Scheduling.StepDecreases | vtelem/daemon/manager.py:73-94 | each step lowers the measure of unhandled names, least rank of a queued unhandled name and its distance from the end, although the worklist can grow |
| Scheduling.MissingInOrder | vtelem/daemon/manager.py:76-82 | dependencies that are missing keep their order |
| Scheduling.RankedFinishes | vtelem/daemon/manager.py:57-94 | over names that can be ranked the worklist runs empty |
| Scheduling.FinishedRun | vtelem/daemon/manager.py:57-94 | a finished run has handled exactly the names reachable from its roots, each once and after all its dependencies |
| Scheduling.IndependentReversed | vtelem/daemon/manager.py:73-90 | daemons without dependencies are performed in the reverse order of their registration |
| Scheduling.RankableExactly | vtelem/daemon/manager.py:57-94 | the dependencies reachable from the roots can be ranked if and only if no name among them reaches itself |
| Scheduling.FinishesExactly | vtelem/daemon/manager.py:57-94 | the run finishes if and only if no name reachable from its roots depends on itself, directly or through others |
| Scheduling.CycleNeverFinishes | vtelem/daemon/manager.py:84-94 | whatever cycle can be reached from the roots, of any length, the run never finishes |
| Scheduling.PairNeverFinishes | vtelem/daemon/manager.py:84-94 | two daemons that depend on each other never finish |
| Scheduling.DaemonManager.constructor | vtelem/daemon/manager.py:26-32 | a new manager has no daemons |
| Scheduling.DaemonManager.AddDaemon | vtelem/daemon/manager.py:40-55 | a new name is registered last with its dependencies; a known one is rejected and changes nothing |
| Scheduling.DaemonManager.Perform | vtelem/daemon/manager.py:129-143 | the daemon's own result, and failure for an unknown one |
| Scheduling.DaemonManager.MissingDependencies | vtelem/daemon/manager.py:76-82 | the dependencies not yet performed, in order |
| Scheduling.DaemonManager.PerformStack | vtelem/daemon/manager.py:57-94 | terminates, performs what the functional worklist handles, and records each result |
| Scheduling.DaemonManager.PerformAll | vtelem/daemon/manager.py:96-118 | performs exactly what is reachable from the daemons, once, dependencies first; true if and only if all of it succeeded, an unknown dependency being a failure; it terminates whenever no cycle can be reached |
| Lifecycle.ActKeeps | vtelem/daemon/__init__.py:288-380 | every action of a controller or the worker keeps the invariant |
| Lifecycle.RunInvariant | vtelem/daemon/__init__.py:240-380 | the invariant holds after every interleaving, for any number of controllers |
| Lifecycle.LifecycleSafety | vtelem/daemon/__init__.py:240-380 | over every interleaving: starting if and only if a worker is on its way or a launch failed, and never both; idle if and only if there is no worker, none on its way and no failed launch; at most one worker; no state assertion fails; stops and errors never exceed starts nor unpauses pauses; stopping is followed only by idle |
| Lifecycle.MetricsExactly | vtelem/daemon/__init__.py:288-380 | over every interleaving starts, pauses and unpauses are the numbers of changes from idle to starting, running to paused and paused to running, and stops and errors the numbers of stops that ended and found the daemon idle and not idle |
| Lifecycle.ControlsExactly | vtelem/daemon/__init__.py:288-356 | in every reachable situation a ready controller can start exactly an idle daemon, pause or begin to stop exactly a running one and unpause exactly a paused one; otherwise nothing changes |
| Lifecycle.WorkerGoesOn | vtelem/daemon/__init__.py:240-252 | in every reachable situation a started worker can enter and makes the daemon running, and a working one can finish and makes it idle |
| Lifecycle.StartGoesOn | vtelem/daemon/__init__.py:305-306 | a start spawns the worker if the handle is there, and fails otherwise |
| Lifecycle.StopGoesOn | vtelem/daemon/__init__.py:371-380 | a stop checks the handle, joins and drops it, and fails if it is gone or its thread not started |
| Lifecycle.TruthfulUnlessFailed | vtelem/daemon/__init__.py:288-306 | at any moment, starting means that a worker is on its way and idle that there is none, if and only if no launch failed |
| Lifecycle.TruthfulExactly | vtelem/daemon/__init__.py:288-380 | that holds over all interleavings if and only if there is at most one controller |
| Lifecycle.SoleControllerRun | vtelem/daemon/__init__.py:365-380 | with one controller the thread handle is there whenever it is used |
| Lifecycle.RaceLosesHandle | vtelem/daemon/__init__.py:288-306 | with two controllers there is an interleaving in which a daemon is starting, its handle gone and its worker never started |
| Lifecycle.RaceIsFinal | vtelem/daemon/__init__.py:288-380 | whatever any controller does after that interleaving, the daemon stays starting without a worker |
| Lifecycle.JoinMeetsNewThread | vtelem/daemon/__init__.py:371-373 | with two controllers there is an interleaving in which a stop joins a thread that was not started, and fails |
| Lifecycle.HandleSafeExactly | vtelem/daemon/__init__.py:288-380 | the handle is never missed, nor its thread joined too early, over all interleavings, if and only if there is at most one controller |

## Left out

- Sockets, TCP, UDP, websocket and HTTP clients and servers, MTU discovery: input and output over other libraries.
- HTTP header and multipart parsing: separate from the protocol.
- Persistence: `DataCache`, loading fragments and writing them to disk; only the cache's maps in memory are modelled.
- JSON serialization, schemas and descriptions of objects: wrappers around libraries.
- Padding and dummy frames of type invalid: they carry nothing; the decoder's treatment of that type is modelled.
- Metrics, logging, the blocking of a full output queue, stream writers, state machines, the time keeper and command factories: bookkeeping that would only add easy members.
- Floating point: times are reals, so rounding of times and of the division in `frames_required` is not modelled; float and double values are byte patterns compared as such, without the rules for NaN and negative zero.
- Random numbers: application identifiers and deliberately wrong checksums are parameters.
- Frames.ChannelFrame.Add: requires a value that the channel's type accepts; packing a number as a boolean or as a float, which a channel never hands over, is not modelled, and any other value raises.
- Parsing.ParseFrame: requires a size within the data, as every caller in the repository passes it; a buffer that claims more bytes than it has is only modelled by the constructor and by appending.
- Framers.Framer.NewOrigin: frames are built by framers whose MTU is above the overhead, which the source asserts, and fits 32 bits, without which counts and lengths need not fit their fields and the source asserts that too.
- ChannelFramers.ChannelFramer.BuildDataFrames: the checksum written is always the true one; frames are queued as their bytes; the channels of a framer are distinct objects; each item must fit an empty frame, which the source asserts.
- ChannelFramers.ChannelFramer.BuildEventFrames: as `BuildDataFrames`; events must be of registered channels, which the source asserts.
- MessageFramers.MessageFramer.SerializeMessage: frames are returned as their bytes.
- Processor.ChunkInvarianceExactly: speaks of a constant MTU.
- Cuts.WholeExactly: cuts into more than 65535 fragments, whose fragments state no total, are not mixed in.
- MessageCaches.MessageCache.Ingest: the nested dictionaries are maps keyed by message type and checksum together; which callback was called with what is recorded instead of running it.
- Reading an unknown key of a registry or manager inserts an empty entry in the source; this is not modelled.
- Scheduling.DaemonManager.PerformStack: the lists and dictionaries it shares with its caller are passed and returned as values, the ranking is a ghost parameter (`Scheduling.RankableExactly` says when there is one), and Python's limit on recursion is not modelled.
- Lifecycle: the metric `count`, the operation `NONE`, the unlocked check in `perform` and what a daemon runs are not modelled; a join may time out at any point.
- Inheritance: a channel frame and a message frame own their base frame, and a channel has the fields of the primitive it extends.
