# A verified model of the RabbitMQ stream client

The client speaks the RabbitMQ stream protocol and carries AMQP 1.0 messages (OASIS AMQP 1.0,
Part 1 sections 1.2 and 1.6, Part 3 section 3.2). The project models two things and proves how
they behave on every input and in every run:

* the binary codec: primitives, nested values, messages, publish requests, deliver frames, and
  the incremental decoder that reads frames from a growing buffer;
* the protocol machines: the consumer with its one credit, the producer's accumulator, its waiters
  and its sessions, and the dispatcher that pairs responses with callers. Each is a set of single
  steps; a run is any list of steps, so a theorem about runs covers every interleaving.

`dafny verify dfyconfig.toml` checks everything.

| file | content |
|---|---|
| Sequences, Bytes | sequences; integers on the wire, decoding outcomes, the writer, UTF-8 |
| TypeCodes, Simple | type codes and the primitive types |
| Values | lists, maps and described values; `Layout` is a value together with the iteration order of its hash tables |
| ValueProofs, ValueExactness | round trips of values, exactly which narrow values survive, reported sizes |
| WideLists | lists too long for the one-byte form, and the values around them |
| Messages, MessageProofs, MessageLoss | sections, the section loop, round trips, sizes, and the messages that do not survive |
| Progress | successful decoders leave a strictly shorter suffix |
| Frames, Version2 | publish requests in both versions, and what becomes of version 2 |
| Responses, FrameStream, CutStrings, Deliver, Bodies | response frames, decoding a stream in pieces, the frames that cutting can break, chunks of messages and when they block the stream |
| Encoders, Decoders | the writing and reading loops as methods, proved equal to the functions above |
| Consumer, Accumulator, Confirms, Statuses, Batches, Sessions, Dispatcher | the protocol machines, and the classes whose methods they interleave |

A decoder returns `Ok(rest, value)`, an error, or `Abort`; `Abort` stands for a panic (an
out-of-bounds slice, an arithmetic underflow, an impossible allocation, hashing a map).

## Where the code differs from what one would expect

Each of these is proved of the model, with the exact condition where there is one.

* Ints in -128..-1 lose their sign (`SmallIntExample`, `WideLists.RoundTripExactly`).
* A list or a property section of 255 or more content bytes is written with four-byte fields
  behind the one-byte type code and does not come back (`WideIsLost`, `RebuiltExactly`).
* `encoded_size` exceeds the bytes written by the number of small longs, and by six for properties
  of 253 or 254 content bytes (`MessageProofs.SizeOfEncoding`). The length prefix of a publish
  frame is then too large (`PrefixCountsPayload`), the message does not read back behind its size
  (`SizedMessageExactly`), and a frame that ends in one is never complete
  (`InexactCommandIsIncomplete`, `InexactChunkWaits`). The size of a deliver command is three bytes
  short per message (`SizeOfChunk`).
* Version 2 publish messages are written and read with their fields in a different order: only the
  empty message without a filter comes back (`Version2Exactly`). The decoder for version 2 has no
  caller; the one that publish frames meet takes such a message for an empty one, or asks for more
  (`UnfilteredBatch`, `FilteredBatch`).
* A frame with a string can be cut so that the decoder panics, and no other frame can
  (`CutsPanicExactly`). A complete chunk looks incomplete forever exactly when the first of its
  messages that does not decode ends inside one of its own values (`ChunkBlocksExactly`).
* An odd count in a map underflows. Where arithmetic wraps, the input is rejected all the same
  (`WrappingDecodesTheSame`).
* With a client predicate, offsets count kept messages, and messages at or above the requested
  offset can be dropped (`TrueOffsetsExactly`, `NothingLostExactly`).
* The accumulator's counter can fall below zero, where the next `val + 1` overflows
  (`OverflowExactly`). A flush by the timer can be overtaken by the sender's, for every capacity
  (`FlushesCanOvertake`), and a batch sent directly overtakes what is queued. Messages that arrive
  out of order are discarded as duplicates (`OvertakingLosesMessages`, `DirectBatchOvertakes`).
* Two messages with the same chosen publishing id lose a callback (`ChosenIdsCanClash`), and the
  handler reaches its `todo!` exactly in such runs (`WaitersAreFound`); it never does with different
  ids (`DistinctIdsAreSafe`), or if the broker answers each id once (`AnsweredOnceNeverPanics`).
* A consumer that is closed can end while a handler still holds messages that have arrived
  (`EndIsCompleteExactly`).
* A named producer whose only accepted message has id 0 loses the first message of its next
  session (`SessionLosesExactly`).
* A request that is registered after the dispatcher cleared its table waits forever
  (`LateInsertHangs`, `LateInsertHangsExactly`).

## Model

| member | source | states |
|---|---|---|
| TypeCodes.CodeReadsBack | protocol/src/message/amqp/codec/constants.rs:26-88 | every type code is read back from its byte, so the table has no two equal codes |
| Simple.DecodeEncode | protocol/src/message/amqp/types/primitives/simple.rs:53-140 | an encoded primitive followed by any bytes decodes to what `Readback` says and leaves those bytes, through the decoder of any type that admits it |
| Simple.PayloadReadsBack | protocol/src/message/amqp/types/primitives/simple.rs:146-382 | every encoding is a type code of the value's own type and a payload that reads back |
| Simple.RestoredExactly | protocol/src/message/amqp/types/primitives/simple.rs:336-347 | a primitive comes back unchanged if and only if it is not an int in -128..-1 and no timestamp finer than a millisecond |
| Simple.SizeOfEncoding | protocol/src/message/amqp/types/primitives/simple.rs:363-381 | reported and written sizes differ by one for small longs and by nothing otherwise |
| Simple.DecodeOneOf | protocol/src/message/amqp/types/annotations.rs:55-72 | a typed decoder only ever returns a value of one of its types, and always makes progress |
| ValueProofs.DecodeEncodeDescriptor | protocol/src/message/amqp/types/descriptor.rs:18-54 | descriptors, numbers and symbols alike, read back in front of any bytes |
| ValueProofs.DecodeEncode | protocol/src/message/amqp/types/primitives/value.rs:119-157 | a nested value without wide lists decodes from its encoding, for every iteration order of the maps in it and every suffix |
| ValueProofs.DecodeEncodeMap | protocol/src/message/amqp/types/primitives/map.rs:58-123 | a map of any declared type decodes to the map of its entries, whatever the order in which they were written |
| ValueProofs.NarrowFieldsFit | protocol/src/message/amqp/types/primitives/list.rs:41-49 | the one-byte size and count never truncate, because each element takes a byte: the count is at most 254 |
| ValueProofs.MapHeaderReadsBack | protocol/src/message/amqp/types/primitives/map.rs:104-116 | the header in front of a map's content, one-byte or four-byte, is read as the number of keys and values |
| ValueExactness.RoundTrip | protocol/src/message/amqp/types/primitives/value.rs:119-157 | decoding an encoded value always succeeds and leaves the suffix, and returns the same value if and only if nothing in it is changed by decoding |
| WideLists.RoundTripExactly | protocol/src/message/amqp/types/primitives/list.rs:38-87 | a value comes back unchanged if and only if it has no wide list at any depth and nothing in it is changed by decoding; among values with wide lists, for those whose first misreading nothing can make up for (`Exposed`) |
| WideLists.WideIsLost | protocol/src/message/amqp/types/primitives/list.rs:41-49 | a value whose first wide list has another number of items than are read never decodes to itself, whatever follows, and however deep in lists, described values and the values of maps it is |
| WideLists.WideListIsMiscounted | protocol/src/message/amqp/types/primitives/list.rs:59-86 | a wide list of any length decodes to as many items as the second byte of its size says, or not at all |
| WideLists.WideMapIsLost | protocol/src/message/amqp/types/primitives/map.rs:58-84 | a map of any declared type is lost if a key decodes to none of its keys, or a lost value stands behind a key that comes back: no other entry makes up for one that is misread |
| WideLists.WideEndIsMisread | protocol/src/message/amqp/types/primitives/list.rs:41-87 | when the wide list is the last thing of a value, what is left unread begins with a byte that starts no section |
| WideLists.WideListIsLost | protocol/src/message/amqp/types/primitives/list.rs:38-87 | a wide list decodes to the empty list and leaves its content unread |
| WideLists.ListRoundTrip | protocol/src/message/amqp/types/primitives/list.rs:38-87 | the list codec by itself restores a list if and only if it is narrow and its elements are restored, unless a wide list has as many items as are read |
| WideLists.WideListExample | protocol/src/message/amqp/types/primitives/list.rs:41-44 | a list of one 253-byte binary does not come back |
| ValueExactness.SmallIntExample | protocol/src/message/amqp/types/primitives/simple.rs:341-343 | minus one comes back as 255 |
| ValueExactness.SizeOfEncoding | protocol/src/message/amqp/types/primitives/value.rs:138-157 | the reported size of a nested value exceeds the written one by the number of small longs in it |
| ValueExactness.HasLayout | protocol/src/message/amqp/types/primitives/map.rs:14-18 | every value whose map keys can be hashed is stored in some layout, so the theorems about layouts leave out no value |
| MessageProofs.CompositeReadsBack | protocol/src/message/amqp/types/primitives/list.rs:90-124 | a composite of typed fields is rebuilt field by field from its encoding, whatever was in the destination |
| MessageProofs.HeaderReadsBack | protocol/src/message/amqp/header.rs:50-103 | every header comes back, although its null delivery count would become 4 |
| MessageProofs.PropertiesReadBack | protocol/src/message/amqp/properties.rs:66-128 | properties of at most 254 content bytes come back field by field |
| MessageProofs.SectionReadsBack | protocol/src/message/amqp/section.rs:36-62 | each of the nine kinds of section is recognised and read back in front of any bytes |
| MessageProofs.Rebuild | protocol/src/message/amqp/message.rs:138-181 | applying the sections of a message in the order of writing to an empty message gives that message |
| MessageProofs.RoundTrip | protocol/src/message/amqp/message.rs:138-237 | a message is rebuilt from its own encoding, consuming all of it, and is the same message if and only if nothing in it is changed by decoding |
| MessageProofs.SizeOfEncoding | protocol/src/message/amqp/message.rs:184-237 | for every message the reported size is the written one plus one per small long plus six for borderline properties |
| MessageProofs.SizeOfProperties | protocol/src/message/amqp/properties.rs:58-95 | the two thresholds of the property section disagree exactly for 253 and 254 content bytes |
| MessageProofs.SizeOfHeader | protocol/src/message/amqp/header.rs:51-77 | the size of a header is exact |
| MessageLoss.RebuiltExactly | protocol/src/message/amqp/properties.rs:66-95 | a message is rebuilt if and only if its sections are narrow and nothing is changed by decoding; each section may hold a wide list below 64K, or end in one in the value of a map |
| MessageLoss.LongUserId | protocol/src/message/amqp/properties.rs:71-74 | a message with a user id of 241 bytes cannot be decoded |
| Progress.ValueSuffix | protocol/src/message/amqp/types/primitives/value.rs:53-71 | a successful value decoder leaves a strictly shorter suffix of its input |
| Progress.MapSuffix | protocol/src/message/amqp/types/primitives/map.rs:75-81 | the same for maps of every declared type |
| Progress.ListSuffix | protocol/src/message/amqp/types/primitives/list.rs:79-83 | the same for lists |
| Progress.SectionSuffix | protocol/src/message/amqp/message.rs:142-178 | the same for sections, so the section loop terminates |
| Encoders.EncodeSimple | protocol/src/message/amqp/types/primitives/simple.rs:77-98 | the writer gains exactly the bytes of the primitive |
| Encoders.EncodeDescriptor | protocol/src/message/amqp/types/descriptor.rs:26-32 | the writer gains exactly the bytes of the descriptor |
| Encoders.EncodeValue | protocol/src/message/amqp/types/primitives/value.rs:147-156 | the writer gains exactly the bytes of the value |
| Encoders.EncodeList | protocol/src/message/amqp/types/primitives/list.rs:38-55 | the loop over the items writes the encoding that the round trips are about |
| Encoders.EncodeMap | protocol/src/message/amqp/types/primitives/map.rs:104-123 | the loop over the entries writes keys and values in iteration order |
| Encoders.EncodeHeader | protocol/src/message/amqp/header.rs:57-77 | the writer gains exactly the bytes of the header section |
| Encoders.EncodeProperties | protocol/src/message/amqp/properties.rs:66-95 | the writer gains exactly the bytes of the property section |
| Encoders.EncodeBody | protocol/src/message/amqp/body.rs:54-69 | the loops over the body write its data, sequences and value as sections |
| Encoders.BodySize | protocol/src/message/amqp/body.rs:39-52 | the accumulated size is that of the body's sections |
| Encoders.EncodeMessage | protocol/src/message/amqp/message.rs:209-237 | writing the parts one by one gives the sections of the message in order |
| Encoders.MessageSize | protocol/src/message/amqp/message.rs:184-207 | adding up from the body gives the size of all sections |
| Encoders.EncodePublished | protocol/src/codec/encoder.rs:101-127 | a published message is written with its id, in version 2 its filter value, its size and its bytes |
| Encoders.EncodeBatch | protocol/src/codec/encoder.rs:129-155 | the loop over a batch writes the messages in order |
| Encoders.EncodeCommand | protocol/src/commands/publish.rs:45-53 | the writer gains exactly the bytes of the publish command |
| Encoders.EncodeRequest | protocol/src/request/mod.rs:155-166 | the writer gains the length prefix, the header and the command |
| Decoders.DecodeList | protocol/src/message/amqp/types/primitives/list.rs:59-86 | the loop returns what the recursive list decoder returns, on every input |
| Decoders.DecodeMap | protocol/src/message/amqp/types/primitives/map.rs:58-84 | the same for the map loop, with its underflow and its unhashable keys |
| Decoders.WrappingDecodesTheSame | protocol/src/message/amqp/types/primitives/map.rs:75-81 | where the count wraps around instead of panicking, the same inputs decode, to the same maps; an odd count never ends in success |
| Decoders.DecodeWithFields | protocol/src/message/amqp/types/primitives/list.rs:90-124 | the same for the loop over the fields of a composite |
| Decoders.DecodeMessage | protocol/src/message/amqp/message.rs:139-180 | the same for the section loop |
| Decoders.ReadBytes | protocol/src/codec/decoder.rs:63-73 | reading byte by byte returns a slice, and asks for more exactly when the slice does not fit |
| Decoders.DecodeAllPublished | protocol/src/codec/decoder.rs:124-135 | the loop over a batch returns what the recursive decoder returns |
| Decoders.DecodeRows | protocol/src/commands/deliver.rs:123-129 | the loops over the rows of a response, such as the messages of a chunk, return what the recursive decoder returns |
| Frames.PrefixCountsPayload | protocol/src/request/mod.rs:155-166 | in both versions the length prefix is the number of bytes that follow if and only if every message has an exact size; otherwise it is too large by the sum of the overcounts |
| Frames.SizedMessageExactly | protocol/src/codec/decoder.rs:104-110 | a message behind its size reads back and leaves what follows if and only if its size is exact |
| Frames.LastInexactIsIncomplete | protocol/src/codec/decoder.rs:63-73 | a message whose size is too large asks for more when nothing follows |
| Frames.BatchRoundTrip | protocol/src/commands/publish.rs:36-80 | a version 1 publish frame of messages with exact sizes decodes to the same publisher, ids and messages and is used up |
| Frames.InexactCommandIsIncomplete | protocol/src/commands/publish.rs:58-80 | a batch whose last message has a size that is too large is never complete |
| Version2.Version2Exactly | protocol/src/codec/decoder.rs:112-122 | a version 2 message comes back through its own decoder if and only if it is empty and has no filter; a filtered one, if it is not so long that the filter can be taken for its length |
| Version2.FirstUnfiltered | protocol/src/codec/decoder.rs:104-110 | the decoder that publish frames meet takes a version 2 message without a filter, below 64K, for the empty one and goes on inside its size, whatever follows |
| Version2.FirstFiltered | protocol/src/codec/decoder.rs:104-110 | of one with a filter it asks for more, until there are as many bytes as the filter seems to promise |
| Version2.UnfilteredBatch | protocol/src/commands/publish.rs:58-80 | a version 2 batch of any length whose first message has no filter fails or returns an empty message in its place |
| Version2.FilteredBatch | protocol/src/commands/publish.rs:58-80 | a version 2 batch of any length whose first message has a filter is never complete, if it is not so long that the filter can be taken for its length |
| Version2.Version2ThroughCommand | protocol/src/commands/publish.rs:58-80 | what exactly a version 2 publish command with one message decodes to |
| Responses.FrameStable | protocol/src/response/mod.rs:137-207 | what is decoded at the front of a buffer does not depend on what follows, except when more input was asked for or a string was cut |
| Responses.DecodeFrame | protocol/src/response/mod.rs:137-207 | behind the length and the header, decoding a frame is decoding the parts that its key stands for |
| FrameStream.DrainInTwo | src/client/codec.rs:16-26 | draining a prefix, then feeding the rest, is draining the whole |
| FrameStream.ChunkingIsInvisible | src/client/codec.rs:16-26 | however a stream without strings is cut, the frames, the leftover bytes and the final state are those of decoding it in one piece |
| FrameStream.FramesComeOut | src/client/codec.rs:16-26 | whole frames that arrive in arbitrary pieces come out as the same responses in the same order with nothing left over |
| FrameStream.ChunkingOrPanic | src/client/codec.rs:16-26 | on any stream, cutting can at worst panic early, after a prefix of the same frames |
| CutStrings.CutsPanicExactly | protocol/src/codec/decoder.rs:141-152 | a whole frame of any kind can be cut so that the decoder panics if and only if it carries a string that is not empty |
| CutStrings.EveryStringCanBeCut | src/client/codec.rs:16-26 | each such frame decodes in one piece and panics in two |
| FrameStream.FrameBuffer.Next | src/client/codec.rs:16-26 | one call takes one whole frame off the buffer or leaves the buffer untouched |
| FrameStream.FrameBuffer.Poll | src/client/codec.rs:16-26 | repeated calls take off all whole frames and keep the unfinished rest |
| FrameStream.FrameBuffer.Receive | src/client/codec.rs:16-26 | a chunk that arrives yields the frames and the rest that feeding it to the stream yields |
| FrameStream.FrameSuffix | src/client/codec.rs:18-21 | advancing by the difference of the lengths leaves exactly the bytes that decoding left |
| Deliver.ChunkRoundTrip | protocol/src/commands/deliver.rs:78-148 | a deliver frame of messages with exact sizes decodes to its fields and messages and uses exactly its own bytes |
| Deliver.InexactChunkWaits | protocol/src/commands/deliver.rs:108-148 | a chunk whose last message has a size that is too large is not decoded from its own bytes: all of them wait for more |
| Deliver.ChunksArrive | protocol/src/commands/deliver.rs:108-148 | chunks sent as frames and cut anywhere arrive complete and in order |
| Deliver.SizeOfChunk | protocol/src/commands/deliver.rs:62-105 | the size of a deliver command is short by three bytes per message, up to the overcounts |
| Bodies.BodiesDecodeExactly | protocol/src/commands/deliver.rs:123-129 | the messages of a chunk, whatever their bodies, decode if and only if every body does; otherwise the first that does not decides the outcome |
| Bodies.ChunkDecodesExactly | protocol/src/commands/deliver.rs:108-148 | the same for the whole frame, in front of any bytes |
| Bodies.ChunkBlocksExactly | protocol/src/commands/deliver.rs:108-148 | a chunk that is all there is never decoded, whatever follows, if and only if the first of its bodies that does not decode asks for more |
| Deliver.CutMessageBlocksTheStream | protocol/src/commands/deliver.rs:123-129 | the same of a k-th message that ends inside a value, behind k that decode, whatever the bytes behind it are |
| Deliver.LoneDescriptorIsCut | protocol/src/message/amqp/section.rs:36-62 | one zero byte is such a message |
| Consumer.ConsumerMessageHandler.HandleDeliver | src/consumer.rs:347-396 | a handler queues the deliveries of its chunk in order and then asks for one more chunk |
| Consumer.ConsumerMessageHandler.KeptMessages | src/consumer.rs:358-371 | the client predicate keeps exactly the messages it accepts, in order |
| Consumer.TaskIsHandler | src/client/mod.rs:162-168 | a spawned task that runs alone queues what `HandleDeliver` queues |
| Consumer.StepKeepsInv | src/consumer.rs:347-396 | with one credit, every step of broker, connection, handler tasks and reader keeps the credits and the order |
| Consumer.InOrder | src/consumer.rs:181-189 | in every interleaving at most one credit, frame or handler is under way, and the queue is a prefix of the stream, and all of it at the end |
| Consumer.TwoCreditsReorder | src/client/mod.rs:162-168 | with two or more credits there is a schedule of the spawned tasks that queues out of order, for any two chunks |
| Consumer.ReaderSeesTheStream | src/consumer.rs:297-308 | the reader sees a prefix of the stream, and its end only after closing and after everything queued |
| Consumer.EndIsCompleteExactly | src/consumer.rs:297-308 | when the reader sees the end, it has seen everything that has arrived if and only if no handler has anything left to queue |
| Consumer.EndCanComeEarly | src/consumer.rs:297-308 | for every script the consumer can be closed before the first chunk is queued, and the reader sees the end without it |
| Consumer.OffsetsAreTrue | src/consumer.rs:351-392 | over contiguous chunks without a predicate, the k-th delivery is the message at the k-th offset from the first requested one |
| Consumer.TrueOffsetsExactly | src/consumer.rs:357-391 | with a predicate, offsets are true if and only if nothing is delivered or no rejected message precedes a kept one |
| Consumer.NothingLostExactly | src/consumer.rs:373-379 | with a predicate, no requested message is dropped if and only if all messages below the requested offset are kept, or none from it on, or the chunk starts at or after it |
| Accumulator.MessageAccumulator.Add | src/producer.rs:253-262 | a message is queued and counted, or the call would wait; it reports reaching the capacity |
| Accumulator.MessageAccumulator.Get | src/producer.rs:264-280 | the oldest messages up to the batch size are taken and subtracted from the count |
| Accumulator.SendIsAdd | src/producer.rs:253-262 | the steps of a send, when nothing comes between them, do what `Add` does |
| Accumulator.FlushIsGet | src/producer.rs:264-280 | the steps of a flush, when nothing comes between them, do what `Get` does |
| Accumulator.AccumulatorConserves | src/producer.rs:253-280 | with any number of senders and flushes, messages leave in the order of entering, none is lost or doubled, and the count is right modulo the word size up to the late steps |
| Accumulator.OneSenderNeverWaits | src/producer.rs:466-468 | with one sender and the timer, a send never finds the channel full, in any interleaving |
| Accumulator.TwoSendersCanWait | src/producer.rs:466-468 | with two senders it can, for every capacity |
| Accumulator.OverflowExactly | src/producer.rs:259-261 | with any number of senders, the next count overflows if and only if the senders that have not counted are one more than the messages that are queued or not subtracted |
| Accumulator.OneSenderOverflow | src/producer.rs:259-261 | with one sender: if and only if its message is gone from the queue and subtracted |
| Accumulator.PublishedInOrderExactly | src/producer.rs:81-92 | with distinct messages, what is published is a prefix of what was sent throughout a run if and only if the batches are published in the order in which they were taken |
| Accumulator.PublishedInOrder | src/producer.rs:81-92 | with any messages, publishing in that order is enough |
| Accumulator.FlushesCanOvertake | src/producer.rs:283-297 | for every capacity, the timer can be overtaken by a single sender, so that a first message is published behind the `capacity` messages sent after it |
| Confirms.Producer.InternalBatchSend | src/producer.rs:472-511 | every message of a batch gets an id and a registered waiter before anything is published; a closed producer does nothing |
| Confirms.Producer.BatchSendWithConfirm | src/producer.rs:394-416 | the empty batch panics before anything else |
| Confirms.Producer.HandleAnswers | src/producer.rs:560-595 | ids are answered in turn up to the first without a waiter |
| Confirms.HandlesAreHandleAnswers | src/producer.rs:560-595 | a frame handled step by step, when nothing comes between, is handled as by `HandleAnswers`, panics included |
| Confirms.WaitersAreFound | src/producer.rs:546-555 | in every run, answers that find no waiter are at most the overwritten waiters, and when everything is answered there is one if and only if a waiter was overwritten |
| Confirms.CallbacksFireOnce | src/producer.rs:486-508 | registered waiters are those waiting, those fired once with their own id and message, and those overwritten |
| Statuses.DistinctIdsAreSafe | src/producer.rs:546-595 | in every run in which the ids with a registered waiter are pairwise different, chosen or assigned: no answer misses its waiter, and the registered waiters are those waiting and those that fired, each once |
| Statuses.BatchEndsExactly | src/producer.rs:411-413 | in every run, whatever the ids, the receiver of a batch stops waiting if and only if the call has returned and each of its messages has fired or was overwritten |
| Statuses.BatchEndIsFinal | src/producer.rs:411-413 | after that, in every continuation, it gets nothing more |
| Statuses.BatchEndsWhenAnswered | src/producer.rs:394-416 | in every run in which messages are sent with different ids, a call that has returned stops waiting if and only if all its ids have been answered and handled, and then it has one status for each message |
| Batches.AnsweredOnceNeverPanics | src/producer.rs:546-595 | in every run in which the broker answers each id at most once, no answer misses its waiter, even if ids are used more than once |
| Batches.RepeatedIdsEndTheWait | src/producer.rs:394-416 | in every such run, for a call that shares its ids with no other and registers its messages before it publishes them: it stops waiting if and only if each of its ids has been answered and handled, however often an id occurs in the batch, and then it has one status for each distinct id |
| Batches.OneStatusPerId | src/producer.rs:394-416 | the number of statuses also without that order, once the wait has ended |
| Confirms.BatchWaitsForItsIds | src/producer.rs:487-503 | after registering, a batch waits for its distinct ids |
| Confirms.BatchGetsOneStatusEach | src/producer.rs:560-595 | right after registering, answering each distinct id once, in any order, fires one waiter each |
| Confirms.AnswersFire | src/producer.rs:567-593 | answering different registered ids finds every waiter, fires it with its own message, and leaves the others alone |
| Statuses.AutomaticIdsAreDistinct | src/producer.rs:453-464 | the ids that the producer assigns are different until the sequence passes 2^64, so runs with assigned ids are such runs |
| Statuses.AutomaticIdsAreSafe | src/producer.rs:453-464 | so while the producer assigns the ids, no answer misses its waiter and no waiter is lost |
| Confirms.ChosenIdsCanClash | src/producer.rs:453-464 | two messages with the same chosen id lose the first callback |
| Sessions.SessionLosesExactly | src/producer.rs:152-160 | whatever the order of arrival, a session loses no message as a duplicate if and only if its messages arrive in the order of their ids and it does not repeat id zero; when only the latter fails it loses only that one |
| Sessions.PublishingInTurnLosesNothing | src/producer.rs:81-92 | a session that sends everything through the accumulator, and whose batches are published in the order in which they were taken, loses nothing but a repeated id zero |
| Sessions.DirectBatchOvertakes | src/producer.rs:472-511 | a session that also sends a batch directly loses exactly the messages that it publishes behind that batch, even when flushes publish in turn |
| Sessions.OvertakingLosesMessages | src/producer.rs:283-297 | for every capacity and every state of the broker there is a run of one sender and the timer that loses messages |
| Sessions.IdsIncreaseAcrossSessions | src/producer.rs:453-456 | over any sessions with any order of arrival, nothing is discarded if and only if every session's messages arrive in order and the second does not repeat the id zero of a first one of which nothing else arrived; then all ids increase strictly |
| Sessions.SecondMessageDiscarded | src/producer.rs:152-160 | two sessions of one message each: the second message is discarded |
| Dispatcher.RequestsMap.Insert | src/client/dispatcher.rs:51-57 | a slot is added unless the table is closed |
| Dispatcher.RequestsMap.Remove | src/client/dispatcher.rs:59-61 | a slot is taken out and returned if it was there |
| Dispatcher.RequestsMap.Close | src/client/dispatcher.rs:63-66 | afterwards the table is closed and empty |
| Dispatcher.Dispatcher.ResponseChannel | src/client/dispatcher.rs:95-108 | a new id is used up in either case, and gets a slot unless the table is closed |
| Dispatcher.Dispatcher.Dispatch | src/client/dispatcher.rs:133-139 | a response goes to the slot of its id, which is removed, and to nobody else |
| Dispatcher.Dispatcher.HandleResponse | src/client/dispatcher.rs:158-188 | the receive loop delivers replies by id, passes everything else on, stops at the first error and closes the table |
| Dispatcher.StepsAreResponseChannel | src/client/dispatcher.rs:95-108 | the three steps of a call, when nothing comes between, do what `ResponseChannel` does |
| Dispatcher.ReceiveIsDispatch | src/client/dispatcher.rs:133-139 | a step that receives a reply does what `Dispatch` does |
| Dispatcher.OnePlaceEach | src/client/mod.rs:652-670 | in every run each call is in exactly one place: before its check, before its insert, waiting, answered, refused or dropped; an answer carries its id |
| Dispatcher.LiveIdsDiffer | src/client/dispatcher.rs:98-103 | calls that are live within 2^32 numbers have different ids |
| Dispatcher.RepliesReachTheirCaller | src/client/dispatcher.rs:133-139 | in such runs every answer is the reply to the caller's own request |
| Dispatcher.OneNumberTooMany | src/client/dispatcher.rs:98-103 | with one number more, a call gets another's reply |
| Dispatcher.UpdatesTakeNoSlot | src/client/dispatcher.rs:167-175 | taking all consumer updates, under any ids, out of any run changes nothing else: the table, the replies, the refused and the dropped calls stay the same |
| Dispatcher.OnlyLateInsertsStay | src/client/dispatcher.rs:51-66 | after closing, a slot in the table belongs to a call that had passed the check when the flag was set |
| Dispatcher.SlotsAfterClear | src/client/dispatcher.rs:51-66 | after the clear, a slot in the table belongs to a call that was between its check and its insert when the table was cleared |
| Dispatcher.ClearDropsAll | src/client/dispatcher.rs:147-155 | every call whose slot is present at the clear is dropped, keeps that outcome in every continuation and is never answered, so its caller learns that the connection is closed |
| Dispatcher.LateInsertHangsExactly | src/client/dispatcher.rs:51-57 | after the clear, a call in the table stays there in every continuation if and only if no call still between check and insert has the same id |
| Dispatcher.LateInsertHangs | src/client/dispatcher.rs:51-66 | there is such a call: its insert falls after the clear, and in every continuation it keeps its slot, is not answered, and is not told that the connection is closed |

## Left out

- WideLists.RoundTripExactly: says nothing of a value whose first wide list has 65532 content bytes or more and happens to have as many items as the second byte of its size says, or stands in a map behind or inside a key that decodes to another key of that map.
- MessageLoss.RebuiltExactly: of the sections with wide lists or properties, it covers those in which the last thing written is wide and has less than 65532 content bytes. Other wide values are lost (`WideIsLost`, `WideMapIsLost`), but the sections read behind them could by chance set the message right.
- Frames.BatchRoundTrip: is about messages with an exact size below 2^31, the largest length that the reader takes for non-negative. Of the others, a message does not read back by itself (`SizedMessageExactly`), and one at the end makes the frame incomplete; one in the middle shifts what is read behind it, and what that gives is left open.
- Deliver.ChunkRoundTrip: the same for chunks.
- Version2.Version2Exactly: leaves out filtered messages so long that the filter can be taken for a length that fits.
- Version2.UnfilteredBatch: is about a first message below 64K; Version2.Version2ThroughCommand is about one message.
- IdsIncreaseAcrossSessions: ids are unbounded; the wrap-around of the 64-bit sequence after 2^64 messages is not modelled there.
- OffsetsAreTrue: offsets are unbounded; a chunk that reaches 2^64 is not modelled.
- Sizes are unbounded too: contents of 4 GiB and more, whose 32-bit sizes would wrap, are outside the round trips by their size bounds.
- Floats are bit patterns: the equality of `OrderedFloat`, under which both zeros and all NaNs are equal as map keys, is not modelled.
- Timestamps are milliseconds in the range of the calendar library, and anything finer; the calendar itself is not part of the model.
- Error values: the two layers of decode errors are one type, and their texts are left out. The allocation of a very large declared count is not modelled except for negative ones.
- Responses are trees of items read by a table; string maps and string lists are kept as the rows on the wire, so repeated keys and absent strings are not resolved.
- Remaining requests (open, SASL, create, delete, subscribe, credit, tune and so on): the same straight-line encoding; the header mask that makes the consumer update reply undecodable as a request is modelled in the response table only.
- Builders, accessors and setters of messages, such as `set_data`, `push` and `put`.
- TCP, TLS, heartbeats, reconnection, the environment and load balancer, super streams, metrics, logging.
- Consumer update callbacks of users: arbitrary code; only the routing of the frame is modelled.
- Send failures of the connection: a request that is never sent leaves its slot in the dispatcher's table, which the runs include; errors returned to the caller do not appear. A credit that cannot be sent is included.
- Memory orderings: atomic operations take effect in one global order, and each step of a machine is one of them or one operation on a lock, channel or map.
- The capacity of a confirmation channel: a batch has one place per message, so its callbacks never wait for room.
