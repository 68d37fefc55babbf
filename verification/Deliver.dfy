/** Chunks of messages: the deliver frame (commands/deliver.rs). */
module Deliver {
  import opened Bytes
  import F = Frames
  import M = Messages
  import MP = MessageProofs
  import FS = FrameStream
  import opened Responses

  const COMMAND_DELIVER: u16 := 8

  datatype Chunk = Chunk(
    subscriptionId: byte, magicVersion: i8, chunkType: byte, numEntries: u16, timestamp: u64, epoch: u64,
    firstOffset: u64, crc: i32, trailerLength: u32, reserved: u32, messages: seq<M.StoredMessage>)

  /** The unused data length that the encoder writes: one byte and the size of each message. */
  function DataLength(ms: seq<M.StoredMessage>): nat {
    if ms == [] then 0 else 1 + M.Size(ms[0]) + DataLength(ms[1..])
  }

  /** A fixed-width field of a frame. */
  datatype Fixed = Fixed(width: nat, signed: bool, value: int) {
    predicate Fits() {
      if signed then width > 0 && 0 <= 2 * value + Span(width) < 2 * Span(width) else 0 <= value < Span(width)
    }
  }

  function FixedFields(c: Chunk): seq<Fixed> {
    [Fixed(1, false, c.subscriptionId), Fixed(1, true, c.magicVersion), Fixed(1, false, c.chunkType),
     Fixed(2, false, c.numEntries), Fixed(4, false, |c.messages|), Fixed(8, false, c.timestamp),
     Fixed(8, false, c.epoch), Fixed(8, false, c.firstOffset), Fixed(4, true, c.crc),
     Fixed(4, false, DataLength(c.messages)), Fixed(4, false, c.trailerLength), Fixed(4, false, c.reserved)]
  }

  ghost predicate AllFit(fs: seq<Fixed>) {
    forall i | 0 <= i < |fs| :: fs[i].Fits()
  }

  function EncodeFixed(fs: seq<Fixed>): seq<byte>
    requires AllFit(fs)
  {
    if fs == [] then []
    else
      assert fs[0].Fits();
      BigEndian(fs[0].width, Word(fs[0].width, fs[0].value)) + EncodeFixed(fs[1..])
  }

  function EncodeSized(ms: seq<M.StoredMessage>): seq<byte> {
    if ms == [] then [] else BigEndian(4, M.Size(ms[0])) + M.Encode(ms[0]) + EncodeSized(ms[1..])
  }

  function Encode(c: Chunk): seq<byte>
    requires AllFit(FixedFields(c))
  {
    EncodeFixed(FixedFields(c)) + EncodeSized(c.messages)
  }

  /** `DeliverCommand::encoded_size`. */
  function Size(c: Chunk): nat {
    45 + 4 + DataLength(c.messages)
  }

  function Overcounts(ms: seq<M.StoredMessage>): nat {
    if ms == [] then 0 else MP.Overcount(ms[0]) + Overcounts(ms[1..])
  }

  lemma {:induction false} SizeOfMessages(ms: seq<M.StoredMessage>)
    ensures DataLength(ms) + 3 * |ms| == |EncodeSized(ms)| + Overcounts(ms)
  {
    if ms != [] {
      MP.SizeOfEncoding(ms[0]);
      SizeOfMessages(ms[1..]);
    }
  }

  function Widths(fs: seq<Fixed>): nat {
    if fs == [] then 0 else fs[0].width + Widths(fs[1..])
  }

  lemma {:induction false} SizeOfFixed(fs: seq<Fixed>)
    requires AllFit(fs)
    ensures |EncodeFixed(fs)| == Widths(fs)
  {
    if fs != [] {
      SizeOfFixed(fs[1..]);
    }
  }

  lemma TwoWidths(fs: seq<Fixed>)
    requires |fs| >= 2
    ensures Widths(fs) == fs[0].width + fs[1].width + Widths(fs[2..])
  {
    assert fs[1..][1..] == fs[2..];
  }

  lemma SixWidths(fs: seq<Fixed>)
    requires |fs| >= 6
    ensures Widths(fs)
         == fs[0].width + fs[1].width + fs[2].width + fs[3].width + fs[4].width + fs[5].width + Widths(fs[6..])
  {
    TwoWidths(fs);
    TwoWidths(fs[2..]);
    TwoWidths(fs[4..]);
    assert fs[2..][2..] == fs[4..] && fs[4..][2..] == fs[6..];
  }

  lemma {:induction false} WidthOfChunk(c: Chunk)
    ensures Widths(FixedFields(c)) == 49
  {
    var fs := FixedFields(c);
    SixWidths(fs);
    SixWidths(fs[6..]);
    assert fs[6..][6..] == [];
  }

  /** The size of a chunk leaves out three of the four bytes in front of each message, so it is
      right only when the overcounts of the messages make up for them. */
  lemma SizeOfChunk(c: Chunk)
    requires AllFit(FixedFields(c))
    ensures Size(c) + 3 * |c.messages| == |Encode(c)| + Overcounts(c.messages)
  {
    SizeOfMessages(c.messages);
    SizeOfFixed(FixedFields(c));
    WidthOfChunk(c);
  }

  // ----- Reading a chunk back -----

  function PartOf(f: Fixed): Part {
    if f.signed then SignedWord(f.width) else Unsigned(f.width)
  }

  function PartsOf(fs: seq<Fixed>): seq<Part> {
    if fs == [] then [] else [PartOf(fs[0])] + PartsOf(fs[1..])
  }

  function Numerals(fs: seq<Fixed>): (r: seq<Item>)
    ensures |r| == |fs| && forall i | 0 <= i < |fs| :: r[i] == Numeral(fs[i].value)
  {
    if fs == [] then [] else [Numeral(fs[0].value)] + Numerals(fs[1..])
  }

  lemma FieldReadsBack(f: Fixed, items: seq<Item>, rest: seq<byte>)
    requires f.Fits()
    ensures DecodePart(PartOf(f), items, BigEndian(f.width, Word(f.width, f.value)) + rest)
         == Ok(rest, Numeral(f.value))
  {
    ReadsBack(f.width, Word(f.width, f.value), rest);
  }

  lemma PartsStep(part: Part, more: seq<Part>, items: seq<Item>, input: seq<byte>, item: Item, rest: seq<byte>)
    requires DecodePart(part, items, input) == Ok(rest, item)
    ensures DecodeParts([part] + more, items, input) == DecodeParts(more, items + [item], rest)
  {
    assert ([part] + more)[1..] == more;
  }

  lemma FirstPart(fs: seq<Fixed>, more: seq<Part>)
    requires fs != []
    ensures PartsOf(fs) + more == [PartOf(fs[0])] + (PartsOf(fs[1..]) + more)
  {
  }

  lemma {:induction false} FixedReadBack(fs: seq<Fixed>, more: seq<Part>, items: seq<Item>, rest: seq<byte>)
    requires AllFit(fs)
    ensures DecodeParts(PartsOf(fs) + more, items, EncodeFixed(fs) + rest)
         == DecodeParts(more, items + Numerals(fs), rest)
  {
    if fs == [] {
      assert PartsOf(fs) + more == more && EncodeFixed(fs) + rest == rest && items + Numerals(fs) == items;
    } else {
      var f := fs[0];
      assert f.Fits();
      var head, tail := BigEndian(f.width, Word(f.width, f.value)), EncodeFixed(fs[1..]);
      Associative(head, tail, rest);
      FieldReadsBack(f, items, tail + rest);
      FirstPart(fs, more);
      PartsStep(PartOf(f), PartsOf(fs[1..]) + more, items, head + (tail + rest), Numeral(f.value), tail + rest);
      FixedReadBack(fs[1..], more, items + [Numeral(f.value)], rest);
      assert items + [Numeral(f.value)] + Numerals(fs[1..]) == items + Numerals(fs);
    }
  }

  /** Every message can be read back, and its size is exact. */
  predicate AllExact(ms: seq<M.StoredMessage>) {
    ms == [] || (F.Exact(ms[0]) && AllExact(ms[1..]))
  }

  function Rowed(ms: seq<M.StoredMessage>): (r: seq<Row>)
    ensures |r| == |ms| && forall i | 0 <= i < |ms| :: r[i] == Row([AmqpMessage(MP.MessageReadback(ms[i]))])
  {
    if ms == [] then [] else [Row([AmqpMessage(MP.MessageReadback(ms[0]))])] + Rowed(ms[1..])
  }

  lemma RowReadsBack(input: seq<byte>, rest: seq<byte>, m: M.PlainMessage)
    requires F.DecodeSizedMessage(input) == Ok(rest, m)
    ensures DecodeRow([SizedMessage], input) == Ok(rest, Row([AmqpMessage(m)]))
  {
    assert [SizedMessage][1..] == [] && [] + [AmqpMessage(m)] == [AmqpMessage(m)];
  }

  lemma RowsStep(count: nat, row: seq<Part>, input: seq<byte>, first: Row, middle: seq<byte>, rows: seq<Row>,
                 rest: seq<byte>)
    requires DecodeRow(row, input) == Ok(middle, first) && DecodeRows(count, row, middle) == Ok(rest, rows)
    ensures DecodeRows(count + 1, row, input) == Ok(rest, [first] + rows)
  {
  }

  lemma {:induction false} MessagesReadBack(ms: seq<M.StoredMessage>, rest: seq<byte>)
    requires AllExact(ms)
    ensures DecodeRows(|ms|, [SizedMessage], EncodeSized(ms) + rest) == Ok(rest, Rowed(ms))
  {
    if ms == [] {
      assert EncodeSized(ms) + rest == rest;
    } else {
      var first, tail := BigEndian(4, M.Size(ms[0])) + M.Encode(ms[0]), EncodeSized(ms[1..]);
      Associative(first, tail, rest);
      F.SizedMessageReadsBack(ms[0], tail + rest);
      RowReadsBack(first + (tail + rest), tail + rest, MP.MessageReadback(ms[0]));
      MessagesReadBack(ms[1..], rest);
      RowsStep(|ms| - 1, [SizedMessage], first + (tail + rest), Row([AmqpMessage(MP.MessageReadback(ms[0]))]),
               tail + rest, Rowed(ms[1..]), rest);
    }
  }

  function PartsOfChunk(c: Chunk): seq<Part> {
    PartsOf(FixedFields(c)) + [Rows(Field(4), [SizedMessage])]
  }

  lemma ChunkTable(c: Chunk)
    ensures Layout(COMMAND_DELIVER) == Some(PartsOfChunk(c))
  {
    var fs := FixedFields(c);
    forall i | 0 <= i < 12 ensures |PartsOf(fs)| == 12 && PartsOf(fs)[i] == PartOf(fs[i]) {
      PartAt(fs, i);
    }
    assert DELIVER == PartsOfChunk(c);
  }

  lemma {:induction false} PartAt(fs: seq<Fixed>, i: nat)
    requires i < |fs|
    ensures |PartsOf(fs)| == |fs| && PartsOf(fs)[i] == PartOf(fs[i])
  {
    if i > 0 {
      PartAt(fs[1..], i - 1);
    } else if |fs| > 1 {
      PartAt(fs[1..], 0);
    }
  }

  lemma RowsReadBack(count: nat, items: seq<Item>, input: seq<byte>, rest: seq<byte>, rows: seq<Row>)
    requires CountAt(items, 4) == count && DecodeRows(count, [SizedMessage], input) == Ok(rest, rows)
    ensures DecodeParts([Rows(Field(4), [SizedMessage])], items, input) == Ok(rest, items + [Table(rows)])
  {
    assert [Rows(Field(4), [SizedMessage])][1..] == [];
  }

  /** A chunk as its frame is decoded. */
  function ItemsOf(c: Chunk): seq<Item> {
    Numerals(FixedFields(c)) + [Table(Rowed(c.messages))]
  }

  lemma {:induction false} PartsReadBack(fs: seq<Fixed>, ms: seq<M.StoredMessage>, rest: seq<byte>)
    requires AllFit(fs) && AllExact(ms) && |fs| > 4 && fs[4].value == |ms|
    ensures DecodeParts(PartsOf(fs) + [Rows(Field(4), [SizedMessage])], [], (EncodeFixed(fs) + EncodeSized(ms)) + rest)
         == Ok(rest, Numerals(fs) + [Table(Rowed(ms))])
  {
    Associative(EncodeFixed(fs), EncodeSized(ms), rest);
    FixedReadBack(fs, [Rows(Field(4), [SizedMessage])], [], EncodeSized(ms) + rest);
    assert [] + Numerals(fs) == Numerals(fs);
    MessagesReadBack(ms, rest);
    RowsReadBack(|ms|, Numerals(fs), EncodeSized(ms) + rest, rest, Rowed(ms));
  }

  /** A deliver frame decodes to its own fields and messages, and uses exactly its own bytes. */
  lemma {:induction false} ChunkRoundTrip(length: u32, version: u16, c: Chunk, rest: seq<byte>)
    requires AllFit(FixedFields(c)) && AllExact(c.messages)
    ensures Responses.Decode(BigEndian(4, length) + (F.EncodeHeader(COMMAND_DELIVER, version) + (Encode(c) + rest)))
         == Ok(rest, Response(COMMAND_DELIVER, version, ItemsOf(c)))
  {
    ChunkTable(c);
    PartsReadBack(FixedFields(c), c.messages, rest);
    DecodeFrame(length, COMMAND_DELIVER, version, PartsOfChunk(c), Encode(c) + rest);
  }

  // ----- Chunks on a stream -----

  function DeliverFrame(length: u32, version: u16, body: seq<byte>): seq<byte> {
    BigEndian(4, length) + (F.EncodeHeader(COMMAND_DELIVER, version) + body)
  }

  ghost predicate Sendable(c: Chunk) {
    AllFit(FixedFields(c)) && AllExact(c.messages)
  }

  ghost function FramesOf(version: u16, cs: seq<Chunk>): seq<seq<byte>>
    requires forall i | 0 <= i < |cs| :: Sendable(cs[i])
  {
    if cs == [] then [] else
      assert Sendable(cs[0]);
      [DeliverFrame((4 + Size(cs[0])) % U32_LIMIT, version, Encode(cs[0]))] + FramesOf(version, cs[1..])
  }

  function ResponsesOf(version: u16, cs: seq<Chunk>): seq<Response> {
    if cs == [] then [] else [Response(COMMAND_DELIVER, version, ItemsOf(cs[0]))] + ResponsesOf(version, cs[1..])
  }

  lemma {:induction false} FixedPartsAreTextFree(fs: seq<Fixed>)
    ensures TextFreeAll(PartsOf(fs) + [Rows(Field(4), [SizedMessage])])
  {
    var last := [Rows(Field(4), [SizedMessage])];
    if fs == [] {
      assert PartsOf(fs) + last == last && last[1..] == [] && [SizedMessage][1..] == [];
    } else {
      assert (PartsOf(fs) + last)[1..] == PartsOf(fs[1..]) + last;
      FixedPartsAreTextFree(fs[1..]);
    }
  }

  lemma FrameIsWhole(version: u16, c: Chunk)
    requires Sendable(c)
    ensures Responses.Decode(DeliverFrame((4 + Size(c)) % U32_LIMIT, version, Encode(c)))
         == Ok([], Response(COMMAND_DELIVER, version, ItemsOf(c)))
    ensures TextFreeKey(COMMAND_DELIVER)
  {
    assert Encode(c) + [] == Encode(c);
    ChunkRoundTrip((4 + Size(c)) % U32_LIMIT, version, c, []);
    ChunkTable(c);
    FixedPartsAreTextFree(FixedFields(c));
  }

  lemma {:induction false} FramesAreWhole(version: u16, cs: seq<Chunk>)
    requires forall i | 0 <= i < |cs| :: Sendable(cs[i])
    ensures FS.WholeFrames(FramesOf(version, cs), ResponsesOf(version, cs))
    decreases |cs|
  {
    if cs != [] {
      FrameIsWhole(version, cs[0]);
      FramesAreWhole(version, cs[1..]);
      assert FramesOf(version, cs)[1..] == FramesOf(version, cs[1..]);
      assert ResponsesOf(version, cs)[1..] == ResponsesOf(version, cs[1..]);
    }
  }

  /** Chunks sent as frames and cut anywhere on the way arrive with their fields and messages, in
      order, and with nothing left over. */
  lemma {:induction false} ChunksArrive(version: u16, cs: seq<Chunk>, pieces: seq<seq<byte>>)
    requires forall i | 0 <= i < |cs| :: Sendable(cs[i])
    requires FS.Concat(pieces) == FS.Concat(FramesOf(version, cs))
    ensures FS.FeedAll(FS.START, pieces) == FS.Progress(ResponsesOf(version, cs), FS.Waiting([]))
  {
    FramesAreWhole(version, cs);
    FS.FramesComeOut(FramesOf(version, cs), ResponsesOf(version, cs), pieces);
  }

  // ----- Chunks with a message that does not decode -----

  /** What comes of a list of messages behind its first. */
  function Continued(first: Outcome<Row>, count: nat): Outcome<seq<Row>> {
    if first.Ok? then Prepend([first.value], DecodeRows(count, [SizedMessage], first.rest))
    else first.PropagateFailure()
  }

  lemma RowsNext(count: nat, input: seq<byte>)
    requires count > 0
    ensures DecodeRows(count, [SizedMessage], input) == Continued(DecodeRow([SizedMessage], input), count - 1)
  {
  }

  function DecodeMessages(count: nat, input: seq<byte>): Outcome<seq<Row>> {
    DecodeRows(count, [SizedMessage], input)
  }

  function DecodeMessage(input: seq<byte>): Outcome<Row> {
    DecodeRow([SizedMessage], input)
  }

  lemma RowsRepeat()
    ensures Repeats(DecodeMessages, DecodeMessage)
  {
    forall n: nat, input: seq<byte> ensures RepeatsAt(DecodeMessages, DecodeMessage, n, input) {
      if n > 0 {
        RowsNext(n, input);
      }
    }
  }

  /** `k` messages that decode, and one behind them that asks for more. */
  lemma {:induction false} RowsStop(k: nat, count: nat, front: seq<byte>, tail: seq<byte>)
    requires k < count && DecodeRows(k, [SizedMessage], front).Ok? && DecodeRows(k, [SizedMessage], front).rest == []
    requires F.DecodeSizedMessage(tail).NeedsMore()
    ensures DecodeRows(count, [SizedMessage], front + tail).NeedsMore()
  {
    RowsStable(k, [SizedMessage], front, tail);
    assert [] + tail == tail;
    assert DecodeRow([SizedMessage], tail).NeedsMore();
    RowsRepeat();
    ManyStop(DecodeMessages, DecodeMessage, k, count, front + tail);
  }

  lemma RowsStall(count: nat, items: seq<Item>, input: seq<byte>)
    requires CountAt(items, 4) == count && DecodeRows(count, [SizedMessage], input).NeedsMore()
    ensures DecodeParts([Rows(Field(4), [SizedMessage])], items, input).NeedsMore()
  {
  }

  lemma {:induction false} PartsStall(fs: seq<Fixed>, input: seq<byte>)
    requires AllFit(fs) && |fs| > 4 && fs[4].value >= 0 && DecodeRows(fs[4].value, [SizedMessage], input).NeedsMore()
    ensures DecodeParts(PartsOf(fs) + [Rows(Field(4), [SizedMessage])], [], EncodeFixed(fs) + input).NeedsMore()
  {
    FixedReadBack(fs, [Rows(Field(4), [SizedMessage])], [], input);
    assert [] + Numerals(fs) == Numerals(fs);
    RowsStall(fs[4].value, Numerals(fs), input);
  }

  lemma UndecodedWaits(stream: seq<byte>)
    requires Responses.Decode(stream).NeedsMore()
    ensures FS.Drain(stream) == FS.Progress([], FS.Waiting(stream))
  {
  }

  lemma FrameStalls(length: u32, version: u16, parts: seq<Part>, body: seq<byte>)
    requires Layout(COMMAND_DELIVER) == Some(parts) && DecodeParts(parts, [], body).NeedsMore()
    ensures Responses.Decode(DeliverFrame(length, version, body)).NeedsMore()
  {
    DecodeFrame(length, COMMAND_DELIVER, version, parts, body);
  }

  lemma FieldsStall(length: u32, version: u16, fs: seq<Fixed>, tail: seq<byte>)
    requires AllFit(fs) && |fs| > 4 && fs[4].value >= 0 && DecodeRows(fs[4].value, [SizedMessage], tail).NeedsMore()
    requires Layout(COMMAND_DELIVER) == Some(PartsOf(fs) + [Rows(Field(4), [SizedMessage])])
    ensures Responses.Decode(DeliverFrame(length, version, EncodeFixed(fs) + tail)).NeedsMore()
  {
    PartsStall(fs, tail);
    FrameStalls(length, version, PartsOf(fs) + [Rows(Field(4), [SizedMessage])], EncodeFixed(fs) + tail);
  }

  /** Behind the fields of a chunk, rows that ask for more make the whole frame wait. */
  lemma {:induction false} ChunkStalls(length: u32, version: u16, c: Chunk, tail: seq<byte>, stream: seq<byte>)
    requires AllFit(FixedFields(c)) && DecodeRows(|c.messages|, [SizedMessage], tail).NeedsMore()
    requires stream == DeliverFrame(length, version, EncodeFixed(FixedFields(c)) + tail)
    ensures FS.Drain(stream) == FS.Progress([], FS.Waiting(stream))
  {
    ChunkTable(c);
    FieldsStall(length, version, FixedFields(c), tail);
    UndecodedWaits(stream);
  }

  // ----- A message cut short inside its own size -----

  lemma BytesReadBack(body: seq<byte>, more: seq<byte>)
    requires |body| < 0x8000_0000
    ensures F.ReadBytes(BigEndian(4, |body|) + (body + more)) == Ok(more, body)
  {
    assert Span(4) == U32_LIMIT;
    ReadsBack(4, |body|, body + more);
    assert (body + more)[..|body|] == body && (body + more)[|body|..] == more;
  }

  lemma CutMessageStalls(input: seq<byte>, body: seq<byte>, more: seq<byte>)
    requires F.ReadBytes(input) == Ok(more, body) && M.Decode(body).NeedsMore()
    ensures F.DecodeSizedMessage(input).NeedsMore()
  {
  }

  lemma {:induction false} MessageStalls(body: seq<byte>, more: seq<byte>)
    requires M.Decode(body).NeedsMore() && |body| < 0x8000_0000
    ensures F.DecodeSizedMessage(BigEndian(4, |body|) + (body + more)).NeedsMore()
  {
    BytesReadBack(body, more);
    CutMessageStalls(BigEndian(4, |body|) + (body + more), body, more);
  }

  /** A chunk in which any message ends inside one of its own values, although the chunk itself is
      complete, is taken for a frame that has not arrived yet. `front` holds the `k` messages
      before it, which decode. Whatever follows, the chunk is never decoded, and no later frame
      is. */
  lemma {:induction false} CutMessageBlocksTheStream(length: u32, version: u16, c: Chunk, k: nat, front: seq<byte>,
                                  body: seq<byte>, more: seq<byte>, stream: seq<byte>)
    requires AllFit(FixedFields(c)) && k < |c.messages|
    requires DecodeRows(k, [SizedMessage], front).Ok? && DecodeRows(k, [SizedMessage], front).rest == []
    requires M.Decode(body).NeedsMore() && |body| < 0x8000_0000
    requires stream == DeliverFrame(length, version,
                                    EncodeFixed(FixedFields(c)) + (front + (BigEndian(4, |body|) + (body + more))))
    ensures FS.Drain(stream) == FS.Progress([], FS.Waiting(stream))
  {
    var tail := BigEndian(4, |body|) + (body + more);
    MessageStalls(body, more);
    RowsStop(k, |c.messages|, front, tail);
    ChunkStalls(length, version, c, front + tail, stream);
  }

  /** Such a message: a lone descriptor code. */
  lemma LoneDescriptorIsCut()
    ensures M.Decode([0x00]) == Err(Incomplete(1))
  {
    assert [0x00][1..] == [];
  }

  // ----- A last message whose size is too large -----

  lemma {:induction false} EncodeSizedLast(front: seq<M.StoredMessage>, last: M.StoredMessage)
    ensures EncodeSized(front + [last]) == EncodeSized(front) + (BigEndian(4, M.Size(last)) + M.Encode(last))
  {
    if front == [] {
      assert front + [last] == [last] && [last][1..] == [];
    } else {
      assert (front + [last])[1..] == front[1..] + [last];
      EncodeSizedLast(front[1..], last);
      Associative(BigEndian(4, M.Size(front[0])) + M.Encode(front[0]), EncodeSized(front[1..]),
                  BigEndian(4, M.Size(last)) + M.Encode(last));
    }
  }

  /** A chunk that ends in a message with an overcount is never decoded by itself: its frame, all of
      it, waits for bytes that do not belong to it. */
  lemma {:induction false} InexactChunkWaits(length: u32, version: u16, c: Chunk, front: seq<M.StoredMessage>,
                                             last: M.StoredMessage)
    requires AllFit(FixedFields(c)) && c.messages == front + [last] && AllExact(front) && F.Inexact(last)
    ensures var stream := DeliverFrame(length, version, Encode(c));
            FS.Drain(stream) == FS.Progress([], FS.Waiting(stream))
  {
    var tail := BigEndian(4, M.Size(last)) + M.Encode(last);
    EncodeSizedLast(front, last);
    MessagesReadBack(front, []);
    assert EncodeSized(front) + [] == EncodeSized(front);
    F.LastInexactIsIncomplete(last);
    RowsStop(|front|, |c.messages|, EncodeSized(front), tail);
    ChunkStalls(length, version, c, EncodeSized(c.messages), DeliverFrame(length, version, Encode(c)));
  }
}
