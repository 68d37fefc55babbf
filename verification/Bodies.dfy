/** A deliver frame that is all there (commands/deliver.rs): what becomes of it, whatever the bodies of
    its messages are. */
module Bodies {
  import opened Bytes
  import F = Frames
  import M = Messages
  import FS = FrameStream
  import opened Responses
  import opened Deliver

  /** Bodies as a chunk holds them, each behind its length. */
  function Delimited(bs: seq<seq<byte>>): seq<byte> {
    if bs == [] then [] else (BigEndian(4, |bs[0]|) + bs[0]) + Delimited(bs[1..])
  }

  /** Lengths from 2^31 on are read as negative. */
  ghost predicate Readable(bs: seq<seq<byte>>) {
    forall i | 0 <= i < |bs| :: |bs[i]| < 0x8000_0000
  }

  /** The index of the first body that does not decode, or the number of bodies. */
  function FirstUndecoded(bs: seq<seq<byte>>): (k: nat)
    ensures k <= |bs| && (forall i | 0 <= i < k :: M.Decode(bs[i]).Ok?)
    ensures k < |bs| ==> !M.Decode(bs[k]).Ok?
  {
    if bs == [] || !M.Decode(bs[0]).Ok? then 0 else 1 + FirstUndecoded(bs[1..])
  }

  /** The messages of bodies that decode. */
  function RowsOf(bs: seq<seq<byte>>): (r: seq<Row>)
    requires forall i | 0 <= i < |bs| :: M.Decode(bs[i]).Ok?
    ensures |r| == |bs|
  {
    seq(|bs|, i requires 0 <= i < |bs| => Row([AmqpMessage(M.Decode(bs[i]).value)]))
  }

  /** What the bodies of a chunk come to: all messages, or the failure of the first that does not
      decode. */
  function Verdict(bs: seq<seq<byte>>, rest: seq<byte>): Outcome<seq<Row>> {
    var k := FirstUndecoded(bs);
    if k < |bs| then M.Decode(bs[k]).PropagateFailure() else Ok(rest, RowsOf(bs))
  }

  /** The row that a decoded body makes. */
  function RowOf(m: Outcome<M.PlainMessage>, rest: seq<byte>): Outcome<Row> {
    if m.Ok? then Ok(rest, Row([AmqpMessage(m.value)])) else m.PropagateFailure()
  }

  /** A body behind its length. */
  lemma BodyDecodes(b: seq<byte>, more: seq<byte>)
    requires |b| < 0x8000_0000
    ensures DecodeRow([SizedMessage], BigEndian(4, |b|) + (b + more)) == RowOf(M.Decode(b), more)
  {
    BytesReadBack(b, more);
    SizedBody(BigEndian(4, |b|) + (b + more), b, more);
  }

  lemma SizedBody(input: seq<byte>, b: seq<byte>, more: seq<byte>)
    requires F.ReadBytes(input) == Ok(more, b)
    ensures DecodeRow([SizedMessage], input) == RowOf(M.Decode(b), more)
  {
    if M.Decode(b).Ok? {
      RowReadsBack(input, more, M.Decode(b).value);
    }
  }

  /** The first row, and those behind it. */
  function Joined(first: Outcome<Row>, others: Outcome<seq<Row>>): Outcome<seq<Row>> {
    if first.Ok? then Prepend([first.value], others) else first.PropagateFailure()
  }

  lemma {:induction false} NextUndecoded(bs: seq<seq<byte>>)
    requires bs != [] && M.Decode(bs[0]).Ok?
    ensures FirstUndecoded(bs) == 1 + FirstUndecoded(bs[1..])
    ensures FirstUndecoded(bs) == |bs| ==> RowsOf(bs) == [Row([AmqpMessage(M.Decode(bs[0]).value)])] + RowsOf(bs[1..])
  {
  }

  lemma {:induction false} VerdictNext(bs: seq<seq<byte>>, rest: seq<byte>)
    requires bs != []
    ensures Verdict(bs, rest) == Joined(RowOf(M.Decode(bs[0]), rest), Verdict(bs[1..], rest))
  {
    if M.Decode(bs[0]).Ok? {
      NextUndecoded(bs);
    }
  }

  /** The messages of a chunk decode if and only if every body does; otherwise the first that does
      not decides. */
  lemma {:induction false} BodiesDecodeExactly(bs: seq<seq<byte>>, rest: seq<byte>)
    requires Readable(bs)
    ensures DecodeRows(|bs|, [SizedMessage], Delimited(bs) + rest) == Verdict(bs, rest)
  {
    if bs == [] {
      assert Delimited(bs) + rest == rest;
    } else {
      var b, tail := bs[0], Delimited(bs[1..]);
      Associative(BigEndian(4, |b|) + b, tail, rest);
      Associative(BigEndian(4, |b|), b, tail + rest);
      BodyDecodes(b, tail + rest);
      RowsNext(|bs|, Delimited(bs) + rest);
      BodiesDecodeExactly(bs[1..], rest);
      VerdictNext(bs, rest);
    }
  }

  // ----- The whole frame -----

  /** The fields of a chunk and the rows behind them, as a response. */
  function ChunkOf(version: nat, fs: seq<Fixed>, rows: Outcome<seq<Row>>): Outcome<Response> {
    if rows.Ok? then Ok(rows.rest, Response(COMMAND_DELIVER, version, Numerals(fs) + [Table(rows.value)]))
    else rows.PropagateFailure()
  }

  /** The same as items. */
  function WithRows(items: seq<Item>, rows: Outcome<seq<Row>>): Outcome<seq<Item>> {
    if rows.Ok? then Ok(rows.rest, items + [Table(rows.value)]) else rows.PropagateFailure()
  }

  lemma RowsDecide(count: nat, items: seq<Item>, input: seq<byte>)
    requires CountAt(items, 4) == count
    ensures DecodeParts([Rows(Field(4), [SizedMessage])], items, input)
         == WithRows(items, DecodeRows(count, [SizedMessage], input))
  {
    assert [Rows(Field(4), [SizedMessage])][1..] == [];
  }

  lemma {:induction false} FieldsThenRows(fs: seq<Fixed>, input: seq<byte>)
    requires AllFit(fs) && |fs| > 4 && fs[4].value >= 0
    ensures DecodeParts(PartsOf(fs) + [Rows(Field(4), [SizedMessage])], [], EncodeFixed(fs) + input)
         == WithRows(Numerals(fs), DecodeRows(fs[4].value, [SizedMessage], input))
  {
    FixedReadBack(fs, [Rows(Field(4), [SizedMessage])], [], input);
    assert [] + Numerals(fs) == Numerals(fs);
    RowsDecide(fs[4].value, Numerals(fs), input);
  }

  lemma ChunkParts(c: Chunk, input: seq<byte>)
    requires AllFit(FixedFields(c))
    ensures DecodeParts(PartsOfChunk(c), [], EncodeFixed(FixedFields(c)) + input)
         == WithRows(Numerals(FixedFields(c)), DecodeRows(|c.messages|, [SizedMessage], input))
  {
    FieldsThenRows(FixedFields(c), input);
  }

  /** A chunk with the fields of `c`, and other bodies in the place of its messages. */
  function ChunkFrame(length: u32, version: u16, c: Chunk, bs: seq<seq<byte>>): seq<byte>
    requires AllFit(FixedFields(c))
  {
    DeliverFrame(length, version, EncodeFixed(FixedFields(c)) + Delimited(bs))
  }

  /** A chunk that is all there decodes to its fields and messages if and only if every body
      decodes. Otherwise the frame fails as the first body that does not. */
  lemma {:induction false} ChunkDecodesExactly(length: u32, version: u16, c: Chunk, bs: seq<seq<byte>>, more: seq<byte>)
    requires AllFit(FixedFields(c)) && |bs| == |c.messages| && Readable(bs)
    ensures Responses.Decode(ChunkFrame(length, version, c, bs) + more)
         == ChunkOf(version, FixedFields(c), Verdict(bs, more))
  {
    FrameBefore(length, version, EncodeFixed(FixedFields(c)), Delimited(bs), more);
    FrameOfRows(length, version, c, Delimited(bs) + more);
    BodiesDecodeExactly(bs, more);
  }

  lemma {:induction false} FrameOfRows(length: u32, version: u16, c: Chunk, input: seq<byte>)
    requires AllFit(FixedFields(c))
    ensures Responses.Decode(DeliverFrame(length, version, EncodeFixed(FixedFields(c)) + input))
         == ChunkOf(version, FixedFields(c), DecodeRows(|c.messages|, [SizedMessage], input))
  {
    var fs := FixedFields(c);
    ChunkTable(c);
    DecodeFrame(length, COMMAND_DELIVER, version, PartsOfChunk(c), EncodeFixed(fs) + input);
    ChunkParts(c, input);
    AssembledRows(F.Header(length, COMMAND_DELIVER, version), fs, DecodeRows(|c.messages|, [SizedMessage], input));
  }

  lemma AssembledRows(h: F.Header, fs: seq<Fixed>, rows: Outcome<seq<Row>>)
    requires h.key == COMMAND_DELIVER
    ensures Assembled(h, WithRows(Numerals(fs), rows)) == ChunkOf(h.version, fs, rows)
  {
  }

  lemma FrameBefore(length: u32, version: u16, fields: seq<byte>, tail: seq<byte>, more: seq<byte>)
    ensures DeliverFrame(length, version, fields + tail) + more == DeliverFrame(length, version, fields + (tail + more))
  {
    Associative(BigEndian(4, length), F.EncodeHeader(COMMAND_DELIVER, version) + (fields + tail), more);
    Associative(F.EncodeHeader(COMMAND_DELIVER, version), fields + tail, more);
    Associative(fields, tail, more);
  }

  /** Draining a stream that begins with such a chunk. */
  lemma DrainChunk(length: u32, version: u16, c: Chunk, bs: seq<seq<byte>>, more: seq<byte>)
    requires AllFit(FixedFields(c)) && |bs| == |c.messages| && Readable(bs)
    ensures var k, stream := FirstUndecoded(bs), ChunkFrame(length, version, c, bs) + more;
            var p := FS.Drain(stream);
            && (k == |bs| ==> p.frames != [])
            && (k < |bs| ==> p.frames == [])
            && (k < |bs| ==> (p.status == FS.Waiting(stream) <==> M.Decode(bs[k]).NeedsMore()))
  {
    ChunkDecodesExactly(length, version, c, bs, more);
  }

  /** A chunk that is all there is never decoded, whatever follows, and blocks the stream, if and only
      if the first of its bodies that does not decode asks for more. */
  lemma ChunkBlocksExactly(length: u32, version: u16, c: Chunk, bs: seq<seq<byte>>)
    requires AllFit(FixedFields(c)) && |bs| == |c.messages| && Readable(bs)
    ensures var k, frame := FirstUndecoded(bs), ChunkFrame(length, version, c, bs);
            (forall more: seq<byte> :: FS.Drain(frame + more) == FS.Progress([], FS.Waiting(frame + more)))
            <==> k < |bs| && M.Decode(bs[k]).NeedsMore()
  {
    var k, frame := FirstUndecoded(bs), ChunkFrame(length, version, c, bs);
    forall more: seq<byte>
      ensures FS.Drain(frame + more) == FS.Progress([], FS.Waiting(frame + more))
         <==> k < |bs| && M.Decode(bs[k]).NeedsMore()
    {
      DrainChunk(length, version, c, bs, more);
    }
    assert FS.Drain(frame + []) == FS.Progress([], FS.Waiting(frame + [])) <==> k < |bs| && M.Decode(bs[k]).NeedsMore();
  }
}
