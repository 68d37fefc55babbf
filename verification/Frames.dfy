/** Length-prefixed frames: requests that publish messages and chunks that deliver them
    (codec/encoder.rs, codec/decoder.rs, commands/publish.rs, commands/deliver.rs,
    request/mod.rs). */
module Frames {
  import opened Bytes
  import M = Messages
  import MP = MessageProofs

  const PROTOCOL_VERSION_2: u16 := 2
  const COMMAND_PUBLISH: u16 := 2

  /** A message with its publishing id and, for version 2, a filter value. */
  datatype Published<Msg> = Published(id: u64, message: Msg, filter: Option<Utf8>)

  datatype PublishCommand<Msg> = PublishCommand(publisherId: byte, messages: seq<Published<Msg>>, version: u16)

  // ----- Encoding -----

  function TextSize(t: Option<Utf8>): nat {
    2 + match t case Some(s) => |s| case None => 0
  }

  function EncodeText(t: Option<Utf8>): seq<byte> {
    match t
    case Some(s) => BigEndian(2, |s|) + s
    case None => BigEndian(2, 0)
  }

  function PublishedSize(version: u16, p: Published<M.StoredMessage>): nat {
    8 + (if version == PROTOCOL_VERSION_2 then TextSize(p.filter) else 0) + 4 + M.Size(p.message)
  }

  function EncodePublished(version: u16, p: Published<M.StoredMessage>): seq<byte> {
    BigEndian(8, p.id)
    + (if version == PROTOCOL_VERSION_2 then EncodeText(p.filter) else [])
    + BigEndian(4, M.Size(p.message))
    + M.Encode(p.message)
  }

  function AllPublishedSize(version: u16, ps: seq<Published<M.StoredMessage>>): nat {
    if ps == [] then 0 else PublishedSize(version, ps[0]) + AllPublishedSize(version, ps[1..])
  }

  function EncodeAllPublished(version: u16, ps: seq<Published<M.StoredMessage>>): seq<byte> {
    if ps == [] then [] else EncodePublished(version, ps[0]) + EncodeAllPublished(version, ps[1..])
  }

  /** `Request::encoded_size` of a publish request: the header and the command. */
  function RequestSize(c: PublishCommand<M.StoredMessage>): nat {
    4 + 1 + 4 + AllPublishedSize(c.version, c.messages)
  }

  function EncodeCommand(c: PublishCommand<M.StoredMessage>): seq<byte> {
    BigEndian(1, c.publisherId) + BigEndian(4, |c.messages|) + EncodeAllPublished(c.version, c.messages)
  }

  function EncodeHeader(key: u16, version: u16): seq<byte> {
    BigEndian(2, key) + BigEndian(2, version)
  }

  /** What follows the length prefix. */
  function EncodePayload(c: PublishCommand<M.StoredMessage>): seq<byte> {
    EncodeHeader(COMMAND_PUBLISH, c.version) + EncodeCommand(c)
  }

  function EncodeRequest(c: PublishCommand<M.StoredMessage>): seq<byte> {
    BigEndian(4, RequestSize(c)) + EncodePayload(c)
  }

  // ----- Decoding -----

  /** `extract_response_code`: the top bit of a key marks a response. */
  function PlainKey(n: nat): nat {
    n % 0x8000
  }

  datatype Header = Header(length: nat, key: nat, version: nat)

  /** The length prefix, which is not used, and the header. */
  function DecodeHeader(input: seq<byte>): (r: Outcome<Header>)
    ensures r.Ok? ==> |r.rest| + 8 == |input| && r.value.key < 0x8000 && r.value.version < 0x1_0000
  {
    var (rest, length) :- ReadUnsigned(4, input);
    var (rest, key) :- ReadUnsigned(2, rest);
    var (rest, version) :- ReadUnsigned(2, rest);
    Ok(rest, Header(length, PlainKey(key), version))
  }

  /** `read_vec::<u8>`: a signed length and as many bytes. A negative length asks for an
      impossible allocation. */
  function ReadBytes(input: seq<byte>): (r: Outcome<seq<byte>>)
    ensures r.Ok? ==> |r.rest| < |input|
  {
    var (rest, n) :- ReadUnsigned(4, input);
    var len := Signed(4, n);
    if len < 0 then Abort
    else if |rest| < len then Err(Incomplete(1))
    else Ok(rest[len..], rest[..len])
  }

  /** A message delimited by its size; bytes of the body that the message does not use are
      dropped. */
  function DecodeSizedMessage(input: seq<byte>): (r: Outcome<M.PlainMessage>)
    ensures r.Ok? ==> |r.rest| < |input|
  {
    var (rest, body) :- ReadBytes(input);
    var (_, message) :- M.Decode(body);
    Ok(rest, message)
  }

  /** `PublishedMessage::decode`. */
  function DecodePublished(input: seq<byte>): (r: Outcome<Published<M.PlainMessage>>)
    ensures r.Ok? ==> |r.rest| < |input|
  {
    var (rest, id) :- ReadUnsigned(8, input);
    var (rest, message) :- DecodeSizedMessage(rest);
    Ok(rest, Published(id, message, None))
  }

  function DecodeAllPublished(count: nat, input: seq<byte>): Outcome<seq<Published<M.PlainMessage>>> {
    if count == 0 then Ok(input, []) else
      var (rest, p) :- DecodePublished(input);
      var (rest, ps) :- DecodeAllPublished(count - 1, rest);
      Ok(rest, [p] + ps)
  }

  /** `PublishCommand::decode`, which always reports version 1. */
  function DecodeCommand(input: seq<byte>): Outcome<PublishCommand<M.PlainMessage>> {
    var (rest, publisherId) :- ReadByte(input);
    var (rest, count) :- ReadUnsigned(4, rest);
    var (rest, messages) :- DecodeAllPublished(count, rest);
    Ok(rest, PublishCommand(publisherId, messages, 1))
  }

  // ----- Length prefix -----

  function Overcount(ps: seq<Published<M.StoredMessage>>): nat {
    if ps == [] then 0 else MP.Overcount(ps[0].message) + Overcount(ps[1..])
  }

  lemma {:induction false} SizeOfAllPublished(version: u16, ps: seq<Published<M.StoredMessage>>)
    ensures AllPublishedSize(version, ps) == |EncodeAllPublished(version, ps)| + Overcount(ps)
  {
    if ps != [] {
      MP.SizeOfEncoding(ps[0].message);
      SizeOfAllPublished(version, ps[1..]);
    }
  }

  lemma {:induction false} OvercountZero(ps: seq<Published<M.StoredMessage>>)
    ensures Overcount(ps) == 0 <==> forall i | 0 <= i < |ps| :: MP.Overcount(ps[i].message) == 0
  {
    if ps != [] {
      OvercountZero(ps[1..]);
      assert forall i | 1 <= i < |ps| :: ps[i] == ps[1..][i - 1];
    }
  }

  /** The length prefix counts the bytes that follow exactly when every message reports its exact
      size, in both versions; otherwise it exceeds them by the sum of the overcounts. */
  lemma PrefixCountsPayload(c: PublishCommand<M.StoredMessage>)
    requires RequestSize(c) < U32_LIMIT
    ensures ReadUnsigned(4, EncodeRequest(c)) == Ok(EncodePayload(c), |EncodePayload(c)| + Overcount(c.messages))
    ensures ReadUnsigned(4, EncodeRequest(c)) == Ok(EncodePayload(c), |EncodePayload(c)|)
       <==> forall i | 0 <= i < |c.messages| :: MP.Overcount(c.messages[i].message) == 0
  {
    SizeOfAllPublished(c.version, c.messages);
    OvercountZero(c.messages);
    assert Span(4) == U32_LIMIT;
    ReadsBack(4, RequestSize(c), EncodePayload(c));
  }

  // ----- Version 1 batches -----

  /** A message that the section codec restores, with a size that the reader takes for one. */
  predicate Sendable(m: M.StoredMessage) {
    MP.MessageInMemory(m) && MP.NarrowMessage(m) && M.Size(m) < 0x8000_0000
  }

  /** Its size is also exact. */
  predicate Exact(m: M.StoredMessage) {
    Sendable(m) && MP.Overcount(m) == 0
  }

  predicate AllExact(ps: seq<Published<M.StoredMessage>>) {
    ps == [] || (Exact(ps[0].message) && AllExact(ps[1..]))
  }

  lemma SizedMessageReadsBack(m: M.StoredMessage, rest: seq<byte>)
    requires Exact(m)
    ensures DecodeSizedMessage(BigEndian(4, M.Size(m)) + M.Encode(m) + rest) == Ok(rest, MP.MessageReadback(m))
  {
    var size, body := M.Size(m), M.Encode(m);
    MP.SizeOfEncoding(m);
    assert Span(4) == U32_LIMIT;
    Associative(BigEndian(4, size), body, rest);
    ReadsBack(4, size, body + rest);
    assert (body + rest)[..size] == body && (body + rest)[size..] == rest;
    MP.RoundTrip(m);
  }

  /** The reader takes as many bytes as the reported size says: with an overcount, that many bytes
      of what follows, and if there are not so many it asks for more. */
  lemma OvercountTakesMore(size: nat, body: seq<byte>, rest: seq<byte>)
    requires |body| <= size < 0x8000_0000
    ensures var r := DecodeSizedMessage(BigEndian(4, size) + body + rest);
            && (r.Ok? ==> |r.rest| + (size - |body|) == |rest|)
            && (|rest| < size - |body| ==> r == Err(Incomplete(1)))
  {
    assert Span(4) == U32_LIMIT;
    Associative(BigEndian(4, size), body, rest);
    ReadsBack(4, size, body + rest);
  }

  /** A message behind its size reads back and leaves what follows if and only if its size is
      exact. */
  lemma SizedMessageExactly(m: M.StoredMessage, rest: seq<byte>)
    requires Sendable(m)
    ensures DecodeSizedMessage(BigEndian(4, M.Size(m)) + M.Encode(m) + rest) == Ok(rest, MP.MessageReadback(m))
       <==> MP.Overcount(m) == 0
  {
    MP.SizeOfEncoding(m);
    if MP.Overcount(m) == 0 {
      SizedMessageReadsBack(m, rest);
    } else {
      OvercountTakesMore(M.Size(m), M.Encode(m), rest);
    }
  }

  /** A last message with an overcount is never complete. */
  lemma LastInexactIsIncomplete(m: M.StoredMessage)
    requires Inexact(m)
    ensures DecodeSizedMessage(BigEndian(4, M.Size(m)) + M.Encode(m)) == Err(Incomplete(1))
  {
    MP.SizeOfEncoding(m);
    OvercountTakesMore(M.Size(m), M.Encode(m), []);
    var whole := BigEndian(4, M.Size(m)) + M.Encode(m);
    assert whole + [] == whole;
  }

  function Readback(p: Published<M.StoredMessage>): Published<M.PlainMessage> {
    Published(p.id, MP.MessageReadback(p.message), None)
  }

  function Readbacks(ps: seq<Published<M.StoredMessage>>): (r: seq<Published<M.PlainMessage>>)
    ensures |r| == |ps| && forall i | 0 <= i < |ps| :: r[i] == Readback(ps[i])
  {
    if ps == [] then [] else [Readback(ps[0])] + Readbacks(ps[1..])
  }

  lemma PublishedLayout(version: u16, p: Published<M.StoredMessage>, rest: seq<byte>)
    requires version != PROTOCOL_VERSION_2
    ensures EncodePublished(version, p) + rest
         == BigEndian(8, p.id) + (BigEndian(4, M.Size(p.message)) + M.Encode(p.message) + rest)
  {
    var id, size, body := BigEndian(8, p.id), BigEndian(4, M.Size(p.message)), M.Encode(p.message);
    assert EncodePublished(version, p) == id + [] + size + body;
    assert id + [] == id;
    Associative(id, size, body);
    Associative(id, size + body, rest);
  }

  lemma IdThenMessage(id: u64, m: M.PlainMessage, tail: seq<byte>, rest: seq<byte>)
    requires DecodeSizedMessage(tail) == Ok(rest, m)
    ensures DecodePublished(BigEndian(8, id) + tail) == Ok(rest, Published(id, m, None))
  {
    assert Span(8) == 0x1_0000_0000_0000_0000;
    ReadsBack(8, id, tail);
  }

  lemma PublishedReadsBack(version: u16, p: Published<M.StoredMessage>, rest: seq<byte>)
    requires version != PROTOCOL_VERSION_2 && Exact(p.message)
    ensures DecodePublished(EncodePublished(version, p) + rest) == Ok(rest, Readback(p))
  {
    PublishedLayout(version, p, rest);
    SizedMessageReadsBack(p.message, rest);
    IdThenMessage(p.id, MP.MessageReadback(p.message), BigEndian(4, M.Size(p.message)) + M.Encode(p.message) + rest,
                  rest);
  }

  lemma DecodeNext(count: nat, input: seq<byte>, p: Published<M.PlainMessage>, tail: seq<byte>,
                   ps: seq<Published<M.PlainMessage>>, rest: seq<byte>)
    requires DecodePublished(input) == Ok(tail, p) && DecodeAllPublished(count, tail) == Ok(rest, ps)
    ensures DecodeAllPublished(count + 1, input) == Ok(rest, [p] + ps)
  {
  }

  lemma {:induction false} AllPublishedReadBack(version: u16, ps: seq<Published<M.StoredMessage>>, rest: seq<byte>)
    requires version != PROTOCOL_VERSION_2 && AllExact(ps)
    ensures DecodeAllPublished(|ps|, EncodeAllPublished(version, ps) + rest) == Ok(rest, Readbacks(ps))
  {
    if ps == [] {
      assert EncodeAllPublished(version, ps) + rest == rest;
    } else {
      var first, more := EncodePublished(version, ps[0]), EncodeAllPublished(version, ps[1..]);
      PublishedReadsBack(version, ps[0], more + rest);
      AllPublishedReadBack(version, ps[1..], rest);
      DecodeNext(|ps| - 1, first + (more + rest), Readback(ps[0]), more + rest, Readbacks(ps[1..]), rest);
      Associative(first, more, rest);
    }
  }

  predicate Inexact(m: M.StoredMessage) {
    M.Size(m) < 0x8000_0000 && MP.Overcount(m) > 0
  }

  /** All messages but the last have exact sizes, and the last one has not. */
  predicate EndsInexact(ps: seq<Published<M.StoredMessage>>) {
    ps != [] && AllExact(ps[..|ps| - 1]) && Inexact(ps[|ps| - 1].message)
  }

  lemma IdThenIncomplete(id: u64, tail: seq<byte>)
    requires DecodeSizedMessage(tail) == Err(Incomplete(1))
    ensures DecodePublished(BigEndian(8, id) + tail) == Err(Incomplete(1))
  {
    assert Span(8) == 0x1_0000_0000_0000_0000;
    ReadsBack(8, id, tail);
  }

  lemma LastPublishedIsIncomplete(version: u16, p: Published<M.StoredMessage>)
    requires version != PROTOCOL_VERSION_2 && Inexact(p.message)
    ensures DecodePublished(EncodePublished(version, p)) == Err(Incomplete(1))
  {
    PublishedLayout(version, p, []);
    var sized := BigEndian(4, M.Size(p.message)) + M.Encode(p.message);
    assert sized + [] == sized && EncodePublished(version, p) + [] == EncodePublished(version, p);
    LastInexactIsIncomplete(p.message);
    IdThenIncomplete(p.id, sized);
  }

  lemma DecodeStops(count: nat, input: seq<byte>)
    requires count > 0 && DecodePublished(input) == Err(Incomplete(1))
    ensures DecodeAllPublished(count, input) == Err(Incomplete(1))
  {
  }

  /** What comes of a batch behind its first message. */
  function Continued(first: Outcome<Published<M.PlainMessage>>, count: nat): Outcome<seq<Published<M.PlainMessage>>> {
    if first.Ok? then Prepend([first.value], DecodeAllPublished(count, first.rest)) else first.PropagateFailure()
  }

  lemma PublishedNext(count: nat, input: seq<byte>)
    requires count > 0
    ensures DecodeAllPublished(count, input) == Continued(DecodePublished(input), count - 1)
  {
  }

  lemma {:induction false} EncodeAllLast(version: u16, front: seq<Published<M.StoredMessage>>,
                                         last: Published<M.StoredMessage>)
    ensures EncodeAllPublished(version, front + [last])
         == EncodeAllPublished(version, front) + EncodePublished(version, last)
  {
    if front == [] {
      assert front + [last] == [last] && [last][1..] == [];
    } else {
      assert (front + [last])[1..] == front[1..] + [last];
      EncodeAllLast(version, front[1..], last);
      Associative(EncodePublished(version, front[0]), EncodeAllPublished(version, front[1..]),
                  EncodePublished(version, last));
    }
  }

  lemma {:induction false} InexactBatchIsIncomplete(version: u16, ps: seq<Published<M.StoredMessage>>)
    requires version != PROTOCOL_VERSION_2 && EndsInexact(ps)
    ensures DecodeAllPublished(|ps|, EncodeAllPublished(version, ps)) == Err(Incomplete(1))
  {
    var front, last := ps[..|ps| - 1], ps[|ps| - 1];
    assert ps == front + [last];
    EncodeAllLast(version, front, last);
    LastStops(version, front, last);
  }

  lemma {:induction false} LastStops(version: u16, front: seq<Published<M.StoredMessage>>,
                                     last: Published<M.StoredMessage>)
    requires version != PROTOCOL_VERSION_2 && AllExact(front) && Inexact(last.message)
    ensures DecodeAllPublished(|front| + 1, EncodeAllPublished(version, front) + EncodePublished(version, last))
         == Err(Incomplete(1))
  {
    AllPublishedReadBack(version, front, EncodePublished(version, last));
    LastPublishedIsIncomplete(version, last);
    BatchStops(|front|, |front| + 1, EncodeAllPublished(version, front) + EncodePublished(version, last));
  }

  lemma PublishedRepeat()
    ensures Repeats(DecodeAllPublished, DecodePublished)
  {
    forall n: nat, input: seq<byte> ensures RepeatsAt(DecodeAllPublished, DecodePublished, n, input) {
      if n > 0 {
        PublishedNext(n, input);
      }
    }
  }

  /** A batch in which a published message asks for more. */
  lemma BatchStops(k: nat, count: nat, input: seq<byte>)
    requires k < count && DecodeAllPublished(k, input).Ok?
    requires DecodePublished(DecodeAllPublished(k, input).rest) == Err(Incomplete(1))
    ensures DecodeAllPublished(count, input) == Err(Incomplete(1))
  {
    PublishedRepeat();
    ManyStop(DecodeAllPublished, DecodePublished, k, count, input);
  }

  lemma HeaderReadsBack(length: nat, key: u16, version: u16, rest: seq<byte>)
    requires length < U32_LIMIT
    ensures DecodeHeader(BigEndian(4, length) + (EncodeHeader(key, version) + rest))
         == Ok(rest, Header(length, PlainKey(key), version))
  {
    assert Span(4) == U32_LIMIT && Span(2) == 0x1_0000;
    ReadsBack(4, length, EncodeHeader(key, version) + rest);
    Associative(BigEndian(2, key), BigEndian(2, version), rest);
    ReadsBack(2, key, BigEndian(2, version) + rest);
    ReadsBack(2, version, rest);
  }

  lemma CommandReadsBack(c: PublishCommand<M.StoredMessage>)
    requires c.version != PROTOCOL_VERSION_2 && |c.messages| < U32_LIMIT
    requires AllExact(c.messages)
    ensures DecodeCommand(EncodeCommand(c)) == Ok([], PublishCommand(c.publisherId, Readbacks(c.messages), 1))
  {
    var batch := EncodeAllPublished(c.version, c.messages);
    AllPublishedReadBack(c.version, c.messages, []);
    assert batch + [] == batch;
    CommandBehindCount(c.publisherId, |c.messages|, batch);
  }

  function InCommand(id: byte, ps: Outcome<seq<Published<M.PlainMessage>>>): Outcome<PublishCommand<M.PlainMessage>> {
    match ps
    case Ok(rest, ps) => Ok(rest, PublishCommand(id, ps, 1))
    case Err(e) => Err(e)
    case Abort => Abort
  }

  /** A command is its publisher, a count, and that many messages. */
  lemma CommandBehindCount(id: byte, count: nat, batch: seq<byte>)
    requires count < U32_LIMIT
    ensures DecodeCommand(BigEndian(1, id) + BigEndian(4, count) + batch)
         == InCommand(id, DecodeAllPublished(count, batch))
  {
    Associative(BigEndian(1, id), BigEndian(4, count), batch);
    CountedReadsBack(id, count, batch);
  }

  lemma CountedReadsBack(id: byte, count: nat, batch: seq<byte>)
    requires count < U32_LIMIT
    ensures ReadByte(BigEndian(1, id) + (BigEndian(4, count) + batch)) == Ok(BigEndian(4, count) + batch, id)
    ensures ReadUnsigned(4, BigEndian(4, count) + batch) == Ok(batch, count)
  {
    M.S.ByteReadsBack(id, BigEndian(4, count) + batch);
    assert Span(4) == U32_LIMIT;
    ReadsBack(4, count, batch);
  }

  /** A version 1 batch that ends in a message with an overcount does not decode: the reader asks
      for bytes that the frame does not have. */
  lemma InexactCommandIsIncomplete(c: PublishCommand<M.StoredMessage>)
    requires c.version != PROTOCOL_VERSION_2 && |c.messages| < U32_LIMIT && EndsInexact(c.messages)
    ensures DecodeCommand(EncodeCommand(c)) == Err(Incomplete(1))
  {
    CommandBehindCount(c.publisherId, |c.messages|, EncodeAllPublished(c.version, c.messages));
    InexactBatchIsIncomplete(c.version, c.messages);
  }

  lemma PublishHeaderReadsBack(length: nat, version: u16, rest: seq<byte>)
    requires length < U32_LIMIT
    ensures DecodeHeader(BigEndian(4, length) + (EncodeHeader(COMMAND_PUBLISH, version) + rest))
         == Ok(rest, Header(length, COMMAND_PUBLISH, version))
  {
    HeaderReadsBack(length, COMMAND_PUBLISH, version, rest);
  }

  /** A version 1 publish frame decodes to the same publisher, publishing ids and messages, and
      uses up the frame. */
  lemma BatchRoundTrip(c: PublishCommand<M.StoredMessage>)
    requires c.version != PROTOCOL_VERSION_2 && |c.messages| < U32_LIMIT && RequestSize(c) < U32_LIMIT
    requires AllExact(c.messages)
    ensures DecodeHeader(EncodeRequest(c)) == Ok(EncodeCommand(c), Header(RequestSize(c), COMMAND_PUBLISH, c.version))
    ensures DecodeCommand(EncodeCommand(c)) == Ok([], PublishCommand(c.publisherId, Readbacks(c.messages), 1))
  {
    PublishHeaderReadsBack(RequestSize(c), c.version, EncodeCommand(c));
    CommandReadsBack(c);
  }

  // ----- Strings -----

  /** `Option::<String>::decode`: a length that is negative or beyond the input is an
      out-of-bounds split. */
  function DecodeText(input: seq<byte>): (r: Outcome<Option<Utf8>>)
    ensures r.Ok? ==> |r.rest| < |input|
  {
    var (rest, n) :- ReadUnsigned(2, input);
    var len := Signed(2, n);
    if len == 0 then Ok(rest, None)
    else if len < 0 || |rest| < len then Abort
    else if IsUtf8(rest[..len]) then Ok(rest[len..], Some(rest[..len]))
    else Err(InvalidUtf8)
  }
}
