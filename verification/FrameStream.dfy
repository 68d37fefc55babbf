/** The incremental decoder over a growing buffer (src/client/codec.rs): whatever way the bytes
    of a stream are cut into chunks, the same frames come out. */
module FrameStream {
  import opened Bytes
  import opened Sequences
  import F = Frames
  import P = Progress
  import opened Responses

  /** Where the decoder stands: it keeps the bytes of an unfinished frame, or has stopped. */
  datatype Status = Waiting(leftover: seq<byte>) | Failed(error: Error) | Panicked

  datatype Progress = Progress(frames: seq<Response>, status: Status)

  const START := Progress([], Waiting([]))

  /** Decode frames from `buffer` for as long as there are whole ones. */
  function Drain(buffer: seq<byte>): Progress
    decreases |buffer|
  {
    match Decode(buffer)
    case Ok(rest, frame) => var more := Drain(rest); Progress([frame] + more.frames, more.status)
    case Err(Incomplete(_)) => Progress([], Waiting(buffer))
    case Err(e) => Progress([], Failed(e))
    case Abort => Progress([], Panicked)
  }

  /** A chunk arrives. Nothing is read once decoding has stopped. */
  function Feed(p: Progress, chunk: seq<byte>): Progress {
    match p.status
    case Waiting(leftover) =>
      var more := Drain(leftover + chunk);
      Progress(p.frames + more.frames, more.status)
    case _ => p
  }

  function FeedAll(p: Progress, chunks: seq<seq<byte>>): Progress
    decreases |chunks|
  {
    if chunks == [] then p else FeedAll(Feed(p, chunks[0]), chunks[1..])
  }

  function Concat(chunks: seq<seq<byte>>): seq<byte> {
    if chunks == [] then [] else chunks[0] + Concat(chunks[1..])
  }

  // ----- Streams of frames without strings -----

  /** No frame at the front of the stream, whole or not, carries a string. */
  predicate TextFreeStream(s: seq<byte>)
    decreases |s|
  {
    var h := F.DecodeHeader(s);
    h.Ok? ==> TextFreeKey(h.value.key) && (Decode(s).Ok? ==> TextFreeStream(Decode(s).rest))
  }

  lemma {:induction false} TextFreePrefix(p: seq<byte>, q: seq<byte>)
    requires TextFreeStream(p + q)
    ensures TextFreeStream(p)
    decreases |p|
  {
    HeaderStable(p, q);
    FrameStable(p, q);
    if F.DecodeHeader(p).Ok? && Decode(p).Ok? {
      TextFreePrefix(Decode(p).rest, q);
    }
  }

  /** Draining a prefix and then feeding the rest is draining the whole. */
  lemma {:induction false} DrainInTwo(p: seq<byte>, q: seq<byte>)
    requires TextFreeStream(p)
    ensures Feed(Drain(p), q) == Drain(p + q)
    decreases |p|
  {
    FrameStable(p, q);
    if Decode(p).Ok? {
      var rest := Decode(p).rest;
      DrainInTwo(rest, q);
      if Drain(rest).status.Waiting? {
        Regroup([Decode(p).value], Drain(rest).frames, Drain(Drain(rest).status.leftover + q).frames);
      }
    }
  }

  lemma {:induction false} FeedAllFrom(s: seq<byte>, chunks: seq<seq<byte>>)
    requires TextFreeStream(s + Concat(chunks))
    ensures FeedAll(Drain(s), chunks) == Drain(s + Concat(chunks))
    decreases |chunks|
  {
    if chunks == [] {
      assert s + Concat(chunks) == s;
    } else {
      Associative(s, chunks[0], Concat(chunks[1..]));
      TextFreePrefix(s, Concat(chunks));
      DrainInTwo(s, chunks[0]);
      FeedAllFrom(s + chunks[0], chunks[1..]);
    }
  }

  /** However a stream without strings is cut into chunks, the frames, the final status and the
      unfinished rest are those of decoding it in one piece. */
  lemma ChunkingIsInvisible(chunks: seq<seq<byte>>)
    requires TextFreeStream(Concat(chunks))
    ensures FeedAll(START, chunks) == Drain(Concat(chunks))
  {
    assert [] + Concat(chunks) == Concat(chunks);
    FeedAllFrom([], chunks);
  }

  /** Each of `frames` is one whole frame without strings, and decodes to the response beside it. */
  ghost predicate WholeFrames(frames: seq<seq<byte>>, responses: seq<Response>)
    decreases |frames|
  {
    && |frames| == |responses|
    && (frames != [] ==>
          && Decode(frames[0]) == Ok([], responses[0])
          && TextFreeKey(responses[0].key)
          && WholeFrames(frames[1..], responses[1..]))
  }

  lemma {:induction false} DrainFrames(frames: seq<seq<byte>>, responses: seq<Response>)
    requires WholeFrames(frames, responses)
    ensures Drain(Concat(frames)) == Progress(responses, Waiting([])) && TextFreeStream(Concat(frames))
    decreases |frames|
  {
    if frames != [] {
      FrameInFront(frames[0], responses[0], Concat(frames[1..]));
      DrainNext(frames[0] + Concat(frames[1..]), Concat(frames[1..]), responses[0]);
      DrainFrames(frames[1..], responses[1..]);
      assert responses == [responses[0]] + responses[1..];
    }
  }

  lemma DrainNext(buffer: seq<byte>, more: seq<byte>, response: Response)
    requires Decode(buffer) == Ok(more, response)
    requires F.DecodeHeader(buffer).Ok? && TextFreeKey(F.DecodeHeader(buffer).value.key)
    ensures Drain(buffer) == Progress([response] + Drain(more).frames, Drain(more).status)
    ensures TextFreeStream(more) ==> TextFreeStream(buffer)
  {
  }

  lemma FrameInFront(frame: seq<byte>, response: Response, more: seq<byte>)
    requires Decode(frame) == Ok([], response) && TextFreeKey(response.key)
    ensures Decode(frame + more) == Ok(more, response)
    ensures F.DecodeHeader(frame + more).Ok? && F.DecodeHeader(frame + more).value.key == response.key
  {
    FrameStable(frame, more);
    HeaderStable(frame, more);
    assert [] + more == more;
  }

  /** Whole frames that arrive in arbitrary pieces come out as the same responses in the same
      order, and nothing is left over. */
  lemma FramesComeOut(frames: seq<seq<byte>>, responses: seq<Response>, chunks: seq<seq<byte>>)
    requires WholeFrames(frames, responses)
    requires Concat(chunks) == Concat(frames)
    ensures FeedAll(START, chunks) == Progress(responses, Waiting([]))
  {
    DrainFrames(frames, responses);
    ChunkingIsInvisible(chunks);
  }

  // ----- All streams -----

  /** `p` is `whole`, or it stopped early with a panic, having decoded the same frames so far. */
  predicate AgreesOrPanicked(p: Progress, whole: Progress) {
    p == whole || (p.status.Panicked? && p.frames <= whole.frames)
  }

  lemma {:induction false} DrainAnyInTwo(p: seq<byte>, q: seq<byte>)
    ensures AgreesOrPanicked(Feed(Drain(p), q), Drain(p + q))
    decreases |p|
  {
    FrameStable(p, q);
    if Decode(p).Ok? {
      var rest := Decode(p).rest;
      DrainAnyInTwo(rest, q);
      if Drain(rest).status.Waiting? {
        Regroup([Decode(p).value], Drain(rest).frames, Drain(Drain(rest).status.leftover + q).frames);
      }
    }
  }

  lemma {:induction false} FedPanicStays(p: Progress, chunks: seq<seq<byte>>)
    requires !p.status.Waiting?
    ensures FeedAll(p, chunks) == p
    decreases |chunks|
  {
    if chunks != [] {
      FedPanicStays(p, chunks[1..]);
    }
  }

  lemma {:induction false} FeedAllFromAny(s: seq<byte>, chunks: seq<seq<byte>>)
    ensures AgreesOrPanicked(FeedAll(Drain(s), chunks), Drain(s + Concat(chunks)))
    decreases |chunks|
  {
    if chunks == [] {
      assert s + Concat(chunks) == s;
    } else {
      var next := Feed(Drain(s), chunks[0]);
      Associative(s, chunks[0], Concat(chunks[1..]));
      DrainAnyInTwo(s, chunks[0]);
      FeedAllFromAny(s + chunks[0], chunks[1..]);
      if next.status.Panicked? {
        FedPanicStays(next, chunks[1..]);
        DrainPrefix(s + chunks[0], Concat(chunks[1..]));
      }
    }
  }

  /** Frames drained from a prefix are frames of the whole. */
  lemma {:induction false} DrainPrefix(p: seq<byte>, q: seq<byte>)
    ensures Drain(p).frames <= Drain(p + q).frames
    decreases |p|
  {
    FrameStable(p, q);
    if Decode(p).Ok? {
      DrainPrefix(Decode(p).rest, q);
    }
  }

  /** On any stream, cutting can do no worse than panic early: no frame is lost, repeated,
      reordered or changed before that. */
  lemma ChunkingOrPanic(chunks: seq<seq<byte>>)
    ensures AgreesOrPanicked(FeedAll(START, chunks), Drain(Concat(chunks)))
  {
    assert [] + Concat(chunks) == Concat(chunks);
    FeedAllFromAny([], chunks);
  }

  // ----- The buffer -----

  datatype Polled = Frame(frame: Response) | Partial | Refused(error: Error) | Panic

  /** `RabbitMqStreamCodec::decode` with the buffer it is given. */
  class FrameBuffer {
    var bytes: seq<byte>

    constructor ()
      ensures bytes == []
    {
      bytes := [];
    }

    /** One frame is taken off the front of the buffer, or nothing at all. */
    method Next() returns (r: Polled)
      modifies this
      ensures r.Frame? ==> Decode(old(bytes)) == Ok(bytes, r.frame) && |bytes| < |old(bytes)|
      ensures !r.Frame? ==> bytes == old(bytes)
      ensures r.Partial? <==> Decode(old(bytes)).NeedsMore()
      ensures r.Refused? ==> Decode(old(bytes)) == Err(r.error)
      ensures r.Panic? <==> Decode(old(bytes)).Abort?
    {
      match Decode(bytes) {
        case Ok(remaining, response) =>
          FrameSuffix(bytes);
          bytes := bytes[|bytes| - |remaining|..];
          r := Frame(response);
        case Err(Incomplete(_)) => r := Partial;
        case Err(e) => r := Refused(e);
        case Abort => r := Panic;
      }
    }

    /** Decode until the buffer holds no whole frame. */
    method Poll() returns (frames: seq<Response>, stopped: bool)
      modifies this
      ensures Drain(old(bytes)).frames == frames
      ensures stopped <==> !Drain(old(bytes)).status.Waiting?
      ensures !stopped ==> Drain(old(bytes)).status == Waiting(bytes)
    {
      frames, stopped := [], false;
      while true
        invariant Drain(old(bytes)) == Progress(frames + Drain(bytes).frames, Drain(bytes).status)
        invariant !stopped
        decreases |bytes|
      {
        ghost var before := bytes;
        var r := Next();
        if !r.Frame? {
          stopped := !r.Partial?;
          return;
        }
        Regroup(frames, [r.frame], Drain(bytes).frames);
        frames := frames + [r.frame];
      }
    }

    /** A chunk arrives, and the frames that it completes are taken off. */
    method Receive(chunk: seq<byte>) returns (frames: seq<Response>, stopped: bool)
      modifies this
      ensures var p := Feed(Progress([], Waiting(old(bytes))), chunk);
              && frames == p.frames && (stopped <==> !p.status.Waiting?)
              && (!stopped ==> p.status == Waiting(bytes))
    {
      bytes := bytes + chunk;
      frames, stopped := Poll();
    }
  }

  /** What a decoded frame leaves is a suffix, so advancing the buffer by the difference of the
      lengths leaves exactly that. */
  lemma FrameSuffix(input: seq<byte>)
    ensures Decode(input).Ok? ==> StrictSuffix(Decode(input).rest, input)
  {
    var h := F.DecodeHeader(input);
    if h.Ok? && Layout(h.value.key).Some? {
      PartsSuffix(Layout(h.value.key).value, [], h.rest);
    }
  }

  lemma {:induction false} BasicPartSuffix(part: Part, items: seq<Item>, input: seq<byte>)
    requires !part.Rows? && !part.IfOk?
    ensures DecodePart(part, items, input).Ok? ==> Suffix(DecodePart(part, items, input).rest, input)
  {
  }

  lemma CountSuffix(c: Count, items: seq<Item>, input: seq<byte>)
    ensures DecodeCount(c, items, input).Ok? ==> Suffix(DecodeCount(c, items, input).rest, input)
  {
  }

  lemma PartSuffix(part: Part, items: seq<Item>, input: seq<byte>)
    ensures DecodePart(part, items, input).Ok? ==> Suffix(DecodePart(part, items, input).rest, input)
    decreases part, 0, 0
  {
    match part
    case Rows(c, row) =>
      CountSuffix(c, items, input);
      var count := DecodeCount(c, items, input);
      if count.Ok? {
        RowsSuffix(count.value, row, count.rest);
        if DecodeRows(count.value, row, count.rest).Ok? {
          P.Compose(DecodeRows(count.value, row, count.rest).rest, count.rest, input);
        }
      }
    case IfOk(inner) => PartSuffix(inner, items, input);
    case _ => BasicPartSuffix(part, items, input);
  }

  lemma {:induction false} PartsSuffix(parts: seq<Part>, items: seq<Item>, input: seq<byte>)
    ensures DecodeParts(parts, items, input).Ok? ==> Suffix(DecodeParts(parts, items, input).rest, input)
    decreases parts, 0, 0
  {
    if parts != [] {
      PartSuffix(parts[0], items, input);
      var r := DecodePart(parts[0], items, input);
      if r.Ok? {
        PartsSuffix(parts[1..], items + [r.value], r.rest);
        if DecodeParts(parts, items, input).Ok? {
          P.Compose(DecodeParts(parts, items, input).rest, r.rest, input);
        }
      }
    }
  }

  lemma {:induction false} RowsSuffix(count: nat, row: seq<Part>, input: seq<byte>)
    ensures DecodeRows(count, row, input).Ok? ==> Suffix(DecodeRows(count, row, input).rest, input)
    decreases row, 1, count
  {
    if count > 0 {
      RowSuffix(row, input);
      var r := DecodeRow(row, input);
      if r.Ok? {
        RowsSuffix(count - 1, row, r.rest);
        var more := DecodeRows(count - 1, row, r.rest);
        if more.Ok? {
          P.Compose(more.rest, r.rest, input);
        }
      }
    }
  }

  lemma {:induction false} RowSuffix(row: seq<Part>, input: seq<byte>)
    ensures DecodeRow(row, input).Ok? ==> Suffix(DecodeRow(row, input).rest, input)
    decreases row, 0, 1
  {
    PartsSuffix(row, [], input);
  }
}
