/** Frames from the broker (response/mod.rs, codec/decoder.rs and the response half
    of the files under commands). Each kind of frame is a table of parts; one interpreter reads them all. */
module Responses {
  import opened Bytes
  import F = Frames
  import M = Messages

  /** How the length of a list is found: a signed or an unsigned word in front of it, or an
      earlier field of the same frame. A negative length asks for an impossible allocation. */
  datatype Count = SignedCount | UnsignedCount | Field(index: nat)

  datatype Part =
    | Unsigned(width: nat)
    | SignedWord(width: nat)
    | StatusCode
    | Text
    | Unwrap(index: nat)
    | SizedMessage
    | Rows(count: Count, row: seq<Part>)
    | IfOk(part: Part)

  datatype Item =
    | Numeral(n: int)
    | Status(code: u16)
    | String(text: Option<Utf8>)
    | Table(rows: seq<Row>)
    | AmqpMessage(message: M.PlainMessage)
    | Unwrapped

  datatype Row = Row(items: seq<Item>)

  datatype Response = Response(key: nat, version: nat, items: seq<Item>)

  const STATUS_OK: u16 := 1
  const LAST_STATUS: u16 := 19

  const STRINGS := Rows(UnsignedCount, [Text])
  const STRING_MAP := Rows(UnsignedCount, [Text, Text])

  const GENERIC := [Unsigned(4), StatusCode]
  const DELIVER := [
    Unsigned(1), SignedWord(1), Unsigned(1), Unsigned(2), Unsigned(4), Unsigned(8), Unsigned(8), Unsigned(8),
    SignedWord(4), Unsigned(4), Unsigned(4), Unsigned(4), Rows(Field(4), [SizedMessage])
  ]
  const METADATA := [
    Unsigned(4),
    Rows(SignedCount, [Unsigned(2), Text, Unsigned(4), Unwrap(1)]),
    Rows(SignedCount, [Text, StatusCode, Unsigned(2), Rows(SignedCount, [Unsigned(2)]), Unwrap(0)])
  ]

  /** The parts of a frame by its key. The reply to a consumer update is never recognised: its key
      has the top bit set, which the header clears. */
  function Layout(key: nat): Option<seq<Part>> {
    match key
    case 1 | 6 | 7 | 12 | 13 | 14 | 19 | 22 | 29 | 30 => Some(GENERIC)
    case 3 => Some([Unsigned(1), Rows(SignedCount, [Unsigned(8)])])
    case 4 => Some([Unsigned(1), Rows(UnsignedCount, [Unsigned(8), StatusCode])])
    case 5 | 11 => Some([Unsigned(4), StatusCode, Unsigned(8)])
    case 8 => Some(DELIVER)
    case 9 => Some([StatusCode, Unsigned(1)])
    case 15 => Some(METADATA)
    case 16 => Some([StatusCode, Text, Unwrap(1)])
    case 17 => Some([Unsigned(4), StatusCode, STRING_MAP])
    case 18 | 24 | 25 => Some([Unsigned(4), StatusCode, STRINGS])
    case 20 => Some([Unsigned(4), Unsigned(4)])
    case 21 => Some([Unsigned(4), StatusCode, IfOk(STRING_MAP)])
    case 23 => Some([])
    case 26 => Some([Unsigned(4), Unsigned(1), Unsigned(1)])
    case 27 => Some([Unsigned(4), StatusCode, Rows(SignedCount, [Unsigned(2), Unsigned(2), Unsigned(2)])])
    case _ => None
  }

  /** A length taken from an earlier field. */
  function CountAt(items: seq<Item>, index: nat): nat {
    if index < |items| && items[index].Numeral? && items[index].n >= 0 then items[index].n else 0
  }

  function DecodeCount(c: Count, items: seq<Item>, input: seq<byte>): (r: Outcome<nat>)
    ensures r.Ok? ==> |r.rest| <= |input|
  {
    match c
    case SignedCount =>
      var (rest, n) :- ReadUnsigned(4, input);
      if Signed(4, n) < 0 then Abort else Ok(rest, Signed(4, n))
    case UnsignedCount => ReadUnsigned(4, input)
    case Field(i) => Ok(input, CountAt(items, i))
  }

  function DecodeStatus(input: seq<byte>): (r: Outcome<Item>)
    ensures r.Ok? ==> |r.rest| <= |input|
  {
    var (rest, n) :- ReadUnsigned(2, input);
    assert n < 0x1_0000 by { assert Span(2) == 0x1_0000; }
    if 1 <= n <= LAST_STATUS then Ok(rest, Status(n)) else Err(UnknownResponseCode(n))
  }

  /** `Option::unwrap` on an absent string panics; it comes after the rest of its row is read. */
  predicate Absent(items: seq<Item>, index: nat) {
    index < |items| && items[index] == String(None)
  }

  function DecodePart(part: Part, items: seq<Item>, input: seq<byte>): (r: Outcome<Item>)
    ensures r.Ok? ==> |r.rest| <= |input|
    decreases part, 0, 0
  {
    match part
    case Unsigned(w) => var (rest, n) :- ReadUnsigned(w, input); Ok(rest, Numeral(n))
    case SignedWord(w) => var (rest, n) :- ReadUnsigned(w, input); Ok(rest, Numeral(Signed(w, n)))
    case StatusCode => DecodeStatus(input)
    case Text => var (rest, text) :- F.DecodeText(input); Ok(rest, String(text))
    case Unwrap(i) => if Absent(items, i) then Abort else Ok(input, Unwrapped)
    case SizedMessage => var (rest, m) :- F.DecodeSizedMessage(input); Ok(rest, AmqpMessage(m))
    case Rows(c, row) =>
      var (rest, count) :- DecodeCount(c, items, input);
      var (rest, rows) :- DecodeRows(count, row, rest);
      Ok(rest, Table(rows))
    case IfOk(inner) =>
      if items != [] && items[|items| - 1] == Status(STATUS_OK) then DecodePart(inner, items, input)
      else Ok(input, Table([]))
  }

  /** Read `parts` in turn, behind the `items` already read. */
  function DecodeParts(parts: seq<Part>, items: seq<Item>, input: seq<byte>): (r: Outcome<seq<Item>>)
    ensures r.Ok? ==> |r.rest| <= |input|
    decreases parts, 0, 0
  {
    if parts == [] then Ok(input, items) else
      var (rest, item) :- DecodePart(parts[0], items, input);
      DecodeParts(parts[1..], items + [item], rest)
  }

  function DecodeRow(row: seq<Part>, input: seq<byte>): (r: Outcome<Row>)
    ensures r.Ok? ==> |r.rest| <= |input|
    decreases row, 1, 0
  {
    var (rest, items) :- DecodeParts(row, [], input);
    Ok(rest, Row(items))
  }

  function DecodeRows(count: nat, row: seq<Part>, input: seq<byte>): (r: Outcome<seq<Row>>)
    ensures r.Ok? ==> |r.rest| <= |input|
    decreases row, 2, count
  {
    if count == 0 then Ok(input, []) else
      var (rest, first) :- DecodeRow(row, input);
      var (rest, rows) :- DecodeRows(count - 1, row, rest);
      Ok(rest, [first] + rows)
  }

  /** `Response::decode`: the length prefix is read and not used. */
  function Decode(input: seq<byte>): (r: Outcome<Response>)
    ensures r.Ok? ==> |r.rest| < |input|
  {
    var (rest, header) :- F.DecodeHeader(input);
    match Layout(header.key)
    case None => Err(UnsupportedResponseType(header.key))
    case Some(parts) =>
      var (rest, items) :- DecodeParts(parts, [], rest);
      Ok(rest, Response(header.key, header.version, items))
  }

  /** What decoding the parts returned, as a response. */
  function Assembled(h: F.Header, items: Outcome<seq<Item>>): Outcome<Response> {
    match items
    case Ok(rest, items) => Ok(rest, Response(h.key, h.version, items))
    case Err(e) => Err(e)
    case Abort => Abort
  }

  lemma DecodeBody(input: seq<byte>, h: F.Header, parts: seq<Part>, body: seq<byte>)
    requires F.DecodeHeader(input) == Ok(body, h) && Layout(h.key) == Some(parts)
    ensures Decode(input) == Assembled(h, DecodeParts(parts, [], body))
  {
  }

  /** Behind a length and a header, decoding is the decoding of the parts for that key. */
  lemma {:induction false} DecodeFrame(length: u32, key: u16, version: u16, parts: seq<Part>, body: seq<byte>)
    requires key < 0x8000 && Layout(key) == Some(parts)
    ensures Decode(BigEndian(4, length) + (F.EncodeHeader(key, version) + body))
         == Assembled(F.Header(length, key, version), DecodeParts(parts, [], body))
  {
    F.HeaderReadsBack(length, key, version, body);
    DecodeBody(BigEndian(4, length) + (F.EncodeHeader(key, version) + body), F.Header(length, key, version), parts,
               body);
  }

  // ----- Stability: what is decoded does not depend on what comes later -----

  function Extended<T>(r: Outcome<T>, more: seq<byte>): Outcome<T> {
    match r
    case Ok(rest, v) => Ok(rest + more, v)
    case Err(_) => r
    case Abort => r
  }

  /** No string is split out of the input without checking its length. */
  predicate TextFree(part: Part) {
    match part
    case Text => false
    case Rows(_, row) => TextFreeAll(row)
    case IfOk(inner) => TextFree(inner)
    case _ => true
  }

  predicate TextFreeAll(parts: seq<Part>) {
    parts == [] || (TextFree(parts[0]) && TextFreeAll(parts[1..]))
  }

  /** `whole` follows from `r`, the result for a shorter input: `r` asked for more, or it was
      final and only its unread input grew. When `trusted` is false an abort is not final. */
  ghost predicate Follows<T>(r: Outcome<T>, whole: Outcome<T>, more: seq<byte>, trusted: bool) {
    r.NeedsMore() || (r.Abort? && !trusted) || whole == Extended(r, more)
  }

  lemma WordStable(w: nat, p: seq<byte>, q: seq<byte>)
    ensures Follows(ReadUnsigned(w, p), ReadUnsigned(w, p + q), q, true)
  {
    if w <= |p| {
      assert (p + q)[..w] == p[..w] && (p + q)[w..] == p[w..] + q;
    }
  }

  lemma BytesStable(p: seq<byte>, q: seq<byte>)
    ensures Follows(F.ReadBytes(p), F.ReadBytes(p + q), q, true)
  {
    WordStable(4, p, q);
    var r := ReadUnsigned(4, p);
    if r.Ok? {
      var len := Signed(4, r.value);
      if 0 <= len <= |r.rest| {
        assert (r.rest + q)[..len] == r.rest[..len] && (r.rest + q)[len..] == r.rest[len..] + q;
      }
    }
  }

  lemma TextStable(p: seq<byte>, q: seq<byte>)
    ensures Follows(F.DecodeText(p), F.DecodeText(p + q), q, false)
  {
    WordStable(2, p, q);
    var r := ReadUnsigned(2, p);
    if r.Ok? {
      var len := Signed(2, r.value);
      if 0 <= len <= |r.rest| {
        assert (r.rest + q)[..len] == r.rest[..len] && (r.rest + q)[len..] == r.rest[len..] + q;
      }
    }
  }

  lemma CountStable(c: Count, items: seq<Item>, p: seq<byte>, q: seq<byte>)
    ensures Follows(DecodeCount(c, items, p), DecodeCount(c, items, p + q), q, true)
  {
    WordStable(4, p, q);
  }

  lemma HeaderStable(p: seq<byte>, q: seq<byte>)
    ensures Follows(F.DecodeHeader(p), F.DecodeHeader(p + q), q, true)
  {
    WordStable(4, p, q);
    var a := ReadUnsigned(4, p);
    if a.Ok? {
      WordStable(2, a.rest, q);
      var b := ReadUnsigned(2, a.rest);
      if b.Ok? {
        WordStable(2, b.rest, q);
      }
    }
  }

  lemma {:induction false} PartStable(part: Part, items: seq<Item>, p: seq<byte>, q: seq<byte>)
    ensures Follows(DecodePart(part, items, p), DecodePart(part, items, p + q), q, TextFree(part))
    decreases part, 0, 0
  {
    match part
    case Unsigned(w) => WordStable(w, p, q);
    case SignedWord(w) => WordStable(w, p, q);
    case StatusCode => WordStable(2, p, q);
    case Text => TextStable(p, q);
    case Unwrap(_) =>
    case SizedMessage => BytesStable(p, q);
    case Rows(c, row) =>
      CountStable(c, items, p, q);
      var count := DecodeCount(c, items, p);
      if count.Ok? {
        RowsStable(count.value, row, count.rest, q);
      }
    case IfOk(inner) => PartStable(inner, items, p, q);
  }

  lemma {:induction false} PartsStable(parts: seq<Part>, items: seq<Item>, p: seq<byte>, q: seq<byte>)
    ensures Follows(DecodeParts(parts, items, p), DecodeParts(parts, items, p + q), q, TextFreeAll(parts))
    decreases parts, 0, 0
  {
    if parts != [] {
      PartStable(parts[0], items, p, q);
      var r := DecodePart(parts[0], items, p);
      if r.Ok? {
        PartsStable(parts[1..], items + [r.value], r.rest, q);
      }
    }
  }

  lemma {:induction false} RowsStable(count: nat, row: seq<Part>, p: seq<byte>, q: seq<byte>)
    ensures Follows(DecodeRows(count, row, p), DecodeRows(count, row, p + q), q, TextFreeAll(row))
    decreases row, 1, count
  {
    if count > 0 {
      PartsStable(row, [], p, q);
      var r := DecodeParts(row, [], p);
      if r.Ok? {
        RowsStable(count - 1, row, r.rest, q);
      }
    }
  }

  predicate TextFreeKey(key: nat) {
    Layout(key).Some? ==> TextFreeAll(Layout(key).value)
  }

  /** A frame at the front of the input is decoded the same whatever follows it, unless decoding
      asked for more input, or aborted on a frame that carries strings. */
  lemma FrameStable(p: seq<byte>, q: seq<byte>)
    ensures Decode(p).NeedsMore()
         || (Decode(p).Abort? && F.DecodeHeader(p).Ok? && !TextFreeKey(F.DecodeHeader(p).value.key))
         || Decode(p + q) == Extended(Decode(p), q)
  {
    HeaderStable(p, q);
    var h := F.DecodeHeader(p);
    if h.Ok? && Layout(h.value.key).Some? {
      PartsStable(Layout(h.value.key).value, [], h.rest, q);
    }
  }
}
