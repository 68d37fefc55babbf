/** The decoding loops as they run: each is proved equal to the recursive function that the other
    modules reason about (list.rs, map.rs, message.rs, codec/decoder.rs and deliver.rs). */
module Decoders {
  import opened Bytes
  import TC = TypeCodes
  import V = Values
  import M = Messages
  import F = Frames
  import R = Responses

  lemma PrependOne<T>(front: seq<T>, x: T, r: Outcome<seq<T>>)
    ensures Prepend(front, Prepend([x], r)) == Prepend(front + [x], r)
  {
    if r.Ok? {
      assert front + ([x] + r.value) == front + [x] + r.value;
    }
  }

  lemma PrependNothing<T>(front: seq<T>, rest: seq<byte>, r: Outcome<seq<T>>)
    ensures Prepend([], r) == r && Prepend(front, Ok(rest, [])) == Ok(rest, front)
  {
    assert front + [] == front;
    if r.Ok? {
      assert [] + r.value == r.value;
    }
  }

  /** `List::decode`. */
  method DecodeList(input: seq<byte>) returns (r: Outcome<seq<V.Value>>)
    ensures r == V.DecodeList(input)
  {
    var header :- TC.DecodeTypeCode(input);
    var rest, code := header.0, header.1;
    if code == TC.List0 {
      return Ok(rest, []);
    }
    if code != TC.List8 && code != TC.List32 {
      return Err(InvalidTypeCodeFor(TC.Code(code)));
    }
    var counted :- V.DecodeCount(if code == TC.List8 then 1 else 4, rest);
    var items, count := counted.0, counted.1;
    r := DecodeItems(count, items);
  }

  method DecodeItems(count: nat, input: seq<byte>) returns (r: Outcome<seq<V.Value>>)
    ensures r == V.DecodeItems(count, input)
  {
    var rest, list: seq<V.Value> := input, [];
    PrependNothing(list, rest, V.DecodeItems(count, input));
    for i := 0 to count
      invariant Prepend(list, V.DecodeItems(count - i, rest)) == V.DecodeItems(count, input)
    {
      var decoded := V.DecodeValue(rest);
      ghost var before := list;
      if !decoded.Ok? {
        return decoded.PropagateFailure();
      }
      assert V.DecodeItems(count - i, rest) == Prepend([decoded.value], V.DecodeItems(count - i - 1, decoded.rest));
      PrependOne(list, decoded.value, V.DecodeItems(count - i - 1, decoded.rest));
      list := list + [decoded.value];
      rest := decoded.rest;
    }
    PrependNothing(list, rest, V.DecodeItems(count, input));
    r := Ok(rest, list);
  }

  /** A key and its value; inserting a key that contains a map panics. */
  function DecodeEntry(t: V.MapType, input: seq<byte>): (r: Outcome<(V.Value, V.Value)>)
    ensures r.Ok? ==> |r.rest| < |input|
  {
    var (rest, key) :- V.DecodeItem(t.key, input);
    var (rest, value) :- V.DecodeItem(t.value, rest);
    if V.ContainsMap(key) then Abort else Ok(rest, (key, value))
  }

  lemma CellsNext(t: V.MapType, count: nat, input: seq<byte>, acc: map<V.Value, V.Value>)
    requires count >= 2
    ensures var e := DecodeEntry(t, input);
            V.DecodeCells(t, count, input, acc) ==
            if e.Ok? then V.DecodeCells(t, count - 2, e.rest, acc[e.value.0 := e.value.1]) else e.PropagateFailure()
  {
  }

  /** `Map::decode`: the count drops by two before an entry is read, and underflows from one. */
  method DecodeMap(t: V.MapType, input: seq<byte>) returns (r: Outcome<map<V.Value, V.Value>>)
    ensures r == V.DecodeMap(t, input)
  {
    var header :- TC.DecodeTypeCode(input);
    var start, code := header.0, header.1;
    if code != TC.Map8 && code != TC.Map32 {
      return Err(InvalidTypeCodeFor(TC.Code(code)));
    }
    var counted :- V.DecodeCount(if code == TC.Map8 then 1 else 4, start);
    r := DecodeEntries(t, counted.1, counted.0);
  }

  /** What the entries still to come make of those already inserted. */
  ghost function Remaining(t: V.MapType, count: nat, input: seq<byte>, entries: map<V.Value, V.Value>)
    : Outcome<map<V.Value, V.Value>>
  {
    V.DecodeCells(t, count, input, entries)
  }

  method InsertEntry(t: V.MapType, count: nat, input: seq<byte>, entries: map<V.Value, V.Value>)
    returns (r: Outcome<map<V.Value, V.Value>>)
    requires count >= 2
    ensures Remaining(t, count, input, entries) == if r.Ok? then Remaining(t, count - 2, r.rest, r.value) else r
  {
    CellsNext(t, count, input, entries);
    var decoded :- DecodeEntry(t, input);
    var rest, entry := decoded.0, decoded.1;
    r := Ok(rest, entries[entry.0 := entry.1]);
  }

  method DecodeEntries(t: V.MapType, length: nat, input: seq<byte>) returns (r: Outcome<map<V.Value, V.Value>>)
    ensures r == V.DecodeCells(t, length, input, map[])
  {
    var rest, count := input, length;
    var entries: map<V.Value, V.Value> := map[];
    ghost var result := Remaining(t, length, input, map[]);
    while count > 0
      invariant Remaining(t, count, rest, entries) == result
    {
      if count < 2 {
        return Abort;
      }
      var decoded := InsertEntry(t, count, rest, entries);
      if !decoded.Ok? {
        return decoded;
      }
      count, rest, entries := count - 2, decoded.rest, decoded.value;
    }
    r := Ok(rest, entries);
  }

  /** `List::decode_with_fields`. */
  method DecodeWithFields(specs: seq<M.FieldSpec>, input: seq<byte>, initial: seq<M.Field>)
    returns (r: Outcome<seq<M.Field>>)
    requires M.WellTyped(specs, initial) && M.TypedDefaults(specs)
    ensures r == M.DecodeWithFields(specs, input, initial)
  {
    var header :- TC.DecodeTypeCode(input);
    var start, code := header.0, header.1;
    if code == TC.List0 {
      return Ok(start, initial);
    }
    if code != TC.List8 && code != TC.List32 {
      return Err(MessageParse);
    }
    var counted :- V.DecodeCount(if code == TC.List8 then 1 else 4, start);
    var rest, count := counted.0, counted.1;
    var dest := initial;
    ghost var result := M.DecodeFields(specs, rest, 0, count, initial);
    for idx := 0 to count
      invariant M.WellTyped(specs, dest)
      invariant M.DecodeFields(specs, rest, idx, count, dest) == result
    {
      if idx < |specs| {
        var decoded :- M.DecodeField(specs[idx].types, rest);
        var next, field := decoded.0, decoded.1;
        assert M.HasFieldType(specs[idx], specs[idx].absent);
        dest := dest[idx := if field.None? then specs[idx].absent else field];
        rest := next;
      }
    }
    r := Ok(rest, dest);
  }

  method AddSection(m: M.PlainMessage, section: M.PlainSection) returns (message: M.PlainMessage)
    ensures message == M.Apply(m, section)
  {
    message := m;
    match section {
      case HeaderSection(x) => message := message.(header := Some(x));
      case DeliveryAnnotations(x) => message := message.(deliveryAnnotations := Some(x));
      case MessageAnnotations(x) => message := message.(messageAnnotations := Some(x));
      case ApplicationProperties(x) => message := message.(applicationProperties := Some(x));
      case Footer(x) => message := message.(footer := Some(x));
      case PropertiesSection(x) => message := message.(properties := Some(x));
      case AmqpSequence(x) => message := message.(body := message.body.(sequence := message.body.sequence + [x]));
      case AmqpValue(x) => message := message.(body := message.body.(value := Some(x)));
      case Data(x) => message := message.(body := message.body.(data := message.body.data + [x]));
    }
  }

  /** `Message::decode`: sections are read until the input is empty. */
  method DecodeMessage(input: seq<byte>) returns (r: Outcome<M.PlainMessage>)
    ensures r == M.Decode(input)
  {
    var rest, message: M.PlainMessage := input, M.Empty();
    while rest != []
      invariant M.DecodeSections(rest, message) == M.Decode(input)
      decreases |rest|
    {
      var decoded :- M.DecodeSection(rest);
      var inner, section := decoded.0, decoded.1;
      rest := inner;
      message := AddSection(message, section);
    }
    r := Ok(rest, message);
  }

  /** `read_vec::<u8>`, which takes its bytes one by one. */
  method ReadBytes(input: seq<byte>) returns (r: Outcome<seq<byte>>)
    ensures r == F.ReadBytes(input)
  {
    var header :- ReadUnsigned(4, input);
    var start, n := header.0, header.1;
    var len := Signed(4, n);
    if len < 0 {
      return Abort;
    }
    var rest, result: seq<byte> := start, [];
    for i := 0 to len
      invariant i <= |start| && result == start[..i] && rest == start[i..]
    {
      var decoded :- ReadByte(rest);
      var next, value := decoded.0, decoded.1;
      result := result + [value];
      rest := next;
    }
    r := Ok(rest, result);
  }

  /** `Vec::<PublishedMessage>::decode` behind its count. */
  method DecodeAllPublished(count: nat, input: seq<byte>) returns (r: Outcome<seq<F.Published<M.PlainMessage>>>)
    ensures r == F.DecodeAllPublished(count, input)
  {
    var rest, result: seq<F.Published<M.PlainMessage>> := input, [];
    PrependNothing(result, rest, F.DecodeAllPublished(count, input));
    for i := 0 to count
      invariant Prepend(result, F.DecodeAllPublished(count - i, rest)) == F.DecodeAllPublished(count, input)
    {
      var decoded := F.DecodePublished(rest);
      F.PublishedNext(count - i, rest);
      if !decoded.Ok? {
        return decoded.PropagateFailure();
      }
      PrependOne(result, decoded.value, F.DecodeAllPublished(count - i - 1, decoded.rest));
      result := result + [decoded.value];
      rest := decoded.rest;
    }
    PrependNothing(result, rest, F.DecodeAllPublished(count, input));
    r := Ok(rest, result);
  }

  /** The rows of a list in a response, such as the messages of a chunk. */
  method DecodeRows(count: nat, row: seq<R.Part>, input: seq<byte>) returns (r: Outcome<seq<R.Row>>)
    ensures r == R.DecodeRows(count, row, input)
  {
    var rest, result: seq<R.Row> := input, [];
    PrependNothing(result, rest, R.DecodeRows(count, row, input));
    for i := 0 to count
      invariant Prepend(result, R.DecodeRows(count - i, row, rest)) == R.DecodeRows(count, row, input)
    {
      var decoded := R.DecodeRow(row, rest);
      if !decoded.Ok? {
        return decoded.PropagateFailure();
      }
      assert R.DecodeRows(count - i, row, rest)
           == Prepend([decoded.value], R.DecodeRows(count - i - 1, row, decoded.rest));
      PrependOne(result, decoded.value, R.DecodeRows(count - i - 1, row, decoded.rest));
      result := result + [decoded.value];
      rest := decoded.rest;
    }
    PrependNothing(result, rest, R.DecodeRows(count, row, input));
    r := Ok(rest, result);
  }

  // ----- Maps with an odd count -----

  predicate Odd(count: nat) {
    count % 2 == 1
  }

  /** The count as it drops where arithmetic wraps. */
  function MinusTwo(count: nat): (r: nat)
    requires 0 < count < U32_LIMIT
    ensures r < U32_LIMIT && Odd(r) == Odd(count)
    ensures count >= 2 ==> r == count - 2
  {
    if count >= 2 then count - 2 else count + (U32_LIMIT - 2)
  }

  /** The loop of `DecodeMap` where arithmetic wraps instead of panicking. */
  function DecodeCellsWrapping(t: V.MapType, count: nat, input: seq<byte>, acc: map<V.Value, V.Value>)
    : Outcome<map<V.Value, V.Value>>
    requires count < U32_LIMIT
    decreases |input|
  {
    if count == 0 then Ok(input, acc) else
      var (rest, entry) :- DecodeEntry(t, input);
      DecodeCellsWrapping(t, MinusTwo(count), rest, acc[entry.0 := entry.1])
  }

  lemma {:induction false} OddCountNeverEnds(t: V.MapType, count: nat, input: seq<byte>, acc: map<V.Value, V.Value>)
    requires count < U32_LIMIT && Odd(count)
    ensures !DecodeCellsWrapping(t, count, input, acc).Ok? && !V.DecodeCells(t, count, input, acc).Ok?
    decreases |input|
  {
    var e := DecodeEntry(t, input);
    if count >= 2 {
      CellsNext(t, count, input, acc);
    }
    if e.Ok? {
      OddCountNeverEnds(t, MinusTwo(count), e.rest, acc[e.value.0 := e.value.1]);
    }
  }

  /** Whether the count panics or wraps, the same inputs decode, and to the same maps: a count that
      wraps stays odd, so the loop only ends when the input does not decode. */
  lemma {:induction false} WrappingDecodesTheSame(t: V.MapType, count: nat, input: seq<byte>,
                                                  acc: map<V.Value, V.Value>)
    requires count < U32_LIMIT
    ensures Odd(count) ==> !DecodeCellsWrapping(t, count, input, acc).Ok? && !V.DecodeCells(t, count, input, acc).Ok?
    ensures !Odd(count) ==> DecodeCellsWrapping(t, count, input, acc) == V.DecodeCells(t, count, input, acc)
    decreases |input|
  {
    var e := DecodeEntry(t, input);
    if Odd(count) {
      OddCountNeverEnds(t, count, input, acc);
    } else if count > 0 {
      CellsNext(t, count, input, acc);
      if e.Ok? {
        WrappingDecodesTheSame(t, MinusTwo(count), e.rest, acc[e.value.0 := e.value.1]);
      }
    }
  }
}
