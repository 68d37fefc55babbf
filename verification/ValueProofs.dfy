/** What decoding returns for an encoded value, and when that is the value itself. */
module ValueProofs {
  import opened Bytes
  import opened Values
  import S = Simple
  import TC = TypeCodes

  // ----- Readback -----

  /** The value that comes back for a stored one. */
  function Readback(l: Layout): Value
    decreases l, 1
  {
    match l
    case Atom(s) => Simple(S.Readback(s))
    case Sequence(items) => List(ReadbackAll(items))
    case Table(cells) => Map(Pairs(map[], ReadbackAll(cells)))
    case Tagged(d, inner) => Described(d, Readback(inner))
  }

  function ReadbackAll(ls: seq<Layout>): (r: seq<Value>)
    ensures |r| == |ls|
    ensures forall i | 0 <= i < |ls| :: r[i] == Readback(ls[i])
    decreases ls, 0
  {
    if ls == [] then [] else [Readback(ls[0])] + ReadbackAll(ls[1..])
  }

  /** No list is so long that it is written with four-byte fields. */
  predicate Narrow(l: Layout) {
    match l
    case Atom(_) => true
    case Sequence(items) => !Wide(SizeAll(items)) && forall i | 0 <= i < |items| :: Narrow(items[i])
    case Table(cells) => forall i | 0 <= i < |cells| :: Narrow(cells[i])
    case Tagged(_, inner) => Narrow(inner)
  }

  predicate AllNarrow(ls: seq<Layout>) {
    forall i | 0 <= i < |ls| :: Narrow(ls[i])
  }

  predicate AllStored(ls: seq<Layout>) {
    forall i | 0 <= i < |ls| :: Stored(ls[i])
  }

  lemma {:induction false} SizeOfItem(ls: seq<Layout>, i: nat)
    requires i < |ls|
    ensures Size(ls[i]) <= SizeAll(ls)
  {
    if i > 0 {
      assert ls[i] == ls[1..][i - 1];
      SizeOfItem(ls[1..], i - 1);
    }
  }

  lemma ReadbackContainsMap(l: Layout)
    ensures ContainsMap(Readback(l)) <==> ContainsMap(ValueOf(l))
  {
    match l
    case Atom(_) =>
    case Sequence(items) =>
      forall i | 0 <= i < |items|
        ensures ContainsMap(Readback(items[i])) <==> ContainsMap(ValueOf(items[i]))
      {
        ReadbackContainsMap(items[i]);
      }
      assert List(ReadbackAll(items)).items == ReadbackAll(items);
    case Table(_) =>
    case Tagged(_, inner) => ReadbackContainsMap(inner);
  }

  // ----- Round trip -----

  lemma DecodeEncodeCode(n: u64, rest: seq<byte>)
    ensures DecodeDescriptor(EncodeDescriptor(Code(n)) + rest) == Ok(rest, Code(n))
  {
    var s := S.SimpleValue.ULong(n);
    var t, p := S.PayloadReadsBack(s, rest);
    S.TagReadsBack(TC.Described, S.Encode(s), rest);
    S.TagReadsBack(t, p, rest);
    S.DecodeEncode(s, {S.Primitive.ULong}, rest);
    if n == 0 {
      assert p + rest == rest;
    }
  }

  lemma DecodeEncodeName(n: Utf8, rest: seq<byte>)
    requires DescriptorSize(Name(n)) < U32_LIMIT
    ensures DecodeDescriptor(EncodeDescriptor(Name(n)) + rest) == Ok(rest, Name(n))
  {
    var s := S.SimpleValue.Symbol(n);
    var t, p := S.PayloadReadsBack(s, rest);
    S.TagReadsBack(TC.Described, S.Encode(s), rest);
    S.TagReadsBack(t, p, rest);
    S.DecodeEncode(s, {S.Primitive.Symbol}, rest);
  }

  lemma DecodeEncodeDescriptor(d: Descriptor, rest: seq<byte>)
    requires DescriptorSize(d) < U32_LIMIT
    ensures DecodeDescriptor(EncodeDescriptor(d) + rest) == Ok(rest, d)
  {
    match d
    case Code(n) => DecodeEncodeCode(n, rest);
    case Name(n) => DecodeEncodeName(n, rest);
  }

  lemma CountReadsBack(w: nat, size: nat, count: nat, rest: seq<byte>)
    requires w > 0 && size < Span(w) && count < Span(w)
    ensures DecodeCount(w, (BigEndian(w, size) + BigEndian(w, count)) + rest) == Ok(rest, count)
  {
    Associative(BigEndian(w, size), BigEndian(w, count), rest);
    ReadsBack(w, size, BigEndian(w, count) + rest);
    ReadsBack(w, count, rest);
  }

  lemma DecodeEncodeAtom(s: S.SimpleValue, rest: seq<byte>)
    requires S.Size(s) < U32_LIMIT
    ensures DecodeValue(S.Encode(s) + rest) == Ok(rest, Simple(S.Readback(s)))
  {
    var t, p := S.PayloadReadsBack(s, rest);
    S.TagReadsBack(t, p, rest);
    S.DecodeEncode(s, {}, rest);
  }

  /** A described value is its descriptor and then its value, behind one more type code. */
  lemma DecodeTagged(d: Descriptor, body: seq<byte>)
    requires DescriptorSize(d) < U32_LIMIT
    ensures DecodeValue(S.Tagged(TC.Described, EncodeDescriptor(d) + body)) ==
            match DecodeValue(body) {
              case Ok(rest, v) => Ok(rest, Described(d, v))
              case Err(e) => Err(e)
              case Abort => Abort
            }
  {
    assert S.Tagged(TC.Described, EncodeDescriptor(d) + body) == S.Tagged(TC.Described, EncodeDescriptor(d)) + body;
    S.TagReadsBack(TC.Described, EncodeDescriptor(d), body);
    DecodeEncodeDescriptor(d, body);
  }

  lemma DecodeEncode(l: Layout, rest: seq<byte>)
    requires Stored(l) && Narrow(l) && Size(l) < U32_LIMIT
    ensures DecodeValue(Encode(l) + rest) == Ok(rest, Readback(l))
    decreases l, 1
  {
    match l
    case Atom(s) => DecodeEncodeAtom(s, rest);
    case Sequence(items) => DecodeEncodeList(items, rest);
    case Table(cells) => DecodeEncodeTable(cells, rest);
    case Tagged(d, inner) =>
      Associative(EncodeDescriptor(d), Encode(inner), rest);
      Associative([TC.Code(TC.Described)], EncodeDescriptor(d) + Encode(inner), rest);
      DecodeTagged(d, Encode(inner) + rest);
      DecodeEncode(inner, rest);
  }

  lemma DecodeEncodeTable(cells: seq<Layout>, rest: seq<byte>)
    requires Stored(Table(cells)) && AllNarrow(cells) && Size(Table(cells)) < U32_LIMIT
    ensures DecodeValue(Encode(Table(cells)) + rest) == Ok(rest, Map(Pairs(map[], ReadbackAll(cells))))
    decreases cells, 5
  {
    AnyCells(cells);
    DecodeEncodeMap(VALUE_MAP, cells, rest);
    Associative(MapHeader(SizeAll(cells), |cells|), EncodeAll(cells), rest);
    MapHeaderReadsBack(VALUE_MAP, SizeAll(cells), |cells|, EncodeAll(cells) + rest);
  }

  lemma OneByteEach(size: nat, count: nat)
    requires !Wide(size) && count <= size
    ensures BigEndian(1, count) == [count] && BigEndian(1, size + 1) == [size + 1]
  {
    OneByte(count);
    OneByte(size + 1);
  }

  /** The one-byte size and count of a narrow list or map never truncate: each of its elements
      takes at least one byte. */
  lemma {:induction false} NarrowFieldsFit(ls: seq<Layout>)
    requires !Wide(SizeAll(ls))
    ensures |ls| <= SizeAll(ls) <= 254
    ensures BigEndian(1, |ls|) == [|ls|] && BigEndian(1, SizeAll(ls) + 1) == [SizeAll(ls) + 1]
  {
    OneByteEach(SizeAll(ls), |ls|);
  }

  lemma {:induction false} ListHeaderReadsBack(size: nat, count: nat, content: seq<byte>)
    requires !Wide(size) && count <= size
    ensures DecodeList(ListHeader(size, count) + content) == DecodeItems(count, content)
    ensures TC.DecodeTypeCode(ListHeader(size, count) + content).Ok?
    ensures TC.DecodeTypeCode(ListHeader(size, count) + content).value == TC.List8
  {
    var fields := BigEndian(1, size + 1) + BigEndian(1, count);
    S.TagReadsBack(TC.List8, fields, content);
    assert Span(1) == 0x100;
    CountReadsBack(1, size + 1, count, content);
  }

  lemma MapBehindCode(t: MapType, input: seq<byte>, code: TC.TypeCode, w: nat, fields: seq<byte>, count: nat,
                      content: seq<byte>)
    requires (code == TC.Map8 && w == 1) || (code == TC.Map32 && w == 4)
    requires TC.DecodeTypeCode(input) == Ok(fields, code) && DecodeCount(w, fields) == Ok(content, count)
    ensures DecodeMap(t, input) == DecodeCells(t, count, content, map[])
  {
  }

  lemma MapFieldsReadBack(t: MapType, code: TC.TypeCode, w: nat, size: nat, count: nat, content: seq<byte>)
    requires (code == TC.Map8 && w == 1) || (code == TC.Map32 && w == 4)
    requires size < Span(w) && count < Span(w)
    ensures var input := S.Tagged(code, BigEndian(w, size) + BigEndian(w, count)) + content;
            && DecodeMap(t, input) == DecodeCells(t, count, content, map[])
            && TC.DecodeTypeCode(input).Ok? && TC.DecodeTypeCode(input).value == code
  {
    var fields := BigEndian(w, size) + BigEndian(w, count);
    S.TagReadsBack(code, fields, content);
    CountReadsBack(w, size, count, content);
    MapBehindCode(t, S.Tagged(code, fields) + content, code, w, fields + content, count, content);
  }

  lemma MapHeaderReadsBack(t: MapType, size: nat, count: nat, content: seq<byte>)
    requires size + 4 < U32_LIMIT && count <= size
    ensures DecodeMap(t, MapHeader(size, count) + content) == DecodeCells(t, count, content, map[])
    ensures TC.DecodeTypeCode(MapHeader(size, count) + content).Ok?
    ensures TC.DecodeTypeCode(MapHeader(size, count) + content).value == if Wide(size) then TC.Map32 else TC.Map8
  {
    assert Span(1) == 0x100 && Span(4) == U32_LIMIT;
    if Wide(size) {
      MapFieldsReadBack(t, TC.Map32, 4, size + 4, count, content);
    } else {
      MapFieldsReadBack(t, TC.Map8, 1, size + 1, count, content);
    }
  }

  lemma {:induction false} DecodeEncodeList(items: seq<Layout>, rest: seq<byte>)
    requires AllStored(items) && AllNarrow(items) && !Wide(SizeAll(items))
    ensures DecodeList(Encode(Sequence(items)) + rest) == Ok(rest, ReadbackAll(items))
    ensures DecodeValue(Encode(Sequence(items)) + rest) == Ok(rest, List(ReadbackAll(items)))
    decreases items, 2
  {
    Associative(ListHeader(SizeAll(items), |items|), EncodeAll(items), rest);
    ListHeaderReadsBack(SizeAll(items), |items|, EncodeAll(items) + rest);
    DecodeEncodeItems(items, rest);
  }

  lemma DecodeEncodeItems(ls: seq<Layout>, rest: seq<byte>)
    requires AllStored(ls) && AllNarrow(ls) && SizeAll(ls) < U32_LIMIT
    ensures DecodeItems(|ls|, EncodeAll(ls) + rest) == Ok(rest, ReadbackAll(ls))
    decreases ls, 0
  {
    if ls == [] {
      assert EncodeAll(ls) + rest == rest;
    } else {
      assert EncodeAll(ls) + rest == Encode(ls[0]) + (EncodeAll(ls[1..]) + rest);
      DecodeEncode(ls[0], EncodeAll(ls[1..]) + rest);
      DecodeEncodeItems(ls[1..], rest);
    }
  }

  lemma DecodeEncodeItem(t: ItemType, l: Layout, rest: seq<byte>)
    requires Stored(l) && Narrow(l) && Size(l) < U32_LIMIT && HasType(t, l)
    ensures DecodeItem(t, Encode(l) + rest) == Ok(rest, Readback(l))
    decreases l, 2
  {
    match t
    case AnyValue => DecodeEncode(l, rest);
    case AnySimple => S.DecodeEncode(l.atom, {}, rest);
    case OneOf(types) => S.DecodeEncode(l.atom, types, rest);
  }

  lemma DecodeEncodeMap(t: MapType, cells: seq<Layout>, rest: seq<byte>)
    requires Stored(Table(cells)) && AllNarrow(cells) && Size(Table(cells)) < U32_LIMIT
    requires CellsHaveType(t, cells)
    ensures DecodeMap(t, Encode(Table(cells)) + rest) == Ok(rest, Pairs(map[], ReadbackAll(cells)))
    decreases cells, 4
  {
    Associative(MapHeader(SizeAll(cells), |cells|), EncodeAll(cells), rest);
    MapHeaderReadsBack(t, SizeAll(cells), |cells|, EncodeAll(cells) + rest);
    DecodeEncodeCells(t, cells, rest, map[]);
  }

  lemma {:induction false} DecodeEncodeCells(t: MapType, cells: seq<Layout>, rest: seq<byte>, acc: map<Value, Value>)
    requires AllStored(cells) && AllNarrow(cells) && SizeAll(cells) < U32_LIMIT
    requires HashableEntries(cells) && CellsHaveType(t, cells)
    ensures DecodeCells(t, |cells|, EncodeAll(cells) + rest, acc) == Ok(rest, Pairs(acc, ReadbackAll(cells)))
    decreases cells, 3
  {
    if cells == [] {
      assert EncodeAll(cells) + rest == rest;
    } else {
      var key, value := cells[0], cells[1];
      var more := EncodeAll(cells[2..]) + rest;
      FirstEntry(cells, rest);
      FirstValues(cells);
      DecodeEncodeItem(t.key, key, Encode(value) + more);
      DecodeEncodeItem(t.value, value, more);
      ReadbackContainsMap(key);
      CellsStep(t, |cells|, EncodeAll(cells) + rest, Encode(value) + more, more, Readback(key), Readback(value), acc);
      DecodeEncodeCells(t, cells[2..], rest, acc[Readback(key) := Readback(value)]);
    }
  }

  lemma CellsStep(t: MapType, count: nat, input: seq<byte>, middle: seq<byte>, rest: seq<byte>,
                  key: Value, value: Value, acc: map<Value, Value>)
    requires count >= 2 && !ContainsMap(key)
    requires DecodeItem(t.key, input) == Ok(middle, key) && DecodeItem(t.value, middle) == Ok(rest, value)
    ensures DecodeCells(t, count, input, acc) == DecodeCells(t, count - 2, rest, acc[key := value])
  {
  }

  lemma FirstEntry(cells: seq<Layout>, rest: seq<byte>)
    requires |cells| >= 2
    ensures EncodeAll(cells) + rest == Encode(cells[0]) + (Encode(cells[1]) + (EncodeAll(cells[2..]) + rest))
    ensures SizeAll(cells) == Size(cells[0]) + Size(cells[1]) + SizeAll(cells[2..])
  {
    var a, b, c := Encode(cells[0]), Encode(cells[1]), EncodeAll(cells[2..]);
    assert cells[1..][0] == cells[1] && cells[1..][1..] == cells[2..];
    assert EncodeAll(cells[1..]) == b + c;
    Associative(a, b + c, rest);
    Associative(b, c, rest);
  }

  lemma {:induction false} FirstValue(ls: seq<Layout>)
    requires ls != []
    ensures ReadbackAll(ls)[1..] == ReadbackAll(ls[1..])
    ensures ValueOfAll(ls)[1..] == ValueOfAll(ls[1..])
  {
  }

  lemma {:induction false} FirstValues(cells: seq<Layout>)
    requires |cells| >= 2
    ensures ReadbackAll(cells)[2..] == ReadbackAll(cells[2..])
    ensures ValueOfAll(cells)[2..] == ValueOfAll(cells[2..])
  {
    FirstValue(cells);
    FirstValue(cells[1..]);
    assert cells[1..][1..] == cells[2..];
    assert ReadbackAll(cells)[1..][1..] == ReadbackAll(cells)[2..];
    assert ValueOfAll(cells)[1..][1..] == ValueOfAll(cells)[2..];
  }

  lemma AnyCells(cells: seq<Layout>)
    ensures CellsHaveType(VALUE_MAP, cells)
    decreases |cells|
  {
    if |cells| >= 2 {
      AnyCells(cells[2..]);
    }
  }
}
