/** Lists of 255 or more content bytes, which are written with four-byte fields behind the type
    code of the one-byte form (types/primitives/list.rs): what becomes of them, and of the values
    around them. */
module WideLists {
  import opened Bytes
  import opened Values
  import opened ValueProofs
  import opened ValueExactness
  import S = Simple
  import TC = TypeCodes

  // ----- A wide list by itself -----

  /** What fits in one byte of size has only narrow lists inside. */
  lemma SmallIsNarrow(l: Layout)
    requires Size(l) <= 0xFF
    ensures Narrow(l)
  {
    match l
    case Atom(_) =>
    case Sequence(items) => AllSmallAreNarrow(items);
    case Table(cells) => AllSmallAreNarrow(cells);
    case Tagged(_, inner) => SmallIsNarrow(inner);
  }

  lemma AllSmallAreNarrow(ls: seq<Layout>)
    requires SizeAll(ls) <= 0xFF
    ensures AllNarrow(ls)
  {
    forall i | 0 <= i < |ls|
      ensures Narrow(ls[i])
    {
      SizeOfItem(ls, i);
      SmallIsNarrow(ls[i]);
    }
  }

  /** Behind the type code of a wide list or wide properties, one-byte fields are read: the size
      field is taken for a size and a zero count, and what is left starts with a nonzero byte. */
  lemma WideHeaderIsMisread(size: nat, count: nat, content: seq<byte>)
    requires 0xFF <= size < 0xFFFC
    ensures var input := ListHeader(size, count) + content;
            && input != [] && TC.DecodeTypeCode(input) == Ok(input[1..], TC.List8)
            && |input| > 3 && DecodeCount(1, input[1..]) == Ok(input[3..], 0) && input[3] != 0
  {
    WideHeaderCount(size, count, content);
    LeadingZeros(size + 4);
    var fields := BigEndian(4, size + 4) + BigEndian(4, count);
    assert (ListHeader(size, count) + content)[3] == fields[2];
  }

  /** The byte that is taken for the number of items: the second of the four-byte size. */
  function MisreadCount(size: nat): nat {
    (size + 4) / 0x1_0000 % 0x100
  }

  /** Below 65532 content bytes that byte is zero. Whatever the size, it is read as the count. */
  lemma WideHeaderCount(size: nat, count: nat, content: seq<byte>)
    requires Wide(size) && size + 4 < U32_LIMIT
    ensures var input := ListHeader(size, count) + content;
            && |input| > 3 && TC.DecodeTypeCode(input) == Ok(input[1..], TC.List8)
            && DecodeCount(1, input[1..]) == Ok(input[3..], MisreadCount(size))
  {
    var fields := BigEndian(4, size + 4) + BigEndian(4, count);
    var input := ListHeader(size, count) + content;
    S.TagReadsBack(TC.List8, fields, content);
    SecondByte(size + 4);
    var tail := fields + content;
    assert input[1..] == tail && input[3..] == tail[2..];
    TwoBytesRead(tail);
  }

  lemma TwoBytesRead(tail: seq<byte>)
    requires |tail| >= 2
    ensures DecodeCount(1, tail) == Ok(tail[2..], tail[1])
  {
    OneByteRead(tail);
    OneByteRead(tail[1..]);
    assert tail[1..][1..] == tail[2..];
  }

  lemma OneByteRead(s: seq<byte>)
    requires s != []
    ensures ReadUnsigned(1, s) == Ok(s[1..], s[0])
  {
    OneByte(s[0]);
    assert Span(1) == 0x100 && s == [s[0]] + s[1..];
    ReadsBack(1, s[0], s[1..]);
  }

  /** A wide list of less than 65532 content bytes decodes to the empty list. */
  lemma {:induction false} WideListIsLost(items: seq<Layout>, rest: seq<byte>)
    requires 0xFF <= SizeAll(items) < 0xFFFC
    ensures var input := Encode(Sequence(items)) + rest;
            |input| > 3 && DecodeList(input) == Ok(input[3..], []) && input[3] != 0
            && DecodeValue(input) == Ok(input[3..], List([]))
  {
    var content := EncodeAll(items) + rest;
    Associative(ListHeader(SizeAll(items), |items|), EncodeAll(items), rest);
    WideHeaderIsMisread(SizeAll(items), |items|, content);
    var input := ListHeader(SizeAll(items), |items|) + content;
    ListBehindCode(input, input[1..], input[3..], 0);
  }

  /** A wide list of any length decodes to a list of as many items as the second byte of its size
      says, or not at all. */
  lemma {:induction false} WideListIsMiscounted(items: seq<Layout>, rest: seq<byte>)
    requires Wide(SizeAll(items)) && SizeAll(items) + 4 < U32_LIMIT
    ensures var input, count := Encode(Sequence(items)) + rest, MisreadCount(SizeAll(items));
            && (DecodeList(input).Ok? ==> |DecodeList(input).value| == count)
            && (DecodeValue(input).Ok? ==> DecodeValue(input).value.List? && |DecodeValue(input).value.items| == count)
  {
    var content, count := EncodeAll(items) + rest, MisreadCount(SizeAll(items));
    Associative(ListHeader(SizeAll(items), |items|), EncodeAll(items), rest);
    WideHeaderCount(SizeAll(items), |items|, content);
    var input := ListHeader(SizeAll(items), |items|) + content;
    ListBehindCode(input, input[1..], input[3..], count);
    NumberOfItems(count, input[3..]);
  }

  lemma ListBehindCode(input: seq<byte>, fields: seq<byte>, content: seq<byte>, count: nat)
    requires TC.DecodeTypeCode(input) == Ok(fields, TC.List8) && DecodeCount(1, fields) == Ok(content, count)
    ensures DecodeList(input) == DecodeItems(count, content)
    ensures DecodeValue(input).Ok? <==> DecodeItems(count, content).Ok?
    ensures var r := DecodeItems(count, content); r.Ok? ==> DecodeValue(input) == Ok(r.rest, List(r.value))
  {
  }

  lemma {:induction false} NumberOfItems(count: nat, input: seq<byte>)
    ensures DecodeItems(count, input).Ok? ==> |DecodeItems(count, input).value| == count
    decreases count
  {
    if count > 0 && DecodeValue(input).Ok? {
      NumberOfItems(count - 1, DecodeValue(input).rest);
    }
  }

  /** `List::decode` on its own encoding, both ways, unless a wide list happens to have as many items
      as are read. */
  lemma ListRoundTrip(items: seq<Layout>, rest: seq<byte>)
    requires AllStored(items) && SizeAll(items) + 4 < U32_LIMIT
    requires Wide(SizeAll(items)) ==> |items| != MisreadCount(SizeAll(items))
    ensures DecodeList(Encode(Sequence(items)) + rest) == Ok(rest, ValueOfAll(items))
       <==> !Wide(SizeAll(items)) && Restored(List(ValueOfAll(items)))
  {
    if Wide(SizeAll(items)) {
      WideListIsMiscounted(items, rest);
    } else {
      AllSmallAreNarrow(items);
      DecodeEncodeList(items, rest);
      ReadbackIsRestored(Sequence(items));
      if Restored(List(ValueOfAll(items))) {
        RestoredReadsBack(Sequence(items));
      }
    }
  }

  // ----- Wide lists inside other values -----

  /** A key that decodes, perhaps to another one. */
  predicate KeyDecodes(key: Layout) {
    Narrow(key) ||
    match key
    case Sequence(items) => SizeAll(items) < 0xFFFC
    case Tagged(_, inner) => KeyDecodes(inner)
    case _ => false
  }

  /** What such a key decodes to. */
  function AsDecoded(key: Layout): Value
    requires KeyDecodes(key)
  {
    if Narrow(key) then Readback(key) else
      match key
      case Sequence(_) => List([])
      case Tagged(d, inner) => Described(d, AsDecoded(inner))
      case _ => assert false; List([])
  }

  /** Nothing can make up for the first thing in the value that is misread: it is a list with another
      number of items than are read, and every map around it is one to which that matters. */
  predicate Exposed(l: Layout)
    decreases l, 1
  {
    match l
    case Atom(_) => false
    case Sequence(items) => Wide(SizeAll(items)) && |items| != MisreadCount(SizeAll(items))
    case Table(cells) => ExposedIn(cells, Pairs(map[], ValueOfAll(cells)).Keys)
    case Tagged(_, inner) => Exposed(inner)
  }

  /** In a map: a key that decodes to none of the keys of the map, or else a lost value behind a key
      that comes back, with nothing wide before it. */
  predicate ExposedIn(cells: seq<Layout>, keys: set<Value>)
    decreases cells, 0
  {
    |cells| >= 2 &&
      ((KeyDecodes(cells[0]) && AsDecoded(cells[0]) !in keys)
       || (Narrow(cells[0]) &&
           if Narrow(cells[1]) then ExposedIn(cells[2..], keys) else Restored(ValueOf(cells[0])) && Exposed(cells[1])))
  }

  /** Such a value does not come back, whatever follows: where the wide list stands, something else is
      decoded. */
  lemma {:induction false} WideIsLost(l: Layout, rest: seq<byte>)
    requires Stored(l) && Exposed(l) && Size(l) < U32_LIMIT
    ensures Differs(DecodeValue(Encode(l) + rest), ValueOf(l))
    decreases l, 1
  {
    match l
    case Sequence(items) => WideListIsMiscounted(items, rest);
    case Table(cells) =>
      AnyCells(cells);
      WideMapIsLost(VALUE_MAP, cells, rest);
      TableDecodesMap(cells, rest);
    case Tagged(d, inner) =>
      TaggedDecodesInner(d, inner, rest);
      WideIsLost(inner, rest);
  }

  ghost predicate Differs<T(!new)>(r: Outcome<T>, v: T) {
    r.Ok? ==> r.value != v
  }

  lemma TaggedDecodesInner(d: Descriptor, inner: Layout, rest: seq<byte>)
    requires Size(Tagged(d, inner)) < U32_LIMIT
    ensures var r, v := DecodeValue(Encode(Tagged(d, inner)) + rest), DecodeValue(Encode(inner) + rest);
            r.Ok? ==> v.Ok? && r.value == Described(d, v.value)
  {
    Associative(EncodeDescriptor(d), Encode(inner), rest);
    Associative([TC.Code(TC.Described)], EncodeDescriptor(d) + Encode(inner), rest);
    DecodeTagged(d, Encode(inner) + rest);
  }

  lemma {:induction false} TableDecodesMap(cells: seq<Layout>, rest: seq<byte>)
    requires Size(Table(cells)) < U32_LIMIT
    ensures var r, m := DecodeValue(Encode(Table(cells)) + rest), DecodeMap(VALUE_MAP, Encode(Table(cells)) + rest);
            r.Ok? ==> m.Ok? && r.value == Map(m.value)
  {
    Associative(MapHeader(SizeAll(cells), |cells|), EncodeAll(cells), rest);
    MapHeaderReadsBack(VALUE_MAP, SizeAll(cells), |cells|, EncodeAll(cells) + rest);
  }

  // ----- Entries inserted into a map -----

  lemma EntryGrows(m: map<Value, Value>, k: Value, v: Value)
    ensures |m[k := v]| == |m| + if k in m then 0 else 1
  {
    assert m[k := v].Keys == m.Keys + {k};
    assert |m[k := v].Keys| == |m[k := v]| && |m.Keys| == |m|;
  }

  /** Cells that decode are entries inserted one after the other. */
  lemma {:induction false} CellsArePairs(t: MapType, count: nat, input: seq<byte>, acc: map<Value, Value>)
    returns (vs: seq<Value>)
    requires DecodeCells(t, count, input, acc).Ok?
    ensures |vs| == count && DecodeCells(t, count, input, acc).value == Pairs(acc, vs)
    decreases count
  {
    if count == 0 {
      vs := [];
    } else {
      var k := DecodeItem(t.key, input);
      var v := DecodeItem(t.value, k.rest);
      var more := CellsArePairs(t, count - 2, v.rest, acc[k.value := v.value]);
      vs := [k.value, v.value] + more;
      assert vs[2..] == more;
    }
  }

  /** Inserting entries makes a map grow by at most one key each. If it grows by that many, what was
      in it before has kept its value. */
  lemma {:induction false} PairsGrow(acc: map<Value, Value>, vs: seq<Value>)
    ensures |Pairs(acc, vs)| <= |acc| + |vs| / 2
    ensures |Pairs(acc, vs)| == |acc| + |vs| / 2 ==>
            forall k | k in acc :: k in Pairs(acc, vs) && Pairs(acc, vs)[k] == acc[k]
    decreases |vs|
  {
    if |vs| >= 2 {
      var next := acc[vs[0] := vs[1]];
      EntryGrows(acc, vs[0], vs[1]);
      PairsGrow(next, vs[2..]);
      assert vs[0] !in acc ==> forall k | k in acc :: k in next && next[k] == acc[k];
    }
  }

  /** A table has as many keys as entries. */
  lemma {:induction false} KeysOfTable(acc: map<Value, Value>, vs: seq<Value>)
    requires DistinctKeys(vs) && forall k | k in acc :: NotAKey(k, vs)
    ensures |Pairs(acc, vs)| == |acc| + |vs| / 2
    ensures forall k | k in acc :: k in Pairs(acc, vs) && Pairs(acc, vs)[k] == acc[k]
    decreases |vs|
  {
    if |vs| >= 2 {
      EntryGrows(acc, vs[0], vs[1]);
      KeysOfTable(acc[vs[0] := vs[1]], vs[2..]);
    }
  }

  lemma {:induction false} PairsKeepKeys(acc: map<Value, Value>, vs: seq<Value>)
    ensures acc.Keys <= Pairs(acc, vs).Keys
    decreases |vs|
  {
    if |vs| >= 2 {
      PairsKeepKeys(acc[vs[0] := vs[1]], vs[2..]);
    }
  }

  // ----- Wide lists in maps -----

  /** The cells are entries of the map. */
  ghost predicate EntriesOf(cells: seq<Layout>, m: map<Value, Value>)
    decreases |cells|
  {
    |cells| >= 2 ==>
      && ValueOf(cells[0]) in m && m[ValueOf(cells[0])] == ValueOf(cells[1])
      && EntriesOf(cells[2..], m)
  }

  lemma {:induction false} TableHasEntries(acc: map<Value, Value>, cells: seq<Layout>)
    requires DistinctKeys(ValueOfAll(cells)) && forall k | k in acc :: NotAKey(k, ValueOfAll(cells))
    ensures EntriesOf(cells, Pairs(acc, ValueOfAll(cells)))
    decreases |cells|
  {
    if |cells| >= 2 {
      FirstValues(cells);
      var next := acc[ValueOf(cells[0]) := ValueOf(cells[1])];
      KeysOfTable(next, ValueOfAll(cells[2..]));
      TableHasEntries(next, cells[2..]);
    }
  }

  lemma ValueItem(t: ItemType, l: Layout, rest: seq<byte>)
    requires Stored(l) && HasType(t, l) && Size(l) < U32_LIMIT
    ensures Narrow(l) ==> DecodeItem(t, Encode(l) + rest) == Ok(rest, Readback(l))
    ensures !Narrow(l) ==> DecodeItem(t, Encode(l) + rest) == DecodeValue(Encode(l) + rest)
  {
    if Narrow(l) {
      DecodeEncodeItem(t, l, rest);
    }
  }

  lemma NarrowKeyReads(t: MapType, cells: seq<Layout>, rest: seq<byte>)
    requires AllStored(cells) && HashableEntries(cells) && CellsHaveType(t, cells) && SizeAll(cells) < U32_LIMIT
    requires |cells| >= 2 && Narrow(cells[0])
    ensures DecodeItem(t.key, EncodeAll(cells) + rest)
         == Ok(Encode(cells[1]) + (EncodeAll(cells[2..]) + rest), Readback(cells[0]))
    ensures !ContainsMap(Readback(cells[0])) && Size(cells[1]) < U32_LIMIT && SizeAll(cells[2..]) < U32_LIMIT
  {
    FirstEntry(cells, rest);
    DecodeEncodeItem(t.key, cells[0], Encode(cells[1]) + (EncodeAll(cells[2..]) + rest));
    ReadbackContainsMap(cells[0]);
  }

  lemma {:induction false} KeyIsDecoded(l: Layout, rest: seq<byte>)
    requires Stored(l) && KeyDecodes(l) && Size(l) < U32_LIMIT
    ensures DecodeValue(Encode(l) + rest).Ok? && DecodeValue(Encode(l) + rest).value == AsDecoded(l)
  {
    if Narrow(l) {
      DecodeEncode(l, rest);
    } else {
      match l
      case Sequence(items) =>
        WideIfNotNarrow(items);
        WideListIsLost(items, rest);
      case Tagged(d, inner) =>
        KeyIsDecoded(inner, rest);
        Associative(EncodeDescriptor(d), Encode(inner), rest);
        Associative([TC.Code(TC.Described)], EncodeDescriptor(d) + Encode(inner), rest);
        DecodeTagged(d, Encode(inner) + rest);
    }
  }

  lemma WideIfNotNarrow(items: seq<Layout>)
    requires !Narrow(Sequence(items))
    ensures Wide(SizeAll(items))
  {
    if !Wide(SizeAll(items)) {
      AllSmallAreNarrow(items);
    }
  }

  /** The key in front of its value, as decoded. */
  lemma KeyItem(t: MapType, cells: seq<Layout>, rest: seq<byte>)
    requires AllStored(cells) && CellsHaveType(t, cells) && SizeAll(cells) < U32_LIMIT
    requires |cells| >= 2 && KeyDecodes(cells[0])
    ensures var r := DecodeItem(t.key, EncodeAll(cells) + rest); r.Ok? && r.value == AsDecoded(cells[0])
  {
    var more := Encode(cells[1]) + (EncodeAll(cells[2..]) + rest);
    FirstEntry(cells, rest);
    KeyIsDecoded(cells[0], more);
    ValueItem(t.key, cells[0], more);
  }

  /** What decodes as a map inserted its first entry and then others. */
  lemma FirstInserted(t: MapType, count: nat, input: seq<byte>, acc: map<Value, Value>)
    returns (got: Value, vs: seq<Value>)
    requires count >= 2 && DecodeCells(t, count, input, acc).Ok?
    ensures var key := DecodeItem(t.key, input);
            && key.Ok? && DecodeItem(t.value, key.rest).Ok? && got == DecodeItem(t.value, key.rest).value
            && |vs| == count - 2 && DecodeCells(t, count, input, acc).value == Pairs(acc[key.value := got], vs)
  {
    var key := DecodeItem(t.key, input);
    var value := DecodeItem(t.value, key.rest);
    got := value.value;
    vs := CellsArePairs(t, count - 2, value.rest, acc[key.value := got]);
  }

  /** A key that the map does not have stays. */
  lemma ForeignKeyStays(t: MapType, count: nat, input: seq<byte>, acc: map<Value, Value>, m: map<Value, Value>)
    requires count >= 2 && DecodeItem(t.key, input).Ok? && DecodeItem(t.key, input).value !in m
    ensures Differs(DecodeCells(t, count, input, acc), m)
  {
    if DecodeCells(t, count, input, acc).Ok? {
      var got, vs := FirstInserted(t, count, input, acc);
      var key := DecodeItem(t.key, input).value;
      PairsKeepKeys(acc[key := got], vs);
      assert key in acc[key := got].Keys;
    }
  }

  /** Once a key has a wrong value, no later entry can make up for it: to set it right takes an
      entry that is then missing for another key. */
  lemma WrongValueStays(t: MapType, count: nat, input: seq<byte>, middle: seq<byte>, key: Value,
                        acc: map<Value, Value>, m: map<Value, Value>)
    requires count >= 2 && DecodeItem(t.key, input) == Ok(middle, key)
    requires key in m && Differs(DecodeItem(t.value, middle), m[key]) && |acc| + count / 2 <= |m|
    ensures Differs(DecodeCells(t, count, input, acc), m)
  {
    if DecodeCells(t, count, input, acc).Ok? {
      var got, vs := FirstInserted(t, count, input, acc);
      EntryGrows(acc, key, got);
      WrongPairStays(acc[key := got], vs, key, m);
    }
  }

  lemma WrongPairStays(acc: map<Value, Value>, vs: seq<Value>, key: Value, m: map<Value, Value>)
    requires key in acc && key in m && acc[key] != m[key] && |acc| + |vs| / 2 <= |m|
    ensures Pairs(acc, vs) != m
  {
    PairsGrow(acc, vs);
  }

  /** An entry that decodes, and others behind it that do not come to the map. */
  lemma NarrowEntryFirst(t: MapType, cells: seq<Layout>, rest: seq<byte>, acc: map<Value, Value>, m: map<Value, Value>)
    requires AllStored(cells) && HashableEntries(cells) && CellsHaveType(t, cells) && SizeAll(cells) < U32_LIMIT
    requires |cells| >= 2 && Narrow(cells[0]) && Narrow(cells[1])
    requires var next := acc[Readback(cells[0]) := Readback(cells[1])];
             Differs(DecodeCells(t, |cells| - 2, EncodeAll(cells[2..]) + rest, next), m)
    ensures Differs(DecodeCells(t, |cells|, EncodeAll(cells) + rest, acc), m)
  {
    var more := EncodeAll(cells[2..]) + rest;
    NarrowKeyReads(t, cells, rest);
    ValueItem(t.value, cells[1], more);
    CellsStep(t, |cells|, EncodeAll(cells) + rest, Encode(cells[1]) + more, more, Readback(cells[0]),
              Readback(cells[1]), acc);
  }

  /** A lost value behind a key that comes back. */
  lemma LostValueFirst(t: MapType, cells: seq<Layout>, rest: seq<byte>, acc: map<Value, Value>, m: map<Value, Value>)
    requires AllStored(cells) && HashableEntries(cells) && CellsHaveType(t, cells) && SizeAll(cells) < U32_LIMIT
    requires |cells| >= 2 && Narrow(cells[0]) && Restored(ValueOf(cells[0])) && !Narrow(cells[1])
    requires EntriesOf(cells, m) && |acc| + |cells| / 2 <= |m|
    requires Differs(DecodeValue(Encode(cells[1]) + (EncodeAll(cells[2..]) + rest)), ValueOf(cells[1]))
    ensures Differs(DecodeCells(t, |cells|, EncodeAll(cells) + rest, acc), m)
  {
    var middle := Encode(cells[1]) + (EncodeAll(cells[2..]) + rest);
    NarrowKeyReads(t, cells, rest);
    RestoredReadsBack(cells[0]);
    ValueItem(t.value, cells[1], EncodeAll(cells[2..]) + rest);
    WrongValueStays(t, |cells|, EncodeAll(cells) + rest, middle, ValueOf(cells[0]), acc, m);
  }

  lemma {:induction false} WideCellsAreLost(t: MapType, cells: seq<Layout>, rest: seq<byte>,
                                            acc: map<Value, Value>, m: map<Value, Value>)
    requires AllStored(cells) && HashableEntries(cells) && CellsHaveType(t, cells) && SizeAll(cells) < U32_LIMIT
    requires ExposedIn(cells, m.Keys) && EntriesOf(cells, m) && |acc| + |cells| / 2 <= |m|
    ensures Differs(DecodeCells(t, |cells|, EncodeAll(cells) + rest, acc), m)
    decreases cells, 0
  {
    if KeyDecodes(cells[0]) && AsDecoded(cells[0]) !in m.Keys {
      KeyItem(t, cells, rest);
      ForeignKeyStays(t, |cells|, EncodeAll(cells) + rest, acc, m);
    } else if Narrow(cells[1]) {
      FirstEntry(cells, rest);
      EntryGrows(acc, Readback(cells[0]), Readback(cells[1]));
      WideCellsAreLost(t, cells[2..], rest, acc[Readback(cells[0]) := Readback(cells[1])], m);
      NarrowEntryFirst(t, cells, rest, acc, m);
    } else {
      FirstEntry(cells, rest);
      WideIsLost(cells[1], EncodeAll(cells[2..]) + rest);
      LostValueFirst(t, cells, rest, acc, m);
    }
  }

  /** The same for maps of every declared type. */
  lemma {:induction false} WideMapIsLost(t: MapType, cells: seq<Layout>, rest: seq<byte>)
    requires Stored(Table(cells)) && CellsHaveType(t, cells) && Size(Table(cells)) < U32_LIMIT
    requires ExposedIn(cells, Pairs(map[], ValueOfAll(cells)).Keys)
    ensures Differs(DecodeMap(t, Encode(Table(cells)) + rest), Pairs(map[], ValueOfAll(cells)))
    decreases cells, 1
  {
    Associative(MapHeader(SizeAll(cells), |cells|), EncodeAll(cells), rest);
    MapHeaderReadsBack(t, SizeAll(cells), |cells|, EncodeAll(cells) + rest);
    KeysOfTable(map[], ValueOfAll(cells));
    TableHasEntries(map[], cells);
    WideCellsAreLost(t, cells, rest, map[], Pairs(map[], ValueOfAll(cells)));
  }

  /** Exactly the values that come back unchanged: those with no wide list at any depth, no int in
      -128..-1, no timestamp finer than a millisecond. */
  lemma RoundTripExactly(l: Layout, rest: seq<byte>)
    requires Stored(l) && (Narrow(l) || Exposed(l)) && Size(l) < U32_LIMIT
    ensures DecodeValue(Encode(l) + rest) == Ok(rest, ValueOf(l)) <==> Narrow(l) && Restored(ValueOf(l))
  {
    if Narrow(l) {
      RoundTrip(l, rest);
    } else {
      WideIsLost(l, rest);
    }
  }

  /** The smallest case: one binary of 253 bytes in a list. */
  lemma WideListExample(rest: seq<byte>)
    ensures var items := [Atom(S.SimpleValue.Binary(seq(253, _ => 7)))];
            DecodeList(Encode(Sequence(items)) + rest) != Ok(rest, ValueOfAll(items))
  {
    ListRoundTrip([Atom(S.SimpleValue.Binary(seq(253, _ => 7)))], rest);
  }

  // ----- A wide list at the end of a value -----

  /** The last list to be written is wide, and no other is. */
  predicate WideAtEnd(l: Layout)
    decreases l, 1
  {
    match l
    case Atom(_) => false
    case Sequence(items) => 0xFF <= SizeAll(items) < 0xFFFC
    case Table(cells) => CellsWideAtEnd(cells)
    case Tagged(_, inner) => WideAtEnd(inner)
  }

  predicate CellsWideAtEnd(cells: seq<Layout>)
    decreases cells, 0
  {
    |cells| >= 2 && Narrow(cells[0]) &&
      if |cells| == 2 then WideAtEnd(cells[1]) else Narrow(cells[1]) && CellsWideAtEnd(cells[2..])
  }

  /** Decoding succeeds, and leaves something that starts with a nonzero byte. */
  predicate LeavesNonzero<T>(r: Outcome<T>) {
    r.Ok? && r.rest != [] && r.rest[0] != 0
  }

  /** What is left unread then begins inside the header of the list. */
  lemma {:induction false} WideEndIsMisread(l: Layout, rest: seq<byte>)
    requires Stored(l) && WideAtEnd(l) && Size(l) < U32_LIMIT
    ensures LeavesNonzero(DecodeValue(Encode(l) + rest))
    decreases l, 1
  {
    match l
    case Sequence(items) => WideListIsLost(items, rest);
    case Table(cells) =>
      AnyCells(cells);
      WideEndOfMap(VALUE_MAP, cells, rest);
      TableIsMap(cells, rest);
    case Tagged(d, inner) =>
      WideEndIsMisread(inner, rest);
      Associative(EncodeDescriptor(d), Encode(inner), rest);
      Associative([TC.Code(TC.Described)], EncodeDescriptor(d) + Encode(inner), rest);
      DecodeTagged(d, Encode(inner) + rest);
  }

  lemma {:induction false} TableIsMap(cells: seq<Layout>, rest: seq<byte>)
    requires Size(Table(cells)) < U32_LIMIT && LeavesNonzero(DecodeMap(VALUE_MAP, Encode(Table(cells)) + rest))
    ensures LeavesNonzero(DecodeValue(Encode(Table(cells)) + rest))
  {
    Associative(MapHeader(SizeAll(cells), |cells|), EncodeAll(cells), rest);
    MapHeaderReadsBack(VALUE_MAP, SizeAll(cells), |cells|, EncodeAll(cells) + rest);
  }

  lemma {:induction false} WideEndOfMap(t: MapType, cells: seq<Layout>, rest: seq<byte>)
    requires Stored(Table(cells)) && CellsWideAtEnd(cells) && CellsHaveType(t, cells) && Size(Table(cells)) < U32_LIMIT
    ensures LeavesNonzero(DecodeMap(t, Encode(Table(cells)) + rest))
    decreases cells, 1
  {
    Associative(MapHeader(SizeAll(cells), |cells|), EncodeAll(cells), rest);
    MapHeaderReadsBack(t, SizeAll(cells), |cells|, EncodeAll(cells) + rest);
    WideEndOfCells(t, cells, rest, map[]);
  }

  lemma {:induction false} WideAtEndIsWide(l: Layout)
    requires WideAtEnd(l)
    ensures !Narrow(l)
    decreases l, 1
  {
    match l
    case Table(cells) => CellsWideAtEndAreWide(cells);
    case Tagged(_, inner) => WideAtEndIsWide(inner);
    case Sequence(_) =>
  }

  lemma NarrowTwo(cells: seq<Layout>)
    requires |cells| >= 2 && Narrow(cells[0]) && Narrow(cells[1])
    ensures AllNarrow(cells[2..]) ==> AllNarrow(cells)
  {
    assert forall i | 2 <= i < |cells| :: cells[i] == cells[2..][i - 2];
  }

  lemma {:induction false} CellsWideAtEndAreWide(cells: seq<Layout>)
    requires CellsWideAtEnd(cells)
    ensures !AllNarrow(cells)
    decreases cells, 0
  {
    if |cells| == 2 {
      WideAtEndIsWide(cells[1]);
    } else {
      CellsWideAtEndAreWide(cells[2..]);
      NarrowTwo(cells);
      assert forall i | 0 <= i < |cells| - 2 :: cells[2..][i] == cells[i + 2];
    }
  }

  lemma {:induction false} WideEndOfCells(t: MapType, cells: seq<Layout>, rest: seq<byte>, acc: map<Value, Value>)
    requires AllStored(cells) && HashableEntries(cells) && CellsHaveType(t, cells) && SizeAll(cells) < U32_LIMIT
    requires CellsWideAtEnd(cells)
    ensures LeavesNonzero(DecodeCells(t, |cells|, EncodeAll(cells) + rest, acc))
    decreases cells, 0
  {
    var input, more := EncodeAll(cells) + rest, EncodeAll(cells[2..]) + rest;
    var middle, key := Encode(cells[1]) + more, Readback(cells[0]);
    NarrowKeyReads(t, cells, rest);
    if |cells| == 2 {
      WideEndIsMisread(cells[1], more);
      WideAtEndIsWide(cells[1]);
      ValueItem(t.value, cells[1], more);
      LastEntry(t, input, middle, key, acc);
    } else {
      WideEndOfCells(t, cells[2..], rest, acc[key := Readback(cells[1])]);
      EntryBefore(t, cells, input, middle, more, key, acc);
    }
  }

  lemma EntryBefore(t: MapType, cells: seq<Layout>, input: seq<byte>, middle: seq<byte>, more: seq<byte>,
                    key: Value, acc: map<Value, Value>)
    requires |cells| >= 2 && AllStored(cells) && CellsHaveType(t, cells)
    requires Narrow(cells[1]) && Size(cells[1]) < U32_LIMIT
    requires DecodeItem(t.key, input) == Ok(middle, key) && !ContainsMap(key) && middle == Encode(cells[1]) + more
    requires LeavesNonzero(DecodeCells(t, |cells| - 2, more, acc[key := Readback(cells[1])]))
    ensures LeavesNonzero(DecodeCells(t, |cells|, input, acc))
  {
    ValueItem(t.value, cells[1], more);
    CellsStep(t, |cells|, input, middle, more, key, Readback(cells[1]), acc);
  }

  lemma LastEntry(t: MapType, input: seq<byte>, middle: seq<byte>, key: Value, acc: map<Value, Value>)
    requires DecodeItem(t.key, input) == Ok(middle, key)
    requires !ContainsMap(key) && LeavesNonzero(DecodeItem(t.value, middle))
    ensures LeavesNonzero(DecodeCells(t, 2, input, acc))
  {
    var v := DecodeItem(t.value, middle);
    CellsStep(t, 2, input, middle, v.rest, key, v.value, acc);
  }
}
