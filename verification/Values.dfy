/** Nested AMQP values: lists, maps and described values
    (types/primitives/value.rs, list.rs, map.rs and types/descriptor.rs).

    `Value` is what equality in the program sees: a map is a finite map. `Layout` is a value as
    it sits in memory: a hash table also has an order in which it iterates, and that order
    decides the order of the bytes. */
module Values {
  import opened Bytes
  import S = Simple
  import TC = TypeCodes

  datatype Descriptor = Code(code: u64) | Name(name: Utf8)

  datatype Value =
    | Simple(simple: S.SimpleValue)
    | List(items: seq<Value>)
    | Map(entries: map<Value, Value>)
    | Described(descriptor: Descriptor, value: Value)

  /** `cells` holds the keys and values of a table in iteration order:
      key, value, key, value, ... */
  datatype Layout =
    | Atom(atom: S.SimpleValue)
    | Sequence(items: seq<Layout>)
    | Table(cells: seq<Layout>)
    | Tagged(descriptor: Descriptor, inner: Layout)

  /** The Rust type of a map's keys or values. */
  datatype ItemType = AnyValue | AnySimple | OneOf(types: set<S.Primitive>)

  datatype MapType = MapType(key: ItemType, value: ItemType)

  const VALUE_MAP := MapType(AnyValue, AnyValue)
  const ANNOTATIONS := MapType(OneOf({S.Primitive.Symbol, S.Primitive.ULong, S.Primitive.Long}), AnyValue)
  const APPLICATION_PROPERTIES := MapType(OneOf({S.Primitive.Str}), AnySimple)

  // ----- From a layout to the value it stores -----

  /** Insert `vs[0] := vs[1]`, `vs[2] := vs[3]`, ... into `acc`. */
  function Pairs(acc: map<Value, Value>, vs: seq<Value>): map<Value, Value>
    decreases |vs|
  {
    if |vs| < 2 then acc else Pairs(acc[vs[0] := vs[1]], vs[2..])
  }

  function ValueOf(l: Layout): Value
    decreases l, 1
  {
    match l
    case Atom(s) => Simple(s)
    case Sequence(items) => List(ValueOfAll(items))
    case Table(cells) => Map(Pairs(map[], ValueOfAll(cells)))
    case Tagged(d, inner) => Described(d, ValueOf(inner))
  }

  function ValueOfAll(ls: seq<Layout>): (r: seq<Value>)
    ensures |r| == |ls|
    ensures forall i | 0 <= i < |ls| :: r[i] == ValueOf(ls[i])
    decreases ls, 0
  {
    if ls == [] then [] else [ValueOf(ls[0])] + ValueOfAll(ls[1..])
  }

  /** A map inside a key cannot be hashed. */
  predicate ContainsMap(v: Value) {
    match v
    case Simple(_) => false
    case List(items) => exists i | 0 <= i < |items| :: ContainsMap(items[i])
    case Map(_) => true
    case Described(_, inner) => ContainsMap(inner)
  }

  predicate HasType(t: ItemType, l: Layout) {
    match t
    case AnyValue => true
    case AnySimple => l.Atom?
    case OneOf(types) => l.Atom? && S.KindOf(l.atom) in types
  }

  predicate CellsHaveType(t: MapType, cells: seq<Layout>)
    decreases |cells|
  {
    |cells| >= 2 ==> HasType(t.key, cells[0]) && HasType(t.value, cells[1]) && CellsHaveType(t, cells[2..])
  }

  /** Whole entries, each with a key that can be hashed. */
  predicate HashableEntries(cells: seq<Layout>)
    decreases |cells|
  {
    cells == [] || (|cells| >= 2 && !ContainsMap(ValueOf(cells[0])) && HashableEntries(cells[2..]))
  }

  /** `k` is not one of the keys `vs[0]`, `vs[2]`, ... */
  predicate NotAKey(k: Value, vs: seq<Value>)
    decreases |vs|
  {
    |vs| >= 2 ==> vs[0] != k && NotAKey(k, vs[2..])
  }

  predicate DistinctKeys(vs: seq<Value>)
    decreases |vs|
  {
    |vs| >= 2 ==> NotAKey(vs[0], vs[2..]) && DistinctKeys(vs[2..])
  }

  /** The cells of a hash table. */
  predicate IsTable(cells: seq<Layout>) {
    HashableEntries(cells) && DistinctKeys(ValueOfAll(cells))
  }

  /** What every value in memory satisfies. */
  predicate Stored(l: Layout) {
    match l
    case Atom(_) => true
    case Sequence(items) => forall i | 0 <= i < |items| :: Stored(items[i])
    case Table(cells) => IsTable(cells) && forall i | 0 <= i < |cells| :: Stored(cells[i])
    case Tagged(_, inner) => Stored(inner)
  }

  // ----- Sizes -----

  function DescriptorSize(d: Descriptor): nat {
    match d
    case Code(n) => 1 + S.Size(S.SimpleValue.ULong(n))
    case Name(s) => 1 + S.Size(S.SimpleValue.Symbol(s))
  }

  predicate Wide(contentSize: nat) {
    contentSize + 1 > 0xFF
  }

  /** The bytes in front of the content of a list or map. */
  function HeaderSize(contentSize: nat): nat {
    if Wide(contentSize) then 9 else 3
  }

  /** `encoded_size`. */
  function Size(l: Layout): (r: nat)
    ensures r >= 1
    decreases l, 1
  {
    match l
    case Atom(s) => S.Size(s)
    case Sequence(items) => SizeAll(items) + HeaderSize(SizeAll(items))
    case Table(cells) => SizeAll(cells) + HeaderSize(SizeAll(cells))
    case Tagged(d, inner) => 1 + DescriptorSize(d) + Size(inner)
  }

  /** `content_size`: every item takes at least one byte. */
  function SizeAll(ls: seq<Layout>): (r: nat)
    ensures r >= |ls|
    decreases ls, 0
  {
    if ls == [] then 0 else Size(ls[0]) + SizeAll(ls[1..])
  }

  // ----- Encoding -----

  function EncodeDescriptor(d: Descriptor): seq<byte> {
    match d
    case Code(n) => S.Tagged(TC.Described, S.Encode(S.SimpleValue.ULong(n)))
    case Name(s) => S.Tagged(TC.Described, S.Encode(S.SimpleValue.Symbol(s)))
  }

  /** A wide list has four-byte fields behind the type code of the one-byte form. */
  function ListHeader(contentSize: nat, count: nat): seq<byte> {
    if Wide(contentSize) then S.Tagged(TC.List8, BigEndian(4, contentSize + 4) + BigEndian(4, count))
    else S.Tagged(TC.List8, BigEndian(1, contentSize + 1) + BigEndian(1, count))
  }

  function MapHeader(contentSize: nat, count: nat): seq<byte> {
    if Wide(contentSize) then S.Tagged(TC.Map32, BigEndian(4, contentSize + 4) + BigEndian(4, count))
    else S.Tagged(TC.Map8, BigEndian(1, contentSize + 1) + BigEndian(1, count))
  }

  function Encode(l: Layout): seq<byte>
    decreases l, 1
  {
    match l
    case Atom(s) => S.Encode(s)
    case Sequence(items) => ListHeader(SizeAll(items), |items|) + EncodeAll(items)
    case Table(cells) => MapHeader(SizeAll(cells), |cells|) + EncodeAll(cells)
    case Tagged(d, inner) => S.Tagged(TC.Described, EncodeDescriptor(d) + Encode(inner))
  }

  function EncodeAll(ls: seq<Layout>): seq<byte>
    decreases ls, 0
  {
    if ls == [] then [] else Encode(ls[0]) + EncodeAll(ls[1..])
  }

  // ----- Decoding -----

  function DecodeDescriptor(input: seq<byte>): (r: Outcome<Descriptor>)
    ensures r.Ok? ==> |r.rest| < |input|
  {
    var (rest, t) :- TC.DecodeTypeCode(input);
    if t != TC.Described then Err(InvalidTypeCodeFor(TC.Code(t))) else
      var (remaining, code) :- TC.DecodeTypeCode(rest);
      match code
      case ULong | ULongSmall =>
        var (rest, v) :- S.DecodeOneOf({S.Primitive.ULong}, rest);
        Ok(rest, Code(v.ulong))
      case ULong0 => Ok(remaining, Code(0))
      case Symbol8 | Symbol32 =>
        var (rest, v) :- S.DecodeOneOf({S.Primitive.Symbol}, rest);
        Ok(rest, Name(v.symbol))
      case _ => Err(InvalidTypeCodeFor(TC.Code(code)))
  }

  /** The element count behind a list or map type code with `w`-byte fields; the size field is
      not used. */
  function DecodeCount(w: nat, input: seq<byte>): (r: Outcome<nat>)
    ensures r.Ok? ==> |r.rest| <= |input|
  {
    var (rest, _) :- ReadUnsigned(w, input);
    ReadUnsigned(w, rest)
  }

  function DecodeValue(input: seq<byte>): (r: Outcome<Value>)
    ensures r.Ok? ==> |r.rest| < |input|
    decreases |input|, 2
  {
    var (_, t) :- TC.DecodeTypeCode(input);
    match t
    case Described => DecodeDescribed(input)
    case List0 | List8 | List32 =>
      var (rest, items) :- DecodeList(input);
      Ok(rest, List(items))
    case Map8 | Map32 =>
      var (rest, entries) :- DecodeMap(VALUE_MAP, input);
      Ok(rest, Map(entries))
    case Array8 | Array32 => Err(InvalidTypeCodeFor(TC.Code(t)))
    case _ =>
      var (rest, s) :- S.Decode(input);
      Ok(rest, Simple(s))
  }

  function DecodeDescribed(input: seq<byte>): (r: Outcome<Value>)
    ensures r.Ok? ==> |r.rest| < |input|
    decreases |input|, 1
  {
    var (rest, t) :- TC.DecodeTypeCode(input);
    if t != TC.Described then Err(InvalidTypeCodeFor(TC.Code(t))) else
      var (rest, d) :- DecodeDescriptor(rest);
      var (rest, v) :- DecodeValue(rest);
      Ok(rest, Described(d, v))
  }

  function DecodeList(input: seq<byte>): (r: Outcome<seq<Value>>)
    ensures r.Ok? ==> |r.rest| < |input|
    decreases |input|, 1
  {
    var (rest, t) :- TC.DecodeTypeCode(input);
    match t
    case List0 => Ok(rest, [])
    case List8 => var (rest, count) :- DecodeCount(1, rest); DecodeItems(count, rest)
    case List32 => var (rest, count) :- DecodeCount(4, rest); DecodeItems(count, rest)
    case _ => Err(InvalidTypeCodeFor(TC.Code(t)))
  }

  /** The next `count` values. */
  function DecodeItems(count: nat, input: seq<byte>): (r: Outcome<seq<Value>>)
    ensures r.Ok? ==> |r.rest| <= |input| && |r.value| == count
    decreases |input|, 4, count
  {
    if count == 0 then Ok(input, []) else
      var (rest, v) :- DecodeValue(input);
      var (rest, vs) :- DecodeItems(count - 1, rest);
      Ok(rest, [v] + vs)
  }

  function DecodeItem(t: ItemType, input: seq<byte>): (r: Outcome<Value>)
    ensures r.Ok? ==> |r.rest| < |input|
    decreases |input|, 3
  {
    match t
    case AnyValue => DecodeValue(input)
    case AnySimple => var (rest, s) :- S.Decode(input); Ok(rest, Simple(s))
    case OneOf(types) => var (rest, s) :- S.DecodeOneOf(types, input); Ok(rest, Simple(s))
  }

  function DecodeMap(t: MapType, input: seq<byte>): (r: Outcome<map<Value, Value>>)
    ensures r.Ok? ==> |r.rest| < |input|
    decreases |input|, 1
  {
    var (rest, code) :- TC.DecodeTypeCode(input);
    match code
    case Map8 => var (rest, count) :- DecodeCount(1, rest); DecodeCells(t, count, rest, map[])
    case Map32 => var (rest, count) :- DecodeCount(4, rest); DecodeCells(t, count, rest, map[])
    case _ => Err(InvalidTypeCodeFor(TC.Code(code)))
  }

  /** Insert the next entries into `acc` until `count`, which drops by two each time, is zero.
      An odd count underflows, and a key that contains a map cannot be hashed. */
  function DecodeCells(t: MapType, count: nat, input: seq<byte>, acc: map<Value, Value>)
    : (r: Outcome<map<Value, Value>>)
    ensures r.Ok? ==> |r.rest| <= |input|
    decreases |input|, 4, count
  {
    if count == 0 then Ok(input, acc)
    else if count == 1 then Abort
    else
      var (rest, key) :- DecodeItem(t.key, input);
      var (rest, value) :- DecodeItem(t.value, rest);
      if ContainsMap(key) then Abort
      else DecodeCells(t, count - 2, rest, acc[key := value])
  }
}
