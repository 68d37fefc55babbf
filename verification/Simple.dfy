/** The AMQP 1.0 primitive types and their codecs
    (types/primitives/simple.rs, types/symbol.rs, and the readers in types/mod.rs and
    types/annotations.rs that accept only some of them). */
module Simple {
  import opened Bytes
  import TC = TypeCodes

  /** Unicode scalar values: what `char::from_u32` accepts. */
  predicate IsScalar(n: int) {
    0 <= n < 0xD800 || 0xE000 <= n <= 0x10FFFF
  }

  type Scalar = n: int | IsScalar(n)

  type UuidBytes = s: seq<byte> | |s| == 16 witness seq(16, _ => 0)

  /** Milliseconds that chrono's calendar covers. */
  predicate InCalendar(millis: int) {
    -8_334_601_228_800_000 <= millis <= 8_210_266_876_799_999
  }

  type Millis = n: int | InCalendar(n)

  /** Nanoseconds of a timestamp beyond its whole milliseconds. */
  type SubMillis = n: int | 0 <= n < 1_000_000

  /** Floats are their bit patterns. */
  datatype SimpleValue =
    | Null
    | Boolean(b: bool)
    | UByte(ubyte: byte)
    | UShort(ushort: u16)
    | UInt(uint: u32)
    | ULong(ulong: u64)
    | Byte(sbyte: i8)
    | Short(short: i16)
    | Int(i: i32)
    | Long(long: i64)
    | Float(float: u32)
    | Double(double: u64)
    | Char(c: Scalar)
    | Timestamp(millis: Millis, nanos: SubMillis)
    | Uuid(uuid: UuidBytes)
    | Binary(data: seq<byte>)
    | Str(str: Utf8)
    | Symbol(symbol: Utf8)

  /** The Rust type of a primitive value. */
  datatype Primitive =
    | Null | Boolean | UByte | UShort | UInt | ULong | Byte | Short | Int | Long
    | Float | Double | Char | Timestamp | Uuid | Binary | Str | Symbol

  function KindOf(s: SimpleValue): Primitive {
    match s
    case Null => Primitive.Null
    case Boolean(_) => Primitive.Boolean
    case UByte(_) => Primitive.UByte
    case UShort(_) => Primitive.UShort
    case UInt(_) => Primitive.UInt
    case ULong(_) => Primitive.ULong
    case Byte(_) => Primitive.Byte
    case Short(_) => Primitive.Short
    case Int(_) => Primitive.Int
    case Long(_) => Primitive.Long
    case Float(_) => Primitive.Float
    case Double(_) => Primitive.Double
    case Char(_) => Primitive.Char
    case Timestamp(_, _) => Primitive.Timestamp
    case Uuid(_) => Primitive.Uuid
    case Binary(_) => Primitive.Binary
    case Str(_) => Primitive.Str
    case Symbol(_) => Primitive.Symbol
  }

  /** Which decoder a type code is dispatched to. */
  function PrimitiveOf(t: TC.TypeCode): Option<Primitive> {
    match t
    case Null => Some(Primitive.Null)
    case Boolean | BooleanTrue | BooleanFalse => Some(Primitive.Boolean)
    case UByte => Some(Primitive.UByte)
    case UShort => Some(Primitive.UShort)
    case UInt0 | UIntSmall | UInt => Some(Primitive.UInt)
    case ULong0 | ULongSmall | ULong => Some(Primitive.ULong)
    case Byte => Some(Primitive.Byte)
    case Short => Some(Primitive.Short)
    case IntSmall | Int => Some(Primitive.Int)
    case LongSmall | Long => Some(Primitive.Long)
    case Float => Some(Primitive.Float)
    case Double => Some(Primitive.Double)
    case Char => Some(Primitive.Char)
    case Timestamp => Some(Primitive.Timestamp)
    case Uuid => Some(Primitive.Uuid)
    case Binary8 | Binary32 => Some(Primitive.Binary)
    case String8 | String32 => Some(Primitive.Str)
    case Symbol8 | Symbol32 => Some(Primitive.Symbol)
    case Described | List0 | List8 | List32 | Map8 | Map32 | Array8 | Array32 => None
  }

  predicate IsSmall(n: int) {
    -128 <= n <= 127
  }

  // ----- Sizes -----

  function SizedLength(len: nat): nat {
    if len > 0xFF then 5 + len else 2 + len
  }

  /** `encoded_size`. A small `Long` reports three bytes although two are written. */
  function Size(s: SimpleValue): (r: nat)
    ensures r >= 1
  {
    match s
    case Null => 1
    case Boolean(_) => 1
    case UByte(_) => 2
    case UShort(_) => 3
    case UInt(n) => if n == 0 then 1 else if n > 0xFF then 5 else 2
    case ULong(n) => if n == 0 then 1 else if n > 0xFF then 9 else 2
    case Byte(_) => 2
    case Short(_) => 3
    case Int(n) => if IsSmall(n) then 2 else 5
    case Long(n) => if IsSmall(n) then 3 else 9
    case Float(_) => 5
    case Double(_) => 9
    case Char(_) => 5
    case Timestamp(_, _) => 9
    case Uuid(_) => 17
    case Binary(data) => SizedLength(|data|)
    case Str(s) => SizedLength(|s|)
    case Symbol(s) => SizedLength(|s|)
  }

  // ----- Encoding -----

  function Tagged(t: TC.TypeCode, s: seq<byte>): seq<byte> {
    [TC.Code(t)] + s
  }

  /** A length-prefixed byte string, with a one-byte or a four-byte length. */
  function EncodeSized(short: TC.TypeCode, long: TC.TypeCode, data: seq<byte>): seq<byte> {
    if |data| > 0xFF then Tagged(long, BigEndian(4, |data|) + data)
    else Tagged(short, BigEndian(1, |data|) + data)
  }

  function Encode(s: SimpleValue): seq<byte> {
    match s
    case Null => Tagged(TC.Null, [])
    case Boolean(b) => if b then Tagged(TC.BooleanTrue, []) else Tagged(TC.BooleanFalse, [])
    case UByte(n) => Tagged(TC.UByte, BigEndian(1, n))
    case UShort(n) => Tagged(TC.UShort, BigEndian(2, n))
    case UInt(n) =>
      if n == 0 then Tagged(TC.UInt0, [])
      else if n > 0xFF then Tagged(TC.UInt, BigEndian(4, n))
      else Tagged(TC.UIntSmall, BigEndian(1, n))
    case ULong(n) =>
      if n == 0 then Tagged(TC.ULong0, [])
      else if n > 0xFF then Tagged(TC.ULong, BigEndian(8, n))
      else Tagged(TC.ULongSmall, BigEndian(1, n))
    case Byte(n) => Tagged(TC.Byte, BigEndian(1, Word(1, n)))
    case Short(n) => Tagged(TC.Short, BigEndian(2, Word(2, n)))
    case Int(n) =>
      if IsSmall(n) then Tagged(TC.IntSmall, BigEndian(1, Word(1, n)))
      else Tagged(TC.Int, BigEndian(4, Word(4, n)))
    case Long(n) =>
      if IsSmall(n) then Tagged(TC.LongSmall, BigEndian(1, Word(1, n)))
      else Tagged(TC.Long, BigEndian(8, Word(8, n)))
    case Float(bits) => Tagged(TC.Float, BigEndian(4, bits))
    case Double(bits) => Tagged(TC.Double, BigEndian(8, bits))
    case Char(c) => Tagged(TC.Char, BigEndian(4, c))
    case Timestamp(millis, _) => Tagged(TC.Timestamp, BigEndian(8, Word(8, millis)))
    case Uuid(u) => Tagged(TC.Uuid, u)
    case Binary(data) => EncodeSized(TC.Binary8, TC.Binary32, data)
    case Str(s) => EncodeSized(TC.String8, TC.String32, s)
    case Symbol(s) => EncodeSized(TC.Symbol8, TC.Symbol32, s)
  }

  // ----- Decoding -----

  function ReadSized(w: nat, input: seq<byte>): (r: Outcome<seq<byte>>)
    ensures r.Ok? ==> |r.rest| <= |input|
  {
    var (rest, len) :- ReadUnsigned(w, input);
    ReadExact(rest, len)
  }

  function ReadString(w: nat, input: seq<byte>, symbol: bool): (r: Outcome<SimpleValue>)
    ensures r.Ok? ==> |r.rest| <= |input|
  {
    var (rest, s) :- ReadSized(w, input);
    if IsUtf8(s) then Ok(rest, if symbol then SimpleValue.Symbol(s) else SimpleValue.Str(s))
    else Err(InvalidUtf8)
  }

  /** What follows the type code `t`. A small `Int` is read unsigned. */
  function DecodePayload(t: TC.TypeCode, input: seq<byte>): Outcome<SimpleValue> {
    match t
    case Null => Ok(input, SimpleValue.Null)
    case Boolean => var (rest, b) :- ReadByte(input); Ok(rest, SimpleValue.Boolean(b != 0))
    case BooleanTrue => Ok(input, SimpleValue.Boolean(true))
    case BooleanFalse => Ok(input, SimpleValue.Boolean(false))
    case UByte => var (rest, n) :- ReadByte(input); Ok(rest, SimpleValue.UByte(n))
    case UShort => var (rest, n) :- ReadUnsigned(2, input); Ok(rest, SimpleValue.UShort(n))
    case UInt0 => Ok(input, SimpleValue.UInt(0))
    case UIntSmall => var (rest, n) :- ReadByte(input); Ok(rest, SimpleValue.UInt(n))
    case UInt => var (rest, n) :- ReadUnsigned(4, input); Ok(rest, SimpleValue.UInt(n))
    case ULong0 => Ok(input, SimpleValue.ULong(0))
    case ULongSmall => var (rest, n) :- ReadByte(input); Ok(rest, SimpleValue.ULong(n))
    case ULong => var (rest, n) :- ReadUnsigned(8, input); Ok(rest, SimpleValue.ULong(n))
    case Byte => var (rest, n) :- ReadUnsigned(1, input); Ok(rest, SimpleValue.Byte(Signed(1, n)))
    case Short => var (rest, n) :- ReadUnsigned(2, input); Ok(rest, SimpleValue.Short(Signed(2, n)))
    case IntSmall => var (rest, n) :- ReadByte(input); Ok(rest, SimpleValue.Int(n))
    case Int => var (rest, n) :- ReadUnsigned(4, input); Ok(rest, SimpleValue.Int(Signed(4, n)))
    case LongSmall => var (rest, n) :- ReadUnsigned(1, input); Ok(rest, SimpleValue.Long(Signed(1, n)))
    case Long => var (rest, n) :- ReadUnsigned(8, input); Ok(rest, SimpleValue.Long(Signed(8, n)))
    case Float => var (rest, n) :- ReadUnsigned(4, input); Ok(rest, SimpleValue.Float(n))
    case Double => var (rest, n) :- ReadUnsigned(8, input); Ok(rest, SimpleValue.Double(n))
    case Char =>
      var (rest, n) :- ReadUnsigned(4, input);
      if IsScalar(n) then Ok(rest, SimpleValue.Char(n)) else Err(InvalidTypeCodeFor(TC.Code(t)))
    case Timestamp =>
      var (rest, n) :- ReadUnsigned(8, input);
      var millis := Signed(8, n);
      if InCalendar(millis) then Ok(rest, SimpleValue.Timestamp(millis, 0)) else Err(MessageParse)
    case Uuid => var (rest, u) :- ReadExact(input, 16); Ok(rest, SimpleValue.Uuid(u))
    case Binary8 => var (rest, s) :- ReadSized(1, input); Ok(rest, SimpleValue.Binary(s))
    case Binary32 => var (rest, s) :- ReadSized(4, input); Ok(rest, SimpleValue.Binary(s))
    case String8 => ReadString(1, input, false)
    case String32 => ReadString(4, input, false)
    case Symbol8 => ReadString(1, input, true)
    case Symbol32 => ReadString(4, input, true)
    case Described | List0 | List8 | List32 | Map8 | Map32 | Array8 | Array32 =>
      Err(InvalidTypeCodeFor(TC.Code(t)))
  }

  lemma PayloadShrinks(t: TC.TypeCode, input: seq<byte>)
    ensures DecodePayload(t, input).Ok? ==> |DecodePayload(t, input).rest| <= |input|
  {
  }

  predicate IsText(t: TC.TypeCode) {
    t.Binary8? || t.Binary32? || t.String8? || t.String32? || t.Symbol8? || t.Symbol32?
  }

  lemma TextKind(t: TC.TypeCode, input: seq<byte>)
    requires IsText(t)
    ensures DecodePayload(t, input).Ok? ==> PrimitiveOf(t) == Some(KindOf(DecodePayload(t, input).value))
  {
  }

  predicate IsSigned(t: TC.TypeCode) {
    t.Byte? || t.Short? || t.IntSmall? || t.Int? || t.LongSmall? || t.Long? || t.Timestamp?
  }

  lemma SignedKind(t: TC.TypeCode, input: seq<byte>)
    requires IsSigned(t)
    ensures DecodePayload(t, input).Ok? ==> PrimitiveOf(t) == Some(KindOf(DecodePayload(t, input).value))
  {
  }

  lemma PayloadKind(t: TC.TypeCode, input: seq<byte>)
    ensures DecodePayload(t, input).Ok? ==> PrimitiveOf(t) == Some(KindOf(DecodePayload(t, input).value))
  {
    if IsText(t) {
      TextKind(t, input);
    } else if IsSigned(t) {
      SignedKind(t, input);
    }
  }

  /** `SimpleValue::decode`. */
  function Decode(input: seq<byte>): (r: Outcome<SimpleValue>)
    ensures r.Ok? ==> |r.rest| < |input|
  {
    var (rest, t) :- TC.DecodeTypeCode(input);
    PayloadShrinks(t, rest);
    DecodePayload(t, rest)
  }

  /** The decoder of a type that has only some of the primitives: one of them
      (`u8`, `Symbol`, ...), `MessageId`, or `AnnonationKey`. */
  function DecodeOneOf(types: set<Primitive>, input: seq<byte>): (r: Outcome<SimpleValue>)
    ensures r.Ok? ==> |r.rest| < |input| && KindOf(r.value) in types
  {
    var (rest, t) :- TC.DecodeTypeCode(input);
    PayloadShrinks(t, rest);
    PayloadKind(t, rest);
    match PrimitiveOf(t)
    case Some(p) => if p in types then DecodePayload(t, rest) else Err(InvalidTypeCodeFor(TC.Code(t)))
    case None => Err(InvalidTypeCodeFor(TC.Code(t)))
  }

  // ----- What decoding returns for an encoded primitive -----

  /** The value that comes back: small negative ints lose their sign and timestamps lose
      whatever is finer than a millisecond. */
  function Readback(s: SimpleValue): SimpleValue {
    match s
    case Int(n) => if -128 <= n < 0 then SimpleValue.Int(n + 0x100) else s
    case Timestamp(millis, _) => SimpleValue.Timestamp(millis, 0)
    case _ => s
  }

  /** The primitives that decoding restores exactly. */
  predicate Restored(s: SimpleValue) {
    match s
    case Int(n) => !(-128 <= n < 0)
    case Timestamp(_, nanos) => nanos == 0
    case _ => true
  }

  lemma TagReadsBack(t: TC.TypeCode, p: seq<byte>, rest: seq<byte>)
    ensures TC.DecodeTypeCode(Tagged(t, p) + rest) == Ok(p + rest, t)
  {
    assert Tagged(t, p) + rest == [TC.Code(t)] + (p + rest);
    TC.CodeReadsBack(t, p + rest);
  }

  lemma ByteReadsBack(n: byte, rest: seq<byte>)
    ensures ReadByte(BigEndian(1, n) + rest) == Ok(rest, n)
  {
    assert BigEndian(1, n) == [n];
    assert ([n] + rest)[1..] == rest;
  }

  lemma SignedReadsBack(w: nat, n: int, rest: seq<byte>)
    requires w > 0 && 0 <= 2 * n + Span(w) < 2 * Span(w)
    ensures ReadUnsigned(w, BigEndian(w, Word(w, n)) + rest) == Ok(rest, Word(w, n))
    ensures Signed(w, Word(w, n)) == n
  {
    ReadsBack(w, Word(w, n), rest);
  }

  lemma SizedReadsBack(w: nat, data: seq<byte>, rest: seq<byte>)
    requires w > 0 && |data| < Span(w)
    ensures ReadSized(w, (BigEndian(w, |data|) + data) + rest) == Ok(rest, data)
  {
    assert (BigEndian(w, |data|) + data) + rest == BigEndian(w, |data|) + (data + rest);
    ReadsBack(w, |data|, data + rest);
    ReadsBackExact(data, rest);
  }

  /** Every encoding is a type code of the value's own type, followed by a payload that reads
      back. */
  ghost predicate ReadsBackAs(s: SimpleValue, t: TC.TypeCode, p: seq<byte>, rest: seq<byte>) {
    && Encode(s) == Tagged(t, p)
    && PrimitiveOf(t) == Some(KindOf(s))
    && DecodePayload(t, p + rest) == Ok(rest, Readback(s))
  }

  lemma NarrowUnsignedPayload(s: SimpleValue, rest: seq<byte>) returns (t: TC.TypeCode, p: seq<byte>)
    requires s.UByte? || s.UShort?
    ensures ReadsBackAs(s, t, p, rest)
  {
    match s {
      case UByte(n) => t, p := TC.UByte, BigEndian(1, n); ByteReadsBack(n, rest);
      case UShort(n) => t, p := TC.UShort, BigEndian(2, n); ReadsBack(2, n, rest);
    }
  }

  lemma UIntPayload(n: u32, rest: seq<byte>) returns (t: TC.TypeCode, p: seq<byte>)
    ensures ReadsBackAs(SimpleValue.UInt(n), t, p, rest)
  {
    t, p := TC.UInt0, [];
    assert Span(1) == 0x100;
    if n > 0xFF {
      assert Span(4) == U32_LIMIT;
      t, p := TC.UInt, BigEndian(4, n);
      ReadsBack(4, n, rest);
    } else if n > 0 {
      t, p := TC.UIntSmall, BigEndian(1, n);
      ByteReadsBack(n, rest);
    } else {
      assert [] + rest == rest;
    }
  }

  lemma WideULong(n: u64, rest: seq<byte>)
    requires n > 0xFF
    ensures ReadsBackAs(SimpleValue.ULong(n), TC.ULong, BigEndian(8, n), rest)
  {
    assert Span(8) == 0x1_0000_0000_0000_0000;
    ReadsBack(8, n, rest);
  }

  lemma ULongPayload(n: u64, rest: seq<byte>) returns (t: TC.TypeCode, p: seq<byte>)
    ensures ReadsBackAs(SimpleValue.ULong(n), t, p, rest)
  {
    if n > 0xFF {
      t, p := TC.ULong, BigEndian(8, n);
      WideULong(n, rest);
    } else if n > 0 {
      t, p := TC.ULongSmall, BigEndian(1, n);
      ByteReadsBack(n, rest);
    } else {
      t, p := TC.ULong0, [];
      assert [] + rest == rest;
    }
  }

  lemma NarrowSignedPayload(s: SimpleValue, rest: seq<byte>) returns (t: TC.TypeCode, p: seq<byte>)
    requires s.Byte? || s.Short?
    ensures ReadsBackAs(s, t, p, rest)
  {
    match s {
      case Byte(n) => t, p := TC.Byte, BigEndian(1, Word(1, n)); SignedReadsBack(1, n, rest);
      case Short(n) => t, p := TC.Short, BigEndian(2, Word(2, n)); SignedReadsBack(2, n, rest);
    }
  }

  lemma IntPayload(n: i32, rest: seq<byte>) returns (t: TC.TypeCode, p: seq<byte>)
    ensures ReadsBackAs(SimpleValue.Int(n), t, p, rest)
  {
    assert Span(4) == U32_LIMIT && Span(1) == 0x100;
    if IsSmall(n) {
      t, p := TC.IntSmall, BigEndian(1, Word(1, n));
      ByteReadsBack(Word(1, n), rest);
    } else {
      t, p := TC.Int, BigEndian(4, Word(4, n));
      SignedReadsBack(4, n, rest);
    }
  }

  lemma SmallLong(n: i64, rest: seq<byte>)
    requires IsSmall(n)
    ensures ReadsBackAs(SimpleValue.Long(n), TC.LongSmall, BigEndian(1, Word(1, n)), rest)
  {
    assert Span(1) == 0x100;
    SignedReadsBack(1, n, rest);
  }

  lemma WideLong(n: i64, rest: seq<byte>)
    requires !IsSmall(n)
    ensures ReadsBackAs(SimpleValue.Long(n), TC.Long, BigEndian(8, Word(8, n)), rest)
  {
    assert Span(8) == 0x1_0000_0000_0000_0000;
    SignedReadsBack(8, n, rest);
  }

  lemma LongPayload(n: i64, rest: seq<byte>) returns (t: TC.TypeCode, p: seq<byte>)
    ensures ReadsBackAs(SimpleValue.Long(n), t, p, rest)
  {
    if IsSmall(n) {
      t, p := TC.LongSmall, BigEndian(1, Word(1, n));
      SmallLong(n, rest);
    } else {
      t, p := TC.Long, BigEndian(8, Word(8, n));
      WideLong(n, rest);
    }
  }

  lemma TimestampPayload(s: SimpleValue, rest: seq<byte>) returns (t: TC.TypeCode, p: seq<byte>)
    requires s.Timestamp?
    ensures ReadsBackAs(s, t, p, rest)
  {
    assert Span(8) == 0x1_0000_0000_0000_0000;
    t, p := TC.Timestamp, BigEndian(8, Word(8, s.millis));
    SignedReadsBack(8, s.millis, rest);
  }

  lemma FloatPayload(s: SimpleValue, rest: seq<byte>) returns (t: TC.TypeCode, p: seq<byte>)
    requires s.Float? || s.Double?
    ensures ReadsBackAs(s, t, p, rest)
  {
    assert Span(8) == 0x1_0000_0000_0000_0000 && Span(4) == U32_LIMIT;
    match s {
      case Float(bits) => t, p := TC.Float, BigEndian(4, bits); ReadsBack(4, bits, rest);
      case Double(bits) => t, p := TC.Double, BigEndian(8, bits); ReadsBack(8, bits, rest);
    }
  }

  lemma FixedPayload(s: SimpleValue, rest: seq<byte>) returns (t: TC.TypeCode, p: seq<byte>)
    requires s.Char? || s.Uuid?
    ensures ReadsBackAs(s, t, p, rest)
  {
    match s {
      case Char(c) =>
        assert Span(4) == U32_LIMIT;
        t, p := TC.Char, BigEndian(4, c);
        ReadsBack(4, c, rest);
      case Uuid(u) => t, p := TC.Uuid, u; ReadsBackExact(u, rest);
    }
  }

  lemma BinaryPayload(data: seq<byte>, rest: seq<byte>) returns (t: TC.TypeCode, p: seq<byte>)
    requires |data| < U32_LIMIT
    ensures ReadsBackAs(SimpleValue.Binary(data), t, p, rest)
  {
    t, p := SizedPayload(TC.Binary8, TC.Binary32, data, rest);
  }

  lemma TextReadsBack(w: nat, input: seq<byte>, rest: seq<byte>, s: Utf8)
    requires ReadSized(w, input) == Ok(rest, s)
    ensures ReadString(w, input, false) == Ok(rest, SimpleValue.Str(s))
    ensures ReadString(w, input, true) == Ok(rest, SimpleValue.Symbol(s))
  {
  }

  lemma StringPayload(s: Utf8, rest: seq<byte>) returns (t: TC.TypeCode, p: seq<byte>)
    requires |s| < U32_LIMIT
    ensures ReadsBackAs(SimpleValue.Str(s), t, p, rest)
  {
    t, p := SizedPayload(TC.String8, TC.String32, s, rest);
    TextReadsBack(if |s| > 0xFF then 4 else 1, p + rest, rest, s);
  }

  lemma SymbolPayload(s: Utf8, rest: seq<byte>) returns (t: TC.TypeCode, p: seq<byte>)
    requires |s| < U32_LIMIT
    ensures ReadsBackAs(SimpleValue.Symbol(s), t, p, rest)
  {
    t, p := SizedPayload(TC.Symbol8, TC.Symbol32, s, rest);
    TextReadsBack(if |s| > 0xFF then 4 else 1, p + rest, rest, s);
  }

  lemma ConstantPayload(s: SimpleValue, rest: seq<byte>) returns (t: TC.TypeCode, p: seq<byte>)
    requires s.Null? || s.Boolean?
    ensures ReadsBackAs(s, t, p, rest)
  {
    t, p := if s.Null? then TC.Null else if s.b then TC.BooleanTrue else TC.BooleanFalse, [];
    assert [] + rest == rest;
  }

  lemma PayloadReadsBack(s: SimpleValue, rest: seq<byte>) returns (t: TC.TypeCode, p: seq<byte>)
    requires Size(s) < U32_LIMIT
    ensures ReadsBackAs(s, t, p, rest)
  {
    match s {
      case Null => t, p := ConstantPayload(s, rest);
      case Boolean(_) => t, p := ConstantPayload(s, rest);
      case UByte(_) => t, p := NarrowUnsignedPayload(s, rest);
      case UShort(_) => t, p := NarrowUnsignedPayload(s, rest);
      case UInt(n) => t, p := UIntPayload(n, rest);
      case ULong(n) => t, p := ULongPayload(n, rest);
      case Byte(_) => t, p := NarrowSignedPayload(s, rest);
      case Short(_) => t, p := NarrowSignedPayload(s, rest);
      case Int(n) => t, p := IntPayload(n, rest);
      case Long(n) => t, p := LongPayload(n, rest);
      case Timestamp(_, _) => t, p := TimestampPayload(s, rest);
      case Float(_) => t, p := FloatPayload(s, rest);
      case Double(_) => t, p := FloatPayload(s, rest);
      case Char(_) => t, p := FixedPayload(s, rest);
      case Uuid(_) => t, p := FixedPayload(s, rest);
      case Binary(data) => t, p := BinaryPayload(data, rest);
      case Str(text) => t, p := StringPayload(text, rest);
      case Symbol(text) => t, p := SymbolPayload(text, rest);
    }
  }

  lemma SizedPayload(short: TC.TypeCode, long: TC.TypeCode, data: seq<byte>, rest: seq<byte>)
    returns (t: TC.TypeCode, p: seq<byte>)
    requires |data| < U32_LIMIT
    ensures EncodeSized(short, long, data) == Tagged(t, p)
    ensures t == if |data| > 0xFF then long else short
    ensures ReadSized(if |data| > 0xFF then 4 else 1, p + rest) == Ok(rest, data)
  {
    var w := if |data| > 0xFF then 4 else 1;
    assert Span(1) == 0x100 && Span(4) == U32_LIMIT;
    t, p := if |data| > 0xFF then long else short, BigEndian(w, |data|) + data;
    SizedReadsBack(w, data, rest);
  }

  /** Decoding an encoded primitive, by `SimpleValue::decode` or by the decoder of any type
      that has its kind. */
  lemma DecodeEncode(s: SimpleValue, types: set<Primitive>, rest: seq<byte>)
    requires Size(s) < U32_LIMIT
    ensures Decode(Encode(s) + rest) == Ok(rest, Readback(s))
    ensures KindOf(s) in types ==> DecodeOneOf(types, Encode(s) + rest) == Ok(rest, Readback(s))
  {
    var t, p := PayloadReadsBack(s, rest);
    TagReadsBack(t, p, rest);
  }

  lemma RestoredExactly(s: SimpleValue)
    ensures Readback(s) == s <==> Restored(s)
    ensures Restored(Readback(s)) && KindOf(Readback(s)) == KindOf(s)
  {
  }

  /** Bytes reported but not written: one for a small `Long`. */
  function Overcount(s: SimpleValue): nat {
    if s.Long? && IsSmall(s.long) then 1 else 0
  }

  lemma SizeOfEncoding(s: SimpleValue)
    ensures Size(s) == |Encode(s)| + Overcount(s)
    ensures Encode(s) != []
  {
  }
}
