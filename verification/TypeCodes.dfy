/** The AMQP 1.0 constructor bytes and the section descriptors
    (protocol/src/message/amqp/codec/constants.rs). */
module TypeCodes {
  import opened Bytes

  datatype TypeCode =
    | Described | Null | Boolean | BooleanTrue | BooleanFalse
    | UInt0 | ULong0 | UByte | UShort | UInt | ULong
    | Byte | Short | Int | Long
    | UIntSmall | ULongSmall | IntSmall | LongSmall
    | Float | Double | Char | Timestamp | Uuid
    | Binary8 | Binary32 | String8 | String32 | Symbol8 | Symbol32
    | List0 | List8 | List32 | Map8 | Map32 | Array8 | Array32

  const HEADER: u64 := 112
  const DELIVERY_ANNOTATIONS: u64 := 113
  const MESSAGE_ANNOTATIONS: u64 := 114
  const PROPERTIES: u64 := 115
  const APPLICATION_PROPERTIES: u64 := 116
  const BODY_DATA: u64 := 117
  const BODY_SEQUENCE: u64 := 118
  const BODY_VALUE: u64 := 119
  const FOOTER: u64 := 120

  function Code(t: TypeCode): byte {
    match t
    case Described => 0x00
    case Null => 0x40
    case Boolean => 0x56
    case BooleanTrue => 0x41
    case BooleanFalse => 0x42
    case UInt0 => 0x43
    case ULong0 => 0x44
    case UByte => 0x50
    case UShort => 0x60
    case UInt => 0x70
    case ULong => 0x80
    case Byte => 0x51
    case Short => 0x61
    case Int => 0x71
    case Long => 0x81
    case UIntSmall => 0x52
    case ULongSmall => 0x53
    case IntSmall => 0x54
    case LongSmall => 0x55
    case Float => 0x72
    case Double => 0x82
    case Char => 0x73
    case Timestamp => 0x83
    case Uuid => 0x98
    case Binary8 => 0xa0
    case Binary32 => 0xb0
    case String8 => 0xa1
    case String32 => 0xb1
    case Symbol8 => 0xa3
    case Symbol32 => 0xb3
    case List0 => 0x45
    case List8 => 0xc0
    case List32 => 0xd0
    case Map8 => 0xc1
    case Map32 => 0xd1
    case Array8 => 0xe0
    case Array32 => 0xf0
  }

  /** The inverse table: `TypeCode::try_from`. */
  function TypeCodeOf(b: byte): Option<TypeCode>
  {
    match b
    case 0x00 => Some(Described)
    case 0x40 => Some(Null)
    case 0x56 => Some(Boolean)
    case 0x41 => Some(BooleanTrue)
    case 0x42 => Some(BooleanFalse)
    case 0x43 => Some(UInt0)
    case 0x44 => Some(ULong0)
    case 0x50 => Some(UByte)
    case 0x60 => Some(UShort)
    case 0x70 => Some(UInt)
    case 0x80 => Some(ULong)
    case 0x51 => Some(Byte)
    case 0x61 => Some(Short)
    case 0x71 => Some(Int)
    case 0x81 => Some(Long)
    case 0x52 => Some(UIntSmall)
    case 0x53 => Some(ULongSmall)
    case 0x54 => Some(IntSmall)
    case 0x55 => Some(LongSmall)
    case 0x72 => Some(Float)
    case 0x82 => Some(Double)
    case 0x73 => Some(Char)
    case 0x83 => Some(Timestamp)
    case 0x98 => Some(Uuid)
    case 0xa0 => Some(Binary8)
    case 0xb0 => Some(Binary32)
    case 0xa1 => Some(String8)
    case 0xb1 => Some(String32)
    case 0xa3 => Some(Symbol8)
    case 0xb3 => Some(Symbol32)
    case 0x45 => Some(List0)
    case 0xc0 => Some(List8)
    case 0xd0 => Some(List32)
    case 0xc1 => Some(Map8)
    case 0xd1 => Some(Map32)
    case 0xe0 => Some(Array8)
    case 0xf0 => Some(Array32)
    case _ => None
  }

  /** `TypeCode::decode`: one byte, which must be in the table. */
  function DecodeTypeCode(input: seq<byte>): (r: Outcome<TypeCode>)
    ensures r.Ok? ==> input != [] && r.rest == input[1..]
    ensures r.NeedsMore() <==> input == []
  {
    var (rest, b) :- ReadByte(input);
    match TypeCodeOf(b)
    case Some(t) => Ok(rest, t)
    case None => Err(InvalidTypeCode(b))
  }

  /** The constructor byte in front of anything decodes to its type code. */
  lemma CodeReadsBack(t: TypeCode, rest: seq<byte>)
    ensures DecodeTypeCode([Code(t)] + rest) == Ok(rest, t)
  {
    assert ([Code(t)] + rest)[1..] == rest;
  }
}
