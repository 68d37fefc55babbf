/** The encoders as they run: methods that append to a writer, each proved to append exactly the
    bytes of the functions in the other modules (simple.rs, descriptor.rs, list.rs, map.rs,
    value.rs, header.rs, properties.rs, body.rs, message.rs, codec/encoder.rs, publish.rs and
    request/mod.rs). */
module Encoders {
  import opened Bytes
  import S = Simple
  import TC = TypeCodes
  import V = Values
  import M = Messages
  import F = Frames

  method WriteCode(t: TC.TypeCode, w: Writer)
    modifies w
    ensures w.bytes == old(w.bytes) + [TC.Code(t)]
  {
    w.WriteAll([TC.Code(t)]);
  }

  /** A type code and a fixed-width payload. */
  method WriteWord(t: TC.TypeCode, width: nat, n: nat, w: Writer)
    modifies w
    ensures w.bytes == old(w.bytes) + S.Tagged(t, BigEndian(width, n))
  {
    WriteCode(t, w);
    w.WriteAll(BigEndian(width, n));
  }

  lemma TagJoins(before: seq<byte>, t: TC.TypeCode, a: seq<byte>, b: seq<byte>)
    ensures before + S.Tagged(t, a) + b == before + S.Tagged(t, a + b)
  {
  }

  lemma ThreeParts(before: seq<byte>, a: seq<byte>, b: seq<byte>, c: seq<byte>)
    ensures before + a + b + c == before + (a + b + c)
  {
  }

  /** A type code, a length in one or four bytes, and the data. */
  method WriteSized(short: TC.TypeCode, long: TC.TypeCode, data: seq<byte>, w: Writer)
    modifies w
    ensures w.bytes == old(w.bytes) + S.EncodeSized(short, long, data)
  {
    var t, width := if |data| > 0xFF then long else short, if |data| > 0xFF then 4 else 1;
    TagJoins(w.bytes, t, BigEndian(width, |data|), data);
    WriteWord(t, width, |data|, w);
    w.WriteAll(data);
  }

  method EncodeUnsigned(s: S.SimpleValue, w: Writer)
    requires s.UByte? || s.UShort? || s.UInt? || s.ULong?
    modifies w
    ensures w.bytes == old(w.bytes) + S.Encode(s)
  {
    match s {
      case UByte(n) => WriteWord(TC.UByte, 1, n, w);
      case UShort(n) => WriteWord(TC.UShort, 2, n, w);
      case UInt(n) =>
        if n == 0 { WriteCode(TC.UInt0, w); }
        else if n > 0xFF { WriteWord(TC.UInt, 4, n, w); }
        else { WriteWord(TC.UIntSmall, 1, n, w); }
      case ULong(n) =>
        if n == 0 { WriteCode(TC.ULong0, w); }
        else if n > 0xFF { WriteWord(TC.ULong, 8, n, w); }
        else { WriteWord(TC.ULongSmall, 1, n, w); }
    }
  }

  method EncodeSigned(s: S.SimpleValue, w: Writer)
    requires s.Byte? || s.Short? || s.Int? || s.Long? || s.Timestamp?
    modifies w
    ensures w.bytes == old(w.bytes) + S.Encode(s)
  {
    match s {
      case Byte(n) => WriteWord(TC.Byte, 1, Word(1, n), w);
      case Short(n) => WriteWord(TC.Short, 2, Word(2, n), w);
      case Int(n) =>
        if S.IsSmall(n) { WriteWord(TC.IntSmall, 1, Word(1, n), w); }
        else { WriteWord(TC.Int, 4, Word(4, n), w); }
      case Long(n) =>
        if S.IsSmall(n) { WriteWord(TC.LongSmall, 1, Word(1, n), w); }
        else { WriteWord(TC.Long, 8, Word(8, n), w); }
      case Timestamp(millis, _) => WriteWord(TC.Timestamp, 8, Word(8, millis), w);
    }
  }

  method EncodeBits(s: S.SimpleValue, w: Writer)
    requires s.Float? || s.Double? || s.Char? || s.Uuid?
    modifies w
    ensures w.bytes == old(w.bytes) + S.Encode(s)
  {
    match s {
      case Float(bits) => WriteWord(TC.Float, 4, bits, w);
      case Double(bits) => WriteWord(TC.Double, 8, bits, w);
      case Char(c) => WriteWord(TC.Char, 4, c, w);
      case Uuid(u) =>
        WriteCode(TC.Uuid, w);
        w.WriteAll(u);
    }
  }

  method EncodeSimple(s: S.SimpleValue, w: Writer)
    modifies w
    ensures w.bytes == old(w.bytes) + S.Encode(s)
  {
    match s {
      case Null => WriteCode(TC.Null, w);
      case Boolean(b) => WriteCode(if b then TC.BooleanTrue else TC.BooleanFalse, w);
      case UByte(_) => EncodeUnsigned(s, w);
      case UShort(_) => EncodeUnsigned(s, w);
      case UInt(_) => EncodeUnsigned(s, w);
      case ULong(_) => EncodeUnsigned(s, w);
      case Byte(_) => EncodeSigned(s, w);
      case Short(_) => EncodeSigned(s, w);
      case Int(_) => EncodeSigned(s, w);
      case Long(_) => EncodeSigned(s, w);
      case Timestamp(_, _) => EncodeSigned(s, w);
      case Float(_) => EncodeBits(s, w);
      case Double(_) => EncodeBits(s, w);
      case Char(_) => EncodeBits(s, w);
      case Uuid(_) => EncodeBits(s, w);
      case Binary(data) => WriteSized(TC.Binary8, TC.Binary32, data, w);
      case Str(text) => WriteSized(TC.String8, TC.String32, text, w);
      case Symbol(text) => WriteSized(TC.Symbol8, TC.Symbol32, text, w);
    }
  }

  method EncodeDescriptor(d: V.Descriptor, w: Writer)
    modifies w
    ensures w.bytes == old(w.bytes) + V.EncodeDescriptor(d)
  {
    var s := match d case Code(n) => S.SimpleValue.ULong(n) case Name(name) => S.SimpleValue.Symbol(name);
    TagJoins(w.bytes, TC.Described, [], S.Encode(s));
    assert [] + S.Encode(s) == S.Encode(s) && S.Tagged(TC.Described, []) == [TC.Code(TC.Described)];
    WriteCode(TC.Described, w);
    EncodeSimple(s, w);
  }

  // ----- Values -----

  /** A type code, a size and a count, both in one byte or both in four. */
  method WriteHeader(t: TC.TypeCode, width: nat, size: nat, count: nat, w: Writer)
    modifies w
    ensures w.bytes == old(w.bytes) + S.Tagged(t, BigEndian(width, size) + BigEndian(width, count))
  {
    WriteWord(t, width, size, w);
    w.WriteAll(BigEndian(width, count));
  }

  lemma EncodeNext(ls: seq<V.Layout>, i: nat)
    requires i < |ls|
    ensures V.EncodeAll(ls[i..]) == V.Encode(ls[i]) + V.EncodeAll(ls[i + 1..])
  {
    assert ls[i..][1..] == ls[i + 1..];
  }

  lemma HasPairs(cells: seq<V.Layout>, i: nat)
    requires i < |cells| && V.HashableEntries(cells[i..])
    ensures i + 2 <= |cells| && V.HashableEntries(cells[i + 2..])
  {
    assert cells[i..][2..] == cells[i + 2..];
  }

  method EncodeValue(l: V.Layout, w: Writer)
    requires V.Stored(l)
    modifies w
    ensures w.bytes == old(w.bytes) + V.Encode(l)
    decreases l, 1
  {
    match l {
      case Atom(s) => EncodeSimple(s, w);
      case Sequence(items) => EncodeList(items, w);
      case Table(cells) => EncodeMap(cells, w);
      case Tagged(d, inner) =>
        ThreeParts(w.bytes, [TC.Code(TC.Described)], V.EncodeDescriptor(d), V.Encode(inner));
        Associative([TC.Code(TC.Described)], V.EncodeDescriptor(d), V.Encode(inner));
        WriteCode(TC.Described, w);
        EncodeDescriptor(d, w);
        EncodeValue(inner, w);
    }
  }

  method WriteListHeader(size: nat, count: nat, w: Writer)
    modifies w
    ensures w.bytes == old(w.bytes) + V.ListHeader(size, count)
  {
    if size + 1 > 0xFF {
      WriteHeader(TC.List8, 4, size + 4, count, w);
    } else {
      WriteHeader(TC.List8, 1, size + 1, count, w);
    }
  }

  method EncodeList(items: seq<V.Layout>, w: Writer)
    requires forall i | 0 <= i < |items| :: V.Stored(items[i])
    modifies w
    ensures w.bytes == old(w.bytes) + V.Encode(V.Sequence(items))
    decreases items, 0
  {
    var size := V.SizeAll(items);
    WriteListHeader(size, |items|, w);
    ghost var header := w.bytes;
    assert header == old(w.bytes) + V.ListHeader(size, |items|);
    for i := 0 to |items|
      invariant w.bytes + V.EncodeAll(items[i..]) == header + V.EncodeAll(items)
    {
      EncodeNext(items, i);
      Associative(w.bytes, V.Encode(items[i]), V.EncodeAll(items[i + 1..]));
      EncodeValue(items[i], w);
    }
    Associative(old(w.bytes), V.ListHeader(size, |items|), V.EncodeAll(items));
  }

  /** The entries are written in the order in which the table iterates over them. */
  method EncodeMap(cells: seq<V.Layout>, w: Writer)
    requires V.Stored(V.Table(cells))
    modifies w
    ensures w.bytes == old(w.bytes) + V.Encode(V.Table(cells))
    decreases cells, 0
  {
    var size := V.SizeAll(cells);
    if size + 1 > 0xFF {
      WriteHeader(TC.Map32, 4, size + 4, |cells|, w);
    } else {
      WriteHeader(TC.Map8, 1, size + 1, |cells|, w);
    }
    ghost var header := w.bytes;
    assert header == old(w.bytes) + V.MapHeader(size, |cells|);
    var i := 0;
    while i < |cells|
      invariant i <= |cells| && V.HashableEntries(cells[i..])
      invariant w.bytes + V.EncodeAll(cells[i..]) == header + V.EncodeAll(cells)
    {
      HasPairs(cells, i);
      EncodeNext(cells, i);
      EncodeNext(cells, i + 1);
      Associative(w.bytes, V.Encode(cells[i]), V.EncodeAll(cells[i + 1..]));
      EncodeValue(cells[i], w);
      Associative(w.bytes, V.Encode(cells[i + 1]), V.EncodeAll(cells[i + 2..]));
      EncodeValue(cells[i + 1], w);
      i := i + 2;
    }
    Associative(old(w.bytes), V.MapHeader(size, |cells|), V.EncodeAll(cells));
  }

  // ----- Messages -----

  /** An absent field is a null. */
  method EncodeField(f: M.Field, w: Writer)
    modifies w
    ensures w.bytes == old(w.bytes) + M.EncodeField(f)
  {
    match f {
      case Some(s) => EncodeSimple(s, w);
      case None => WriteCode(TC.Null, w);
    }
  }

  lemma FieldNext(before: seq<byte>, fields: seq<M.Field>, i: nat)
    requires i < |fields|
    ensures before + M.EncodeFields(fields[i..])
         == (before + M.EncodeField(fields[i])) + M.EncodeFields(fields[i + 1..])
  {
    assert fields[i..][1..] == fields[i + 1..];
    Associative(before, M.EncodeField(fields[i]), M.EncodeFields(fields[i + 1..]));
  }

  method EncodeFields(fields: seq<M.Field>, w: Writer)
    modifies w
    ensures w.bytes == old(w.bytes) + M.EncodeFields(fields)
  {
    ghost var total := w.bytes + M.EncodeFields(fields);
    for i := 0 to |fields|
      invariant w.bytes + M.EncodeFields(fields[i..]) == total
    {
      FieldNext(w.bytes, fields, i);
      EncodeField(fields[i], w);
    }
  }

  method EncodeHeader(h: M.Header, w: Writer)
    modifies w
    ensures w.bytes == old(w.bytes) + M.EncodeHeader(h)
  {
    var size := M.FieldsSize(M.HeaderFields(h));
    var width := if size + M.DESCRIPTOR_SIZE > 0xFF then 4 else 1;
    ThreeParts(w.bytes, V.EncodeDescriptor(V.Code(TC.HEADER)),
               S.Tagged(TC.List8, BigEndian(width, size + 4) + BigEndian(width, 5)), M.EncodeFields(M.HeaderFields(h)));
    EncodeDescriptor(V.Code(TC.HEADER), w);
    WriteHeader(TC.List8, width, size + 4, 5, w);
    EncodeFields(M.HeaderFields(h), w);
  }

  method EncodeProperties(p: M.Properties, w: Writer)
    modifies w
    ensures w.bytes == old(w.bytes) + M.EncodeProperties(p)
  {
    var fields := M.PropertyFields(p);
    ThreeParts(w.bytes, V.EncodeDescriptor(V.Code(TC.PROPERTIES)), V.ListHeader(M.FieldsSize(fields), 13),
               M.EncodeFields(fields));
    EncodeDescriptor(V.Code(TC.PROPERTIES), w);
    WriteListHeader(M.FieldsSize(fields), 13, w);
    EncodeFields(fields, w);
  }

  /** The tables of a section in memory are tables. */
  predicate SectionStored(s: M.StoredSection) {
    match s
    case DeliveryAnnotations(cells) => V.Stored(V.Table(cells))
    case MessageAnnotations(cells) => V.Stored(V.Table(cells))
    case ApplicationProperties(cells) => V.Stored(V.Table(cells))
    case Footer(cells) => V.Stored(V.Table(cells))
    case AmqpSequence(items) => V.Stored(V.Sequence(items))
    case AmqpValue(l) => V.Stored(l)
    case _ => true
  }

  method EncodeMapSection(code: u64, cells: seq<V.Layout>, w: Writer)
    requires V.Stored(V.Table(cells))
    modifies w
    ensures w.bytes == old(w.bytes) + (V.EncodeDescriptor(V.Code(code)) + V.Encode(V.Table(cells)))
  {
    Associative(w.bytes, V.EncodeDescriptor(V.Code(code)), V.Encode(V.Table(cells)));
    EncodeDescriptor(V.Code(code), w);
    EncodeMap(cells, w);
  }

  method EncodeBodySection(s: M.StoredSection, w: Writer)
    requires (s.Data? || s.AmqpSequence? || s.AmqpValue?) && SectionStored(s)
    modifies w
    ensures w.bytes == old(w.bytes) + M.EncodeSection(s)
  {
    match s {
      case Data(data) =>
        Associative(w.bytes, V.EncodeDescriptor(V.Code(TC.BODY_DATA)), S.Encode(S.SimpleValue.Binary(data)));
        EncodeDescriptor(V.Code(TC.BODY_DATA), w);
        EncodeSimple(S.SimpleValue.Binary(data), w);
      case AmqpSequence(items) =>
        Associative(w.bytes, V.EncodeDescriptor(V.Code(TC.BODY_SEQUENCE)), V.Encode(V.Sequence(items)));
        EncodeDescriptor(V.Code(TC.BODY_SEQUENCE), w);
        EncodeList(items, w);
      case AmqpValue(l) =>
        Associative(w.bytes, V.EncodeDescriptor(V.Code(TC.BODY_VALUE)), V.Encode(l));
        EncodeDescriptor(V.Code(TC.BODY_VALUE), w);
        EncodeValue(l, w);
    }
  }

  method EncodeSection(s: M.StoredSection, w: Writer)
    requires SectionStored(s)
    modifies w
    ensures w.bytes == old(w.bytes) + M.EncodeSection(s)
  {
    match s {
      case HeaderSection(h) => EncodeHeader(h, w);
      case DeliveryAnnotations(cells) => EncodeMapSection(TC.DELIVERY_ANNOTATIONS, cells, w);
      case MessageAnnotations(cells) => EncodeMapSection(TC.MESSAGE_ANNOTATIONS, cells, w);
      case PropertiesSection(p) => EncodeProperties(p, w);
      case ApplicationProperties(cells) => EncodeMapSection(TC.APPLICATION_PROPERTIES, cells, w);
      case Data(_) => EncodeBodySection(s, w);
      case AmqpSequence(_) => EncodeBodySection(s, w);
      case AmqpValue(_) => EncodeBodySection(s, w);
      case Footer(cells) => EncodeMapSection(TC.FOOTER, cells, w);
    }
  }

  lemma {:induction false} SectionsJoin(a: seq<M.StoredSection>, b: seq<M.StoredSection>)
    ensures M.EncodeSections(a + b) == M.EncodeSections(a) + M.EncodeSections(b)
  {
    if a == [] {
      assert a + b == b;
    } else {
      assert (a + b)[1..] == a[1..] + b;
      SectionsJoin(a[1..], b);
    }
  }

  lemma OneSection(s: M.StoredSection)
    ensures M.EncodeSections([s]) == M.EncodeSection(s)
  {
    assert [s][1..] == [];
  }

  /** Writing one more section extends what is written by its encoding. */
  lemma Extend(before: seq<byte>, ss: seq<M.StoredSection>, s: M.StoredSection)
    ensures before + M.EncodeSections(ss) + M.EncodeSection(s) == before + M.EncodeSections(ss + [s])
  {
    SectionsJoin(ss, [s]);
    OneSection(s);
    Associative(before, M.EncodeSections(ss), M.EncodeSection(s));
  }

  lemma ExtendTo(before: seq<byte>, ss: seq<M.StoredSection>, i: nat)
    requires i < |ss|
    ensures before + M.EncodeSections(ss[..i]) + M.EncodeSection(ss[i]) == before + M.EncodeSections(ss[..i + 1])
  {
    assert ss[..i + 1] == ss[..i] + [ss[i]];
    Extend(before, ss[..i], ss[i]);
  }

  /** A loop over one part of the body. */
  method EncodeSections(ss: seq<M.StoredSection>, w: Writer)
    requires forall i | 0 <= i < |ss| :: SectionStored(ss[i])
    modifies w
    ensures w.bytes == old(w.bytes) + M.EncodeSections(ss)
  {
    for i := 0 to |ss|
      invariant w.bytes == old(w.bytes) + M.EncodeSections(ss[..i])
    {
      ExtendTo(old(w.bytes), ss, i);
      EncodeSection(ss[i], w);
    }
    assert ss[..|ss|] == ss;
  }

  /** `MessageBody::encode`. */
  method EncodeBody(body: M.Body<seq<V.Layout>, V.Layout>, w: Writer)
    requires forall i | 0 <= i < |body.sequence| :: V.Stored(V.Sequence(body.sequence[i]))
    requires body.value.Some? ==> V.Stored(body.value.value)
    modifies w
    ensures w.bytes == old(w.bytes) + M.EncodeSections(M.BodySections(body))
  {
    ghost var data: seq<M.StoredSection> := M.DataSections(body.data);
    ghost var sequences: seq<M.StoredSection> := M.SequenceSections(body.sequence);
    EncodeSections(M.DataSections(body.data), w);
    EncodeSections(M.SequenceSections(body.sequence), w);
    var value := if body.value.Some? then Some(M.AmqpValue(body.value.value)) else None;
    EncodeOptional(value, w);
    SectionsJoin(data + sequences, Listed(value));
    SectionsJoin(data, sequences);
    ThreeParts(old(w.bytes), M.EncodeSections(data), M.EncodeSections(sequences), M.EncodeSections(Listed(value)));
    assert M.BodySections(body) == data + sequences + Listed(value);
  }

  function Listed(s: Option<M.StoredSection>): seq<M.StoredSection> {
    match s case Some(x) => [x] case None => []
  }

  method EncodeOptional(s: Option<M.StoredSection>, w: Writer)
    requires s.Some? ==> SectionStored(s.value)
    modifies w
    ensures w.bytes == old(w.bytes) + M.EncodeSections(Listed(s))
  {
    if s.Some? {
      OneSection(s.value);
      EncodeSection(s.value, w);
    }
  }

  predicate TableStored(cells: Option<seq<V.Layout>>) {
    cells.Some? ==> V.Stored(V.Table(cells.value))
  }

  /** What every message in memory satisfies: its tables are tables. */
  predicate MessageStored(m: M.StoredMessage) {
    && TableStored(m.deliveryAnnotations) && TableStored(m.messageAnnotations)
    && TableStored(m.applicationProperties) && TableStored(m.footer)
    && (forall i | 0 <= i < |m.body.sequence| :: V.Stored(V.Sequence(m.body.sequence[i])))
    && (m.body.value.Some? ==> V.Stored(m.body.value.value))
  }

  function OptionalHeader(m: M.StoredMessage): Option<M.StoredSection> {
    if m.header.Some? then Some(M.HeaderSection(m.header.value)) else None
  }

  function OptionalDeliveryAnnotations(m: M.StoredMessage): Option<M.StoredSection> {
    if m.deliveryAnnotations.Some? then Some(M.DeliveryAnnotations(m.deliveryAnnotations.value)) else None
  }

  function OptionalMessageAnnotations(m: M.StoredMessage): Option<M.StoredSection> {
    if m.messageAnnotations.Some? then Some(M.MessageAnnotations(m.messageAnnotations.value)) else None
  }

  function OptionalProperties(m: M.StoredMessage): Option<M.StoredSection> {
    if m.properties.Some? then Some(M.PropertiesSection(m.properties.value)) else None
  }

  function OptionalApplicationProperties(m: M.StoredMessage): Option<M.StoredSection> {
    if m.applicationProperties.Some? then Some(M.ApplicationProperties(m.applicationProperties.value)) else None
  }

  function OptionalFooter(m: M.StoredMessage): Option<M.StoredSection> {
    if m.footer.Some? then Some(M.Footer(m.footer.value)) else None
  }

  lemma FrontParts(before: seq<byte>, m: M.StoredMessage)
    ensures before + M.EncodeSections(Listed(OptionalHeader(m)))
            + M.EncodeSections(Listed(OptionalDeliveryAnnotations(m)))
                   + M.EncodeSections(Listed(OptionalMessageAnnotations(m)))
         == before + M.EncodeSections(M.AnnotationSections(m))
  {
    var a, b := Listed(OptionalHeader(m)), Listed(OptionalDeliveryAnnotations(m));
    var c := Listed(OptionalMessageAnnotations(m));
    assert M.AnnotationSections(m) == a + b + c;
    SectionsJoin(a + b, c);
    SectionsJoin(a, b);
    ThreeParts(before, M.EncodeSections(a), M.EncodeSections(b), M.EncodeSections(c));
  }

  lemma MiddleParts(before: seq<byte>, m: M.StoredMessage)
    ensures before + M.EncodeSections(Listed(OptionalProperties(m)))
            + M.EncodeSections(Listed(OptionalApplicationProperties(m)))
         == before + M.EncodeSections(M.PropertySections(m))
  {
    var a, b := Listed(OptionalProperties(m)), Listed(OptionalApplicationProperties(m));
    assert M.PropertySections(m) == a + b;
    SectionsJoin(a, b);
    Associative(before, M.EncodeSections(a), M.EncodeSections(b));
  }

  lemma AllParts(before: seq<byte>, m: M.StoredMessage)
    ensures before + M.EncodeSections(M.AnnotationSections(m)) + M.EncodeSections(M.PropertySections(m))
                   + M.EncodeSections(M.BodySections(m.body)) + M.EncodeSections(Listed(OptionalFooter(m)))
         == before + M.Encode(m)
  {
    var a, p := M.AnnotationSections(m), M.PropertySections(m);
    var b, f := M.BodySections(m.body), M.FooterSections(m.footer);
    assert f == Listed(OptionalFooter(m));
    SectionsJoin(a + p + b, f);
    SectionsJoin(a + p, b);
    SectionsJoin(a, p);
    ThreeParts(before, M.EncodeSections(a), M.EncodeSections(p), M.EncodeSections(b));
    Associative(before, M.EncodeSections(a) + M.EncodeSections(p) + M.EncodeSections(b), M.EncodeSections(f));
  }

  /** `Message::encode`. */
  method EncodeMessage(m: M.StoredMessage, w: Writer)
    requires MessageStored(m)
    modifies w
    ensures w.bytes == old(w.bytes) + M.Encode(m)
  {
    FrontParts(w.bytes, m);
    EncodeOptional(OptionalHeader(m), w);
    EncodeOptional(OptionalDeliveryAnnotations(m), w);
    EncodeOptional(OptionalMessageAnnotations(m), w);
    MiddleParts(w.bytes, m);
    EncodeOptional(OptionalProperties(m), w);
    EncodeOptional(OptionalApplicationProperties(m), w);
    EncodeBody(m.body, w);
    EncodeOptional(OptionalFooter(m), w);
    AllParts(old(w.bytes), m);
  }

  /** `Message::encoded_size`, which starts from the body and adds the other sections. */
  method MessageSize(m: M.StoredMessage) returns (size: nat)
    ensures size == M.Size(m)
  {
    size := BodySize(m.body);
    size := AddOptional(size, OptionalHeader(m));
    size := AddOptional(size, OptionalDeliveryAnnotations(m));
    size := AddOptional(size, OptionalMessageAnnotations(m));
    size := AddOptional(size, OptionalProperties(m));
    size := AddOptional(size, OptionalApplicationProperties(m));
    size := AddOptional(size, OptionalFooter(m));
    SizeOfParts(m);
  }

  method AddOptional(start: nat, s: Option<M.StoredSection>) returns (size: nat)
    ensures size == start + M.SectionsSize(Listed(s))
  {
    SizeOfListed(s);
    size := if s.Some? then start + M.SectionSize(s.value) else start;
  }

  method BodySize(body: M.Body<seq<V.Layout>, V.Layout>) returns (size: nat)
    ensures size == M.SectionsSize(M.BodySections(body))
  {
    var data, sequences := M.DataSections(body.data), M.SequenceSections(body.sequence);
    size := AddSizes(0, data);
    size := AddSizes(size, sequences);
    var value := if body.value.Some? then Some(M.AmqpValue(body.value.value)) else None;
    if body.value.Some? {
      SizeOfOne(value.value);
      size := size + V.Size(body.value.value) + M.DESCRIPTOR_SIZE;
    }
    SizesJoin(data + sequences, Listed(value));
    SizesJoin(data, sequences);
    assert M.BodySections(body) == data + sequences + Listed(value);
  }

  /** Add up one part of the body. */
  method AddSizes(start: nat, ss: seq<M.StoredSection>) returns (size: nat)
    ensures size == start + M.SectionsSize(ss)
  {
    size := start;
    for i := 0 to |ss|
      invariant size + M.SectionsSize(ss[i..]) == start + M.SectionsSize(ss)
    {
      assert ss[i..][1..] == ss[i + 1..];
      size := size + M.SectionSize(ss[i]);
    }
  }

  lemma {:induction false} SizesJoin(a: seq<M.StoredSection>, b: seq<M.StoredSection>)
    ensures M.SectionsSize(a + b) == M.SectionsSize(a) + M.SectionsSize(b)
  {
    if a == [] {
      assert a + b == b;
    } else {
      assert (a + b)[1..] == a[1..] + b;
      SizesJoin(a[1..], b);
    }
  }

  lemma SizeOfOne(s: M.StoredSection)
    ensures M.SectionsSize([s]) == M.SectionSize(s)
  {
    assert [s][1..] == [];
  }

  lemma SizeOfListed(s: Option<M.StoredSection>)
    ensures M.SectionsSize(Listed(s)) == if s.Some? then M.SectionSize(s.value) else 0
  {
    if s.Some? {
      SizeOfOne(s.value);
    }
  }

  lemma SizeOfParts(m: M.StoredMessage)
    ensures M.Size(m)
         == M.SectionsSize(M.BodySections(m.body))
          + M.SectionsSize(Listed(OptionalHeader(m))) + M.SectionsSize(Listed(OptionalDeliveryAnnotations(m)))
          + M.SectionsSize(Listed(OptionalMessageAnnotations(m))) + M.SectionsSize(Listed(OptionalProperties(m)))
          + M.SectionsSize(Listed(OptionalApplicationProperties(m))) + M.SectionsSize(Listed(OptionalFooter(m)))
  {
    var a, b := Listed(OptionalHeader(m)), Listed(OptionalDeliveryAnnotations(m));
    var c := Listed(OptionalMessageAnnotations(m));
    var p, q, f := Listed(OptionalProperties(m)), Listed(OptionalApplicationProperties(m)), Listed(OptionalFooter(m));
    assert M.AnnotationSections(m) == a + b + c && M.PropertySections(m) == p + q && M.FooterSections(m.footer) == f;
    SizesJoin(a + b, c);
    SizesJoin(a, b);
    SizesJoin(p, q);
    SizesJoin(M.AnnotationSections(m) + M.PropertySections(m) + M.BodySections(m.body), f);
    SizesJoin(M.AnnotationSections(m) + M.PropertySections(m), M.BodySections(m.body));
    SizesJoin(M.AnnotationSections(m), M.PropertySections(m));
  }

  // ----- Publish requests -----

  method EncodeText(t: Option<Utf8>, w: Writer)
    modifies w
    ensures w.bytes == old(w.bytes) + F.EncodeText(t)
  {
    match t {
      case Some(s) =>
        w.WriteAll(BigEndian(2, |s|));
        w.WriteAll(s);
      case None => w.WriteAll(BigEndian(2, 0));
    }
  }

  lemma Prepend(a: seq<byte>, b: seq<byte>, c: seq<byte>, d: seq<byte>, e: seq<byte>)
    ensures a + b + c + d + e == a + (b + c + d + e)
  {
  }

  method EncodePublished(version: u16, p: F.Published<M.StoredMessage>, w: Writer)
    requires MessageStored(p.message)
    modifies w
    ensures w.bytes == old(w.bytes) + F.EncodePublished(version, p)
  {
    ghost var before, filter := w.bytes, if version == F.PROTOCOL_VERSION_2 then F.EncodeText(p.filter) else [];
    w.WriteAll(BigEndian(8, p.id));
    if version == F.PROTOCOL_VERSION_2 {
      EncodeText(p.filter, w);
    }
    assert w.bytes == before + BigEndian(8, p.id) + filter;
    var size := MessageSize(p.message);
    w.WriteU32(size);
    EncodeMessage(p.message, w);
    Prepend(before, BigEndian(8, p.id), filter, BigEndian(4, size), M.Encode(p.message));
  }

  method EncodeBatch(version: u16, ps: seq<F.Published<M.StoredMessage>>, w: Writer)
    requires forall i | 0 <= i < |ps| :: MessageStored(ps[i].message)
    modifies w
    ensures w.bytes == old(w.bytes) + F.EncodeAllPublished(version, ps)
  {
    ghost var total := w.bytes + F.EncodeAllPublished(version, ps);
    for i := 0 to |ps|
      invariant w.bytes + F.EncodeAllPublished(version, ps[i..]) == total
    {
      assert ps[i..][1..] == ps[i + 1..];
      Associative(w.bytes, F.EncodePublished(version, ps[i]), F.EncodeAllPublished(version, ps[i + 1..]));
      EncodePublished(version, ps[i], w);
    }
  }

  method BatchSize(version: u16, ps: seq<F.Published<M.StoredMessage>>) returns (size: nat)
    ensures size == F.AllPublishedSize(version, ps)
  {
    size := 0;
    for i := 0 to |ps|
      invariant size + F.AllPublishedSize(version, ps[i..]) == F.AllPublishedSize(version, ps)
    {
      assert ps[i..][1..] == ps[i + 1..];
      size := size + F.PublishedSize(version, ps[i]);
    }
  }

  method EncodeFrameHeader(key: u16, version: u16, w: Writer)
    modifies w
    ensures w.bytes == old(w.bytes) + F.EncodeHeader(key, version)
  {
    w.WriteAll(BigEndian(2, key));
    w.WriteAll(BigEndian(2, version));
  }

  /** `PublishCommand::encode`. */
  method EncodeCommand(c: F.PublishCommand<M.StoredMessage>, w: Writer)
    requires forall i | 0 <= i < |c.messages| :: MessageStored(c.messages[i].message)
    modifies w
    ensures w.bytes == old(w.bytes) + F.EncodeCommand(c)
  {
    ThreeParts(w.bytes, BigEndian(1, c.publisherId), BigEndian(4, |c.messages|),
               F.EncodeAllPublished(c.version, c.messages));
    w.WriteAll(BigEndian(1, c.publisherId));
    w.WriteU32(|c.messages|);
    EncodeBatch(c.version, c.messages, w);
  }

  lemma PayloadParts(before: seq<byte>, c: F.PublishCommand<M.StoredMessage>)
    ensures before + F.EncodeHeader(F.COMMAND_PUBLISH, c.version) + F.EncodeCommand(c) == before + F.EncodePayload(c)
  {
    Associative(before, F.EncodeHeader(F.COMMAND_PUBLISH, c.version), F.EncodeCommand(c));
  }

  lemma RequestParts(before: seq<byte>, c: F.PublishCommand<M.StoredMessage>, size: nat)
    requires size == F.RequestSize(c)
    ensures before + BigEndian(4, size) + F.EncodePayload(c) == before + F.EncodeRequest(c)
  {
    Associative(before, BigEndian(4, size), F.EncodePayload(c));
  }

  /** The header and the command. */
  method EncodePayload(c: F.PublishCommand<M.StoredMessage>, w: Writer)
    requires forall i | 0 <= i < |c.messages| :: MessageStored(c.messages[i].message)
    modifies w
    ensures w.bytes == old(w.bytes) + F.EncodePayload(c)
  {
    PayloadParts(w.bytes, c);
    EncodeFrameHeader(F.COMMAND_PUBLISH, c.version, w);
    EncodeCommand(c, w);
  }

  method RequestSize(c: F.PublishCommand<M.StoredMessage>) returns (size: nat)
    ensures size == F.RequestSize(c)
  {
    var batch := BatchSize(c.version, c.messages);
    size := 4 + 1 + 4 + batch;
  }

  /** `Request::encode` of a publish command: the length prefix, the header and the command. */
  method EncodeRequest(c: F.PublishCommand<M.StoredMessage>, w: Writer)
    requires forall i | 0 <= i < |c.messages| :: MessageStored(c.messages[i].message)
    modifies w
    ensures w.bytes == old(w.bytes) + F.EncodeRequest(c)
  {
    var size := RequestSize(c);
    RequestParts(w.bytes, c, size);
    w.WriteU32(size);
    EncodePayload(c, w);
  }
}
