/** The message round trip, when it restores the message, and message sizes. */
module MessageProofs {
  import opened Bytes
  import opened Messages
  import S = Simple
  import TC = TypeCodes
  import V = Values
  import VP = ValueProofs
  import VE = ValueExactness

  // ----- Composites -----

  function FieldReadback(f: Field): Field {
    match f
    case Some(s) => Some(S.Readback(s))
    case None => None
  }

  function FieldsReadback(fields: seq<Field>): (r: seq<Field>)
    ensures |r| == |fields|
  {
    seq(|fields|, i requires 0 <= i < |fields| => FieldReadback(fields[i]))
  }

  predicate NoNullType(specs: seq<FieldSpec>) {
    forall i | 0 <= i < |specs| :: S.Primitive.Null !in specs[i].types
  }

  lemma FieldReadsBack(types: set<S.Primitive>, f: Field, rest: seq<byte>)
    requires S.Primitive.Null !in types && FieldSize(f) < U32_LIMIT
    requires f.Some? ==> S.KindOf(f.value) in types
    ensures DecodeField(types, EncodeField(f) + rest) == Ok(rest, FieldReadback(f))
  {
    match f
    case None =>
      S.TagReadsBack(TC.Null, [], rest);
      assert [] + rest == rest;
    case Some(s) =>
      var t, p := S.PayloadReadsBack(s, rest);
      S.TagReadsBack(t, p, rest);
      S.DecodeEncode(s, types, rest);
  }

  lemma FieldsStep(specs: seq<FieldSpec>, input: seq<byte>, rest: seq<byte>, idx: nat, f: Field, dest: seq<Field>)
    requires WellTyped(specs, dest) && TypedDefaults(specs) && idx < |specs|
    requires DecodeField(specs[idx].types, input) == Ok(rest, f)
    requires f.None? ==> specs[idx].absent.None?
    ensures WellTyped(specs, dest[idx := f])
    ensures DecodeFields(specs, input, idx, |specs|, dest)
         == DecodeFields(specs, rest, idx + 1, |specs|, dest[idx := f])
  {
    assert HasFieldType(specs[idx], f);
  }

  /** Reading fields `idx`, `idx + 1`, ... when the earlier ones are already in `dest`. */
  lemma {:induction false} FieldsReadBack(specs: seq<FieldSpec>, fields: seq<Field>, idx: nat, dest: seq<Field>,
                                          rest: seq<byte>)
    requires WellTyped(specs, fields) && WellTyped(specs, dest) && TypedDefaults(specs) && NoNullType(specs)
    requires idx <= |specs| && FieldsSize(fields[idx..]) < U32_LIMIT
    requires forall i | 0 <= i < idx :: dest[i] == FieldReadback(fields[i])
    ensures DecodeFields(specs, EncodeFields(fields[idx..]) + rest, idx, |specs|, dest)
         == Ok(rest, FieldsReadback(fields))
    decreases |specs| - idx
  {
    if idx == |specs| {
      assert EncodeFields(fields[idx..]) + rest == rest;
      assert dest == FieldsReadback(fields);
    } else {
      var f := fields[idx];
      var later := EncodeFields(fields[idx + 1..]);
      assert fields[idx..][1..] == fields[idx + 1..];
      Associative(EncodeField(f), later, rest);
      assert HasFieldType(specs[idx], f);
      FieldReadsBack(specs[idx].types, f, later + rest);
      FieldsStep(specs, EncodeFields(fields[idx..]) + rest, later + rest, idx, FieldReadback(f), dest);
      FieldsReadBack(specs, fields, idx + 1, dest[idx := FieldReadback(f)], rest);
    }
  }

  lemma CompositeFront(code: u64, size: nat, count: nat, content: seq<byte>)
    requires size < 0x100 && count < 0x100
    ensures var widths := BigEndian(1, size) + BigEndian(1, count);
            var list := S.Tagged(TC.List8, widths) + content;
            && V.DecodeDescriptor(V.EncodeDescriptor(V.Code(code)) + list) == Ok(list, V.Code(code))
            && TC.DecodeTypeCode(list) == Ok(widths + content, TC.List8)
            && V.DecodeCount(1, widths + content) == Ok(content, count)
  {
    var widths := BigEndian(1, size) + BigEndian(1, count);
    VP.DecodeEncodeDescriptor(V.Code(code), S.Tagged(TC.List8, widths) + content);
    S.TagReadsBack(TC.List8, widths, content);
    assert Span(1) == 0x100;
    VP.CountReadsBack(1, size, count, content);
  }

  lemma CompositeDispatch(code: u64, specs: seq<FieldSpec>, dest: seq<Field>, input: seq<byte>, list: seq<byte>,
                          counts: seq<byte>, content: seq<byte>, count: nat)
    requires WellTyped(specs, dest) && TypedDefaults(specs)
    requires V.DecodeDescriptor(input) == Ok(list, V.Code(code)) && TC.DecodeTypeCode(list) == Ok(counts, TC.List8)
    requires V.DecodeCount(1, counts) == Ok(content, count)
    ensures DecodeComposite(code, specs, input, dest) == DecodeFields(specs, content, 0, count, dest)
  {
  }

  /** A composite behind its descriptor and a one-byte list header. */
  lemma CompositeReadsBack(code: u64, specs: seq<FieldSpec>, fields: seq<Field>, size: nat, dest: seq<Field>,
                           rest: seq<byte>)
    requires WellTyped(specs, fields) && WellTyped(specs, dest) && TypedDefaults(specs) && NoNullType(specs)
    requires FieldsSize(fields) < U32_LIMIT && size < 0x100 && |specs| < 0x100
    ensures DecodeComposite(code, specs,
              (V.EncodeDescriptor(V.Code(code))
               + S.Tagged(TC.List8, BigEndian(1, size) + BigEndian(1, |specs|))
               + EncodeFields(fields)) + rest, dest)
            == Ok(rest, FieldsReadback(fields))
  {
    var d := V.EncodeDescriptor(V.Code(code));
    var widths := BigEndian(1, size) + BigEndian(1, |specs|);
    var header := S.Tagged(TC.List8, widths);
    var content := EncodeFields(fields) + rest;
    Associative(d + header, EncodeFields(fields), rest);
    Associative(d, header, content);
    CompositeFront(code, size, |specs|, content);
    CompositeDispatch(code, specs, dest, d + (header + content), header + content, widths + content, content, |specs|);
    assert fields[0..] == fields;
    FieldsReadBack(specs, fields, 0, dest, rest);
  }

  lemma {:induction false} SmallFields(fields: seq<Field>)
    requires forall i | 0 <= i < |fields| :: FieldSize(fields[i]) <= 5
    ensures FieldsSize(fields) <= 5 * |fields|
  {
    if fields != [] {
      SmallFields(fields[1..]);
    }
  }

  lemma HeaderFieldsReadBack(h: Header)
    ensures FieldsReadback(HeaderFields(h)) == HeaderFields(h) && HeaderOf(HeaderFields(h)) == h
    ensures FieldsSize(HeaderFields(h)) <= 25
    ensures NoNullType(HEADER_FIELDS) && TypedDefaults(HEADER_FIELDS)
  {
    SmallFields(HeaderFields(h));
  }

  lemma HeaderReadsBack(h: Header, rest: seq<byte>)
    ensures DecodeHeader(EncodeHeader(h) + rest) == Ok(rest, h)
  {
    HeaderFieldsReadBack(h);
    var size := FieldsSize(HeaderFields(h));
    CompositeReadsBack(TC.HEADER, HEADER_FIELDS, HeaderFields(h), size + 4, HeaderFields(DEFAULT_HEADER), rest);
  }

  predicate TypedProperties(p: Properties) {
    WellTyped(PROPERTY_FIELDS, PropertyFields(p))
  }

  function PropertiesReadback(p: Properties): Properties {
    PropertiesOf(FieldsReadback(PropertyFields(p)))
  }

  lemma PropertyTypes()
    ensures WellTyped(PROPERTY_FIELDS, PropertyFields(NO_PROPERTIES)) && |PROPERTY_FIELDS| == 13
    ensures NoNullType(PROPERTY_FIELDS) && TypedDefaults(PROPERTY_FIELDS)
  {
  }

  lemma PropertiesReadBack(p: Properties, rest: seq<byte>)
    requires TypedProperties(p) && !V.Wide(FieldsSize(PropertyFields(p)))
    ensures DecodeProperties(EncodeProperties(p) + rest) == Ok(rest, PropertiesReadback(p))
  {
    var fields := PropertyFields(p);
    PropertyTypes();
    CompositeReadsBack(TC.PROPERTIES, PROPERTY_FIELDS, fields, FieldsSize(fields) + 1, PropertyFields(NO_PROPERTIES),
                       rest);
  }

  // ----- Sections -----

  /** What every section in memory satisfies: hash tables of the declared types, typed fields. */
  predicate InMemory(s: StoredSection) {
    match s
    case HeaderSection(_) => true
    case PropertiesSection(p) => TypedProperties(p)
    case DeliveryAnnotations(cells) => V.Stored(V.Table(cells)) && V.CellsHaveType(V.ANNOTATIONS, cells)
    case MessageAnnotations(cells) => V.Stored(V.Table(cells)) && V.CellsHaveType(V.ANNOTATIONS, cells)
    case Footer(cells) => V.Stored(V.Table(cells)) && V.CellsHaveType(V.ANNOTATIONS, cells)
    case ApplicationProperties(cells) => V.Stored(V.Table(cells)) && V.CellsHaveType(V.APPLICATION_PROPERTIES, cells)
    case Data(_) => true
    case AmqpSequence(items) => V.Stored(V.Sequence(items))
    case AmqpValue(l) => V.Stored(l)
  }

  /** No list and no properties so long that they are written with four-byte fields. */
  predicate NarrowSection(s: StoredSection) {
    match s
    case HeaderSection(_) => true
    case PropertiesSection(p) => !V.Wide(FieldsSize(PropertyFields(p)))
    case DeliveryAnnotations(cells) => VP.AllNarrow(cells)
    case MessageAnnotations(cells) => VP.AllNarrow(cells)
    case Footer(cells) => VP.AllNarrow(cells)
    case ApplicationProperties(cells) => VP.AllNarrow(cells)
    case Data(_) => true
    case AmqpSequence(items) => VP.Narrow(V.Sequence(items))
    case AmqpValue(l) => VP.Narrow(l)
  }

  /** Change the representation of everything inside a section. */
  function ConvertSection(s: StoredSection, exact: bool): PlainSection {
    match s
    case HeaderSection(h) => HeaderSection(h)
    case PropertiesSection(p) => PropertiesSection(if exact then p else PropertiesReadback(p))
    case DeliveryAnnotations(cells) => DeliveryAnnotations(ConvertMap(cells, exact))
    case MessageAnnotations(cells) => MessageAnnotations(ConvertMap(cells, exact))
    case Footer(cells) => Footer(ConvertMap(cells, exact))
    case ApplicationProperties(cells) => ApplicationProperties(ConvertMap(cells, exact))
    case Data(data) => Data(data)
    case AmqpSequence(items) => AmqpSequence(ConvertList(items, exact))
    case AmqpValue(l) => AmqpValue(ConvertValue(l, exact))
  }

  /** The stored value itself, or the one that decoding returns for it. */
  function ConvertValue(l: V.Layout, exact: bool): V.Value {
    if exact then V.ValueOf(l) else VP.Readback(l)
  }

  function ConvertList(ls: seq<V.Layout>, exact: bool): seq<V.Value> {
    if exact then V.ValueOfAll(ls) else VP.ReadbackAll(ls)
  }

  function ConvertMap(cells: seq<V.Layout>, exact: bool): map<V.Value, V.Value> {
    V.Pairs(map[], ConvertList(cells, exact))
  }

  function ConvertMessage(m: StoredMessage, exact: bool): PlainMessage {
    Message(
      m.header,
      if m.deliveryAnnotations.Some? then Some(ConvertMap(m.deliveryAnnotations.value, exact)) else None,
      if m.messageAnnotations.Some? then Some(ConvertMap(m.messageAnnotations.value, exact)) else None,
      if m.properties.Some? then Some(if exact then m.properties.value else PropertiesReadback(m.properties.value))
      else None,
      if m.applicationProperties.Some? then Some(ConvertMap(m.applicationProperties.value, exact)) else None,
      if m.footer.Some? then Some(ConvertMap(m.footer.value, exact)) else None,
      Body(
        m.body.data,
        seq(|m.body.sequence|, i requires 0 <= i < |m.body.sequence| => ConvertList(m.body.sequence[i], exact)),
        if m.body.value.Some? then Some(ConvertValue(m.body.value.value, exact)) else None))
  }

  function MessageOf(m: StoredMessage): PlainMessage {
    ConvertMessage(m, true)
  }

  function MessageReadback(m: StoredMessage): PlainMessage {
    ConvertMessage(m, false)
  }

  lemma DescriptorReadsBack(code: u64, body: seq<byte>, rest: seq<byte>)
    requires code > 0
    ensures V.DecodeDescriptor((V.EncodeDescriptor(V.Code(code)) + body) + rest) == Ok(body + rest, V.Code(code))
  {
    Associative(V.EncodeDescriptor(V.Code(code)), body, rest);
    VP.DecodeEncodeDescriptor(V.Code(code), body + rest);
  }

  /** The four sections that hold a map. */
  lemma MapSectionReadsBack(code: u64, t: V.MapType, cells: seq<V.Layout>, rest: seq<byte>)
    requires V.Stored(V.Table(cells)) && V.CellsHaveType(t, cells) && VP.AllNarrow(cells)
    requires V.Size(V.Table(cells)) < U32_LIMIT && code > 0
    ensures V.DecodeDescriptor((V.EncodeDescriptor(V.Code(code)) + V.Encode(V.Table(cells))) + rest)
         == Ok(V.Encode(V.Table(cells)) + rest, V.Code(code))
    ensures V.DecodeMap(t, V.Encode(V.Table(cells)) + rest) == Ok(rest, ConvertMap(cells, false))
  {
    DescriptorReadsBack(code, V.Encode(V.Table(cells)), rest);
    VP.DecodeEncodeMap(t, cells, rest);
  }

  lemma SplitDescriptor(code: u64, bytes: seq<byte>, rest: seq<byte>)
    requires code > 0 && V.EncodeDescriptor(V.Code(code)) <= bytes
    ensures V.DecodeDescriptor(bytes + rest).Ok? && V.DecodeDescriptor(bytes + rest).value == V.Code(code)
  {
    var d := V.EncodeDescriptor(V.Code(code));
    assert bytes == d + bytes[|d|..];
    DescriptorReadsBack(code, bytes[|d|..], rest);
  }

  lemma HeaderDescriptor(s: StoredSection, rest: seq<byte>)
    requires s.HeaderSection? || s.PropertiesSection?
    ensures V.DecodeDescriptor(EncodeSection(s) + rest).Ok?
    ensures V.DecodeDescriptor(EncodeSection(s) + rest).value
         == V.Code(if s.HeaderSection? then TC.HEADER else TC.PROPERTIES)
  {
    var code := if s.HeaderSection? then TC.HEADER else TC.PROPERTIES;
    SplitDescriptor(code, EncodeSection(s), rest);
  }

  lemma HeaderSectionReadsBack(s: StoredSection, rest: seq<byte>)
    requires s.HeaderSection?
    ensures DecodeSection(EncodeSection(s) + rest) == Ok(rest, ConvertSection(s, false))
  {
    HeaderDescriptor(s, rest);
    HeaderReadsBack(s.header, rest);
  }

  lemma PropertiesDispatch(input: seq<byte>, rest: seq<byte>, p: Properties)
    requires V.DecodeDescriptor(input).Ok? && V.DecodeDescriptor(input).value == V.Code(TC.PROPERTIES)
    requires DecodeProperties(input) == Ok(rest, p)
    ensures DecodeSection(input) == Ok(rest, PropertiesSection(p))
  {
  }

  lemma PropertiesSectionReadsBack(s: StoredSection, rest: seq<byte>)
    requires s.PropertiesSection?
    requires InMemory(s) && NarrowSection(s) && SectionSize(s) < U32_LIMIT
    ensures DecodeSection(EncodeSection(s) + rest) == Ok(rest, ConvertSection(s, false))
  {
    HeaderDescriptor(s, rest);
    PropertiesReadBack(s.properties, rest);
    PropertiesDispatch(EncodeSection(s) + rest, rest, PropertiesReadback(s.properties));
  }

  /** Which map a section of annotations decodes to. */
  lemma {:induction false} AnnotationsDispatch(code: u64, input: seq<byte>, body: seq<byte>, rest: seq<byte>,
                                               m: map<V.Value, V.Value>)
    requires V.DecodeDescriptor(input) == Ok(body, V.Code(code)) && V.DecodeMap(V.ANNOTATIONS, body) == Ok(rest, m)
    ensures code == TC.DELIVERY_ANNOTATIONS ==> DecodeSection(input) == Ok(rest, DeliveryAnnotations(m))
    ensures code == TC.MESSAGE_ANNOTATIONS ==> DecodeSection(input) == Ok(rest, MessageAnnotations(m))
    ensures code == TC.FOOTER ==> DecodeSection(input) == Ok(rest, Footer(m))
  {
  }

  lemma AnnotationsReadBack(code: u64, cells: seq<V.Layout>, rest: seq<byte>)
    requires V.Stored(V.Table(cells)) && V.CellsHaveType(V.ANNOTATIONS, cells) && VP.AllNarrow(cells)
    requires V.Size(V.Table(cells)) < U32_LIMIT
    requires code == TC.DELIVERY_ANNOTATIONS || code == TC.MESSAGE_ANNOTATIONS || code == TC.FOOTER
    ensures var r := DecodeSection((V.EncodeDescriptor(V.Code(code)) + V.Encode(V.Table(cells))) + rest);
            && (code == TC.DELIVERY_ANNOTATIONS ==> r == Ok(rest, DeliveryAnnotations(ConvertMap(cells, false))))
            && (code == TC.MESSAGE_ANNOTATIONS ==> r == Ok(rest, MessageAnnotations(ConvertMap(cells, false))))
            && (code == TC.FOOTER ==> r == Ok(rest, Footer(ConvertMap(cells, false))))
  {
    MapSectionReadsBack(code, V.ANNOTATIONS, cells, rest);
    AnnotationsDispatch(code, (V.EncodeDescriptor(V.Code(code)) + V.Encode(V.Table(cells))) + rest,
                        V.Encode(V.Table(cells)) + rest, rest, ConvertMap(cells, false));
  }

  lemma DeliveryAnnotationsReadBack(s: StoredSection, rest: seq<byte>)
    requires s.DeliveryAnnotations?
    requires InMemory(s) && NarrowSection(s) && SectionSize(s) < U32_LIMIT
    ensures DecodeSection(EncodeSection(s) + rest) == Ok(rest, ConvertSection(s, false))
  {
    AnnotationsReadBack(TC.DELIVERY_ANNOTATIONS, s.deliveryAnnotations, rest);
  }

  lemma MessageAnnotationsReadBack(s: StoredSection, rest: seq<byte>)
    requires s.MessageAnnotations?
    requires InMemory(s) && NarrowSection(s) && SectionSize(s) < U32_LIMIT
    ensures DecodeSection(EncodeSection(s) + rest) == Ok(rest, ConvertSection(s, false))
  {
    AnnotationsReadBack(TC.MESSAGE_ANNOTATIONS, s.messageAnnotations, rest);
  }

  lemma ApplicationPropertiesReadBack(s: StoredSection, rest: seq<byte>)
    requires s.ApplicationProperties?
    requires InMemory(s) && NarrowSection(s) && SectionSize(s) < U32_LIMIT
    ensures DecodeSection(EncodeSection(s) + rest) == Ok(rest, ConvertSection(s, false))
  {
    MapSectionReadsBack(TC.APPLICATION_PROPERTIES, V.APPLICATION_PROPERTIES, s.applicationProperties, rest);
  }

  lemma FooterReadsBack(s: StoredSection, rest: seq<byte>)
    requires s.Footer?
    requires InMemory(s) && NarrowSection(s) && SectionSize(s) < U32_LIMIT
    ensures DecodeSection(EncodeSection(s) + rest) == Ok(rest, ConvertSection(s, false))
  {
    AnnotationsReadBack(TC.FOOTER, s.footer, rest);
  }

  lemma DataReadsBack(s: StoredSection, rest: seq<byte>)
    requires s.Data?
    requires InMemory(s) && NarrowSection(s) && SectionSize(s) < U32_LIMIT
    ensures DecodeSection(EncodeSection(s) + rest) == Ok(rest, ConvertSection(s, false))
  {
    DescriptorReadsBack(TC.BODY_DATA, S.Encode(S.SimpleValue.Binary(s.data)), rest);
    S.DecodeEncode(S.SimpleValue.Binary(s.data), {S.Primitive.Binary}, rest);
  }

  lemma SequenceDispatch(input: seq<byte>, body: seq<byte>, rest: seq<byte>, items: seq<V.Value>)
    requires V.DecodeDescriptor(input) == Ok(body, V.Code(TC.BODY_SEQUENCE)) && V.DecodeList(body) == Ok(rest, items)
    ensures DecodeSection(input) == Ok(rest, AmqpSequence(items))
  {
  }

  lemma SequenceReadsBack(s: StoredSection, rest: seq<byte>)
    requires s.AmqpSequence?
    requires InMemory(s) && NarrowSection(s) && SectionSize(s) < U32_LIMIT
    ensures DecodeSection(EncodeSection(s) + rest) == Ok(rest, ConvertSection(s, false))
  {
    DescriptorReadsBack(TC.BODY_SEQUENCE, V.Encode(V.Sequence(s.sequence)), rest);
    VP.DecodeEncodeList(s.sequence, rest);
    SequenceDispatch(EncodeSection(s) + rest, V.Encode(V.Sequence(s.sequence)) + rest, rest,
                     ConvertList(s.sequence, false));
  }

  lemma ValueReadsBack(s: StoredSection, rest: seq<byte>)
    requires s.AmqpValue?
    requires InMemory(s) && NarrowSection(s) && SectionSize(s) < U32_LIMIT
    ensures DecodeSection(EncodeSection(s) + rest) == Ok(rest, ConvertSection(s, false))
  {
    DescriptorReadsBack(TC.BODY_VALUE, V.Encode(s.value), rest);
    VP.DecodeEncode(s.value, rest);
  }

  lemma SectionReadsBack(s: StoredSection, rest: seq<byte>)
    requires InMemory(s) && NarrowSection(s) && SectionSize(s) < U32_LIMIT
    ensures DecodeSection(EncodeSection(s) + rest) == Ok(rest, ConvertSection(s, false))
  {
    match s
    case HeaderSection(_) => HeaderSectionReadsBack(s, rest);
    case PropertiesSection(_) => PropertiesSectionReadsBack(s, rest);
    case DeliveryAnnotations(_) => DeliveryAnnotationsReadBack(s, rest);
    case MessageAnnotations(_) => MessageAnnotationsReadBack(s, rest);
    case ApplicationProperties(_) => ApplicationPropertiesReadBack(s, rest);
    case Footer(_) => FooterReadsBack(s, rest);
    case Data(_) => DataReadsBack(s, rest);
    case AmqpSequence(_) => SequenceReadsBack(s, rest);
    case AmqpValue(_) => ValueReadsBack(s, rest);
  }

  // ----- Rebuilding a message from its sections -----

  function ApplyAll<M, L, E>(m: Message<M, L, E>, ss: seq<Section<M, L, E>>): Message<M, L, E>
    decreases |ss|
  {
    if ss == [] then m else ApplyAll(Apply(m, ss[0]), ss[1..])
  }

  function ConvertSections(ss: seq<StoredSection>, exact: bool): (r: seq<PlainSection>)
    ensures |r| == |ss|
  {
    seq(|ss|, i requires 0 <= i < |ss| => ConvertSection(ss[i], exact))
  }

  lemma {:induction false} SectionsReadBack(ss: seq<StoredSection>, m: PlainMessage)
    requires forall s | s in ss :: InMemory(s) && NarrowSection(s)
    requires SectionsSize(ss) < U32_LIMIT
    ensures DecodeSections(EncodeSections(ss), m) == Ok([], ApplyAll(m, ConvertSections(ss, false)))
    decreases |ss|
  {
    if ss != [] {
      var rest := EncodeSections(ss[1..]);
      SectionReadsBack(ss[0], rest);
      assert EncodeSections(ss) == EncodeSection(ss[0]) + rest;
      assert EncodeSections(ss) != [];
      SectionsReadBack(ss[1..], Apply(m, ConvertSection(ss[0], false)));
      assert ConvertSections(ss, false)[1..] == ConvertSections(ss[1..], false);
    }
  }

  lemma ApplyAllAppend<M, L, E>(m: Message<M, L, E>, a: seq<Section<M, L, E>>, b: seq<Section<M, L, E>>)
    ensures ApplyAll(m, a + b) == ApplyAll(ApplyAll(m, a), b)
    decreases |a|
  {
    if a == [] {
      assert a + b == b;
    } else {
      assert (a + b)[1..] == a[1..] + b;
      ApplyAllAppend(Apply(m, a[0]), a[1..], b);
    }
  }

  lemma ApplyData<M, L, E>(m: Message<M, L, E>, data: seq<seq<byte>>)
    ensures ApplyAll(m, DataSections<M, L, E>(data)) == m.(body := m.body.(data := m.body.data + data))
    decreases |data|
  {
    if data != [] {
      assert DataSections<M, L, E>(data)[1..] == DataSections(data[1..]);
      ApplyData(Apply(m, Data(data[0])), data[1..]);
      assert m.body.data + [data[0]] + data[1..] == m.body.data + data;
    } else {
      assert m.body.data + data == m.body.data;
    }
  }

  lemma ApplySequences<M, L, E>(m: Message<M, L, E>, sequence: seq<L>)
    ensures ApplyAll(m, SequenceSections<M, L, E>(sequence))
         == m.(body := m.body.(sequence := m.body.sequence + sequence))
    decreases |sequence|
  {
    if sequence != [] {
      assert SequenceSections<M, L, E>(sequence)[1..] == SequenceSections(sequence[1..]);
      ApplySequences(Apply(m, AmqpSequence(sequence[0])), sequence[1..]);
      assert m.body.sequence + [sequence[0]] + sequence[1..] == m.body.sequence + sequence;
    } else {
      assert m.body.sequence + sequence == m.body.sequence;
    }
  }

  /** Applying a message's sections in writing order to the empty message gives the message. */
  lemma Rebuild<M, L, E>(m: Message<M, L, E>)
    ensures ApplyAll(Empty(), Sections(m)) == m
  {
    var lead := Front(m);
    RebuildFront(m);
    var data := lead.(body := Body(m.body.data, [], None));
    var sequences := lead.(body := Body(m.body.data, m.body.sequence, None));
    ApplyData(lead, m.body.data);
    ApplySequences(data, m.body.sequence);
    assert [] + m.body.data == m.body.data && [] + m.body.sequence == m.body.sequence;
    ApplyAllAppend(lead, DataSections<M, L, E>(m.body.data), SequenceSections(m.body.sequence));
    ApplyAllAppend(lead, DataSections(m.body.data) + SequenceSections(m.body.sequence),
                   if m.body.value.Some? then [AmqpValue(m.body.value.value)] else []);
    var front := AnnotationSections(m) + PropertySections(m);
    ApplyAllAppend(Empty(), front, BodySections(m.body));
    ApplyAllAppend(Empty(), front + BodySections(m.body), FooterSections(m.footer));
  }

  /** The message with only its sections in front of the body. */
  function Front<M, L, E>(m: Message<M, L, E>): Message<M, L, E> {
    m.(footer := None, body := Body([], [], None))
  }

  lemma RebuildFront<M, L, E>(m: Message<M, L, E>)
    ensures ApplyAll(Empty(), AnnotationSections(m) + PropertySections(m)) == Front(m)
  {
    var h: seq<Section<M, L, E>> := if m.header.Some? then [HeaderSection(m.header.value)] else [];
    var d: seq<Section<M, L, E>> :=
      if m.deliveryAnnotations.Some? then [DeliveryAnnotations(m.deliveryAnnotations.value)] else [];
    var a: seq<Section<M, L, E>> :=
      if m.messageAnnotations.Some? then [MessageAnnotations(m.messageAnnotations.value)] else [];
    var p: seq<Section<M, L, E>> := if m.properties.Some? then [PropertiesSection(m.properties.value)] else [];
    var x: seq<Section<M, L, E>> :=
      if m.applicationProperties.Some? then [ApplicationProperties(m.applicationProperties.value)] else [];
    ApplyAllAppend(Empty<M, L, E>(), h, d);
    ApplyAllAppend(Empty<M, L, E>(), h + d, a);
    var annotated := Empty<M, L, E>().(header := m.header, deliveryAnnotations := m.deliveryAnnotations,
                                       messageAnnotations := m.messageAnnotations);
    assert ApplyAll(Empty(), AnnotationSections(m)) == annotated;
    ApplyAllAppend(annotated, p, x);
    ApplyAllAppend(Empty(), AnnotationSections(m), PropertySections(m));
  }

  lemma ConvertAppend(a: seq<StoredSection>, b: seq<StoredSection>, exact: bool)
    ensures ConvertSections(a + b, exact) == ConvertSections(a, exact) + ConvertSections(b, exact)
  {
  }

  lemma AnnotationsConvert(m: StoredMessage, exact: bool)
    ensures AnnotationSections(ConvertMessage(m, exact)) == ConvertSections(AnnotationSections(m), exact)
  {
    var h: seq<StoredSection> := if m.header.Some? then [HeaderSection(m.header.value)] else [];
    var d: seq<StoredSection> :=
      if m.deliveryAnnotations.Some? then [DeliveryAnnotations(m.deliveryAnnotations.value)] else [];
    var a: seq<StoredSection> :=
      if m.messageAnnotations.Some? then [MessageAnnotations(m.messageAnnotations.value)] else [];
    ConvertAppend(h, d, exact);
    ConvertAppend(h + d, a, exact);
  }

  lemma PropertiesConvert(m: StoredMessage, exact: bool)
    ensures PropertySections(ConvertMessage(m, exact)) == ConvertSections(PropertySections(m), exact)
  {
  }

  lemma BodyConvert(m: StoredMessage, exact: bool)
    ensures BodySections(ConvertMessage(m, exact).body) == ConvertSections(BodySections(m.body), exact)
  {
    var data: seq<StoredSection> := DataSections(m.body.data);
    var sequences: seq<StoredSection> := SequenceSections(m.body.sequence);
    var value: seq<StoredSection> := if m.body.value.Some? then [AmqpValue(m.body.value.value)] else [];
    ConvertAppend(data, sequences, exact);
    ConvertAppend(data + sequences, value, exact);
    assert ConvertSections(data, exact) == DataSections(m.body.data);
    assert ConvertSections(sequences, exact) == SequenceSections(ConvertMessage(m, exact).body.sequence);
  }

  lemma SectionsConvert(m: StoredMessage, exact: bool)
    ensures Sections(ConvertMessage(m, exact)) == ConvertSections(Sections(m), exact)
  {
    AnnotationsConvert(m, exact);
    PropertiesConvert(m, exact);
    BodyConvert(m, exact);
    var front := AnnotationSections(m) + PropertySections(m);
    ConvertAppend(AnnotationSections(m), PropertySections(m), exact);
    ConvertAppend(front, BodySections(m.body), exact);
    ConvertAppend(front + BodySections(m.body), FooterSections(m.footer), exact);
  }

  // ----- The message round trip -----

  predicate MessageInMemory(m: StoredMessage) {
    forall s | s in Sections(m) :: InMemory(s)
  }

  predicate NarrowMessage(m: StoredMessage) {
    forall s | s in Sections(m) :: NarrowSection(s)
  }

  predicate RestoredProperties(p: Properties) {
    forall f | f in PropertyFields(p) :: f.Some? ==> S.Restored(f.value)
  }

  /** Nothing in the section is changed by decoding. */
  predicate RestoredSection(s: PlainSection) {
    match s
    case HeaderSection(_) => true
    case PropertiesSection(p) => RestoredProperties(p)
    case DeliveryAnnotations(m) => VE.Restored(V.Map(m))
    case MessageAnnotations(m) => VE.Restored(V.Map(m))
    case Footer(m) => VE.Restored(V.Map(m))
    case ApplicationProperties(m) => VE.Restored(V.Map(m))
    case Data(_) => true
    case AmqpSequence(items) => VE.Restored(V.List(items))
    case AmqpValue(v) => VE.Restored(v)
  }

  predicate RestoredMessage(m: PlainMessage) {
    forall s | s in Sections(m) :: RestoredSection(s)
  }

  lemma LayoutRestored(l: V.Layout)
    requires V.Stored(l)
    ensures VP.Readback(l) == V.ValueOf(l) <==> VE.Restored(V.ValueOf(l))
  {
    VE.ReadbackIsRestored(l);
    if VE.Restored(V.ValueOf(l)) {
      VE.RestoredReadsBack(l);
    }
  }

  lemma FieldsRestored(fields: seq<Field>)
    ensures FieldsReadback(fields) == fields
       <==> forall i | 0 <= i < |fields| && fields[i].Some? :: S.Restored(fields[i].value)
  {
    forall i | 0 <= i < |fields|
      ensures FieldReadback(fields[i]) == fields[i] <==> (fields[i].Some? ==> S.Restored(fields[i].value))
    {
      if fields[i].Some? {
        S.RestoredExactly(fields[i].value);
      }
    }
    assert FieldsReadback(fields) == fields <==> forall i | 0 <= i < |fields| :: FieldsReadback(fields)[i] == fields[i];
  }

  lemma PropertiesRestored(p: Properties)
    ensures PropertiesReadback(p) == p <==> RestoredProperties(p)
  {
    var fields := PropertyFields(p);
    assert PropertiesOf(fields) == p;
    assert PropertyFields(PropertiesReadback(p)) == FieldsReadback(fields);
    FieldsRestored(fields);
  }

  lemma SectionRestored(s: StoredSection)
    requires InMemory(s)
    ensures ConvertSection(s, false) == ConvertSection(s, true) <==> RestoredSection(ConvertSection(s, true))
  {
    match s
    case HeaderSection(_) =>
    case PropertiesSection(p) => PropertiesRestored(p);
    case DeliveryAnnotations(cells) => LayoutRestored(V.Table(cells));
    case MessageAnnotations(cells) => LayoutRestored(V.Table(cells));
    case Footer(cells) => LayoutRestored(V.Table(cells));
    case ApplicationProperties(cells) => LayoutRestored(V.Table(cells));
    case Data(_) =>
    case AmqpSequence(items) => LayoutRestored(V.Sequence(items));
    case AmqpValue(l) => LayoutRestored(l);
  }

  lemma MessageRestored(m: StoredMessage)
    requires MessageInMemory(m)
    ensures MessageReadback(m) == MessageOf(m) <==> RestoredMessage(MessageOf(m))
  {
    var ss := Sections(m);
    var back, exact := ConvertSections(ss, false), ConvertSections(ss, true);
    SectionsConvert(m, false);
    SectionsConvert(m, true);
    Rebuild(MessageReadback(m));
    Rebuild(MessageOf(m));
    assert MessageReadback(m) == MessageOf(m) <==> back == exact;
    forall i | 0 <= i < |ss|
      ensures back[i] == exact[i] <==> RestoredSection(exact[i])
    {
      SectionRestored(ss[i]);
    }
  }

  /** A message is rebuilt field for field from its own encoding, consuming all of it; what comes
      back is the message itself exactly when it holds no int in -128..-1 and no timestamp finer
      than a millisecond. */
  lemma RoundTrip(m: StoredMessage)
    requires MessageInMemory(m) && NarrowMessage(m) && Size(m) < U32_LIMIT
    ensures Decode(Encode(m)) == Ok([], MessageReadback(m))
    ensures Decode(Encode(m)) == Ok([], MessageOf(m)) <==> RestoredMessage(MessageOf(m))
  {
    SectionsReadBack(Sections(m), Empty());
    SectionsConvert(m, false);
    Rebuild(MessageReadback(m));
    MessageRestored(m);
  }

  // ----- Message sizes -----

  function FieldOvercount(f: Field): nat {
    match f
    case Some(s) => S.Overcount(s)
    case None => 0
  }

  function FieldsOvercount(fields: seq<Field>): nat {
    if fields == [] then 0 else FieldOvercount(fields[0]) + FieldsOvercount(fields[1..])
  }

  lemma {:induction false} SizeOfFields(fields: seq<Field>)
    ensures FieldsSize(fields) == |EncodeFields(fields)| + FieldsOvercount(fields)
  {
    if fields != [] {
      if fields[0].Some? {
        S.SizeOfEncoding(fields[0].value);
      }
      SizeOfFields(fields[1..]);
    }
  }

  /** Properties whose content takes 253 or 254 bytes report six bytes too many. */
  predicate Borderline(p: Properties) {
    253 <= FieldsSize(PropertyFields(p)) <= 254
  }

  /** The bytes that `encoded_size` reports beyond those written: one for each small long, and six
      for borderline properties. */
  function SectionOvercount(s: StoredSection): nat {
    match s
    case HeaderSection(_) => 0
    case PropertiesSection(p) => FieldsOvercount(PropertyFields(p)) + if Borderline(p) then 6 else 0
    case DeliveryAnnotations(cells) => VE.OvercountAll(cells)
    case MessageAnnotations(cells) => VE.OvercountAll(cells)
    case Footer(cells) => VE.OvercountAll(cells)
    case ApplicationProperties(cells) => VE.OvercountAll(cells)
    case Data(_) => 0
    case AmqpSequence(items) => VE.OvercountAll(items)
    case AmqpValue(l) => VE.Overcount(l)
  }

  function SectionsOvercount(ss: seq<StoredSection>): nat {
    if ss == [] then 0 else SectionOvercount(ss[0]) + SectionsOvercount(ss[1..])
  }

  function Overcount(m: StoredMessage): nat {
    SectionsOvercount(Sections(m))
  }

  lemma SizeOfHeader(h: Header)
    ensures HeaderSize(h) == |EncodeHeader(h)|
  {
    HeaderFieldsReadBack(h);
    SizeOfFields(HeaderFields(h));
    assert FieldsOvercount(HeaderFields(h)) == 0 by {
      NoLongs(HeaderFields(h));
    }
    VE.SizeOfDescriptor(V.Code(TC.HEADER));
  }

  lemma NoLongs(fields: seq<Field>)
    requires forall i | 0 <= i < |fields| :: fields[i].Some? ==> !fields[i].value.Long?
    ensures FieldsOvercount(fields) == 0
  {
  }

  lemma SizeOfProperties(p: Properties)
    ensures PropertiesSize(p) == |EncodeProperties(p)| + SectionOvercount(PropertiesSection(p))
  {
    SizeOfFields(PropertyFields(p));
    VE.SizeOfDescriptor(V.Code(TC.PROPERTIES));
  }

  lemma SizeOfSection(s: StoredSection)
    ensures SectionSize(s) == |EncodeSection(s)| + SectionOvercount(s)
  {
    match s
    case HeaderSection(h) => SizeOfHeader(h);
    case PropertiesSection(p) => SizeOfProperties(p);
    case DeliveryAnnotations(cells) =>
      VE.SizeOfDescriptor(V.Code(TC.DELIVERY_ANNOTATIONS));
      VE.SizeOfEncoding(V.Table(cells));
    case MessageAnnotations(cells) =>
      VE.SizeOfDescriptor(V.Code(TC.MESSAGE_ANNOTATIONS));
      VE.SizeOfEncoding(V.Table(cells));
    case Footer(cells) => VE.SizeOfDescriptor(V.Code(TC.FOOTER)); VE.SizeOfEncoding(V.Table(cells));
    case ApplicationProperties(cells) =>
      VE.SizeOfDescriptor(V.Code(TC.APPLICATION_PROPERTIES));
      VE.SizeOfEncoding(V.Table(cells));
    case Data(data) => VE.SizeOfDescriptor(V.Code(TC.BODY_DATA)); S.SizeOfEncoding(S.SimpleValue.Binary(data));
    case AmqpSequence(items) => VE.SizeOfDescriptor(V.Code(TC.BODY_SEQUENCE)); VE.SizeOfEncoding(V.Sequence(items));
    case AmqpValue(l) => VE.SizeOfDescriptor(V.Code(TC.BODY_VALUE)); VE.SizeOfEncoding(l);
  }

  lemma {:induction false} SizeOfSections(ss: seq<StoredSection>)
    ensures SectionsSize(ss) == |EncodeSections(ss)| + SectionsOvercount(ss)
  {
    if ss != [] {
      SizeOfSection(ss[0]);
      SizeOfSections(ss[1..]);
    }
  }

  /** `encoded_size` and the bytes written differ by exactly the overcount. */
  lemma SizeOfEncoding(m: StoredMessage)
    ensures Size(m) == |Encode(m)| + Overcount(m)
  {
    SizeOfSections(Sections(m));
  }
}
