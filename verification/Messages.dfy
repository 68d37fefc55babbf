/** AMQP messages: composite sections, body and the section loop
    (message/amqp/header.rs, properties.rs, section.rs, body.rs, message.rs and
    `List::decode_with_fields`). */
module Messages {
  import opened Bytes
  import S = Simple
  import TC = TypeCodes
  import V = Values

  // ----- Composites: lists of optional primitives -----

  type Field = Option<S.SimpleValue>

  /** How one field of a composite is decoded: the types it may have, and what a null stands for. */
  datatype FieldSpec = FieldSpec(types: set<S.Primitive>, absent: Field)

  const HEADER_FIELDS: seq<FieldSpec> := [
    FieldSpec({S.Primitive.Boolean}, Some(S.SimpleValue.Boolean(false))),
    FieldSpec({S.Primitive.UByte}, Some(S.SimpleValue.UByte(4))),
    FieldSpec({S.Primitive.UInt}, None),
    FieldSpec({S.Primitive.Boolean}, Some(S.SimpleValue.Boolean(false))),
    FieldSpec({S.Primitive.UInt}, Some(S.SimpleValue.UInt(4)))
  ]

  const MESSAGE_ID: FieldSpec :=
    FieldSpec({S.Primitive.ULong, S.Primitive.Long, S.Primitive.Uuid, S.Primitive.Binary, S.Primitive.Str}, None)
  const TEXT: FieldSpec := FieldSpec({S.Primitive.Str}, None)
  const SYMBOL: FieldSpec := FieldSpec({S.Primitive.Symbol}, None)
  const TIME: FieldSpec := FieldSpec({S.Primitive.Timestamp}, None)

  const PROPERTY_FIELDS: seq<FieldSpec> := [
    MESSAGE_ID, FieldSpec({S.Primitive.Binary}, None), TEXT, TEXT, TEXT, MESSAGE_ID,
    SYMBOL, SYMBOL, TIME, TIME, TEXT, FieldSpec({S.Primitive.UInt}, None), TEXT
  ]

  predicate HasFieldType(spec: FieldSpec, f: Field) {
    match f
    case Some(s) => S.KindOf(s) in spec.types
    case None => spec.absent.None?
  }

  predicate WellTyped(specs: seq<FieldSpec>, fields: seq<Field>) {
    |fields| == |specs| && forall i | 0 <= i < |specs| :: HasFieldType(specs[i], fields[i])
  }

  function FieldSize(f: Field): nat {
    match f
    case Some(s) => S.Size(s)
    case None => 1
  }

  function FieldsSize(fields: seq<Field>): nat {
    if fields == [] then 0 else FieldSize(fields[0]) + FieldsSize(fields[1..])
  }

  function EncodeField(f: Field): seq<byte> {
    match f
    case Some(s) => S.Encode(s)
    case None => S.Tagged(TC.Null, [])
  }

  function EncodeFields(fields: seq<Field>): seq<byte> {
    if fields == [] then [] else EncodeField(fields[0]) + EncodeFields(fields[1..])
  }

  /** `Option::<T>::decode`. */
  function DecodeField(types: set<S.Primitive>, input: seq<byte>): (r: Outcome<Field>)
    ensures r.Ok? ==> |r.rest| < |input| && (r.value.Some? ==> S.KindOf(r.value.value) in types)
  {
    var (rest, t) :- TC.DecodeTypeCode(input);
    if t == TC.Null then Ok(rest, None) else
      var (rest, s) :- S.DecodeOneOf(types, input);
      Ok(rest, Some(s))
  }

  predicate TypedDefaults(specs: seq<FieldSpec>) {
    forall i | 0 <= i < |specs| :: HasFieldType(specs[i], specs[i].absent)
  }

  /** Fill `dest` from field `idx` up to field `count`. Fields beyond the last one known read
      nothing. */
  function DecodeFields(specs: seq<FieldSpec>, input: seq<byte>, idx: nat, count: nat, dest: seq<Field>)
    : (r: Outcome<seq<Field>>)
    requires WellTyped(specs, dest) && TypedDefaults(specs)
    ensures r.Ok? ==> WellTyped(specs, r.value) && |r.rest| <= |input|
    decreases count - idx
  {
    if idx >= count then Ok(input, dest)
    else if idx < |specs| then
      var (rest, f) :- DecodeField(specs[idx].types, input);
      DecodeFields(specs, rest, idx + 1, count, dest[idx := if f.None? then specs[idx].absent else f])
    else DecodeFields(specs, input, idx + 1, count, dest)
  }

  /** `List::decode_with_fields`. */
  function DecodeWithFields(specs: seq<FieldSpec>, input: seq<byte>, dest: seq<Field>): (r: Outcome<seq<Field>>)
    requires WellTyped(specs, dest) && TypedDefaults(specs)
    ensures r.Ok? ==> WellTyped(specs, r.value) && |r.rest| < |input|
  {
    var (rest, t) :- TC.DecodeTypeCode(input);
    match t
    case List0 => Ok(rest, dest)
    case List8 => var (rest, count) :- V.DecodeCount(1, rest); DecodeFields(specs, rest, 0, count, dest)
    case List32 => var (rest, count) :- V.DecodeCount(4, rest); DecodeFields(specs, rest, 0, count, dest)
    case _ => Err(MessageParse)
  }

  function DecodeComposite(code: u64, specs: seq<FieldSpec>, input: seq<byte>, dest: seq<Field>)
    : (r: Outcome<seq<Field>>)
    requires WellTyped(specs, dest) && TypedDefaults(specs)
    ensures r.Ok? ==> WellTyped(specs, r.value) && |r.rest| < |input|
  {
    var (rest, d) :- V.DecodeDescriptor(input);
    if d == V.Code(code) then DecodeWithFields(specs, rest, dest) else Err(MessageParse)
  }

  /** The size of every section descriptor. */
  const DESCRIPTOR_SIZE: nat := 3

  // ----- Header -----

  datatype Header = Header(durable: bool, priority: byte, ttl: Option<u32>, firstAcquirer: bool, deliveryCount: u32)

  const DEFAULT_HEADER := Header(false, 4, None, false, 0)

  function HeaderFields(h: Header): (r: seq<Field>)
    ensures WellTyped(HEADER_FIELDS, r)
  {
    [Some(S.SimpleValue.Boolean(h.durable)),
     Some(S.SimpleValue.UByte(h.priority)),
     match h.ttl case Some(n) => Some(S.SimpleValue.UInt(n)) case None => None,
     Some(S.SimpleValue.Boolean(h.firstAcquirer)),
     Some(S.SimpleValue.UInt(h.deliveryCount))]
  }

  function HeaderOf(fields: seq<Field>): Header
    requires WellTyped(HEADER_FIELDS, fields)
  {
    assert forall i | 0 <= i < 5 :: HasFieldType(HEADER_FIELDS[i], fields[i]);
    Header(fields[0].value.b, fields[1].value.ubyte,
           match fields[2] case Some(s) => Some(s.uint) case None => None,
           fields[3].value.b, fields[4].value.uint)
  }

  function HeaderSize(h: Header): nat {
    var size := FieldsSize(HeaderFields(h)) + DESCRIPTOR_SIZE;
    (if size > 0xFF then 9 else 3) + size
  }

  function EncodeHeader(h: Header): seq<byte> {
    var size := FieldsSize(HeaderFields(h));
    V.EncodeDescriptor(V.Code(TC.HEADER))
    + (if size + DESCRIPTOR_SIZE > 0xFF then S.Tagged(TC.List8, BigEndian(4, size + 4) + BigEndian(4, 5))
       else S.Tagged(TC.List8, BigEndian(1, size + 4) + BigEndian(1, 5)))
    + EncodeFields(HeaderFields(h))
  }

  function DecodeHeader(input: seq<byte>): (r: Outcome<Header>)
    ensures r.Ok? ==> |r.rest| < |input|
  {
    var (rest, fields) :- DecodeComposite(TC.HEADER, HEADER_FIELDS, input, HeaderFields(DEFAULT_HEADER));
    Ok(rest, HeaderOf(fields))
  }

  // ----- Properties -----

  datatype Properties = Properties(
    messageId: Field, userId: Field, to: Field, subject: Field, replyTo: Field, correlationId: Field,
    contentType: Field, contentEncoding: Field, absoluteExpiryTime: Field, creationTime: Field,
    groupId: Field, groupSequence: Field, replyToGroupId: Field)

  const NO_PROPERTIES := Properties(None, None, None, None, None, None, None, None, None, None, None, None, None)

  function PropertyFields(p: Properties): (r: seq<Field>)
    ensures |r| == |PROPERTY_FIELDS|
  {
    [p.messageId, p.userId, p.to, p.subject, p.replyTo, p.correlationId, p.contentType, p.contentEncoding,
     p.absoluteExpiryTime, p.creationTime, p.groupId, p.groupSequence, p.replyToGroupId]
  }

  function PropertiesOf(fields: seq<Field>): Properties
    requires |fields| == |PROPERTY_FIELDS|
  {
    Properties(fields[0], fields[1], fields[2], fields[3], fields[4], fields[5], fields[6], fields[7],
               fields[8], fields[9], fields[10], fields[11], fields[12])
  }

  /** Reported with a threshold that counts the descriptor; written with one that does not. */
  function PropertiesSize(p: Properties): nat {
    var size := DESCRIPTOR_SIZE + FieldsSize(PropertyFields(p));
    (if size > 0xFF then 9 else 3) + size
  }

  function EncodeProperties(p: Properties): seq<byte> {
    V.EncodeDescriptor(V.Code(TC.PROPERTIES))
    + V.ListHeader(FieldsSize(PropertyFields(p)), 13)
    + EncodeFields(PropertyFields(p))
  }

  function DecodeProperties(input: seq<byte>): (r: Outcome<Properties>)
    ensures r.Ok? ==> |r.rest| < |input|
  {
    var (rest, fields) :- DecodeComposite(TC.PROPERTIES, PROPERTY_FIELDS, input, PropertyFields(NO_PROPERTIES));
    Ok(rest, PropertiesOf(fields))
  }

  // ----- Sections and messages -----

  /** `M`, `L` and `E` are maps, lists and values: layouts in memory, plain values once decoded. */
  datatype Section<M, L, E> =
    | HeaderSection(header: Header)
    | DeliveryAnnotations(deliveryAnnotations: M)
    | MessageAnnotations(messageAnnotations: M)
    | PropertiesSection(properties: Properties)
    | ApplicationProperties(applicationProperties: M)
    | Data(data: seq<byte>)
    | AmqpSequence(sequence: L)
    | AmqpValue(value: E)
    | Footer(footer: M)

  datatype Body<L, E> = Body(data: seq<seq<byte>>, sequence: seq<L>, value: Option<E>)

  datatype Message<M, L, E> = Message(
    header: Option<Header>,
    deliveryAnnotations: Option<M>,
    messageAnnotations: Option<M>,
    properties: Option<Properties>,
    applicationProperties: Option<M>,
    footer: Option<M>,
    body: Body<L, E>)

  type StoredSection = Section<seq<V.Layout>, seq<V.Layout>, V.Layout>
  type StoredMessage = Message<seq<V.Layout>, seq<V.Layout>, V.Layout>
  type PlainSection = Section<map<V.Value, V.Value>, seq<V.Value>, V.Value>
  type PlainMessage = Message<map<V.Value, V.Value>, seq<V.Value>, V.Value>

  function Empty<M, L, E>(): Message<M, L, E> {
    Message(None, None, None, None, None, None, Body([], [], None))
  }

  /** Record one section in the message: data and sequences accumulate, the others replace. */
  function Apply<M, L, E>(m: Message<M, L, E>, s: Section<M, L, E>): Message<M, L, E> {
    match s
    case HeaderSection(x) => m.(header := Some(x))
    case DeliveryAnnotations(x) => m.(deliveryAnnotations := Some(x))
    case MessageAnnotations(x) => m.(messageAnnotations := Some(x))
    case PropertiesSection(x) => m.(properties := Some(x))
    case ApplicationProperties(x) => m.(applicationProperties := Some(x))
    case Data(x) => m.(body := m.body.(data := m.body.data + [x]))
    case AmqpSequence(x) => m.(body := m.body.(sequence := m.body.sequence + [x]))
    case AmqpValue(x) => m.(body := m.body.(value := Some(x)))
    case Footer(x) => m.(footer := Some(x))
  }

  function DecodeSection(input: seq<byte>): (r: Outcome<PlainSection>)
    ensures r.Ok? ==> |r.rest| < |input|
  {
    var (remaining, d) :- V.DecodeDescriptor(input);
    if d == V.Code(TC.HEADER) then
      var (rest, x) :- DecodeHeader(input); Ok(rest, HeaderSection(x))
    else if d == V.Code(TC.BODY_DATA) then
      var (rest, x) :- S.DecodeOneOf({S.Primitive.Binary}, remaining); Ok(rest, Data(x.data))
    else if d == V.Code(TC.PROPERTIES) then
      var (rest, x) :- DecodeProperties(input); Ok(rest, PropertiesSection(x))
    else if d == V.Code(TC.BODY_VALUE) then
      var (rest, x) :- V.DecodeValue(remaining); Ok(rest, AmqpValue(x))
    else if d == V.Code(TC.APPLICATION_PROPERTIES) then
      var (rest, x) :- V.DecodeMap(V.APPLICATION_PROPERTIES, remaining); Ok(rest, ApplicationProperties(x))
    else if d == V.Code(TC.MESSAGE_ANNOTATIONS) then
      var (rest, x) :- V.DecodeMap(V.ANNOTATIONS, remaining); Ok(rest, MessageAnnotations(x))
    else if d == V.Code(TC.BODY_SEQUENCE) then
      var (rest, x) :- V.DecodeList(remaining); Ok(rest, AmqpSequence(x))
    else if d == V.Code(TC.DELIVERY_ANNOTATIONS) then
      var (rest, x) :- V.DecodeMap(V.ANNOTATIONS, remaining); Ok(rest, DeliveryAnnotations(x))
    else if d == V.Code(TC.FOOTER) then
      var (rest, x) :- V.DecodeMap(V.ANNOTATIONS, remaining); Ok(rest, Footer(x))
    else Err(MessageParse)
  }

  /** The section loop: read sections into `m` until the input is used up. */
  function DecodeSections(input: seq<byte>, m: PlainMessage): (r: Outcome<PlainMessage>)
    ensures r.Ok? ==> r.rest == []
    decreases |input|
  {
    if input == [] then Ok([], m) else
      var (rest, s) :- DecodeSection(input);
      DecodeSections(rest, Apply(m, s))
  }

  function Decode(input: seq<byte>): (r: Outcome<PlainMessage>)
    ensures r.Ok? ==> r.rest == []
  {
    DecodeSections(input, Empty())
  }

  // ----- Encoding -----

  function DataSections<M, L, E>(data: seq<seq<byte>>): (r: seq<Section<M, L, E>>) {
    seq(|data|, i requires 0 <= i < |data| => Data(data[i]))
  }

  function SequenceSections<M, L, E>(sequence: seq<L>): (r: seq<Section<M, L, E>>) {
    seq(|sequence|, i requires 0 <= i < |sequence| => AmqpSequence(sequence[i]))
  }

  function AnnotationSections<M, L, E>(m: Message<M, L, E>): seq<Section<M, L, E>> {
    (if m.header.Some? then [HeaderSection(m.header.value)] else [])
    + (if m.deliveryAnnotations.Some? then [DeliveryAnnotations(m.deliveryAnnotations.value)] else [])
    + (if m.messageAnnotations.Some? then [MessageAnnotations(m.messageAnnotations.value)] else [])
  }

  function PropertySections<M, L, E>(m: Message<M, L, E>): seq<Section<M, L, E>> {
    (if m.properties.Some? then [PropertiesSection(m.properties.value)] else [])
    + (if m.applicationProperties.Some? then [ApplicationProperties(m.applicationProperties.value)] else [])
  }

  function BodySections<M, L, E>(body: Body<L, E>): seq<Section<M, L, E>> {
    DataSections(body.data)
    + SequenceSections(body.sequence)
    + (if body.value.Some? then [AmqpValue(body.value.value)] else [])
  }

  function FooterSections<M, L, E>(footer: Option<M>): seq<Section<M, L, E>> {
    if footer.Some? then [Footer(footer.value)] else []
  }

  /** The sections of a message in the order in which they are written. */
  function Sections<M, L, E>(m: Message<M, L, E>): seq<Section<M, L, E>> {
    AnnotationSections(m) + PropertySections(m) + BodySections(m.body) + FooterSections(m.footer)
  }

  function EncodeSection(s: StoredSection): seq<byte> {
    match s
    case HeaderSection(h) => EncodeHeader(h)
    case DeliveryAnnotations(cells) => V.EncodeDescriptor(V.Code(TC.DELIVERY_ANNOTATIONS)) + V.Encode(V.Table(cells))
    case MessageAnnotations(cells) => V.EncodeDescriptor(V.Code(TC.MESSAGE_ANNOTATIONS)) + V.Encode(V.Table(cells))
    case PropertiesSection(p) => EncodeProperties(p)
    case ApplicationProperties(cells) =>
      V.EncodeDescriptor(V.Code(TC.APPLICATION_PROPERTIES)) + V.Encode(V.Table(cells))
    case Data(data) => V.EncodeDescriptor(V.Code(TC.BODY_DATA)) + S.Encode(S.SimpleValue.Binary(data))
    case AmqpSequence(items) => V.EncodeDescriptor(V.Code(TC.BODY_SEQUENCE)) + V.Encode(V.Sequence(items))
    case AmqpValue(l) => V.EncodeDescriptor(V.Code(TC.BODY_VALUE)) + V.Encode(l)
    case Footer(cells) => V.EncodeDescriptor(V.Code(TC.FOOTER)) + V.Encode(V.Table(cells))
  }

  function EncodeSections(ss: seq<StoredSection>): seq<byte> {
    if ss == [] then [] else EncodeSection(ss[0]) + EncodeSections(ss[1..])
  }

  function Encode(m: StoredMessage): seq<byte> {
    EncodeSections(Sections(m))
  }

  function SectionSize(s: StoredSection): nat {
    match s
    case HeaderSection(h) => HeaderSize(h)
    case DeliveryAnnotations(cells) => DESCRIPTOR_SIZE + V.Size(V.Table(cells))
    case MessageAnnotations(cells) => DESCRIPTOR_SIZE + V.Size(V.Table(cells))
    case PropertiesSection(p) => PropertiesSize(p)
    case ApplicationProperties(cells) => DESCRIPTOR_SIZE + V.Size(V.Table(cells))
    case Data(data) => DESCRIPTOR_SIZE + S.Size(S.SimpleValue.Binary(data))
    case AmqpSequence(items) => DESCRIPTOR_SIZE + V.Size(V.Sequence(items))
    case AmqpValue(l) => DESCRIPTOR_SIZE + V.Size(l)
    case Footer(cells) => DESCRIPTOR_SIZE + V.Size(V.Table(cells))
  }

  function SectionsSize(ss: seq<StoredSection>): nat {
    if ss == [] then 0 else SectionSize(ss[0]) + SectionsSize(ss[1..])
  }

  /** `encoded_size`. */
  function Size(m: StoredMessage): nat {
    SectionsSize(Sections(m))
  }
}
