/** Messages that do not survive: a section written with four-byte fields behind the type code of
    the one-byte form. */
module MessageLoss {
  import opened Bytes
  import opened Messages
  import opened MessageProofs
  import Simple
  import TC = TypeCodes
  import V = Values
  import VP = ValueProofs
  import W = WideLists

  predicate WideBelow64K(size: nat) {
    0xFF <= size < 0xFFFC
  }

  /** Properties or a list, wide and of less than 65532 content bytes, at the end of the section. */
  predicate Lossy(s: StoredSection) {
    match s
    case HeaderSection(_) => false
    case PropertiesSection(p) => WideBelow64K(FieldsSize(PropertyFields(p)))
    case AmqpSequence(items) => WideBelow64K(V.SizeAll(items))
    case AmqpValue(l) => W.WideAtEnd(l)
    case DeliveryAnnotations(cells) => W.CellsWideAtEnd(cells)
    case MessageAnnotations(cells) => W.CellsWideAtEnd(cells)
    case ApplicationProperties(_) => false
    case Footer(cells) => W.CellsWideAtEnd(cells)
    case Data(_) => false
  }

  lemma {:induction false} LossyList(items: seq<V.Layout>, rest: seq<byte>)
    requires WideBelow64K(V.SizeAll(items))
    ensures var input := (V.EncodeDescriptor(V.Code(TC.BODY_SEQUENCE)) + V.Encode(V.Sequence(items))) + rest;
            W.LeavesNonzero(DecodeSection(input))
  {
    DescriptorReadsBack(TC.BODY_SEQUENCE, V.Encode(V.Sequence(items)), rest);
    W.WideListIsLost(items, rest);
  }

  lemma LossyValue(l: V.Layout, rest: seq<byte>)
    requires V.Stored(l) && W.WideAtEnd(l) && V.Size(l) < U32_LIMIT
    ensures W.LeavesNonzero(DecodeSection((V.EncodeDescriptor(V.Code(TC.BODY_VALUE)) + V.Encode(l)) + rest))
  {
    DescriptorReadsBack(TC.BODY_VALUE, V.Encode(l), rest);
    W.WideEndIsMisread(l, rest);
  }

  lemma LossyMap(code: u64, cells: seq<V.Layout>, rest: seq<byte>)
    requires code == TC.DELIVERY_ANNOTATIONS || code == TC.MESSAGE_ANNOTATIONS || code == TC.FOOTER
    requires V.Stored(V.Table(cells)) && W.CellsWideAtEnd(cells) && V.CellsHaveType(V.ANNOTATIONS, cells)
    requires V.Size(V.Table(cells)) < U32_LIMIT
    ensures W.LeavesNonzero(DecodeSection((V.EncodeDescriptor(V.Code(code)) + V.Encode(V.Table(cells))) + rest))
  {
    DescriptorReadsBack(code, V.Encode(V.Table(cells)), rest);
    W.WideEndOfMap(V.ANNOTATIONS, cells, rest);
    LossyDispatch(code, (V.EncodeDescriptor(V.Code(code)) + V.Encode(V.Table(cells))) + rest,
                  V.Encode(V.Table(cells)) + rest);
  }

  lemma {:induction false} LossyDispatch(code: u64, input: seq<byte>, body: seq<byte>)
    requires code == TC.DELIVERY_ANNOTATIONS || code == TC.MESSAGE_ANNOTATIONS || code == TC.FOOTER
    requires V.DecodeDescriptor(input) == Ok(body, V.Code(code)) && W.LeavesNonzero(V.DecodeMap(V.ANNOTATIONS, body))
    ensures W.LeavesNonzero(DecodeSection(input))
  {
  }

  lemma LossyProperties(p: Properties, rest: seq<byte>)
    requires WideBelow64K(FieldsSize(PropertyFields(p)))
    ensures var r := DecodeProperties(EncodeProperties(p) + rest);
            W.LeavesNonzero(r) && r.value == NO_PROPERTIES
  {
    var fields := PropertyFields(p);
    var d, h := V.EncodeDescriptor(V.Code(TC.PROPERTIES)), V.ListHeader(FieldsSize(fields), 13);
    var content := EncodeFields(fields) + rest;
    Associative(d + h, EncodeFields(fields), rest);
    Associative(d, h, content);
    VP.DecodeEncodeDescriptor(V.Code(TC.PROPERTIES), h + content);
    W.WideHeaderIsMisread(FieldsSize(fields), 13, content);
    NoFields(EncodeProperties(p) + rest, h + content, (h + content)[1..], (h + content)[3..]);
  }

  lemma NoFields(input: seq<byte>, list: seq<byte>, counts: seq<byte>, tail: seq<byte>)
    requires V.DecodeDescriptor(input) == Ok(list, V.Code(TC.PROPERTIES))
    requires TC.DecodeTypeCode(list) == Ok(counts, TC.List8) && V.DecodeCount(1, counts) == Ok(tail, 0)
    ensures DecodeProperties(input) == Ok(tail, NO_PROPERTIES)
  {
    PropertyTypes();
    CompositeDispatch(TC.PROPERTIES, PROPERTY_FIELDS, PropertyFields(NO_PROPERTIES), input, list, counts, tail, 0);
  }

  lemma LossyPropertiesSection(s: StoredSection, rest: seq<byte>)
    requires s.PropertiesSection? && Lossy(s)
    ensures W.LeavesNonzero(DecodeSection(EncodeSection(s) + rest))
  {
    HeaderDescriptor(s, rest);
    LossyProperties(s.properties, rest);
  }

  /** After a lossy section the next byte is not the start of a section. */
  lemma LossySection(s: StoredSection, rest: seq<byte>)
    requires Lossy(s) && InMemory(s) && SectionSize(s) < U32_LIMIT
    ensures W.LeavesNonzero(DecodeSection(EncodeSection(s) + rest))
  {
    match s
    case PropertiesSection(_) => LossyPropertiesSection(s, rest);
    case AmqpSequence(items) => LossyList(items, rest);
    case AmqpValue(l) => LossyValue(l, rest);
    case DeliveryAnnotations(cells) => LossyMap(TC.DELIVERY_ANNOTATIONS, cells, rest);
    case MessageAnnotations(cells) => LossyMap(TC.MESSAGE_ANNOTATIONS, cells, rest);
    case Footer(cells) => LossyMap(TC.FOOTER, cells, rest);
  }

  lemma NotADescriptor(input: seq<byte>)
    requires input != [] && input[0] != 0
    ensures !V.DecodeDescriptor(input).Ok?
  {
  }

  lemma NotASection(input: seq<byte>, m: PlainMessage)
    requires input != [] && input[0] != 0
    ensures !DecodeSections(input, m).Ok?
  {
    NotADescriptor(input);
  }

  lemma {:induction false} LossySections(ss: seq<StoredSection>, m: PlainMessage)
    requires forall s | s in ss :: InMemory(s) && (NarrowSection(s) || Lossy(s))
    requires exists s | s in ss :: Lossy(s)
    requires SectionsSize(ss) < U32_LIMIT
    ensures !DecodeSections(EncodeSections(ss), m).Ok?
    decreases |ss|
  {
    var rest := EncodeSections(ss[1..]);
    assert EncodeSections(ss) == EncodeSection(ss[0]) + rest;
    if Lossy(ss[0]) {
      LossySection(ss[0], rest);
      var r := DecodeSection(EncodeSections(ss));
      NotASection(r.rest, Apply(m, r.value));
    } else {
      SectionReadsBack(ss[0], rest);
      assert EncodeSections(ss) != [] by {
        SizeOfSection(ss[0]);
        assert DecodeSection(EncodeSections(ss)).Ok?;
      }
      assert exists s | s in ss[1..] :: Lossy(s) by {
        var s :| s in ss && Lossy(s);
        assert s in ss[1..];
      }
      LossySections(ss[1..], Apply(m, ConvertSection(ss[0], false)));
    }
  }

  /** Exactly which messages are rebuilt: those with narrow sections and nothing that decoding
      changes. The only messages not covered have a wide list in a map key, in a map value with
      other entries written behind it, or with 65532 content bytes or more. */
  lemma RebuiltExactly(m: StoredMessage)
    requires MessageInMemory(m) && Size(m) < U32_LIMIT
    requires forall s | s in Sections(m) :: NarrowSection(s) || Lossy(s)
    ensures Decode(Encode(m)) == Ok([], MessageOf(m)) <==> NarrowMessage(m) && RestoredMessage(MessageOf(m))
  {
    if NarrowMessage(m) {
      RoundTrip(m);
    } else {
      LossySections(Sections(m), Empty());
    }
  }

  /** Properties too long for the one-byte form: a user id of 241 bytes. */
  lemma LongUserId()
    ensures var p := NO_PROPERTIES.(userId := Some(Simple.SimpleValue.Binary(seq(241, _ => 0))));
            var m: StoredMessage := Empty<seq<V.Layout>, seq<V.Layout>, V.Layout>().(properties := Some(p));
            MessageInMemory(m) && !Decode(Encode(m)).Ok?
  {
    var id: seq<byte> := seq(241, _ => 0);
    LossyUserId(id);
    OnlyProperties(NO_PROPERTIES.(userId := Some(Simple.SimpleValue.Binary(id))));
  }

  lemma LossyUserId(id: seq<byte>)
    requires |id| == 241
    ensures var p := NO_PROPERTIES.(userId := Some(Simple.SimpleValue.Binary(id)));
            TypedProperties(p) && Lossy(PropertiesSection(p))
  {
    var f: Field := Some(Simple.SimpleValue.Binary(id));
    OneField(f);
    assert FieldSize(f) == 243;
  }

  lemma OnlyProperties(p: Properties)
    requires TypedProperties(p) && Lossy(PropertiesSection(p))
    ensures var m: StoredMessage := Empty<seq<V.Layout>, seq<V.Layout>, V.Layout>().(properties := Some(p));
            MessageInMemory(m) && !Decode(Encode(m)).Ok?
  {
    var m: StoredMessage := Empty<seq<V.Layout>, seq<V.Layout>, V.Layout>().(properties := Some(p));
    var section: StoredSection := PropertiesSection(p);
    assert Sections(m) == [section];
    assert [section][1..] == [];
    LossySections(Sections(m), Empty());
  }

  lemma OneField(f: Field)
    ensures FieldsSize(PropertyFields(NO_PROPERTIES.(userId := f))) == 12 + FieldSize(f)
  {
    OthersAbsent(PropertyFields(NO_PROPERTIES.(userId := f)), 1);
  }

  lemma {:induction false} OthersAbsent(fields: seq<Field>, k: nat)
    requires k < |fields| && forall i | 0 <= i < |fields| && i != k :: fields[i].None?
    ensures FieldsSize(fields) == |fields| - 1 + FieldSize(fields[k])
  {
    if k == 0 {
      Nulls(fields[1..]);
    } else {
      OthersAbsent(fields[1..], k - 1);
    }
  }

  lemma {:induction false} Nulls(fields: seq<Field>)
    requires forall i | 0 <= i < |fields| :: fields[i].None?
    ensures FieldsSize(fields) == |fields|
  {
    if fields != [] {
      Nulls(fields[1..]);
    }
  }
}
