/** Every successful decoder leaves a strictly shorter suffix of its input, so the recursive
    decoders and the section loop terminate. */
module Progress {
  import opened Bytes
  import S = Simple
  import TC = TypeCodes
  import opened Values
  import M = Messages

  lemma Compose(a: seq<byte>, b: seq<byte>, c: seq<byte>)
    requires Suffix(a, b) && Suffix(b, c)
    ensures Suffix(a, c)
    ensures |a| < |c| ==> StrictSuffix(a, c)
  {
  }

  lemma Through<T>(r: Outcome<T>, middle: seq<byte>, input: seq<byte>)
    requires r.Ok? ==> StrictSuffix(r.rest, middle)
    requires StrictSuffix(middle, input)
    ensures r.Ok? ==> StrictSuffix(r.rest, input)
  {
    if r.Ok? {
      StrictSuffixTransitive(r.rest, middle, input);
    }
  }

  lemma SizedSuffix(w: nat, input: seq<byte>)
    ensures S.ReadSized(w, input).Ok? ==> Suffix(S.ReadSized(w, input).rest, input)
  {
  }

  lemma TextSuffix(t: TC.TypeCode, input: seq<byte>)
    requires S.IsText(t)
    ensures S.DecodePayload(t, input).Ok? ==> Suffix(S.DecodePayload(t, input).rest, input)
  {
    SizedSuffix(1, input);
    SizedSuffix(4, input);
  }

  lemma FixedSuffix(t: TC.TypeCode, input: seq<byte>)
    requires !S.IsText(t)
    ensures S.DecodePayload(t, input).Ok? ==>
            exists n | 0 <= n <= |input| :: S.DecodePayload(t, input).rest == input[n..]
  {
    assert input[0..] == input;
  }

  lemma PayloadSuffix(t: TC.TypeCode, input: seq<byte>)
    ensures S.DecodePayload(t, input).Ok? ==> Suffix(S.DecodePayload(t, input).rest, input)
  {
    if S.IsText(t) {
      TextSuffix(t, input);
    } else {
      FixedSuffix(t, input);
    }
  }

  lemma SimpleSuffix(types: set<S.Primitive>, input: seq<byte>)
    ensures S.Decode(input).Ok? ==> StrictSuffix(S.Decode(input).rest, input)
    ensures S.DecodeOneOf(types, input).Ok? ==> StrictSuffix(S.DecodeOneOf(types, input).rest, input)
  {
    var t := TC.DecodeTypeCode(input);
    if t.Ok? {
      PayloadSuffix(t.value, t.rest);
    }
  }

  lemma DescriptorSuffix(input: seq<byte>)
    ensures DecodeDescriptor(input).Ok? ==> StrictSuffix(DecodeDescriptor(input).rest, input)
  {
    var t := TC.DecodeTypeCode(input);
    if t.Ok? && t.value.Described? {
      var code := TC.DecodeTypeCode(t.rest);
      if code.Ok? {
        match code.value
        case ULong | ULongSmall =>
          SimpleSuffix({S.Primitive.ULong}, t.rest);
          Through(S.DecodeOneOf({S.Primitive.ULong}, t.rest), t.rest, input);
        case Symbol8 | Symbol32 =>
          SimpleSuffix({S.Primitive.Symbol}, t.rest);
          Through(S.DecodeOneOf({S.Primitive.Symbol}, t.rest), t.rest, input);
        case _ =>
      }
    }
  }

  lemma CountSuffix(w: nat, input: seq<byte>)
    ensures DecodeCount(w, input).Ok? ==> Suffix(DecodeCount(w, input).rest, input)
  {
  }

  lemma {:induction false} ValueSuffix(input: seq<byte>)
    ensures DecodeValue(input).Ok? ==> StrictSuffix(DecodeValue(input).rest, input)
    decreases |input|, 2
  {
    var t := TC.DecodeTypeCode(input);
    if t.Ok? {
      match t.value
      case Described =>
        DescribedSuffix(t.rest);
      case List0 | List8 | List32 => ListSuffix(input);
      case Map8 | Map32 => MapSuffix(VALUE_MAP, input);
      case _ => SimpleSuffix({}, input);
    }
  }

  lemma DescribedSuffix(input: seq<byte>)
    ensures var d := DecodeDescriptor(input);
            d.Ok? && DecodeValue(d.rest).Ok? ==> StrictSuffix(DecodeValue(d.rest).rest, input)
    decreases |input|, 3
  {
    DescriptorSuffix(input);
    var d := DecodeDescriptor(input);
    if d.Ok? {
      ValueSuffix(d.rest);
      Through(DecodeValue(d.rest), d.rest, input);
    }
  }

  lemma ListSuffix(input: seq<byte>)
    ensures DecodeList(input).Ok? ==> StrictSuffix(DecodeList(input).rest, input)
    decreases |input|, 1
  {
    var t := TC.DecodeTypeCode(input);
    if t.Ok? {
      match t.value
      case List8 => CountedItemsSuffix(1, t.rest);
      case List32 => CountedItemsSuffix(4, t.rest);
      case _ =>
    }
  }

  lemma CountedItemsSuffix(w: nat, input: seq<byte>)
    ensures var c := DecodeCount(w, input);
            c.Ok? && DecodeItems(c.value, c.rest).Ok? ==> Suffix(DecodeItems(c.value, c.rest).rest, input)
    decreases |input|, 5
  {
    CountSuffix(w, input);
    var c := DecodeCount(w, input);
    if c.Ok? {
      ItemsSuffix(c.value, c.rest);
      if DecodeItems(c.value, c.rest).Ok? {
        Compose(DecodeItems(c.value, c.rest).rest, c.rest, input);
      }
    }
  }

  lemma ItemsSuffix(count: nat, input: seq<byte>)
    ensures DecodeItems(count, input).Ok? ==> Suffix(DecodeItems(count, input).rest, input)
    decreases |input|, 4, count
  {
    if count > 0 {
      ValueSuffix(input);
      var v := DecodeValue(input);
      if v.Ok? {
        ItemsSuffix(count - 1, v.rest);
        if DecodeItems(count - 1, v.rest).Ok? {
          Compose(DecodeItems(count - 1, v.rest).rest, v.rest, input);
        }
      }
    }
  }

  lemma ItemSuffix(t: ItemType, input: seq<byte>)
    ensures DecodeItem(t, input).Ok? ==> StrictSuffix(DecodeItem(t, input).rest, input)
    decreases |input|, 3, 0
  {
    match t
    case AnyValue => ValueSuffix(input);
    case AnySimple => SimpleSuffix({}, input);
    case OneOf(types) => SimpleSuffix(types, input);
  }

  lemma MapSuffix(m: MapType, input: seq<byte>)
    ensures DecodeMap(m, input).Ok? ==> StrictSuffix(DecodeMap(m, input).rest, input)
    decreases |input|, 1
  {
    var t := TC.DecodeTypeCode(input);
    if t.Ok? {
      match t.value
      case Map8 => CountedCellsSuffix(m, 1, t.rest);
      case Map32 => CountedCellsSuffix(m, 4, t.rest);
      case _ =>
    }
  }

  lemma CountedCellsSuffix(m: MapType, w: nat, input: seq<byte>)
    ensures var c := DecodeCount(w, input);
            c.Ok? && DecodeCells(m, c.value, c.rest, map[]).Ok? ==>
            Suffix(DecodeCells(m, c.value, c.rest, map[]).rest, input)
    decreases |input|, 5
  {
    CountSuffix(w, input);
    var c := DecodeCount(w, input);
    if c.Ok? {
      CellsSuffix(m, c.value, c.rest, map[]);
      if DecodeCells(m, c.value, c.rest, map[]).Ok? {
        Compose(DecodeCells(m, c.value, c.rest, map[]).rest, c.rest, input);
      }
    }
  }

  lemma EntrySuffix(t: MapType, input: seq<byte>)
    ensures var k := DecodeItem(t.key, input);
            k.Ok? && DecodeItem(t.value, k.rest).Ok? ==> StrictSuffix(DecodeItem(t.value, k.rest).rest, input)
    decreases |input|, 3, 1
  {
    ItemSuffix(t.key, input);
    var k := DecodeItem(t.key, input);
    if k.Ok? {
      ItemSuffix(t.value, k.rest);
      Through(DecodeItem(t.value, k.rest), k.rest, input);
    }
  }

  lemma CellsSuffix(t: MapType, count: nat, input: seq<byte>, acc: map<Value, Value>)
    ensures DecodeCells(t, count, input, acc).Ok? ==> Suffix(DecodeCells(t, count, input, acc).rest, input)
    decreases |input|, 4, count
  {
    if count >= 2 {
      EntrySuffix(t, input);
      var k := DecodeItem(t.key, input);
      if k.Ok? {
        var v := DecodeItem(t.value, k.rest);
        if v.Ok? && !ContainsMap(k.value) {
          var r := DecodeCells(t, count - 2, v.rest, acc[k.value := v.value]);
          CellsSuffix(t, count - 2, v.rest, acc[k.value := v.value]);
          if r.Ok? {
            Compose(r.rest, v.rest, input);
          }
        }
      }
    }
  }

  // ----- Sections -----

  lemma FieldsSuffix(specs: seq<M.FieldSpec>, input: seq<byte>, idx: nat, count: nat, dest: seq<M.Field>)
    requires M.WellTyped(specs, dest) && M.TypedDefaults(specs)
    ensures M.DecodeFields(specs, input, idx, count, dest).Ok? ==>
            Suffix(M.DecodeFields(specs, input, idx, count, dest).rest, input)
    decreases count - idx
  {
    if idx < count {
      if idx < |specs| {
        SimpleSuffix(specs[idx].types, input);
        var f := M.DecodeField(specs[idx].types, input);
        if f.Ok? {
          var stored := if f.value.None? then specs[idx].absent else f.value;
          var dest' := dest[idx := stored];
          assert M.HasFieldType(specs[idx], specs[idx].absent) && M.HasFieldType(specs[idx], stored);
          FieldsSuffix(specs, f.rest, idx + 1, count, dest');
          if M.DecodeFields(specs, f.rest, idx + 1, count, dest').Ok? {
            Compose(M.DecodeFields(specs, f.rest, idx + 1, count, dest').rest, f.rest, input);
          }
        }
      } else {
        FieldsSuffix(specs, input, idx + 1, count, dest);
      }
    }
  }

  lemma CompositeSuffix(code: u64, specs: seq<M.FieldSpec>, input: seq<byte>, dest: seq<M.Field>)
    requires M.WellTyped(specs, dest) && M.TypedDefaults(specs)
    ensures M.DecodeComposite(code, specs, input, dest).Ok? ==>
            StrictSuffix(M.DecodeComposite(code, specs, input, dest).rest, input)
  {
    DescriptorSuffix(input);
    var d := DecodeDescriptor(input);
    if d.Ok? {
      var t := TC.DecodeTypeCode(d.rest);
      if t.Ok? && (t.value.List8? || t.value.List32?) {
        var w := if t.value.List8? then 1 else 4;
        CountSuffix(w, t.rest);
        var c := DecodeCount(w, t.rest);
        if c.Ok? {
          FieldsSuffix(specs, c.rest, 0, c.value, dest);
          Compose(t.rest, d.rest, input);
          Compose(c.rest, t.rest, input);
          if M.DecodeFields(specs, c.rest, 0, c.value, dest).Ok? {
            Compose(M.DecodeFields(specs, c.rest, 0, c.value, dest).rest, c.rest, input);
          }
        }
      }
    }
  }

  lemma CompositeSectionSuffix(input: seq<byte>)
    requires DecodeDescriptor(input).Ok?
    requires DecodeDescriptor(input).value == Code(TC.HEADER) || DecodeDescriptor(input).value == Code(TC.PROPERTIES)
    ensures M.DecodeSection(input).Ok? ==> StrictSuffix(M.DecodeSection(input).rest, input)
  {
    CompositeSuffix(TC.HEADER, M.HEADER_FIELDS, input, M.HeaderFields(M.DEFAULT_HEADER));
    CompositeSuffix(TC.PROPERTIES, M.PROPERTY_FIELDS, input, M.PropertyFields(M.NO_PROPERTIES));
  }

  lemma BodySectionSuffix(input: seq<byte>, code: u64)
    requires DecodeDescriptor(input).Ok? && DecodeDescriptor(input).value == Code(code)
    requires code == TC.BODY_DATA || code == TC.BODY_VALUE || code == TC.BODY_SEQUENCE
    ensures M.DecodeSection(input).Ok? ==> StrictSuffix(M.DecodeSection(input).rest, input)
  {
    DescriptorSuffix(input);
    var rest := DecodeDescriptor(input).rest;
    if code == TC.BODY_DATA {
      SimpleSuffix({S.Primitive.Binary}, rest);
      Through(S.DecodeOneOf({S.Primitive.Binary}, rest), rest, input);
    } else if code == TC.BODY_VALUE {
      ValueSuffix(rest);
      Through(DecodeValue(rest), rest, input);
    } else {
      ListSuffix(rest);
      Through(DecodeList(rest), rest, input);
    }
  }

  lemma MapSectionSuffix(input: seq<byte>, code: u64)
    requires DecodeDescriptor(input).Ok? && DecodeDescriptor(input).value == Code(code)
    requires code in {TC.DELIVERY_ANNOTATIONS, TC.MESSAGE_ANNOTATIONS, TC.APPLICATION_PROPERTIES, TC.FOOTER}
    ensures M.DecodeSection(input).Ok? ==> StrictSuffix(M.DecodeSection(input).rest, input)
  {
    DescriptorSuffix(input);
    var rest := DecodeDescriptor(input).rest;
    var t := if code == TC.APPLICATION_PROPERTIES then APPLICATION_PROPERTIES else ANNOTATIONS;
    MapSuffix(t, rest);
    Through(DecodeMap(t, rest), rest, input);
  }

  lemma SectionSuffix(input: seq<byte>)
    ensures M.DecodeSection(input).Ok? ==> StrictSuffix(M.DecodeSection(input).rest, input)
  {
    var d := DecodeDescriptor(input);
    if d.Ok? && d.value.Code? {
      var code := d.value.code;
      if code == TC.HEADER || code == TC.PROPERTIES {
        CompositeSectionSuffix(input);
      } else if code == TC.BODY_DATA || code == TC.BODY_VALUE || code == TC.BODY_SEQUENCE {
        BodySectionSuffix(input, code);
      } else if TC.HEADER < code <= TC.FOOTER {
        MapSectionSuffix(input, code);
      }
    }
  }
}
