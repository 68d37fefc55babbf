/** Publish messages with a filter value, version 2 (codec/encoder.rs, codec/decoder.rs): the encoder
    puts the filter before the size and the body, the decoder looks for it behind them. */
module Version2 {
  import opened Bytes
  import opened Frames
  import M = Messages
  import MP = MessageProofs
  import VE = ValueExactness

  /** `PublishedMessage::decode_version_2`, which nothing in the repository calls. */
  function DecodePublished2(input: seq<byte>): Outcome<Published<M.PlainMessage>> {
    var (rest, id) :- ReadUnsigned(8, input);
    var (rest, body) :- ReadBytes(rest);
    var (rest, filter) :- DecodeText(rest);
    var (_, message) :- M.Decode(body);
    Ok(rest, Published(id, message, filter))
  }

  /** What follows the id. */
  function AfterId(p: Published<M.StoredMessage>): seq<byte> {
    EncodeText(p.filter) + (BigEndian(4, M.Size(p.message)) + M.Encode(p.message))
  }

  lemma Layout2(p: Published<M.StoredMessage>, rest: seq<byte>)
    ensures EncodePublished(PROTOCOL_VERSION_2, p) + rest == BigEndian(8, p.id) + (AfterId(p) + rest)
  {
    var id, text := BigEndian(8, p.id), EncodeText(p.filter);
    var size, body := BigEndian(4, M.Size(p.message)), M.Encode(p.message);
    Associative(id, text, size);
    Associative(id, text + size, body);
    Associative(text, size, body);
    Associative(id, AfterId(p), rest);
  }

  predicate Filtered(p: Published<M.StoredMessage>) {
    p.filter.Some? && p.filter.value != []
  }

  // ----- A filter is read as the length of the body -----

  /** The first two of four bytes decide the order of magnitude. */
  lemma HighHalf(s: seq<byte>)
    requires |s| == 4
    ensures Number(s[..2]) * 0x1_0000 <= Number(s) < (Number(s[..2]) + 1) * 0x1_0000
  {
    assert s[..3][..2] == s[..2] && s[..|s| - 1] == s[..3] && s[..3][..|s[..3]| - 1] == s[..2];
  }

  /** A length of `n` or more times 65536 is too long, or negative. */
  lemma FilterIsNoLength(n: nat, more: seq<byte>)
    requires 0 < n < 0x1_0000 && 2 <= |more| < n * 0x1_0000 + 2
    ensures !ReadBytes(BigEndian(2, n) + more).Ok?
    ensures n < 0x8000 ==> ReadBytes(BigEndian(2, n) + more) == Err(Incomplete(1))
  {
    var input := BigEndian(2, n) + more;
    var word := input[..4];
    assert Span(2) == 0x1_0000 && Span(4) == U32_LIMIT;
    HighHalf(word);
    assert word[..2] == BigEndian(2, n);
    NumberOfBigEndian(2, n);
    assert n * 0x1_0000 <= Number(word) < (n + 1) * 0x1_0000;
  }

  lemma FilterIsRead(p: Published<M.StoredMessage>, rest: seq<byte>)
    requires Filtered(p) && |p.filter.value| < 0x1_0000
    requires M.Size(p.message) + |rest| + 2 < 0xFFFF * |p.filter.value|
    ensures !ReadBytes(AfterId(p) + rest).Ok?
    ensures |p.filter.value| < 0x8000 ==> ReadBytes(AfterId(p) + rest) == Err(Incomplete(1))
  {
    var n, size, body := |p.filter.value|, BigEndian(4, M.Size(p.message)), M.Encode(p.message);
    var more := p.filter.value + (size + body) + rest;
    MP.SizeOfEncoding(p.message);
    Associative(BigEndian(2, n), p.filter.value, size + body);
    Associative(BigEndian(2, n), p.filter.value + (size + body), rest);
    assert |more| <= n + 4 + M.Size(p.message) + |rest|;
    FilterIsNoLength(n, more);
  }

  // ----- Without a filter, the size is read as the length of a filter -----

  lemma WordInHalves(n: nat)
    ensures BigEndian(4, n) == BigEndian(2, n / 0x1_0000) + BigEndian(2, n)
  {
    assert BigEndian(4, n) == BigEndian(3, n / 0x100) + [n % 0x100];
    assert BigEndian(3, n / 0x100) == BigEndian(2, n / 0x100 / 0x100) + [n / 0x100 % 0x100];
    assert n / 0x100 / 0x100 == n / 0x1_0000;
    assert BigEndian(2, n) == BigEndian(1, n / 0x100) + [n % 0x100];
    assert BigEndian(1, n / 0x100) == [n / 0x100 % 0x100];
  }

  /** Two zeros in front of a size: its first half is read as the size. */
  lemma {:induction false} SizeInHalves(n: nat)
    requires n < U32_LIMIT
    ensures BigEndian(2, 0) + BigEndian(4, n) == BigEndian(4, n / 0x1_0000) + BigEndian(2, n)
  {
    WordInHalves(n);
    WordInHalves(n / 0x1_0000);
    assert n / 0x1_0000 / 0x1_0000 == 0;
    Associative(BigEndian(2, 0), BigEndian(2, n / 0x1_0000), BigEndian(2, n));
  }

  lemma ShortBody(h: nat, more: seq<byte>)
    requires h < 0x1_0000
    ensures ReadBytes(BigEndian(4, h) + more) == if |more| < h then Err(Incomplete(1)) else Ok(more[h..], more[..h])
  {
    assert Span(4) == U32_LIMIT;
    ReadsBack(4, h, more);
  }

  /** What follows the first half of the size. */
  function AfterHalf(p: Published<M.StoredMessage>, rest: seq<byte>): seq<byte> {
    BigEndian(2, M.Size(p.message)) + M.Encode(p.message) + rest
  }

  /** Without a filter, the first half of the size is read as the size of the body. */
  lemma UnfilteredIsRead(p: Published<M.StoredMessage>, rest: seq<byte>)
    requires !Filtered(p) && M.Size(p.message) < U32_LIMIT
    ensures var h, more := M.Size(p.message) / 0x1_0000, AfterHalf(p, rest);
            ReadBytes(AfterId(p) + rest) == if |more| < h then Err(Incomplete(1)) else Ok(more[h..], more[..h])
  {
    var n, body := M.Size(p.message), M.Encode(p.message);
    assert EncodeText(p.filter) == BigEndian(2, 0) by {
      assert BigEndian(2, 0) + [] == BigEndian(2, 0);
    }
    SizeInHalves(n);
    var half := BigEndian(4, n / 0x1_0000);
    Associative(BigEndian(2, 0), BigEndian(4, n), body);
    Associative(half, BigEndian(2, n), body);
    Associative(half, BigEndian(2, n) + body, rest);
    ShortBody(n / 0x1_0000, AfterHalf(p, rest));
  }

  // ----- At least half of the size is written -----

  lemma {:induction false} HalfOfValue(l: M.V.Layout)
    ensures 2 * VE.Overcount(l) <= M.V.Size(l)
    decreases l, 1
  {
    match l
    case Atom(_) =>
    case Sequence(items) => HalfOfValues(items);
    case Table(cells) => HalfOfValues(cells);
    case Tagged(_, inner) => HalfOfValue(inner);
  }

  lemma {:induction false} HalfOfValues(ls: seq<M.V.Layout>)
    ensures 2 * VE.OvercountAll(ls) <= M.V.SizeAll(ls)
    decreases ls, 0
  {
    if ls != [] {
      HalfOfValue(ls[0]);
      HalfOfValues(ls[1..]);
    }
  }

  lemma {:induction false} ThirdOfFields(fields: seq<M.Field>)
    ensures 3 * MP.FieldsOvercount(fields) <= M.FieldsSize(fields)
  {
    if fields != [] {
      ThirdOfFields(fields[1..]);
    }
  }

  lemma HalfOfSection(s: M.StoredSection)
    ensures 2 * MP.SectionOvercount(s) <= M.SectionSize(s)
  {
    match s
    case PropertiesSection(p) => ThirdOfFields(M.PropertyFields(p));
    case DeliveryAnnotations(cells) => HalfOfValue(M.V.Table(cells));
    case MessageAnnotations(cells) => HalfOfValue(M.V.Table(cells));
    case Footer(cells) => HalfOfValue(M.V.Table(cells));
    case ApplicationProperties(cells) => HalfOfValue(M.V.Table(cells));
    case AmqpSequence(items) => HalfOfValue(M.V.Sequence(items));
    case AmqpValue(l) => HalfOfValue(l);
    case _ =>
  }

  lemma {:induction false} HalfOfSections(ss: seq<M.StoredSection>)
    ensures 2 * MP.SectionsOvercount(ss) <= M.SectionsSize(ss)
  {
    if ss != [] {
      HalfOfSection(ss[0]);
      HalfOfSections(ss[1..]);
    }
  }

  lemma HalfIsWritten(m: M.StoredMessage)
    ensures M.Size(m) <= 2 * |M.Encode(m)|
  {
    MP.SizeOfEncoding(m);
    HalfOfSections(M.Sections(m));
  }

  // ----- A version 2 message by itself -----

  /** The bytes of the message are taken for its filter, or the decoder fails. */
  lemma SizeIsReadAsLength(n: nat, body: seq<byte>)
    requires n < 0x1_0000 && |body| <= n
    ensures var r := DecodeText(BigEndian(2, n) + body);
            if n == 0 then r == Ok([], None) else r.Ok? ==> r.value.Some? && r.value.value != []
  {
    assert Span(2) == 0x1_0000;
    ReadsBack(2, n, body);
  }

  lemma EmptyMessage(m: M.StoredMessage)
    ensures M.Encode(m) == [] <==> M.Size(m) == 0
    ensures M.Encode(m) == [] ==> MP.MessageOf(m) == M.Empty()
  {
    MP.SizeOfEncoding(m);
    if M.Encode(m) == [] {
      NoSections(M.Sections(m));
      assert |M.DataSections<seq<M.V.Layout>, seq<M.V.Layout>, M.V.Layout>(m.body.data)| == 0;
      assert |M.SequenceSections<seq<M.V.Layout>, seq<M.V.Layout>, M.V.Layout>(m.body.sequence)| == 0;
    }
  }

  lemma NoSections(ss: seq<M.StoredSection>)
    ensures M.EncodeSections(ss) == [] ==> ss == []
  {
    if ss != [] {
      SectionIsNotEmpty(ss[0]);
    }
  }

  lemma SectionIsNotEmpty(s: M.StoredSection)
    ensures M.EncodeSection(s) != []
  {
  }

  lemma WithoutBody(id: u64, tail: seq<byte>)
    requires !ReadBytes(tail).Ok?
    ensures !DecodePublished2(BigEndian(8, id) + tail).Ok?
  {
    assert Span(8) == 0x1_0000_0000_0000_0000;
    ReadsBack(8, id, tail);
  }

  lemma WithBody(id: u64, tail: seq<byte>)
    requires ReadBytes(tail).Ok?
    ensures var r, body := DecodePublished2(BigEndian(8, id) + tail), ReadBytes(tail);
            var f, m := DecodeText(body.rest), M.Decode(body.value);
            && (r.Ok? <==> f.Ok? && m.Ok?)
            && (r.Ok? ==> r == Ok(f.rest, Published(id, m.value, f.value)))
  {
    assert Span(8) == 0x1_0000_0000_0000_0000;
    ReadsBack(8, id, tail);
  }

  /** A version 2 message comes back through its own decoder if and only if it is the empty message
      without a filter. Otherwise the filter is taken for the length of the body, or the size for
      the length of the body and of the filter. */
  lemma {:induction false} Version2Exactly(p: Published<M.StoredMessage>)
    requires M.Size(p.message) < U32_LIMIT
    requires Filtered(p) ==> |p.filter.value| < 0x1_0000 && M.Size(p.message) + 2 < 0xFFFF * |p.filter.value|
    ensures DecodePublished2(EncodePublished(PROTOCOL_VERSION_2, p))
         == Ok([], Published(p.id, MP.MessageOf(p.message), p.filter))
       <==> p.filter.None? && M.Encode(p.message) == []
  {
    Layout2(p, []);
    var whole := EncodePublished(PROTOCOL_VERSION_2, p);
    assert whole + [] == whole && AfterId(p) + [] == AfterId(p);
    if Filtered(p) {
      Filtered2(p);
    } else if M.Size(p.message) < 0x1_0000 {
      SmallUnfiltered2(p);
    } else {
      LargeUnfiltered2(p);
    }
  }

  /** What follows the id comes back as the message and the filter, and is used up. */
  ghost predicate ComesBack(p: Published<M.StoredMessage>) {
    DecodePublished2(BigEndian(8, p.id) + AfterId(p)) == Ok([], Published(p.id, MP.MessageOf(p.message), p.filter))
  }

  lemma Filtered2(p: Published<M.StoredMessage>)
    requires Filtered(p) && |p.filter.value| < 0x1_0000 && M.Size(p.message) + 2 < 0xFFFF * |p.filter.value|
    ensures !ComesBack(p)
  {
    FilterIsRead(p, []);
    assert AfterId(p) + [] == AfterId(p);
    WithoutBody(p.id, AfterId(p));
  }

  lemma SmallUnfiltered2(p: Published<M.StoredMessage>)
    requires !Filtered(p) && M.Size(p.message) < 0x1_0000
    ensures ComesBack(p) <==> p.filter.None? && M.Encode(p.message) == []
  {
    EmptyMessage(p.message);
    Unfiltered2(p);
  }

  lemma Unfiltered2(p: Published<M.StoredMessage>)
    requires !Filtered(p) && M.Size(p.message) < 0x1_0000
    ensures var r := DecodePublished2(BigEndian(8, p.id) + AfterId(p));
            if M.Size(p.message) == 0 then r == Ok([], Published(p.id, M.Empty(), None))
            else r.Ok? ==> r.value.filter.Some? && r.value.filter.value != []
  {
    var n, body := M.Size(p.message), M.Encode(p.message);
    UnfilteredIsRead(p, []);
    assert AfterId(p) + [] == AfterId(p) && AfterHalf(p, []) == BigEndian(2, n) + body;
    assert AfterHalf(p, [])[0..] == AfterHalf(p, []) && AfterHalf(p, [])[..0] == [];
    WithBody(p.id, AfterId(p));
    MP.SizeOfEncoding(p.message);
    SizeIsReadAsLength(n, body);
  }

  lemma LargeUnfiltered2(p: Published<M.StoredMessage>)
    requires !Filtered(p) && 0x1_0000 <= M.Size(p.message) < U32_LIMIT
    ensures !ComesBack(p) && M.Encode(p.message) != []
  {
    LeavesBytes(p);
    HalfIsWritten(p.message);
  }

  /** The body that is read is much shorter than the message, so something is left over. */
  lemma LeavesBytes(p: Published<M.StoredMessage>)
    requires !Filtered(p) && 0x1_0000 <= M.Size(p.message) < U32_LIMIT
    ensures var r := DecodePublished2(BigEndian(8, p.id) + AfterId(p));
            r.Ok? && r.rest == [] ==> r.value.filter.Some? && r.value.filter.value != []
  {
    UnfilteredIsRead(p, []);
    assert AfterId(p) + [] == AfterId(p);
    HalfIsWritten(p.message);
    if ReadBytes(AfterId(p)).Ok? {
      WithBody(p.id, AfterId(p));
      NoTextIsTwoBytes(ReadBytes(AfterId(p)).rest);
    } else {
      WithoutBody(p.id, AfterId(p));
    }
  }

  lemma NoTextIsTwoBytes(input: seq<byte>)
    ensures var f := DecodeText(input);
            f.Ok? ==> if f.value.None? then |f.rest| + 2 == |input| else f.value.value != []
  {
  }

  // ----- The decoder of publish commands -----

  /** What `DecodePublished` makes of a version 2 message without a filter, whatever follows: the empty
      message, and it goes on inside the size. */
  lemma FirstUnfiltered(p: Published<M.StoredMessage>, rest: seq<byte>)
    requires !Filtered(p) && M.Size(p.message) < 0x1_0000
    ensures DecodePublished(EncodePublished(PROTOCOL_VERSION_2, p) + rest)
         == Ok(AfterHalf(p, rest), Published(p.id, M.Empty(), None))
  {
    Layout2(p, rest);
    UnfilteredIsRead(p, rest);
    assert AfterHalf(p, rest)[0..] == AfterHalf(p, rest) && AfterHalf(p, rest)[..0] == [];
    IdThenMessage(p.id, M.Empty(), AfterId(p) + rest, AfterHalf(p, rest));
  }

  /** And of one with a filter: it asks for more, until there are as many bytes as the filter seems to
      promise. */
  lemma FirstFiltered(p: Published<M.StoredMessage>, rest: seq<byte>)
    requires Filtered(p) && |p.filter.value| < 0x8000
    requires M.Size(p.message) + |rest| + 2 < 0xFFFF * |p.filter.value|
    ensures DecodePublished(EncodePublished(PROTOCOL_VERSION_2, p) + rest) == Err(Incomplete(1))
  {
    Layout2(p, rest);
    FilterIsRead(p, rest);
    IdThenIncomplete(p.id, AfterId(p) + rest);
  }

  // ----- Batches of version 2 -----

  /** The bytes of a batch behind its first message. */
  function Others(ps: seq<Published<M.StoredMessage>>): seq<byte>
    requires ps != []
  {
    EncodeAllPublished(PROTOCOL_VERSION_2, ps[1..])
  }

  /** A batch whose first message has no filter never comes back as more than an empty message in the
      place of the first. */
  lemma UnfilteredBatch(id: byte, ps: seq<Published<M.StoredMessage>>)
    requires ps != [] && |ps| < U32_LIMIT && !Filtered(ps[0]) && M.Size(ps[0].message) < 0x1_0000
    ensures var r := DecodeCommand(EncodeCommand(PublishCommand(id, ps, PROTOCOL_VERSION_2)));
            r.Ok? ==> |r.value.messages| == |ps| && r.value.messages[0] == Published(ps[0].id, M.Empty(), None)
  {
    CommandBehindCount(id, |ps|, EncodeAllPublished(PROTOCOL_VERSION_2, ps));
    FirstUnfiltered(ps[0], Others(ps));
    FirstOfBatch(|ps|, EncodeAllPublished(PROTOCOL_VERSION_2, ps));
  }

  lemma FirstOfBatch(count: nat, input: seq<byte>)
    requires count > 0 && DecodePublished(input).Ok?
    ensures var r := DecodeAllPublished(count, input);
            r.Ok? ==> |r.value| == count && r.value[0] == DecodePublished(input).value
  {
    PublishedRepeat();
    ManyCount(DecodeAllPublished, DecodePublished, count, input);
  }

  /** A batch whose first message has a filter asks for more than the frame has, unless it is so long
      that the filter can be taken for its length. */
  lemma FilteredBatch(id: byte, ps: seq<Published<M.StoredMessage>>)
    requires ps != [] && |ps| < U32_LIMIT && Filtered(ps[0]) && |ps[0].filter.value| < 0x8000
    requires M.Size(ps[0].message) + |Others(ps)| + 2 < 0xFFFF * |ps[0].filter.value|
    ensures DecodeCommand(EncodeCommand(PublishCommand(id, ps, PROTOCOL_VERSION_2))) == Err(Incomplete(1))
  {
    CommandBehindCount(id, |ps|, EncodeAllPublished(PROTOCOL_VERSION_2, ps));
    FirstFiltered(ps[0], Others(ps));
    DecodeStops(|ps|, EncodeAllPublished(PROTOCOL_VERSION_2, ps));
  }

  /** What exactly a batch of one message comes to. */
  lemma Version2ThroughCommand(id: byte, p: Published<M.StoredMessage>)
    requires M.Size(p.message) < 0xFFFD && (p.filter.Some? ==> |p.filter.value| < 0x8000)
    ensures DecodeCommand(EncodeCommand(PublishCommand(id, [p], PROTOCOL_VERSION_2)))
         == if Filtered(p) then Err(Incomplete(1))
            else Ok(AfterHalf(p, []), PublishCommand(id, [Published(p.id, M.Empty(), None)], 1))
  {
    var batch := EncodeAllPublished(PROTOCOL_VERSION_2, [p]);
    if Filtered(p) {
      assert [p][1..] == [];
      FilteredBatch(id, [p]);
    } else {
      CommandBehindCount(id, 1, batch);
      OnlyUnfiltered(p);
    }
  }

  lemma OnlyUnfiltered(p: Published<M.StoredMessage>)
    requires !Filtered(p) && M.Size(p.message) < 0x1_0000
    ensures DecodeAllPublished(1, EncodeAllPublished(PROTOCOL_VERSION_2, [p]))
         == Ok(AfterHalf(p, []), [Published(p.id, M.Empty(), None)])
  {
    var first := EncodePublished(PROTOCOL_VERSION_2, p);
    assert [p][1..] == [];
    FirstUnfiltered(p, []);
    var empty: Published<M.PlainMessage> := Published(p.id, M.Empty(), None);
    DecodeNext(0, first + [], empty, AfterHalf(p, []), [], AfterHalf(p, []));
    assert [empty] + [] == [empty];
  }
}
