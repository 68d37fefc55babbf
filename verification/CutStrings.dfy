/** Frames that carry strings, cut on the way (codec/decoder.rs: a string is split out of the input
    without checking that it is all there). Such a frame can be cut so that the decoder panics, and
    no other frame can. */
module CutStrings {
  import opened Bytes
  import F = Frames
  import opened Responses
  import FS = FrameStream

  // ----- Which responses carry a string -----

  predicate HasText(item: Item) {
    match item
    case String(text) => text.Some? && text.value != []
    case Table(rows) => exists i | 0 <= i < |rows| :: HasTextInRow(rows[i])
    case _ => false
  }

  predicate HasTextIn(items: seq<Item>) {
    exists i | 0 <= i < |items| :: HasText(items[i])
  }

  predicate HasTextInRow(row: Row) {
    exists i | 0 <= i < |row.items| :: HasText(row.items[i])
  }

  predicate HasTextInRows(rows: seq<Row>) {
    exists i | 0 <= i < |rows| :: HasTextInRow(rows[i])
  }

  // ----- Decoders look at nothing behind what they use -----

  lemma WordLocal(w: nat, input: seq<byte>)
    ensures ReadUnsigned(w, input).Ok? ==>
            && input == input[..w] + ReadUnsigned(w, input).rest
            && ReadUnsigned(w, input[..w]) == Ok([], ReadUnsigned(w, input).value)
  {
    if w <= |input| {
      assert input[..w][..w] == input[..w] && input[..w][w..] == [];
    }
  }

  /** A word and the `n` bytes behind it. */
  lemma WordAndMore(w: nat, input: seq<byte>, n: nat) returns (used: seq<byte>)
    requires w + n <= |input|
    ensures used == input[..w + n] && input == used + input[w + n..]
    ensures ReadUnsigned(w, input).Ok? && ReadUnsigned(w, input).rest[n..] == input[w + n..]
    ensures ReadUnsigned(w, used) == Ok(ReadUnsigned(w, input).rest[..n], ReadUnsigned(w, input).value)
  {
    WordLocal(w, input);
    used := input[..w + n];
    var head := input[..w];
    assert used == head + input[w..][..n] && [] + input[w..][..n] == input[w..][..n];
    WordStable(w, head, input[w..][..n]);
  }

  lemma TextLocal(input: seq<byte>) returns (used: seq<byte>)
    requires F.DecodeText(input).Ok?
    ensures input == used + F.DecodeText(input).rest && F.DecodeText(used) == Ok([], F.DecodeText(input).value)
  {
    used := WordAndMore(2, input, |input| - 2 - |F.DecodeText(input).rest|);
    var body := ReadUnsigned(2, used).rest;
    assert body[..|body|] == body && body[|body|..] == [];
  }

  lemma BytesLocal(input: seq<byte>) returns (used: seq<byte>)
    requires F.ReadBytes(input).Ok?
    ensures input == used + F.ReadBytes(input).rest && F.ReadBytes(used) == Ok([], F.ReadBytes(input).value)
  {
    used := WordAndMore(4, input, |input| - 4 - |F.ReadBytes(input).rest|);
    var body := ReadUnsigned(4, used).rest;
    assert body[..|body|] == body && body[|body|..] == [];
  }

  lemma CountLocal(c: Count, items: seq<Item>, input: seq<byte>) returns (used: seq<byte>)
    requires DecodeCount(c, items, input).Ok?
    ensures input == used + DecodeCount(c, items, input).rest
    ensures DecodeCount(c, items, used) == Ok([], DecodeCount(c, items, input).value)
  {
    WordLocal(4, input);
    used := if c.Field? then [] else input[..4];
    assert [] + input == input;
  }

  lemma BasicLocal(part: Part, items: seq<Item>, input: seq<byte>) returns (used: seq<byte>)
    requires !part.Rows? && !part.IfOk? && DecodePart(part, items, input).Ok?
    ensures input == used + DecodePart(part, items, input).rest
    ensures DecodePart(part, items, used) == Ok([], DecodePart(part, items, input).value)
  {
    match part
    case Unsigned(w) => WordLocal(w, input); used := input[..w];
    case SignedWord(w) => WordLocal(w, input); used := input[..w];
    case StatusCode => WordLocal(2, input); used := input[..2];
    case Text => used := TextLocal(input);
    case Unwrap(_) => used := []; assert [] + input == input;
    case SizedMessage => used := BytesLocal(input);
  }

  lemma {:induction false} PartLocal(part: Part, items: seq<Item>, input: seq<byte>) returns (used: seq<byte>)
    requires DecodePart(part, items, input).Ok?
    ensures input == used + DecodePart(part, items, input).rest
    ensures DecodePart(part, items, used) == Ok([], DecodePart(part, items, input).value)
    decreases part, 0, 0
  {
    match part
    case Rows(c, row) =>
      var count := DecodeCount(c, items, input);
      var head := CountLocal(c, items, input);
      var tail := RowsLocal(count.value, row, count.rest);
      used := head + tail;
      CountStable(c, items, head, tail);
      assert [] + tail == tail;
      Associative(head, tail, DecodePart(part, items, input).rest);
    case IfOk(inner) =>
      if items != [] && items[|items| - 1] == Status(STATUS_OK) {
        used := PartLocal(inner, items, input);
      } else {
        used := [];
        assert [] + input == input;
      }
    case _ => used := BasicLocal(part, items, input);
  }

  lemma {:induction false} PartsLocal(parts: seq<Part>, items: seq<Item>, input: seq<byte>) returns (used: seq<byte>)
    requires DecodeParts(parts, items, input).Ok?
    ensures input == used + DecodeParts(parts, items, input).rest
    ensures DecodeParts(parts, items, used) == Ok([], DecodeParts(parts, items, input).value)
    decreases parts, 0, 0
  {
    if parts == [] {
      used := [];
      assert [] + input == input;
    } else {
      var first := DecodePart(parts[0], items, input);
      var head := PartLocal(parts[0], items, input);
      var tail := PartsLocal(parts[1..], items + [first.value], first.rest);
      used := head + tail;
      PartStable(parts[0], items, head, tail);
      assert [] + tail == tail;
      Associative(head, tail, DecodeParts(parts, items, input).rest);
    }
  }

  lemma {:induction false} RowsLocal(count: nat, row: seq<Part>, input: seq<byte>) returns (used: seq<byte>)
    requires DecodeRows(count, row, input).Ok?
    ensures input == used + DecodeRows(count, row, input).rest
    ensures DecodeRows(count, row, used) == Ok([], DecodeRows(count, row, input).value)
    decreases row, 1, count
  {
    if count == 0 {
      used := [];
      assert [] + input == input;
    } else {
      var first := DecodeParts(row, [], input);
      var head := PartsLocal(row, [], input);
      var tail := RowsLocal(count - 1, row, first.rest);
      used := head + tail;
      PartsStable(row, [], head, tail);
      assert [] + tail == tail;
      Associative(head, tail, DecodeRows(count, row, input).rest);
    }
  }

  // ----- A string can be cut -----

  /** A strict prefix of the input on which the decoder panics. */
  ghost predicate Cuts<T(!new)>(cut: seq<byte>, input: seq<byte>, r: Outcome<T>) {
    |cut| < |input| && cut <= input && r == Abort
  }

  /** Cut the last byte off. */
  lemma CutText(input: seq<byte>) returns (cut: seq<byte>)
    requires F.DecodeText(input).Ok? && F.DecodeText(input).rest == []
    requires F.DecodeText(input).value.Some? && F.DecodeText(input).value.value != []
    ensures Cuts(cut, input, F.DecodeText(cut))
  {
    cut := input[..|input| - 1];
    assert cut[..2] == input[..2];
  }

  lemma {:induction false} CutPart(part: Part, items: seq<Item>, input: seq<byte>) returns (cut: seq<byte>)
    requires DecodePart(part, items, input).Ok? && DecodePart(part, items, input).rest == []
    requires HasText(DecodePart(part, items, input).value)
    ensures Cuts(cut, input, DecodePart(part, items, cut))
    decreases part, 0, 0
  {
    match part
    case Text => cut := CutText(input);
    case Rows(c, row) =>
      var count := DecodeCount(c, items, input);
      var head := CountLocal(c, items, input);
      var tail := CutRows(count.value, row, count.rest);
      cut := head + tail;
      CountStable(c, items, head, tail);
      assert [] + tail == tail;
    case IfOk(inner) => cut := CutPart(inner, items, input);
    case _ =>
  }

  /** What was read before stays in front. */
  lemma {:induction false} ItemsStay(parts: seq<Part>, items: seq<Item>, input: seq<byte>)
    requires DecodeParts(parts, items, input).Ok?
    ensures items <= DecodeParts(parts, items, input).value
    decreases parts
  {
    if parts != [] {
      var first := DecodePart(parts[0], items, input);
      ItemsStay(parts[1..], items + [first.value], first.rest);
    }
  }

  lemma {:induction false} CutParts(parts: seq<Part>, items: seq<Item>, input: seq<byte>) returns (cut: seq<byte>)
    requires DecodeParts(parts, items, input).Ok? && DecodeParts(parts, items, input).rest == []
    requires !HasTextIn(items) && HasTextIn(DecodeParts(parts, items, input).value)
    ensures Cuts(cut, input, DecodeParts(parts, items, cut))
    decreases parts, 0, 0
  {
    var first := DecodePart(parts[0], items, input);
    var head := PartLocal(parts[0], items, input);
    if HasText(first.value) {
      cut := CutPart(parts[0], items, head);
    } else {
      assert !HasTextIn(items + [first.value]) by {
        assert forall i | 0 <= i < |items| :: (items + [first.value])[i] == items[i];
      }
      var tail := CutParts(parts[1..], items + [first.value], first.rest);
      cut := head + tail;
      PartStable(parts[0], items, head, tail);
      assert [] + tail == tail;
    }
  }

  lemma {:induction false} CutRows(count: nat, row: seq<Part>, input: seq<byte>) returns (cut: seq<byte>)
    requires DecodeRows(count, row, input).Ok? && DecodeRows(count, row, input).rest == []
    requires HasTextInRows(DecodeRows(count, row, input).value)
    ensures Cuts(cut, input, DecodeRows(count, row, cut))
    decreases row, 1, count
  {
    var first := DecodeParts(row, [], input);
    var head := PartsLocal(row, [], input);
    if HasTextIn(first.value) {
      cut := CutParts(row, [], head);
    } else {
      var rows := DecodeRows(count, row, input).value;
      assert HasTextInRows(rows[1..]) by {
        var i :| 0 <= i < |rows| && HasTextInRow(rows[i]);
        assert rows[1..][i - 1] == rows[i];
      }
      var tail := CutRows(count - 1, row, first.rest);
      cut := head + tail;
      PartsStable(row, [], head, tail);
      assert [] + tail == tail;
    }
  }

  // ----- Nothing else can -----

  /** A prefix of an input that is used up either asks for more or is all of it. */
  ghost predicate Harmless<T(!new)>(cut: seq<byte>, input: seq<byte>, r: Outcome<T>) {
    !r.Abort? && (|cut| < |input| ==> r.NeedsMore())
  }

  lemma SafeText(input: seq<byte>, cut: seq<byte>)
    requires F.DecodeText(input) == Ok([], None) && cut <= input
    ensures Harmless(cut, input, F.DecodeText(cut))
  {
    if |cut| == |input| {
      assert cut == input;
    }
  }

  lemma SafeCount(c: Count, items: seq<Item>, input: seq<byte>, cut: seq<byte>)
    requires DecodeCount(c, items, input).Ok? && DecodeCount(c, items, input).rest == [] && cut <= input
    ensures Harmless(cut, input, DecodeCount(c, items, cut))
  {
    CountStable(c, items, cut, input[|cut|..]);
    assert cut + input[|cut|..] == input;
  }

  lemma {:induction false} SafeTable(part: Part, items: seq<Item>, input: seq<byte>, cut: seq<byte>)
    requires part.Rows? && DecodePart(part, items, input).Ok? && DecodePart(part, items, input).rest == []
    requires !HasText(DecodePart(part, items, input).value) && cut <= input
    ensures Harmless(cut, input, DecodePart(part, items, cut))
    decreases part, 0, 0
  {
    var count := DecodeCount(part.count, items, input);
    var head := CountLocal(part.count, items, input);
    if |cut| < |head| {
      SafeCount(part.count, items, head, cut);
    } else {
      var tail := cut[|head|..];
      assert cut == head + tail && tail <= count.rest && [] + tail == tail;
      CountStable(part.count, items, head, tail);
      SafeRows(count.value, part.row, count.rest, tail);
    }
  }

  lemma {:induction false} SafePart(part: Part, items: seq<Item>, input: seq<byte>, cut: seq<byte>)
    requires DecodePart(part, items, input).Ok? && DecodePart(part, items, input).rest == []
    requires !HasText(DecodePart(part, items, input).value) && cut <= input
    ensures Harmless(cut, input, DecodePart(part, items, cut))
    decreases part, 1, 0
  {
    match part
    case Text => SafeText(input, cut);
    case Rows(_, _) => SafeTable(part, items, input, cut);
    case IfOk(inner) =>
      if items != [] && items[|items| - 1] == Status(STATUS_OK) {
        SafePart(inner, items, input, cut);
      }
    case _ =>
      PartStable(part, items, cut, input[|cut|..]);
      assert cut + input[|cut|..] == input;
  }

  lemma {:induction false} SafeParts(parts: seq<Part>, items: seq<Item>, input: seq<byte>, cut: seq<byte>)
    requires DecodeParts(parts, items, input).Ok? && DecodeParts(parts, items, input).rest == []
    requires !HasTextIn(DecodeParts(parts, items, input).value) && cut <= input
    ensures Harmless(cut, input, DecodeParts(parts, items, cut))
    decreases parts, 0, 0
  {
    PartsStable(parts, items, cut, input[|cut|..]);
    assert cut + input[|cut|..] == input;
    if parts != [] {
      var first := DecodePart(parts[0], items, input);
      var head := PartLocal(parts[0], items, input);
      ItemsStay(parts[1..], items + [first.value], first.rest);
      assert !HasText(first.value) by {
        assert DecodeParts(parts, items, input).value[|items|] == first.value;
      }
      if |cut| < |head| {
        SafePart(parts[0], items, head, cut);
      } else {
        var tail := cut[|head|..];
        assert cut == head + tail && tail <= first.rest && [] + tail == tail;
        PartStable(parts[0], items, head, tail);
        SafeParts(parts[1..], items + [first.value], first.rest, tail);
      }
    }
  }

  lemma {:induction false} SafeRows(count: nat, row: seq<Part>, input: seq<byte>, cut: seq<byte>)
    requires DecodeRows(count, row, input).Ok? && DecodeRows(count, row, input).rest == []
    requires !HasTextInRows(DecodeRows(count, row, input).value) && cut <= input
    ensures Harmless(cut, input, DecodeRows(count, row, cut))
    decreases row, 1, count
  {
    RowsStable(count, row, cut, input[|cut|..]);
    assert cut + input[|cut|..] == input;
    if count > 0 {
      var first, rows := DecodeParts(row, [], input), DecodeRows(count, row, input).value;
      var head := PartsLocal(row, [], input);
      assert rows[0] == Row(first.value) && forall i | 1 <= i < |rows| :: rows[i] == rows[1..][i - 1];
      if |cut| < |head| {
        SafeParts(row, [], head, cut);
      } else {
        var tail := cut[|head|..];
        assert cut == head + tail && tail <= first.rest && [] + tail == tail;
        PartsStable(row, [], head, tail);
        SafeRows(count - 1, row, first.rest, tail);
      }
    }
  }

  // ----- Frames -----

  lemma HeaderLocal(frame: seq<byte>)
    requires F.DecodeHeader(frame).Ok?
    ensures frame == frame[..8] + F.DecodeHeader(frame).rest
    ensures F.DecodeHeader(frame[..8]) == Ok([], F.DecodeHeader(frame).value)
  {
    WordLocal(4, frame);
    var a := ReadUnsigned(4, frame).rest;
    WordLocal(2, a);
    var b := ReadUnsigned(2, a).rest;
    WordLocal(2, b);
    var head := frame[..8];
    assert head[..4] == frame[..4] && head[4..] == a[..2] + b[..2];
    assert head[4..][..2] == a[..2] && head[4..][2..] == b[..2] && b[..2][..2] == b[..2] && b[..2][2..] == [];
  }

  /** Behind the header, a prefix of a frame is a prefix of its body. */
  lemma HeaderThenCut(frame: seq<byte>, cut: seq<byte>)
    requires F.DecodeHeader(frame).Ok? && |cut| >= 8 && cut <= frame
    ensures cut[8..] <= F.DecodeHeader(frame).rest
    ensures F.DecodeHeader(cut) == Ok(cut[8..], F.DecodeHeader(frame).value)
  {
    HeaderLocal(frame);
    HeaderStable(frame[..8], cut[8..]);
    assert cut == frame[..8] + cut[8..] && [] + cut[8..] == cut[8..];
  }

  lemma CutFrame(frame: seq<byte>) returns (cut: seq<byte>)
    requires Decode(frame).Ok? && Decode(frame).rest == [] && HasTextIn(Decode(frame).value.items)
    ensures Cuts(cut, frame, Decode(cut))
  {
    var h := F.DecodeHeader(frame);
    var tail := CutParts(Layout(h.value.key).value, [], h.rest);
    HeaderLocal(frame);
    cut := frame[..8] + tail;
    HeaderStable(frame[..8], tail);
    assert [] + tail == tail;
  }

  lemma SafeFrame(frame: seq<byte>, cut: seq<byte>)
    requires Decode(frame).Ok? && Decode(frame).rest == [] && !HasTextIn(Decode(frame).value.items) && cut <= frame
    ensures !Decode(cut).Abort?
  {
    var h := F.DecodeHeader(frame);
    if |cut| >= 8 {
      HeaderThenCut(frame, cut);
      SafeParts(Layout(h.value.key).value, [], h.rest, cut[8..]);
    }
  }

  /** A whole frame can be cut so that the decoder panics if and only if it carries a string that
      is not empty. */
  lemma CutsPanicExactly(frame: seq<byte>)
    requires Decode(frame).Ok? && Decode(frame).rest == []
    ensures (exists k | 0 <= k < |frame| :: Decode(frame[..k]).Abort?) <==> HasTextIn(Decode(frame).value.items)
  {
    if HasTextIn(Decode(frame).value.items) {
      var cut := CutFrame(frame);
      assert cut == frame[..|cut|];
    } else {
      forall k | 0 <= k < |frame| ensures !Decode(frame[..k]).Abort? {
        SafeFrame(frame, frame[..k]);
      }
    }
  }

  /** So every frame with a string decodes in one piece, and in two pieces takes the client down. */
  lemma EveryStringCanBeCut(frame: seq<byte>) returns (pieces: seq<seq<byte>>)
    requires Decode(frame).Ok? && Decode(frame).rest == [] && HasTextIn(Decode(frame).value.items)
    ensures FS.Concat(pieces) == frame
    ensures FS.Drain(frame) == FS.Progress([Decode(frame).value], FS.Waiting([]))
    ensures FS.FeedAll(FS.START, pieces) == FS.Progress([], FS.Panicked)
  {
    var cut := CutFrame(frame);
    pieces := [cut, frame[|cut|..]];
    TwoPieces(cut, frame[|cut|..]);
    assert cut + frame[|cut|..] == frame;
    assert FS.Drain([]) == FS.Progress([], FS.Waiting([]));
  }

  lemma TwoPieces(a: seq<byte>, b: seq<byte>)
    ensures FS.Concat([a, b]) == a + b
    ensures FS.Drain(a).status.Panicked? ==> FS.FeedAll(FS.START, [a, b]) == FS.Drain(a)
  {
    assert [a, b][1..] == [b] && [b][1..] == [] && b + [] == b && [] + a == a;
    assert FS.Concat([b]) == b;
    assert FS.Feed(FS.START, a) == FS.Drain(a);
    if FS.Drain(a).status.Panicked? {
      FS.FedPanicStays(FS.Drain(a), [b]);
    }
  }
}
