/** When a value survives encoding and decoding unchanged, how many bytes it takes, and what a
    successful decoder leaves unread. */
module ValueExactness {
  import opened Bytes
  import opened Values
  import opened ValueProofs
  import S = Simple

  // ----- Exactly the values that come back unchanged -----

  /** Nowhere inside is there a primitive that decoding changes. */
  predicate Restored(v: Value) {
    match v
    case Simple(s) => S.Restored(s)
    case List(items) => forall i | 0 <= i < |items| :: Restored(items[i])
    case Map(entries) => forall k | k in entries :: Restored(k) && Restored(entries[k])
    case Described(_, inner) => Restored(inner)
  }

  /** Everything in the map was in `acc` or comes from `vs`. */
  lemma PairsOrigin(acc: map<Value, Value>, vs: seq<Value>, k: Value)
    requires k in Pairs(acc, vs)
    ensures (k in acc && Pairs(acc, vs)[k] == acc[k]) || (k in vs && Pairs(acc, vs)[k] in vs)
    decreases |vs|
  {
    if |vs| >= 2 {
      PairsOrigin(acc[vs[0] := vs[1]], vs[2..], k);
    }
  }

  /** Later entries win. */
  lemma PairsOver(acc: map<Value, Value>, vs: seq<Value>)
    ensures Pairs(acc, vs) == acc + Pairs(map[], vs)
    decreases |vs|
  {
    if |vs| >= 2 {
      PairsOver(acc[vs[0] := vs[1]], vs[2..]);
      PairsOver(map[vs[0] := vs[1]], vs[2..]);
    }
  }

  lemma NotAKeyNotIn(k: Value, vs: seq<Value>)
    requires NotAKey(k, vs)
    ensures k !in Pairs(map[], vs)
    decreases |vs|
  {
    if |vs| >= 2 {
      NotAKeyNotIn(k, vs[2..]);
      PairsOver(map[vs[0] := vs[1]], vs[2..]);
    }
  }

  lemma ReadbackIsRestored(l: Layout)
    ensures Restored(Readback(l))
  {
    match l
    case Atom(s) => S.RestoredExactly(s);
    case Sequence(items) => AllReadbackRestored(items);
    case Table(cells) =>
      var vs := ReadbackAll(cells);
      AllReadbackRestored(cells);
      forall k | k in Pairs(map[], vs)
        ensures Restored(k) && Restored(Pairs(map[], vs)[k])
      {
        PairsOrigin(map[], vs, k);
      }
    case Tagged(_, inner) => ReadbackIsRestored(inner);
  }

  lemma AllReadbackRestored(ls: seq<Layout>)
    ensures forall v | v in ReadbackAll(ls) :: Restored(v)
  {
    forall i | 0 <= i < |ls|
      ensures Restored(ReadbackAll(ls)[i])
    {
      ReadbackIsRestored(ls[i]);
    }
  }

  lemma RestoredReadsBack(l: Layout)
    requires Stored(l) && Restored(ValueOf(l))
    ensures Readback(l) == ValueOf(l)
  {
    match l
    case Atom(s) => S.RestoredExactly(s);
    case Sequence(items) =>
      var vs := ValueOfAll(items);
      assert forall i | 0 <= i < |items| :: Restored(vs[i]) by {
        assert List(vs).items == vs;
      }
      AllRestoredReadBack(items);
    case Table(cells) =>
      CellsRestored(cells);
      AllRestoredReadBack(cells);
    case Tagged(_, inner) => RestoredReadsBack(inner);
  }

  lemma AllRestoredReadBack(ls: seq<Layout>)
    requires AllStored(ls) && forall i | 0 <= i < |ls| :: Restored(ValueOf(ls[i]))
    ensures ReadbackAll(ls) == ValueOfAll(ls)
  {
    forall i | 0 <= i < |ls|
      ensures Readback(ls[i]) == ValueOf(ls[i])
    {
      RestoredReadsBack(ls[i]);
    }
  }

  /** With distinct keys every cell ends up in the map. */
  lemma {:induction false} CellsRestored(cells: seq<Layout>)
    requires IsTable(cells) && Restored(Map(Pairs(map[], ValueOfAll(cells))))
    ensures forall i | 0 <= i < |cells| :: Restored(ValueOf(cells[i]))
    decreases |cells|
  {
    if cells != [] {
      FirstValues(cells);
      var k, v, vs := ValueOf(cells[0]), ValueOf(cells[1]), ValueOfAll(cells[2..]);
      PairsOver(map[k := v], vs);
      NotAKeyNotIn(k, vs);
      var m := Pairs(map[], ValueOfAll(cells));
      assert k in m && m[k] == v;
      assert forall k' | k' in Pairs(map[], vs) :: k' in m && m[k'] == Pairs(map[], vs)[k'];
      CellsRestored(cells[2..]);
      assert forall i | 2 <= i < |cells| :: cells[i] == cells[2..][i - 2];
    }
  }

  /** The round trip, over every suffix and every iteration order of the maps inside: decoding
      always succeeds and leaves the suffix, and returns the value itself exactly when the value
      has no int in -128..-1 and no timestamp finer than a millisecond. */
  lemma RoundTrip(l: Layout, rest: seq<byte>)
    requires Stored(l) && Narrow(l) && Size(l) < U32_LIMIT
    ensures DecodeValue(Encode(l) + rest) == Ok(rest, Readback(l))
    ensures DecodeValue(Encode(l) + rest) == Ok(rest, ValueOf(l)) <==> Restored(ValueOf(l))
  {
    DecodeEncode(l, rest);
    ReadbackIsRestored(l);
    if Restored(ValueOf(l)) {
      RestoredReadsBack(l);
    }
  }

  /** An int whose sign is lost. */
  lemma SmallIntExample(rest: seq<byte>)
    ensures DecodeValue(Encode(Atom(S.SimpleValue.Int(-1))) + rest) == Ok(rest, Simple(S.SimpleValue.Int(255)))
  {
    DecodeEncode(Atom(S.SimpleValue.Int(-1)), rest);
  }

  // ----- Reported and written sizes -----

  /** How many bytes `Size` reports beyond those written: the number of small longs inside. */
  function Overcount(l: Layout): nat
    decreases l, 1
  {
    match l
    case Atom(s) => S.Overcount(s)
    case Sequence(items) => OvercountAll(items)
    case Table(cells) => OvercountAll(cells)
    case Tagged(_, inner) => Overcount(inner)
  }

  function OvercountAll(ls: seq<Layout>): nat
    decreases ls, 0
  {
    if ls == [] then 0 else Overcount(ls[0]) + OvercountAll(ls[1..])
  }

  lemma SizeOfDescriptor(d: Descriptor)
    ensures DescriptorSize(d) == |EncodeDescriptor(d)|
  {
    match d
    case Code(n) => S.SizeOfEncoding(S.SimpleValue.ULong(n));
    case Name(s) => S.SizeOfEncoding(S.SimpleValue.Symbol(s));
  }

  lemma {:induction false} SizeOfEncoding(l: Layout)
    ensures Size(l) == |Encode(l)| + Overcount(l)
    decreases l, 1
  {
    match l
    case Atom(s) => S.SizeOfEncoding(s);
    case Sequence(items) => SizeOfContent(items);
    case Table(cells) => SizeOfContent(cells);
    case Tagged(d, inner) => SizeOfDescriptor(d); SizeOfEncoding(inner);
  }

  lemma {:induction false} SizeOfContent(ls: seq<Layout>)
    ensures SizeAll(ls) == |EncodeAll(ls)| + OvercountAll(ls)
    decreases ls, 0
  {
    if ls != [] {
      SizeOfEncoding(ls[0]);
      SizeOfContent(ls[1..]);
    }
  }

  // ----- Every value has a layout -----

  /** The keys of every map can be hashed. */
  predicate Hashable(v: Value) {
    match v
    case Simple(_) => true
    case List(items) => forall i | 0 <= i < |items| :: Hashable(items[i])
    case Map(entries) => forall k | k in entries :: !ContainsMap(k) && Hashable(k) && Hashable(entries[k])
    case Described(_, inner) => Hashable(inner)
  }

  /** The layouts above describe every value the program can hold, so the theorems lose none. */
  lemma {:induction false} HasLayout(v: Value) returns (l: Layout)
    requires Hashable(v)
    ensures Stored(l) && ValueOf(l) == v
    decreases v, 0
  {
    match v
    case Simple(s) => l := Atom(s);
    case List(items) =>
      var ls: seq<Layout> := [];
      for i := 0 to |items|
        invariant |ls| == i && AllStored(ls)
        invariant ValueOfAll(ls) == items[..i]
      {
        var next := HasLayout(items[i]);
        var longer := ls + [next];
        assert forall j | 0 <= j < |longer| :: ValueOf(longer[j]) == items[j] by {
          assert forall j | 0 <= j < i :: ValueOfAll(ls)[j] == items[j];
        }
        assert ValueOfAll(longer) == items[..i + 1];
        ls := longer;
      }
      assert items[..|items|] == items;
      l := Sequence(ls);
    case Map(entries) =>
      var cells := TableOf(v, entries);
      l := Table(cells);
    case Described(d, inner) =>
      var inner' := HasLayout(inner);
      l := Tagged(d, inner');
  }

  lemma {:induction false} TableOf(v: Value, m: map<Value, Value>) returns (cells: seq<Layout>)
    requires v.Map? && Hashable(v)
    requires forall k | k in m :: k in v.entries && m[k] == v.entries[k]
    ensures IsTable(cells) && AllStored(cells) && Pairs(map[], ValueOfAll(cells)) == m
    ensures forall k | k !in m :: NotAKey(k, ValueOfAll(cells))
    decreases v, 0, |m|
  {
    if m == map[] {
      cells := [];
    } else {
      var k :| k in m;
      var tail := TableOf(v, m - {k});
      var key := HasLayout(k);
      var value := HasLayout(m[k]);
      cells := [key, value] + tail;
      OneMoreEntry(m, k, key, value, tail);
    }
  }

  lemma OneMoreEntry(m: map<Value, Value>, k: Value, key: Layout, value: Layout, tail: seq<Layout>)
    requires k in m && !ContainsMap(k) && Stored(key) && ValueOf(key) == k && Stored(value) && ValueOf(value) == m[k]
    requires IsTable(tail) && AllStored(tail) && Pairs(map[], ValueOfAll(tail)) == m - {k}
    requires forall k' | k' !in m - {k} :: NotAKey(k', ValueOfAll(tail))
    ensures var cells := [key, value] + tail;
            && IsTable(cells) && AllStored(cells) && Pairs(map[], ValueOfAll(cells)) == m
            && forall k' | k' !in m :: NotAKey(k', ValueOfAll(cells))
  {
    PrependEntry(key, value, tail);
    assert map[k := m[k]] + (m - {k}) == m;
  }

  lemma PrependEntry(key: Layout, value: Layout, tail: seq<Layout>)
    ensures var vs := ValueOfAll([key, value] + tail);
            && Pairs(map[], vs) == map[ValueOf(key) := ValueOf(value)] + Pairs(map[], ValueOfAll(tail))
            && (forall k :: NotAKey(k, vs) <==> k != ValueOf(key) && NotAKey(k, ValueOfAll(tail)))
            && (DistinctKeys(vs) <==> NotAKey(ValueOf(key), ValueOfAll(tail)) && DistinctKeys(ValueOfAll(tail)))
            && (HashableEntries([key, value] + tail) <==> !ContainsMap(ValueOf(key)) && HashableEntries(tail))
  {
    assert ([key, value] + tail)[2..] == tail;
    FirstValues([key, value] + tail);
    PairsOver(map[ValueOf(key) := ValueOf(value)], ValueOfAll(tail));
  }
}
