/** Byte strings, big-endian integers, decoding outcomes and the append-only writer
    shared by every codec (protocol/src/codec). */
module Bytes {

  type byte = b: int | 0 <= b < 0x100
  type u16 = n: int | 0 <= n < 0x1_0000
  type u32 = n: int | 0 <= n < 0x1_0000_0000
  type u64 = n: int | 0 <= n < 0x1_0000_0000_0000_0000
  type i8 = n: int | -0x80 <= n < 0x80
  type i16 = n: int | -0x8000 <= n < 0x8000
  type i32 = n: int | -0x8000_0000 <= n < 0x8000_0000
  type i64 = n: int | -0x8000_0000_0000_0000 <= n < 0x8000_0000_0000_0000

  datatype Option<+T> = None | Some(value: T)

  const U32_LIMIT: nat := 0x1_0000_0000

  /** Why a decoder gave up. `Incomplete` asks for more input; the others are final. */
  datatype Error =
    | Incomplete(needed: nat)
    | InvalidTypeCode(code: byte)
    | InvalidTypeCodeFor(code: byte)
    | MessageParse
    | InvalidUtf8
    | UnknownResponseCode(status: u16)
    | UnsupportedResponseType(key: u16)

  /** The result of a decoder: the unread input and a value, an error, or an abort.
      An abort stands for a panic: an out-of-bounds slice, an arithmetic underflow, a huge
      allocation, or hashing a map. */
  datatype Outcome<+T> = Ok(rest: seq<byte>, value: T) | Err(error: Error) | Abort {

    predicate IsFailure() {
      !Ok?
    }

    function PropagateFailure<U>(): Outcome<U>
      requires !Ok?
    {
      match this
      case Err(e) => Err(e)
      case Abort => Abort
    }

    function Extract(): (seq<byte>, T)
      requires Ok?
    {
      (rest, value)
    }

    predicate NeedsMore() {
      Err? && error.Incomplete?
    }
  }

  /** `a` is what is left of `b` after reading at least one byte. */
  ghost predicate StrictSuffix(a: seq<byte>, b: seq<byte>) {
    |a| < |b| && a == b[|b| - |a|..]
  }

  /** `a` is what is left of `b` after reading any number of bytes. */
  ghost predicate Suffix(a: seq<byte>, b: seq<byte>) {
    |a| <= |b| && a == b[|b| - |a|..]
  }

  lemma Associative(a: seq<byte>, b: seq<byte>, c: seq<byte>)
    ensures (a + b) + c == a + (b + c)
  {
  }

  lemma StrictSuffixTransitive(a: seq<byte>, b: seq<byte>, c: seq<byte>)
    requires StrictSuffix(a, b) && StrictSuffix(b, c)
    ensures StrictSuffix(a, c)
  {
  }

  // ----- Decoding several in a row -----

  /** Put the elements read before in front of those read next. */
  function Prepend<T>(front: seq<T>, r: Outcome<seq<T>>): Outcome<seq<T>> {
    match r
    case Ok(rest, more) => Ok(rest, front + more)
    case Err(e) => Err(e)
    case Abort => Abort
  }

  /** The first element decides, or those behind it. */
  ghost predicate RepeatsAt<T(!new)>(many: (nat, seq<byte>) -> Outcome<seq<T>>, one: seq<byte> -> Outcome<T>,
                                     n: nat, input: seq<byte>) {
    var first := one(input);
    many(n, input) ==
      if n == 0 then Ok(input, [])
      else if first.Ok? then Prepend([first.value], many(n - 1, first.rest))
      else first.PropagateFailure()
  }

  /** `many` decodes the given number of elements, one after the other, as `one` decodes them. */
  ghost predicate Repeats<T(!new)>(many: (nat, seq<byte>) -> Outcome<seq<T>>, one: seq<byte> -> Outcome<T>) {
    forall n: nat, input :: RepeatsAt(many, one, n, input)
  }

  /** Elements that decode, and one behind them that does not. */
  lemma {:induction false} ManyStop<T(!new)>(many: (nat, seq<byte>) -> Outcome<seq<T>>, one: seq<byte> -> Outcome<T>,
                                       done: nat, count: nat, input: seq<byte>)
    requires Repeats(many, one) && done < count && many(done, input).Ok?
    requires !one(many(done, input).rest).Ok?
    ensures many(count, input) == one(many(done, input).rest).PropagateFailure()
    decreases done
  {
    assert RepeatsAt(many, one, done, input) && RepeatsAt(many, one, count, input);
    if done > 0 {
      ManyStop(many, one, done - 1, count - 1, one(input).rest);
    }
  }

  /** As many elements come out as are asked for, and the first of them first. */
  lemma {:induction false} ManyCount<T(!new)>(many: (nat, seq<byte>) -> Outcome<seq<T>>, one: seq<byte> -> Outcome<T>,
                                              count: nat, input: seq<byte>)
    requires Repeats(many, one)
    ensures var r := many(count, input);
            r.Ok? ==> |r.value| == count && (count > 0 ==> one(input).Ok? && r.value[0] == one(input).value)
  {
    assert RepeatsAt(many, one, count, input);
    if count > 0 && one(input).Ok? {
      ManyCount(many, one, count - 1, one(input).rest);
    }
  }

  // ----- Fixed-width integers -----

  /** The number of values of a `w`-byte word. */
  function Span(w: nat): (r: nat)
    ensures r > 0
  {
    if w == 0 then 1 else 0x100 * Span(w - 1)
  }

  /** The low `w` bytes of `n`, most significant first: what `write_uN::<BigEndian>` appends.
      A value that does not fit is truncated, as by an `as` cast. */
  function BigEndian(w: nat, n: nat): (r: seq<byte>)
    ensures |r| == w
  {
    if w == 0 then [] else BigEndian(w - 1, n / 0x100) + [n % 0x100]
  }

  lemma OneByte(n: byte)
    ensures BigEndian(1, n) == [n]
  {
    assert BigEndian(0, n / 0x100) == [];
  }

  function Number(s: seq<byte>): nat {
    if s == [] then 0 else Number(s[..|s| - 1]) * 0x100 + s[|s| - 1]
  }

  /** Two's complement: the word that stores the signed integer `n`, and the integer stored. */
  function Word(w: nat, n: int): nat
    requires 0 <= n + Span(w)
  {
    if n < 0 then n + Span(w) else n
  }

  function Signed(w: nat, n: nat): int {
    if 2 * n < Span(w) then n else n - Span(w)
  }

  lemma {:induction false} NumberOfBigEndian(w: nat, n: nat)
    requires n < Span(w)
    ensures Number(BigEndian(w, n)) == n
  {
    if w == 0 {
    } else {
      var s := BigEndian(w, n);
      assert s[..|s| - 1] == BigEndian(w - 1, n / 0x100);
      NumberOfBigEndian(w - 1, n / 0x100);
    }
  }

  /** The four bytes of a number in 2^8..2^16-1: two zeros and then something else. */
  lemma LeadingZeros(n: nat)
    requires 0x100 <= n < 0x1_0000
    ensures BigEndian(4, n)[0] == 0 && BigEndian(4, n)[1] == 0 && BigEndian(4, n)[2] != 0
  {
    assert BigEndian(4, n) == BigEndian(3, n / 0x100) + [n % 0x100];
    assert BigEndian(3, n / 0x100) == BigEndian(2, n / 0x100 / 0x100) + [n / 0x100 % 0x100];
    assert n / 0x100 / 0x100 == 0;
    assert BigEndian(2, 0) == BigEndian(1, 0) + [0] && BigEndian(1, 0) == [0];
  }

  lemma SecondByte(n: nat)
    requires n < U32_LIMIT
    ensures BigEndian(4, n)[1] == n / 0x1_0000 % 0x100
  {
    assert BigEndian(4, n) == BigEndian(3, n / 0x100) + [n % 0x100];
    assert BigEndian(3, n / 0x100) == BigEndian(2, n / 0x100 / 0x100) + [n / 0x100 % 0x100];
    assert BigEndian(2, n / 0x1_0000) == BigEndian(1, n / 0x1_0000 / 0x100) + [n / 0x1_0000 % 0x100];
    assert n / 0x100 / 0x100 == n / 0x1_0000;
  }

  lemma {:induction false} NumberBound(s: seq<byte>)
    ensures Number(s) < Span(|s|)
  {
    if s == [] {
    } else {
      NumberBound(s[..|s| - 1]);
    }
  }

  // ----- Checked readers (protocol/src/codec/decoder.rs) -----

  function ReadExact(input: seq<byte>, len: nat): (r: Outcome<seq<byte>>)
    ensures r.Ok? ==> |r.value| == len && r.value + r.rest == input
  {
    if |input| < len then Err(Incomplete(len)) else Ok(input[len..], input[..len])
  }

  function ReadUnsigned(w: nat, input: seq<byte>): (r: Outcome<nat>)
    ensures r.Ok? ==> r.value < Span(w) && w <= |input| && r.rest == input[w..]
    ensures !r.Ok? ==> r == Err(Incomplete(w))
  {
    if |input| < w then Err(Incomplete(w)) else
      NumberBound(input[..w]);
      Ok(input[w..], Number(input[..w]))
  }

  function ReadByte(input: seq<byte>): (r: Outcome<byte>)
    ensures r.Ok? ==> input != [] && r.rest == input[1..] && r.value == input[0]
    ensures !r.Ok? ==> r == Err(Incomplete(1))
  {
    if |input| < 1 then Err(Incomplete(1)) else Ok(input[1..], input[0])
  }

  /** Reading what was written returns the number and leaves the rest alone. */
  lemma ReadsBack(w: nat, n: nat, rest: seq<byte>)
    requires n < Span(w)
    ensures ReadUnsigned(w, BigEndian(w, n) + rest) == Ok(rest, n)
  {
    var input := BigEndian(w, n) + rest;
    assert input[..w] == BigEndian(w, n) && input[w..] == rest;
    NumberOfBigEndian(w, n);
  }

  lemma ReadsBackExact(s: seq<byte>, rest: seq<byte>)
    ensures ReadExact(s + rest, |s|) == Ok(rest, s)
  {
    assert (s + rest)[..|s|] == s && (s + rest)[|s|..] == rest;
  }

  // ----- The writer -----

  /** An in-memory `io::Write`: encoders only append to it. */
  class Writer {
    var bytes: seq<byte>

    constructor ()
      ensures bytes == []
    {
      bytes := [];
    }

    method WriteAll(s: seq<byte>)
      modifies this
      ensures bytes == old(bytes) + s
    {
      bytes := bytes + s;
    }

    method WriteU32(n: nat)
      modifies this
      ensures bytes == old(bytes) + BigEndian(4, n)
    {
      bytes := bytes + BigEndian(4, n);
    }
  }

  // ----- UTF-8 (section 4 of RFC 3629) -----

  predicate Continuation(s: seq<byte>, from: nat, to: nat) {
    to <= |s| && forall i | from <= i < to :: 0x80 <= s[i] <= 0xBF
  }

  predicate IsUtf8(s: seq<byte>) {
    if s == [] then true
    else if s[0] <= 0x7F then IsUtf8(s[1..])
    else if 0xC2 <= s[0] <= 0xDF then Continuation(s, 1, 2) && IsUtf8(s[2..])
    else if 0xE0 <= s[0] <= 0xEF then
      && Continuation(s, 1, 3)
      && (s[0] == 0xE0 ==> 0xA0 <= s[1])
      && (s[0] == 0xED ==> s[1] <= 0x9F)
      && IsUtf8(s[3..])
    else if 0xF0 <= s[0] <= 0xF4 then
      && Continuation(s, 1, 4)
      && (s[0] == 0xF0 ==> 0x90 <= s[1])
      && (s[0] == 0xF4 ==> s[1] <= 0x8F)
      && IsUtf8(s[4..])
    else false
  }

  /** The bytes of a `String`. */
  type Utf8 = s: seq<byte> | IsUtf8(s)
}
