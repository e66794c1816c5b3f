/** The wire format of messages (templates/raisin_serialization_base.hpp, templates/MessageTemplate.hpp,
    templates/ServiceTemplate.hpp).

    Scalars are their object representation, so two values are equal when their bit patterns are.  Lengths are
    written as four little-endian bytes of a 32-bit unsigned integer: a longer length wraps around, and the two
    writers then disagree about how much of the contents they write. */
module Codec {
  import opened Wrappers

  type Byte = b: int | 0 <= b < 256

  const U32: nat := 0x1_0000_0000

  /** The size of a char16_t is 2, that of a wchar_t is 2 or 4. */
  type Unit = u: nat | u == 2 || u == 4 witness 2

  datatype Type =
    | Scalar(width: nat)              // every trivially copyable type but bool
    | Bool
    | Text                            // std::string
    | WideText(unit: Unit)            // std::u16string, std::wstring: code units of `unit` bytes
    | Vector(elem: Type)
    | Array(elem: Type, length: nat)
    | Message(fields: seq<Type>)

  datatype Value =
    | Bits(bytes: seq<Byte>)
    | Flag(on: bool)
    | Chars(chars: seq<Byte>)
    | Items(items: seq<Value>)

  /** Which of the two writers: the one that appends to a vector, or the one that writes at a pointer. */
  datatype Writer = Appending | InPlace

  // ---------------------------------------------------------------------------------------------
  // Values of a type

  ghost predicate HasType(t: Type, v: Value)
    decreases t, 2
  {
    match t
    case Scalar(w) => v.Bits? && |v.bytes| == w
    case Bool => v.Flag?
    case Text => v.Chars?
    case WideText(u) => v.Chars? && |v.chars| % u == 0
    case Vector(e) => v.Items? && AllHaveType(e, v.items)
    case Array(e, n) => v.Items? && |v.items| == n && AllHaveType(e, v.items)
    case Message(fs) => v.Items? && FieldsHaveType(fs, v.items)
  }

  ghost predicate AllHaveType(e: Type, items: seq<Value>)
    decreases e, 3, |items|
  {
    items == [] || (HasType(e, items[0]) && AllHaveType(e, items[1..]))
  }

  ghost predicate FieldsHaveType(fs: seq<Type>, items: seq<Value>)
    decreases fs, 1
  {
    if fs == [] then items == []
    else items != [] && HasType(fs[0], items[0]) && FieldsHaveType(fs[1..], items[1..])
  }

  /** Every length that gets written is below 2^32. */
  ghost predicate Fits(t: Type, v: Value)
    requires HasType(t, v)
    decreases t, 2
  {
    match t
    case Scalar(_) => true
    case Bool => true
    case Text => |v.chars| < U32
    case WideText(_) => |v.chars| < U32
    case Vector(e) => |v.items| < U32 && AllFit(e, v.items)
    case Array(e, _) => AllFit(e, v.items)
    case Message(fs) => FieldsFit(fs, v.items)
  }

  ghost predicate AllFit(e: Type, items: seq<Value>)
    requires AllHaveType(e, items)
    decreases e, 3, |items|
  {
    items == [] || (Fits(e, items[0]) && AllFit(e, items[1..]))
  }

  ghost predicate FieldsFit(fs: seq<Type>, items: seq<Value>)
    requires FieldsHaveType(fs, items)
    decreases fs, 1
  {
    fs == [] || (Fits(fs[0], items[0]) && FieldsFit(fs[1..], items[1..]))
  }

  // ---------------------------------------------------------------------------------------------
  // What is written

  function Length32(n: nat): (s: seq<Byte>)
    ensures |s| == 4
  {
    [n % 256, n / 256 % 256, n / 65536 % 256, n / 16777216 % 256]
  }

  /** How many elements of a vector the bulk copy takes. */
  function Taken(w: Writer, e: Type, n: nat): (k: nat)
    ensures k <= n
  {
    if w.Appending? && e.Scalar? then n % U32 else n
  }

  ghost function Encode(w: Writer, t: Type, v: Value): seq<Byte>
    requires HasType(t, v)
    decreases t, 2
  {
    match t
    case Scalar(_) => v.bytes
    case Bool => [if v.on then 1 else 0]
    case Text => Length32(|v.chars|) + if w.Appending? then v.chars else v.chars[..|v.chars| % U32]
    case WideText(_) => Length32(|v.chars|) + v.chars[..|v.chars| % U32]
    case Vector(e) =>
      TakenHaveType(e, v.items, Taken(w, e, |v.items|));
      Length32(|v.items|) + EncodeAll(w, e, v.items[..Taken(w, e, |v.items|)])
    case Array(e, _) => EncodeAll(w, e, v.items)
    case Message(fs) => EncodeFields(w, fs, v.items)
  }

  ghost function EncodeAll(w: Writer, e: Type, items: seq<Value>): seq<Byte>
    requires AllHaveType(e, items)
    decreases e, 3, |items|
  {
    if items == [] then [] else Encode(w, e, items[0]) + EncodeAll(w, e, items[1..])
  }

  ghost function EncodeFields(w: Writer, fs: seq<Type>, items: seq<Value>): seq<Byte>
    requires FieldsHaveType(fs, items)
    decreases fs, 1
  {
    if fs == [] then [] else Encode(w, fs[0], items[0]) + EncodeFields(w, fs[1..], items[1..])
  }

  lemma {:induction false} TakenHaveType(e: Type, items: seq<Value>, k: nat)
    requires AllHaveType(e, items) && k <= |items|
    ensures AllHaveType(e, items[..k])
    decreases |items|
  {
    if k > 0 {
      TakenHaveType(e, items[1..], k - 1);
      assert items[..k][1..] == items[1..][..k - 1];
    }
  }

  // ---------------------------------------------------------------------------------------------
  // What is read

  /** What reading gives: the value and the bytes left over.  None is a read past the end of the buffer, which
      the reader does not check for. */
  type Parsed<T> = Option<(T, seq<Byte>)>

  function Weigh(b0: int, b1: int, b2: int, b3: int): int {
    b0 + 256 * b1 + 65536 * b2 + 16777216 * b3
  }

  function ReadLength(s: seq<Byte>): Parsed<nat> {
    if |s| < 4 then None else Some((Weigh(s[0], s[1], s[2], s[3]), s[4..]))
  }

  function Decode(t: Type, s: seq<Byte>): Parsed<Value>
    decreases t, 2
  {
    match t
    case Scalar(w) => if |s| < w then None else Some((Bits(s[..w]), s[w..]))
    case Bool => if |s| < 1 then None else Some((Flag(s[0] != 0), s[1..]))
    case Text =>
      (match ReadLength(s)
       case None => None
       case Some((n, rest)) => if |rest| < n then None else Some((Chars(rest[..n]), rest[n..])))
    case WideText(u) =>
      (match ReadLength(s)
       case None => None
       case Some((n, rest)) =>
         if |rest| < n then None else DivBound(n, u); Some((Chars(rest[..n / u * u]), rest[n..])))
    case Vector(e) =>
      (match ReadLength(s)
       case None => None
       case Some((n, rest)) => AsItems(DecodeAll(e, n, rest)))
    case Array(e, n) => AsItems(DecodeAll(e, n, s))
    case Message(fs) => AsItems(DecodeFields(fs, s))
  }

  function AsItems(p: Parsed<seq<Value>>): Parsed<Value> {
    if p.None? then None else Some((Items(p.value.0), p.value.1))
  }

  function DecodeAll(e: Type, n: nat, s: seq<Byte>): Parsed<seq<Value>>
    decreases e, 3, n
  {
    if n == 0 then Some(([], s))
    else
      match Decode(e, s)
      case None => None
      case Some((v, rest)) =>
        match DecodeAll(e, n - 1, rest)
        case None => None
        case Some((vs, end)) => Some(([v] + vs, end))
  }

  function DecodeFields(fs: seq<Type>, s: seq<Byte>): Parsed<seq<Value>>
    decreases fs, 1
  {
    if fs == [] then Some(([], s))
    else
      match Decode(fs[0], s)
      case None => None
      case Some((v, rest)) =>
        match DecodeFields(fs[1..], rest)
        case None => None
        case Some((vs, end)) => Some(([v] + vs, end))
  }

  lemma DivBound(n: nat, u: Unit)
    ensures 0 <= n / u * u <= n
    ensures n / u * u % u == 0
    ensures n % u == 0 ==> n / u * u == n
  {
    if u == 2 {
      DivBoundBy2(n);
    } else {
      DivBoundBy4(n);
    }
  }

  lemma DivBoundBy2(n: nat)
    ensures 0 <= n / 2 * 2 <= n && n / 2 * 2 % 2 == 0 && (n % 2 == 0 ==> n / 2 * 2 == n)
  {
  }

  lemma DivBoundBy4(n: nat)
    ensures 0 <= n / 4 * 4 <= n && n / 4 * 4 % 4 == 0 && (n % 4 == 0 ==> n / 4 * 4 == n)
  {
  }

  // ---------------------------------------------------------------------------------------------
  // Round trip

  lemma BytesOfLength(n: nat)
    ensures Weigh(n % 256, n / 256 % 256, n / 65536 % 256, n / 16777216 % 256) == n % U32
  {
    assert n / 65536 == n / 256 / 256;
    assert n / 16777216 == n / 65536 / 256;
    assert n / U32 == n / 16777216 / 256;
  }

  lemma LengthRoundTrip(n: nat, rest: seq<Byte>)
    ensures ReadLength(Length32(n) + rest) == Some((n % U32, rest))
  {
    BytesOfLength(n);
    assert (Length32(n) + rest)[4..] == rest;
  }

  // What is where on the wire.

  /** A length is four bytes, the least significant one first. */
  lemma LengthOnTheWire(n: nat)
    requires n < 0x1_0000_0000
    ensures var b0: int, b1: int, b2: int, b3: int := Length32(n)[0], Length32(n)[1], Length32(n)[2], Length32(n)[3];
            n == b0 + 0x100 * b1 + 0x1_0000 * b2 + 0x100_0000 * b3
  {
    BytesOfLength(n);
    assert n % U32 == n;
  }

  /** The elements of a vector or an array follow one another in order ... */
  lemma {:induction false} ElementsOnTheWire(w: Writer, e: Type, a: seq<Value>, b: seq<Value>)
    requires AllHaveType(e, a) && AllHaveType(e, b)
    ensures AllHaveType(e, a + b) && EncodeAll(w, e, a + b) == EncodeAll(w, e, a) + EncodeAll(w, e, b)
    decreases |a|
  {
    if a == [] {
      assert a + b == b;
    } else {
      assert (a + b)[0] == a[0] && (a + b)[1..] == a[1..] + b;
      ElementsOnTheWire(w, e, a[1..], b);
      Associative(Encode(w, e, a[0]), EncodeAll(w, e, a[1..]), EncodeAll(w, e, b));
    }
  }

  /** ... and so do the members of a message. */
  lemma {:induction false} MembersOnTheWire(w: Writer, fs: seq<Type>, gs: seq<Type>, a: seq<Value>, b: seq<Value>)
    requires FieldsHaveType(fs, a) && FieldsHaveType(gs, b)
    ensures FieldsHaveType(fs + gs, a + b)
    ensures EncodeFields(w, fs + gs, a + b) == EncodeFields(w, fs, a) + EncodeFields(w, gs, b)
    decreases |fs|
  {
    if fs == [] {
      assert fs + gs == gs && a + b == b;
    } else {
      assert (fs + gs)[0] == fs[0] && (fs + gs)[1..] == fs[1..] + gs;
      assert (a + b)[0] == a[0] && (a + b)[1..] == a[1..] + b;
      MembersOnTheWire(w, fs[1..], gs, a[1..], b);
      Associative(Encode(w, fs[0], a[0]), EncodeFields(w, fs[1..], a[1..]), EncodeFields(w, gs, b));
    }
  }

  /** A scalar is its bytes, a flag a byte 0 or 1, a string its length in bytes and its bytes. */
  lemma LeavesOnTheWire(w: Writer, t: Type, v: Value)
    requires HasType(t, v) && Fits(t, v)
    ensures t.Scalar? ==> Encode(w, t, v) == v.bytes
    ensures t.Bool? ==> Encode(w, t, v) == if v.on then [1] else [0]
    ensures t.Text? || t.WideText? ==>
              |Encode(w, t, v)| == 4 + |v.chars| && Encode(w, t, v)[..4] == Length32(|v.chars|) &&
              Encode(w, t, v)[4..] == v.chars
    ensures t.Vector? ==>
              Encode(w, t, v)[..4] == Length32(|v.items|) && Encode(w, t, v)[4..] == EncodeAll(w, t.elem, v.items)
  {
    EncodeFitting(w, t, v);
  }

  lemma Split(a: seq<Byte>, rest: seq<Byte>)
    ensures (a + rest)[..|a|] == a && (a + rest)[|a|..] == rest
  {
  }

  lemma Associative(a: seq<Byte>, b: seq<Byte>, c: seq<Byte>)
    ensures (a + b) + c == a + (b + c)
  {
  }

  lemma NoWrap<T>(s: seq<T>)
    requires |s| < U32
    ensures |s| % U32 == |s| && s[..|s| % U32] == s && s[..|s|] == s
  {
  }

  /** Without wrap-around the length prefix is followed by all of the contents. */
  lemma EncodeFitting(w: Writer, t: Type, v: Value)
    requires HasType(t, v) && Fits(t, v)
    ensures t.Text? || t.WideText? ==> Encode(w, t, v) == Length32(|v.chars|) + v.chars
    ensures t.Vector? ==> Encode(w, t, v) == Length32(|v.items|) + EncodeAll(w, t.elem, v.items)
  {
    match t
    case Text => NoWrap(v.chars);
    case WideText(_) => NoWrap(v.chars);
    case Vector(e) => NoWrap(v.items);
    case _ =>
  }

  // What reading makes of a buffer whose length prefix is known.

  lemma DecodeText(s: seq<Byte>, chars: seq<Byte>, rest: seq<Byte>)
    requires ReadLength(s) == Some((|chars|, chars + rest))
    ensures Decode(Text, s) == Some((Chars(chars), rest))
  {
    Split(chars, rest);
  }

  lemma DecodeWideText(u: Unit, s: seq<Byte>, chars: seq<Byte>, rest: seq<Byte>)
    requires |chars| % u == 0
    requires ReadLength(s) == Some((|chars|, chars + rest))
    ensures Decode(WideText(u), s) == Some((Chars(chars), rest))
  {
    Split(chars, rest);
    DivBound(|chars|, u);
  }

  lemma DecodeVector(e: Type, s: seq<Byte>, items: seq<Value>, body: seq<Byte>, rest: seq<Byte>)
    requires ReadLength(s) == Some((|items|, body + rest))
    requires DecodeAll(e, |items|, body + rest) == Some((items, rest))
    ensures Decode(Vector(e), s) == Some((Items(items), rest))
  {
  }

  lemma ReadAfterPrefix(prefix: seq<Byte>, body: seq<Byte>, rest: seq<Byte>, n: nat)
    requires ReadLength(prefix + (body + rest)) == Some((n, body + rest))
    ensures ReadLength((prefix + body) + rest) == Some((n, body + rest))
  {
    Associative(prefix, body, rest);
  }

  lemma Unwrapped(n: nat)
    requires n < U32
    ensures n % U32 == n
  {
  }

  lemma SmallLength(n: nat, rest: seq<Byte>)
    requires n < U32
    ensures ReadLength(Length32(n) + rest) == Some((n, rest))
  {
    Unwrapped(n);
    LengthRoundTrip(n, rest);
  }

  lemma PrefixRoundTrip(n: nat, body: seq<Byte>, rest: seq<Byte>)
    requires n < U32
    ensures ReadLength((Length32(n) + body) + rest) == Some((n, body + rest))
  {
    SmallLength(n, body + rest);
    ReadAfterPrefix(Length32(n), body, rest, n);
  }

  /** Reading what was written, followed by anything, gives back the value and stops at what follows. */
  lemma {:induction false} RoundTrip(w: Writer, t: Type, v: Value, rest: seq<Byte>)
    requires HasType(t, v) && Fits(t, v)
    ensures Decode(t, Encode(w, t, v) + rest) == Some((v, rest))
    decreases t, 2
  {
    match t
    case Scalar(_) =>
      Split(v.bytes, rest);
    case Bool =>
      Split(Encode(w, t, v), rest);
    case Text =>
      EncodeFitting(w, t, v);
      PrefixRoundTrip(|v.chars|, v.chars, rest);
      DecodeText(Encode(w, t, v) + rest, v.chars, rest);
    case WideText(u) =>
      EncodeFitting(w, t, v);
      PrefixRoundTrip(|v.chars|, v.chars, rest);
      DecodeWideText(u, Encode(w, t, v) + rest, v.chars, rest);
    case Vector(e) =>
      EncodeFitting(w, t, v);
      var body := EncodeAll(w, e, v.items);
      PrefixRoundTrip(|v.items|, body, rest);
      RoundTripAll(w, e, v.items, rest);
      DecodeVector(e, Encode(w, t, v) + rest, v.items, body, rest);
    case Array(e, _) =>
      RoundTripAll(w, e, v.items, rest);
    case Message(fs) =>
      RoundTripFields(w, fs, v.items, rest);
  }

  lemma {:induction false} RoundTripAll(w: Writer, e: Type, items: seq<Value>, rest: seq<Byte>)
    requires AllHaveType(e, items) && AllFit(e, items)
    ensures DecodeAll(e, |items|, EncodeAll(w, e, items) + rest) == Some((items, rest))
    decreases e, 3, |items|
  {
    if items != [] {
      var tail := EncodeAll(w, e, items[1..]) + rest;
      assert EncodeAll(w, e, items) + rest == Encode(w, e, items[0]) + tail;
      RoundTrip(w, e, items[0], tail);
      RoundTripAll(w, e, items[1..], rest);
      assert [items[0]] + items[1..] == items;
    } else {
      assert EncodeAll(w, e, items) + rest == rest;
    }
  }

  lemma {:induction false} RoundTripFields(w: Writer, fs: seq<Type>, items: seq<Value>, rest: seq<Byte>)
    requires FieldsHaveType(fs, items) && FieldsFit(fs, items)
    ensures DecodeFields(fs, EncodeFields(w, fs, items) + rest) == Some((items, rest))
    decreases fs, 1
  {
    if fs != [] {
      var tail := EncodeFields(w, fs[1..], items[1..]) + rest;
      assert EncodeFields(w, fs, items) + rest == Encode(w, fs[0], items[0]) + tail;
      RoundTrip(w, fs[0], items[0], tail);
      RoundTripFields(w, fs[1..], items[1..], rest);
      assert [items[0]] + items[1..] == items;
    } else {
      assert EncodeFields(w, fs, items) + rest == rest;
    }
  }

  // ---------------------------------------------------------------------------------------------
  // What reading can give

  lemma ReadLengthBound(s: seq<Byte>)
    requires ReadLength(s).Some?
    ensures 0 <= ReadLength(s).value.0 < U32 && ReadLength(s).value.1 == s[4..]
  {
  }

  /** What reading gives is a value of the type that could have been written without wrap-around. */
  lemma {:induction false} DecodedFits(t: Type, s: seq<Byte>)
    requires Decode(t, s).Some?
    ensures HasType(t, Decode(t, s).value.0) && Fits(t, Decode(t, s).value.0)
    decreases t, 2
  {
    match t
    case Scalar(_) =>
    case Bool =>
    case Text =>
      ReadLengthBound(s);
    case WideText(u) =>
      ReadLengthBound(s);
      DivBound(ReadLength(s).value.0, u);
    case Vector(e) =>
      ReadLengthBound(s);
      DecodedAllFit(e, ReadLength(s).value.0, ReadLength(s).value.1);
    case Array(e, n) =>
      DecodedAllFit(e, n, s);
    case Message(fs) =>
      DecodedFieldsFit(fs, s);
  }

  lemma {:induction false} DecodedAllFit(e: Type, n: nat, s: seq<Byte>)
    requires DecodeAll(e, n, s).Some?
    ensures var vs := DecodeAll(e, n, s).value.0;
            |vs| == n && AllHaveType(e, vs) && AllFit(e, vs)
    decreases e, 3, n
  {
    if n > 0 {
      DecodedFits(e, s);
      var (v, rest) := Decode(e, s).value;
      DecodedAllFit(e, n - 1, rest);
      var vs := DecodeAll(e, n - 1, rest).value.0;
      assert ([v] + vs)[1..] == vs;
    }
  }

  lemma {:induction false} DecodedFieldsFit(fs: seq<Type>, s: seq<Byte>)
    requires DecodeFields(fs, s).Some?
    ensures var vs := DecodeFields(fs, s).value.0;
            FieldsHaveType(fs, vs) && FieldsFit(fs, vs)
    decreases fs, 1
  {
    if fs != [] {
      DecodedFits(fs[0], s);
      var (v, rest) := Decode(fs[0], s).value;
      DecodedFieldsFit(fs[1..], rest);
      var vs := DecodeFields(fs[1..], rest).value.0;
      assert ([v] + vs)[1..] == vs;
    }
  }

  /** A wide string of a length that is no multiple of its unit loses what is left over, but its length is skipped. */
  lemma OddWideTextRead(unit: Unit, body: seq<Byte>, rest: seq<Byte>)
    requires |body| < U32
    ensures Decode(WideText(unit), Length32(|body|) + body + rest) ==
            Some((Chars(body[..|body| - |body| % unit]), rest))
  {
    PrefixRoundTrip(|body|, body, rest);
    DivBound(|body|, unit);
    assert |body| - |body| % unit == |body| / unit * unit;
    Split(body, rest);
    assert (body + rest)[..|body| / unit * unit] == body[..|body| / unit * unit];
  }

  /** Exactly the values whose lengths fit in 32 bits survive the trip. */
  lemma RoundTripExactlyWhenFitting(w: Writer, t: Type, v: Value, rest: seq<Byte>)
    requires HasType(t, v)
    ensures Decode(t, Encode(w, t, v) + rest) == Some((v, rest)) <==> Fits(t, v)
  {
    if Fits(t, v) {
      RoundTrip(w, t, v, rest);
    }
    if Decode(t, Encode(w, t, v) + rest) == Some((v, rest)) {
      DecodedFits(t, Encode(w, t, v) + rest);
    }
  }

  /** No written value is the beginning of another one, so values can be written back to back. */
  lemma EncodingsAreSelfDelimiting(w: Writer, t: Type, v: Value, v': Value, rest: seq<Byte>, rest': seq<Byte>)
    requires HasType(t, v) && HasType(t, v') && Fits(t, v) && Fits(t, v')
    requires Encode(w, t, v) + rest == Encode(w, t, v') + rest'
    ensures v == v' && rest == rest'
  {
    RoundTrip(w, t, v, rest);
    RoundTrip(w, t, v', rest');
  }

  // ---------------------------------------------------------------------------------------------
  // The two writers against each other

  /** The in-place writer writes what the appending writer appends. */
  lemma {:induction false} WritersAgree(t: Type, v: Value)
    requires HasType(t, v) && Fits(t, v)
    ensures Encode(InPlace, t, v) == Encode(Appending, t, v)
    decreases t, 2
  {
    match t
    case Scalar(_) =>
    case Bool =>
    case Text => assert v.chars[..|v.chars|] == v.chars;
    case WideText(_) =>
    case Vector(e) =>
      EncodeFitting(InPlace, t, v);
      EncodeFitting(Appending, t, v);
      WritersAgreeOnAll(e, v.items);
    case Array(e, _) => WritersAgreeOnAll(e, v.items);
    case Message(fs) => WritersAgreeOnFields(fs, v.items);
  }

  lemma {:induction false} WritersAgreeOnAll(e: Type, items: seq<Value>)
    requires AllHaveType(e, items) && AllFit(e, items)
    ensures EncodeAll(InPlace, e, items) == EncodeAll(Appending, e, items)
    decreases e, 3, |items|
  {
    if items != [] {
      WritersAgree(e, items[0]);
      WritersAgreeOnAll(e, items[1..]);
    }
  }

  lemma {:induction false} WritersAgreeOnFields(fs: seq<Type>, items: seq<Value>)
    requires FieldsHaveType(fs, items) && FieldsFit(fs, items)
    ensures EncodeFields(InPlace, fs, items) == EncodeFields(Appending, fs, items)
    decreases fs, 1
  {
    if fs != [] {
      WritersAgree(fs[0], items[0]);
      WritersAgreeOnFields(fs[1..], items[1..]);
    }
  }

  /** From 2^32 characters on, the appending writer copies a string whole behind its wrapped length, and the
      in-place writer only as much as the wrapped length says. */
  lemma TextWritersAgreeExactlyWhenFitting(v: Value)
    requires HasType(Text, v)
    ensures Encode(InPlace, Text, v) == Encode(Appending, Text, v) <==> Fits(Text, v)
  {
    if Fits(Text, v) {
      WritersAgree(Text, v);
    } else {
      assert |Encode(InPlace, Text, v)| == 4 + |v.chars| % U32;
    }
  }

  /** Of a wide string both writers write only as much as the wrapped length says. */
  lemma WideTextStopsAtWrappedLength(w: Writer, unit: Unit, v: Value)
    requires HasType(WideText(unit), v)
    ensures var n := |v.chars| % U32;
            |Encode(w, WideText(unit), v)| == 4 + n && Encode(w, WideText(unit), v)[4..] == v.chars[..n]
  {
  }

  lemma {:induction false} ScalarsLength(w: Writer, width: nat, items: seq<Value>)
    requires AllHaveType(Scalar(width), items)
    ensures |EncodeAll(w, Scalar(width), items)| == |items| * width
    decreases |items|
  {
    if items != [] {
      ScalarsLength(w, width, items[1..]);
      assert |items| * width == width + (|items| - 1) * width;
    }
  }

  /** Vectors of scalars are the other way round: there the appending writer stops at the wrapped count. */
  lemma ScalarVectorWritersAgreeExactlyWhenFitting(width: nat, v: Value)
    requires width > 0 && HasType(Vector(Scalar(width)), v)
    ensures Encode(InPlace, Vector(Scalar(width)), v) == Encode(Appending, Vector(Scalar(width)), v) <==>
            Fits(Vector(Scalar(width)), v)
  {
    var e, n := Scalar(width), |v.items|;
    ScalarsFit(width, v.items);
    if n < U32 {
      WritersAgree(Vector(e), v);
    } else {
      TakenHaveType(e, v.items, n % U32);
      TakenHaveType(e, v.items, n);
      ScalarsLength(Appending, width, v.items[..n % U32]);
      ScalarsLength(InPlace, width, v.items[..n]);
      Larger(n % U32, n, width);
    }
  }

  lemma {:induction false} ScalarsFit(width: nat, items: seq<Value>)
    requires AllHaveType(Scalar(width), items)
    ensures AllFit(Scalar(width), items)
    decreases |items|
  {
    if items != [] {
      ScalarsFit(width, items[1..]);
    }
  }

  lemma {:induction false} Larger(a: nat, b: nat, k: nat)
    requires a < b && k > 0
    ensures a * k < b * k
    decreases k
  {
    if k > 1 {
      Larger(a, b, k - 1);
      assert a * k == a * (k - 1) + a && b * k == b * (k - 1) + b;
    }
  }

  // ---------------------------------------------------------------------------------------------
  // Lengths

  /** The number of bytes a value asks for, counting every element. */
  ghost function FullLength(t: Type, v: Value): nat
    requires HasType(t, v)
    decreases t, 2
  {
    match t
    case Scalar(w) => w
    case Bool => 1
    case Text => 4 + |v.chars|
    case WideText(_) => 4 + |v.chars|
    case Vector(e) => 4 + FullLengthOfAll(e, v.items)
    case Array(e, _) => FullLengthOfAll(e, v.items)
    case Message(fs) => FullLengthOfFields(fs, v.items)
  }

  ghost function FullLengthOfAll(e: Type, items: seq<Value>): nat
    requires AllHaveType(e, items)
    decreases e, 3, |items|
  {
    if items == [] then 0 else FullLength(e, items[0]) + FullLengthOfAll(e, items[1..])
  }

  ghost function FullLengthOfFields(fs: seq<Type>, items: seq<Value>): nat
    requires FieldsHaveType(fs, items)
    decreases fs, 1
  {
    if fs == [] then 0 else FullLength(fs[0], items[0]) + FullLengthOfFields(fs[1..], items[1..])
  }

  lemma AddMod(a: int, b: int, a': int, b': int)
    requires a % U32 == a' % U32 && b % U32 == b' % U32
    ensures (a + b) % U32 == (a' + b') % U32
  {
  }

  lemma ScaledMod(n: nat, k: nat)
    ensures (n % U32 * k) % U32 == n * k % U32
  {
    var q, r := n / U32, n % U32;
    assert n * k == U32 * (q * k) + r * k;
  }

  lemma {:induction false} ScalarsFullLength(width: nat, items: seq<Value>)
    requires AllHaveType(Scalar(width), items)
    ensures FullLengthOfAll(Scalar(width), items) == |items| * width
    decreases |items|
  {
    if items != [] {
      ScalarsFullLength(width, items[1..]);
      assert |items| * width == width + (|items| - 1) * width;
    }
  }

  lemma TextLengthModulo(w: Writer, t: Type, v: Value)
    requires HasType(t, v) && (t.Text? || t.WideText?)
    ensures |Encode(w, t, v)| % U32 == (4 + |v.chars|) % U32
  {
    var n := |v.chars|;
    AddMod(4, n % U32, 4, n);
    assert |Encode(w, t, v)| == 4 + n || |Encode(w, t, v)| == 4 + n % U32;
  }

  lemma ScalarVectorLengthModulo(w: Writer, width: nat, v: Value)
    requires HasType(Vector(Scalar(width)), v)
    ensures |Encode(w, Vector(Scalar(width)), v)| % U32 == (4 + FullLengthOfAll(Scalar(width), v.items)) % U32
  {
    var e, n := Scalar(width), |v.items|;
    var k := Taken(w, e, n);
    TakenHaveType(e, v.items, k);
    ScalarsLength(w, width, v.items[..k]);
    ScalarsFullLength(width, v.items);
    ScaledMod(n, width);
    AddMod(4, k * width, 4, n * width);
  }

  lemma OtherVectorLength(w: Writer, e: Type, v: Value)
    requires HasType(Vector(e), v) && !e.Scalar?
    ensures |Encode(w, Vector(e), v)| == 4 + |EncodeAll(w, e, v.items)|
  {
    assert v.items[..|v.items|] == v.items;
  }

  /** Whatever wraps around, both writers write the full length modulo 2^32. */
  lemma {:induction false} LengthModulo(w: Writer, t: Type, v: Value)
    requires HasType(t, v)
    ensures |Encode(w, t, v)| % U32 == FullLength(t, v) % U32
    decreases t, 2
  {
    match t
    case Scalar(_) =>
    case Bool =>
    case Text => TextLengthModulo(w, t, v);
    case WideText(_) => TextLengthModulo(w, t, v);
    case Vector(e) =>
      if e.Scalar? {
        ScalarVectorLengthModulo(w, e.width, v);
      } else {
        OtherVectorLength(w, e, v);
        LengthModuloOfAll(w, e, v.items);
        AddMod(4, |EncodeAll(w, e, v.items)|, 4, FullLengthOfAll(e, v.items));
      }
    case Array(e, _) => LengthModuloOfAll(w, e, v.items);
    case Message(fs) => LengthModuloOfFields(w, fs, v.items);
  }

  lemma {:induction false} LengthModuloOfAll(w: Writer, e: Type, items: seq<Value>)
    requires AllHaveType(e, items)
    ensures |EncodeAll(w, e, items)| % U32 == FullLengthOfAll(e, items) % U32
    decreases e, 3, |items|
  {
    if items != [] {
      LengthModulo(w, e, items[0]);
      LengthModuloOfAll(w, e, items[1..]);
      AddMod(|Encode(w, e, items[0])|, |EncodeAll(w, e, items[1..])|,
             FullLength(e, items[0]), FullLengthOfAll(e, items[1..]));
    }
  }

  lemma {:induction false} LengthModuloOfFields(w: Writer, fs: seq<Type>, items: seq<Value>)
    requires FieldsHaveType(fs, items)
    ensures |EncodeFields(w, fs, items)| % U32 == FullLengthOfFields(fs, items) % U32
    decreases fs, 1
  {
    if fs != [] {
      LengthModulo(w, fs[0], items[0]);
      LengthModuloOfFields(w, fs[1..], items[1..]);
      AddMod(|Encode(w, fs[0], items[0])|, |EncodeFields(w, fs[1..], items[1..])|,
             FullLength(fs[0], items[0]), FullLengthOfFields(fs[1..], items[1..]));
    }
  }
}
