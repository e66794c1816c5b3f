/** The writers and the reader as they run: a growing byte vector, a buffer written through a pointer, and a
    pointer that moves through a buffer being read (templates/raisin_serialization_base.hpp,
    templates/MessageTemplate.hpp, templates/ServiceTemplate.hpp). */
module CodecBuffers {
  import opened Wrappers
  import opened Codec

  // ---------------------------------------------------------------------------------------------
  // Bulk copies

  predicate Flat(e: Type) {
    e.Scalar? || e.Bool?
  }

  function ObjectBytes(v: Value): seq<Byte> {
    match v
    case Bits(bytes) => bytes
    case Flag(on) => [if on then 1 else 0]
    case _ => []
  }

  /** How a sequence of scalars lies in memory. */
  function Image(items: seq<Value>): seq<Byte> {
    if items == [] then [] else ObjectBytes(items[0]) + Image(items[1..])
  }

  function Width(e: Type): nat {
    if e.Scalar? then e.width else 1
  }

  lemma {:induction false} ImageLength(e: Type, items: seq<Value>)
    requires Flat(e) && AllHaveType(e, items)
    ensures |Image(items)| == |items| * Width(e)
    decreases |items|
  {
    if items != [] {
      ImageLength(e, items[1..]);
      assert |items| * Width(e) == Width(e) + (|items| - 1) * Width(e);
    }
  }

  lemma TakeFromImage(first: seq<Byte>, rest: seq<Byte>, k: nat, width: nat)
    requires k > 0 && |first| == width && (k - 1) * width <= |rest|
    ensures k * width <= |first + rest|
    ensures (first + rest)[..k * width] == first + rest[..(k - 1) * width]
  {
    assert k * width == width + (k - 1) * width;
  }

  /** Copying the memory of the first `k` scalars in one go writes what writing them one by one would. */
  lemma {:induction false} BulkIsElementwise(w: Writer, e: Type, items: seq<Value>, k: nat)
    requires Flat(e) && AllHaveType(e, items) && k <= |items|
    ensures AllHaveType(e, items[..k])
    ensures k * Width(e) <= |Image(items)|
    ensures Image(items)[..k * Width(e)] == EncodeAll(w, e, items[..k])
    decreases |items|
  {
    if k > 0 {
      BulkIsElementwise(w, e, items[1..], k - 1);
      assert items[..k][1..] == items[1..][..k - 1];
      TakeFromImage(ObjectBytes(items[0]), Image(items[1..]), k, Width(e));
    }
  }

  lemma WholeImage(w: Writer, e: Type, items: seq<Value>)
    requires Flat(e) && AllHaveType(e, items)
    ensures Image(items) == EncodeAll(w, e, items)
  {
    BulkIsElementwise(w, e, items, |items|);
    ImageLength(e, items);
    assert items[..|items|] == items;
    assert Image(items)[..|Image(items)|] == Image(items);
  }

  // ---------------------------------------------------------------------------------------------
  // Appending

  class ByteVector {
    var bytes: seq<Byte>

    constructor ()
      ensures bytes == []
    {
      bytes := [];
    }

    /** Makes room for `extra` bytes and copies that many from `source` there. */
    method AppendRaw(source: seq<Byte>, extra: nat)
      requires extra <= |source|
      modifies this
      ensures bytes == old(bytes) + source[..extra]
    {
      var originalSize := |bytes|;
      bytes := bytes + seq(extra, _ => 0);
      bytes := bytes[..originalSize] + source[..extra] + bytes[originalSize + extra..];
    }

    method AppendLength(n: nat)
      modifies this
      ensures bytes == old(bytes) + Length32(n)
    {
      AppendRaw(Length32(n), 4);
      assert Length32(n)[..4] == Length32(n);
    }

    method Append(t: Type, v: Value)
      requires HasType(t, v)
      modifies this
      ensures bytes == old(bytes) + Encode(Appending, t, v)
      decreases t, 5, 0
    {
      match t
      case Scalar(_) =>
        AppendRaw(v.bytes, |v.bytes|);
        assert v.bytes[..|v.bytes|] == v.bytes;
      case Bool =>
        AppendRaw(ObjectBytes(v), 1);
        assert ObjectBytes(v)[..1] == ObjectBytes(v);
      case Text =>
        AppendLength(|v.chars|);
        bytes := bytes + v.chars;
        Associative(old(bytes), Length32(|v.chars|), v.chars);
      case WideText(_) =>
        var size := |v.chars| % U32;
        AppendLength(|v.chars|);
        AppendRaw(v.chars, size);
        Associative(old(bytes), Length32(|v.chars|), v.chars[..size]);
      case Vector(e) =>
        AppendVector(e, v);
      case Array(e, _) =>
        AppendArray(e, v);
      case Message(fs) =>
        AppendMembers(fs, v.items);
    }

    method AppendVector(e: Type, v: Value)
      requires HasType(Vector(e), v)
      modifies this
      ensures bytes == old(bytes) + Encode(Appending, Vector(e), v)
      decreases e, 6, 0
    {
      var items := v.items;
      AppendLength(|items|);
      ghost var body: seq<Byte>;
      if e.Scalar? {
        var size := |items| % U32;
        BulkIsElementwise(Appending, e, items, size);
        AppendRaw(Image(items), size * e.width);
        body := EncodeAll(Appending, e, items[..size]);
      } else if e.Bool? {
        AppendFlags(items);
        body := EncodeAll(Appending, e, items);
        assert items[..|items|] == items;
      } else {
        AppendItems(e, items);
        body := EncodeAll(Appending, e, items);
        assert items[..|items|] == items;
      }
      Associative(old(bytes), Length32(|items|), body);
    }

    /** A vector of bool has no memory to copy: the room is made first, then each flag is put in its place. */
    method AppendFlags(items: seq<Value>)
      requires AllHaveType(Bool, items)
      modifies this
      ensures bytes == old(bytes) + EncodeAll(Appending, Bool, items)
    {
      var originalSize := |bytes|;
      WholeImage(Appending, Bool, items);
      ImageLength(Bool, items);
      bytes := bytes + seq(|items|, _ => 0);
      for i := 0 to |items|
        invariant |bytes| == originalSize + |items| == originalSize + |Image(items)|
        invariant bytes[..originalSize + i] == old(bytes) + Image(items)[..i]
      {
        FlagInImage(items, i);
        bytes := bytes[originalSize + i := if items[i].on then 1 else 0];
        assert bytes[..originalSize + i + 1] == bytes[..originalSize + i] + [Image(items)[i]];
        assert Image(items)[..i + 1] == Image(items)[..i] + [Image(items)[i]];
      }
      assert bytes[..|bytes|] == bytes;
      assert Image(items)[..|items|] == Image(items);
    }

    method AppendItems(e: Type, items: seq<Value>)
      requires AllHaveType(e, items)
      modifies this
      ensures bytes == old(bytes) + EncodeAll(Appending, e, items)
      decreases e, 5, 1
    {
      for i := 0 to |items|
        invariant AllHaveType(e, items[i..])
        invariant bytes + EncodeAll(Appending, e, items[i..]) == old(bytes) + EncodeAll(Appending, e, items)
      {
        NextItem(Appending, e, items, i, bytes, old(bytes) + EncodeAll(Appending, e, items));
        Append(e, items[i]);
      }
      assert items[|items|..] == [];
    }

    method AppendArray(e: Type, v: Value)
      requires v.Items? && AllHaveType(e, v.items)
      modifies this
      ensures bytes == old(bytes) + EncodeAll(Appending, e, v.items)
      decreases e, 6, 0
    {
      if Flat(e) {
        var image := Image(v.items);
        WholeImage(Appending, e, v.items);
        AppendRaw(image, |image|);
        assert image[..|image|] == image;
      } else {
        AppendItems(e, v.items);
      }
    }

    /** The generated `setBuffer` of a message: one statement a member, in declaration order. */
    method AppendMembers(fs: seq<Type>, items: seq<Value>)
      requires FieldsHaveType(fs, items)
      modifies this
      ensures bytes == old(bytes) + EncodeFields(Appending, fs, items)
      decreases fs, 6, 0
    {
      FieldCount(fs, items);
      for i := 0 to |fs|
        invariant FieldsHaveType(fs[i..], items[i..])
        invariant bytes + EncodeFields(Appending, fs[i..], items[i..]) ==
                  old(bytes) + EncodeFields(Appending, fs, items)
      {
        NextMember(Appending, fs, items, i, bytes, old(bytes) + EncodeFields(Appending, fs, items));
        Append(fs[i], items[i]);
      }
      assert fs[|fs|..] == [];
    }
  }

  /** With what stands before position `i` written, writing one more leaves what stands behind it. */
  lemma NextItem(w: Writer, e: Type, items: seq<Value>, i: nat, done: seq<Byte>, all: seq<Byte>)
    requires i < |items| && AllHaveType(e, items[i..]) && done + EncodeAll(w, e, items[i..]) == all
    ensures HasType(e, items[i]) && AllHaveType(e, items[i + 1..])
    ensures (done + Encode(w, e, items[i])) + EncodeAll(w, e, items[i + 1..]) == all
    ensures |done| + |Encode(w, e, items[i])| <= |all|
  {
    assert items[i..][1..] == items[i + 1..];
    Associative(done, Encode(w, e, items[i]), EncodeAll(w, e, items[i + 1..]));
  }

  lemma NextMember(w: Writer, fs: seq<Type>, items: seq<Value>, i: nat, done: seq<Byte>, all: seq<Byte>)
    requires i < |fs| && i < |items| && FieldsHaveType(fs[i..], items[i..])
    requires done + EncodeFields(w, fs[i..], items[i..]) == all
    ensures HasType(fs[i], items[i]) && FieldsHaveType(fs[i + 1..], items[i + 1..])
    ensures (done + Encode(w, fs[i], items[i])) + EncodeFields(w, fs[i + 1..], items[i + 1..]) == all
    ensures |done| + |Encode(w, fs[i], items[i])| <= |all|
  {
    assert fs[i..][1..] == fs[i + 1..] && items[i..][1..] == items[i + 1..];
    Associative(done, Encode(w, fs[i], items[i]), EncodeFields(w, fs[i + 1..], items[i + 1..]));
  }

  lemma {:induction false} FlagInImage(items: seq<Value>, i: nat)
    requires AllHaveType(Bool, items) && i < |items|
    ensures |Image(items)| == |items| && items[i].Flag?
    ensures Image(items)[i] == if items[i].on then 1 else 0
    decreases |items|
  {
    ImageLength(Bool, items);
    if i > 0 {
      FlagInImage(items[1..], i - 1);
    }
  }

  lemma {:induction false} FieldCount(fs: seq<Type>, items: seq<Value>)
    requires FieldsHaveType(fs, items)
    ensures |fs| == |items|
    decreases |fs|
  {
    if fs != [] {
      FieldCount(fs[1..], items[1..]);
    }
  }

  // ---------------------------------------------------------------------------------------------
  // Writing at a pointer

  /** A buffer with `source` written over it from `at` on, and everything else as it was. */
  function Overwritten(s: seq<Byte>, at: nat, source: seq<Byte>): (r: seq<Byte>)
    requires at + |source| <= |s|
    ensures |r| == |s|
  {
    s[..at] + source + s[at + |source|..]
  }

  /** Writing two pieces one after the other is writing both. */
  lemma OverwrittenTwice(s: seq<Byte>, at: nat, a: seq<Byte>, b: seq<Byte>)
    requires at + |a| + |b| <= |s|
    ensures Overwritten(Overwritten(s, at, a), at + |a|, b) == Overwritten(s, at, a + b)
  {
  }

  method Memcpy(buffer: array<Byte>, at: nat, source: seq<Byte>)
    requires at + |source| <= buffer.Length
    modifies buffer
    ensures buffer[..] == Overwritten(old(buffer[..]), at, source)
  {
    forall i | 0 <= i < |source| {
      buffer[at + i] := source[i];
    }
  }

  method WriteLength(buffer: array<Byte>, at: nat, n: nat) returns (next: nat)
    requires at + 4 <= buffer.Length
    modifies buffer
    ensures next == at + 4 && buffer[..] == Overwritten(old(buffer[..]), at, Length32(n))
  {
    Memcpy(buffer, at, Length32(n));
    next := at + 4;
  }

  /** From any offset with enough room: writes the encoding there, returns the position behind it, and leaves
      every other byte alone. */
  method Write(buffer: array<Byte>, at: nat, t: Type, v: Value) returns (next: nat)
    requires HasType(t, v) && at + |Encode(InPlace, t, v)| <= buffer.Length
    modifies buffer
    ensures next == at + |Encode(InPlace, t, v)|
    ensures buffer[..] == Overwritten(old(buffer[..]), at, Encode(InPlace, t, v))
    decreases t, 5, 0
  {
    match t
    case Scalar(w) =>
      Memcpy(buffer, at, v.bytes);
      next := at + w;
    case Bool =>
      Memcpy(buffer, at, ObjectBytes(v));
      next := at + 1;
    case Text =>
      next := WriteChars(buffer, at, v.chars);
    case WideText(_) =>
      next := WriteChars(buffer, at, v.chars);
    case Vector(e) =>
      next := WriteVector(buffer, at, e, v);
    case Array(e, _) =>
      next := WriteArray(buffer, at, e, v);
    case Message(fs) =>
      next := WriteMembers(buffer, at, fs, v.items);
  }

  /** Both kinds of string: the wrapped length, then as much of the contents as it says. */
  method WriteChars(buffer: array<Byte>, at: nat, chars: seq<Byte>) returns (next: nat)
    requires at + 4 + |chars| % U32 <= buffer.Length
    modifies buffer
    ensures next == at + 4 + |chars| % U32
    ensures buffer[..] == Overwritten(old(buffer[..]), at, Length32(|chars|) + chars[..|chars| % U32])
  {
    var size := |chars| % U32;
    next := WriteLength(buffer, at, |chars|);
    Memcpy(buffer, next, chars[..size]);
    OverwrittenTwice(old(buffer[..]), at, Length32(|chars|), chars[..size]);
    next := next + size;
  }

  method WriteVector(buffer: array<Byte>, at: nat, e: Type, v: Value) returns (next: nat)
    requires HasType(Vector(e), v) && at + |Encode(InPlace, Vector(e), v)| <= buffer.Length
    modifies buffer
    ensures next == at + |Encode(InPlace, Vector(e), v)|
    ensures buffer[..] == Overwritten(old(buffer[..]), at, Encode(InPlace, Vector(e), v))
    decreases e, 7, 0
  {
    var items := v.items;
    assert items[..|items|] == items;
    next := WriteLength(buffer, at, |items|);
    if e.Scalar? {
      next := WriteImage(buffer, next, e, items);
    } else {
      next := WriteItems(buffer, next, e, items);
    }
    OverwrittenTwice(old(buffer[..]), at, Length32(|items|), EncodeAll(InPlace, e, items));
  }

  method WriteArray(buffer: array<Byte>, at: nat, e: Type, v: Value) returns (next: nat)
    requires v.Items? && AllHaveType(e, v.items) && at + |EncodeAll(InPlace, e, v.items)| <= buffer.Length
    modifies buffer
    ensures next == at + |EncodeAll(InPlace, e, v.items)|
    ensures buffer[..] == Overwritten(old(buffer[..]), at, EncodeAll(InPlace, e, v.items))
    decreases e, 7, 0
  {
    if Flat(e) {
      next := WriteImage(buffer, at, e, v.items);
    } else {
      next := WriteItems(buffer, at, e, v.items);
    }
  }

  method WriteImage(buffer: array<Byte>, at: nat, e: Type, items: seq<Value>) returns (next: nat)
    requires Flat(e) && AllHaveType(e, items) && at + |EncodeAll(InPlace, e, items)| <= buffer.Length
    modifies buffer
    ensures next == at + |EncodeAll(InPlace, e, items)|
    ensures buffer[..] == Overwritten(old(buffer[..]), at, EncodeAll(InPlace, e, items))
  {
    WholeImage(InPlace, e, items);
    var image := Image(items);
    Memcpy(buffer, at, image);
    next := at + |image|;
  }

  /** One piece behind those in `done`, which began at `at` in a buffer that held `before`. */
  method WriteNext(buffer: array<Byte>, from: nat, t: Type, v: Value, ghost before: seq<Byte>, ghost at: nat,
                   ghost done: seq<Byte>)
    returns (next: nat)
    requires HasType(t, v) && from == at + |done| && from + |Encode(InPlace, t, v)| <= buffer.Length == |before|
    requires buffer[..] == Overwritten(before, at, done)
    modifies buffer
    ensures next == from + |Encode(InPlace, t, v)|
    ensures buffer[..] == Overwritten(before, at, done + Encode(InPlace, t, v))
    decreases t, 5, 1
  {
    OverwrittenTwice(before, at, done, Encode(InPlace, t, v));
    next := Write(buffer, from, t, v);
  }

  method WriteItems(buffer: array<Byte>, at: nat, e: Type, items: seq<Value>) returns (next: nat)
    requires AllHaveType(e, items) && at + |EncodeAll(InPlace, e, items)| <= buffer.Length
    modifies buffer
    ensures next == at + |EncodeAll(InPlace, e, items)|
    ensures buffer[..] == Overwritten(old(buffer[..]), at, EncodeAll(InPlace, e, items))
    decreases e, 6, 0
  {
    next := at;
    ghost var done: seq<Byte>, all := [], EncodeAll(InPlace, e, items);
    assert items[0..] == items;
    for i := 0 to |items|
      invariant AllHaveType(e, items[i..])
      invariant done + EncodeAll(InPlace, e, items[i..]) == all
      invariant next == at + |done|
      invariant buffer[..] == Overwritten(old(buffer[..]), at, done)
    {
      NextItem(InPlace, e, items, i, done, all);
      next := WriteNext(buffer, next, e, items[i], old(buffer[..]), at, done);
      done := done + Encode(InPlace, e, items[i]);
    }
    assert items[|items|..] == [];
  }

  /** The generated pointer form of `setBuffer`: one statement a member, in declaration order. */
  method WriteMembers(buffer: array<Byte>, at: nat, fs: seq<Type>, items: seq<Value>) returns (next: nat)
    requires FieldsHaveType(fs, items) && at + |EncodeFields(InPlace, fs, items)| <= buffer.Length
    modifies buffer
    ensures next == at + |EncodeFields(InPlace, fs, items)|
    ensures buffer[..] == Overwritten(old(buffer[..]), at, EncodeFields(InPlace, fs, items))
    decreases fs, 6, 0
  {
    FieldCount(fs, items);
    next := at;
    ghost var done: seq<Byte> := [];
    for i := 0 to |fs|
      invariant FieldsHaveType(fs[i..], items[i..])
      invariant done + EncodeFields(InPlace, fs[i..], items[i..]) == EncodeFields(InPlace, fs, items)
      invariant next == at + |done|
      invariant buffer[..] == Overwritten(old(buffer[..]), at, done)
    {
      NextMember(InPlace, fs, items, i, done, EncodeFields(InPlace, fs, items));
      next := WriteNext(buffer, next, fs[i], items[i], old(buffer[..]), at, done);
      done := done + Encode(InPlace, fs[i], items[i]);
    }
    assert fs[|fs|..] == [];
  }

  // ---------------------------------------------------------------------------------------------
  // Reading

  /** Reading leaves a suffix of what it was given. */
  lemma {:induction false} DecodeLeavesSuffix(t: Type, s: seq<Byte>)
    requires Decode(t, s).Some?
    ensures |Decode(t, s).value.1| <= |s| && Decode(t, s).value.1 == s[|s| - |Decode(t, s).value.1|..]
    decreases t, 2
  {
    match t
    case Scalar(_) =>
    case Bool =>
    case Text =>
    case WideText(u) =>
    case Vector(e) =>
      var (n, rest) := ReadLength(s).value;
      DecodeAllLeavesSuffix(e, n, rest);
    case Array(e, n) =>
      DecodeAllLeavesSuffix(e, n, s);
    case Message(fs) =>
      DecodeFieldsLeavesSuffix(fs, s);
  }

  lemma SuffixOfSuffix(a: seq<Byte>, b: seq<Byte>, c: seq<Byte>)
    requires |b| <= |a| && b == a[|a| - |b|..]
    requires |c| <= |b| && c == b[|b| - |c|..]
    ensures |c| <= |a| && c == a[|a| - |c|..]
  {
  }

  lemma {:induction false} DecodeAllLeavesSuffix(e: Type, n: nat, s: seq<Byte>)
    requires DecodeAll(e, n, s).Some?
    ensures var r := DecodeAll(e, n, s).value.1; |r| <= |s| && r == s[|s| - |r|..]
    decreases e, 3, n
  {
    if n > 0 {
      var rest := Decode(e, s).value.1;
      DecodeLeavesSuffix(e, s);
      DecodeAllLeavesSuffix(e, n - 1, rest);
      SuffixOfSuffix(s, rest, DecodeAll(e, n - 1, rest).value.1);
    }
  }

  lemma {:induction false} DecodeFieldsLeavesSuffix(fs: seq<Type>, s: seq<Byte>)
    requires DecodeFields(fs, s).Some?
    ensures var r := DecodeFields(fs, s).value.1; |r| <= |s| && r == s[|s| - |r|..]
    decreases fs, 1
  {
    if fs != [] {
      var rest := Decode(fs[0], s).value.1;
      DecodeLeavesSuffix(fs[0], s);
      DecodeFieldsLeavesSuffix(fs[1..], rest);
      SuffixOfSuffix(s, rest, DecodeFields(fs[1..], rest).value.1);
    }
  }

  /** An element as it lies in memory. */
  function FromMemory(e: Type, bytes: seq<Byte>): Value
    requires Flat(e) && |bytes| == Width(e)
  {
    if e.Scalar? then Bits(bytes) else Flag(bytes[0] != 0)
  }

  /** The memory of `n` elements, cut into elements. */
  function Slices(e: Type, bytes: seq<Byte>, n: nat): (r: seq<Value>)
    requires Flat(e) && |bytes| == n * Width(e)
    ensures |r| == n
    decreases n
  {
    if n == 0 then []
    else
      SliceBound(n, Width(e));
      [FromMemory(e, bytes[..Width(e)])] + Slices(e, bytes[Width(e)..], n - 1)
  }

  lemma SliceBound(n: nat, width: nat)
    requires n > 0
    ensures n * width == width + (n - 1) * width && width <= n * width
  {
    assert n * width == width + (n - 1) * width;
  }

  /** Copying the memory of `n` scalars out of the buffer reads what reading them one by one would. */
  lemma {:induction false} BulkReadIsElementwise(e: Type, n: nat, s: seq<Byte>)
    requires Flat(e)
    ensures DecodeAll(e, n, s).Some? <==> n * Width(e) <= |s|
    ensures DecodeAll(e, n, s).Some? ==>
              DecodeAll(e, n, s) == Some((Slices(e, s[..n * Width(e)], n), s[n * Width(e)..]))
    decreases n
  {
    var w := Width(e);
    if n > 0 {
      SliceBound(n, w);
      if w <= |s| {
        BulkReadIsElementwise(e, n - 1, s[w..]);
        BulkReadStep(e, n, s);
      }
    }
  }

  lemma BulkReadStep(e: Type, n: nat, s: seq<Byte>)
    requires Flat(e) && n > 0 && Width(e) <= |s|
    requires DecodeAll(e, n - 1, s[Width(e)..]).Some? ==>
               && (n - 1) * Width(e) <= |s| - Width(e)
               && DecodeAll(e, n - 1, s[Width(e)..]) ==
                  Some((Slices(e, s[Width(e)..][..(n - 1) * Width(e)], n - 1), s[Width(e)..][(n - 1) * Width(e)..]))
    ensures DecodeAll(e, n, s).Some? <==> DecodeAll(e, n - 1, s[Width(e)..]).Some?
    ensures DecodeAll(e, n, s).Some? ==>
              && n * Width(e) <= |s|
              && DecodeAll(e, n, s) == Some((Slices(e, s[..n * Width(e)], n), s[n * Width(e)..]))
  {
    var w := Width(e);
    SliceBound(n, w);
    assert Decode(e, s) == Some((FromMemory(e, s[..w]), s[w..]));
    if DecodeAll(e, n - 1, s[w..]).Some? {
      var k := (n - 1) * w;
      assert s[..n * w][..w] == s[..w] && s[..n * w][w..] == s[w..][..k];
      assert s[w..][k..] == s[n * w..];
    }
  }

  method ReadLengthAt(buffer: array<Byte>, at: nat) returns (n: nat, next: nat)
    requires at <= buffer.Length && ReadLength(buffer[at..]).Some?
    ensures at <= next <= buffer.Length && ReadLength(buffer[at..]) == Some((n, buffer[next..]))
  {
    n := Weigh(buffer[at], buffer[at + 1], buffer[at + 2], buffer[at + 3]);
    next := at + 4;
    assert buffer[at..][4..] == buffer[next..];
  }

  /** Reads a value and returns the position behind it. */
  method Read(buffer: array<Byte>, at: nat, t: Type) returns (v: Value, next: nat)
    requires at <= buffer.Length && Decode(t, buffer[at..]).Some?
    ensures at <= next <= buffer.Length && Decode(t, buffer[at..]) == Some((v, buffer[next..]))
    decreases t, 5, 0
  {
    match t
    case Scalar(w) =>
      v, next := Bits(buffer[at..at + w]), at + w;
      assert buffer[at..][..w] == buffer[at..at + w] && buffer[at..][w..] == buffer[next..];
    case Bool =>
      v, next := Flag(buffer[at] != 0), at + 1;
      assert buffer[at..][1..] == buffer[next..];
    case Text =>
      var size, start := ReadLengthAt(buffer, at);
      v, next := Chars(buffer[start..start + size]), start + size;
      assert buffer[start..][..size] == buffer[start..next] && buffer[start..][size..] == buffer[next..];
    case WideText(u) =>
      var size, start := ReadLengthAt(buffer, at);
      var bytesToCopy := size / u * u;
      DivBound(size, u);
      v, next := Chars(buffer[start..start + bytesToCopy]), start + size;
      assert buffer[start..][..bytesToCopy] == buffer[start..start + bytesToCopy];
      assert buffer[start..][size..] == buffer[next..];
    case Vector(e) =>
      var size, start := ReadLengthAt(buffer, at);
      var items;
      if e.Scalar? {
        items, next := ReadImage(buffer, start, e, size);
      } else {
        items, next := ReadItems(buffer, start, e, size);
      }
      v := Items(items);
    case Array(e, n) =>
      var items;
      if Flat(e) {
        items, next := ReadImage(buffer, at, e, n);
      } else {
        items, next := ReadItems(buffer, at, e, n);
      }
      v := Items(items);
    case Message(fs) =>
      var items;
      items, next := ReadMembers(buffer, at, fs);
      v := Items(items);
  }

  lemma TakeAndDrop(buffer: array<Byte>, at: nat, size: nat)
    requires at + size <= buffer.Length
    ensures buffer[at..][..size] == buffer[at..at + size] && buffer[at..][size..] == buffer[at + size..]
  {
  }

  method ReadImage(buffer: array<Byte>, at: nat, e: Type, n: nat) returns (items: seq<Value>, next: nat)
    requires at <= buffer.Length && Flat(e) && DecodeAll(e, n, buffer[at..]).Some?
    ensures at <= next <= buffer.Length && DecodeAll(e, n, buffer[at..]) == Some((items, buffer[next..]))
  {
    BulkReadIsElementwise(e, n, buffer[at..]);
    var size: nat := n * Width(e);
    next := at + size;
    TakeAndDrop(buffer, at, size);
    items := Slices(e, buffer[at..next], n);
  }

  lemma NextDecoded(e: Type, n: nat, s: seq<Byte>, ahead: seq<Value>, end: seq<Byte>)
    requires n > 0 && DecodeAll(e, n, s) == Some((ahead, end))
    ensures Decode(e, s).Some? && ahead != [] && ahead[0] == Decode(e, s).value.0
    ensures DecodeAll(e, n - 1, Decode(e, s).value.1) == Some((ahead[1..], end))
  {
  }

  lemma MoveHead(a: seq<Value>, b: seq<Value>)
    requires b != []
    ensures (a + [b[0]]) + b[1..] == a + b
  {
  }

  method ReadItems(buffer: array<Byte>, at: nat, e: Type, n: nat) returns (items: seq<Value>, next: nat)
    requires at <= buffer.Length && DecodeAll(e, n, buffer[at..]).Some?
    ensures at <= next <= buffer.Length && DecodeAll(e, n, buffer[at..]) == Some((items, buffer[next..]))
    decreases e, 6, 0
  {
    items, next := [], at;
    ghost var all := DecodeAll(e, n, buffer[at..]).value;
    ghost var ahead := all.0;
    for i := 0 to n
      invariant at <= next <= buffer.Length && items + ahead == all.0
      invariant DecodeAll(e, n - i, buffer[next..]) == Some((ahead, all.1))
    {
      NextDecoded(e, n - i, buffer[next..], ahead, all.1);
      var item, after := Read(buffer, next, e);
      MoveHead(items, ahead);
      ahead := ahead[1..];
      items, next := items + [item], after;
    }
    assert ahead == [] && items + ahead == items;
  }

  /** The generated `getBuffer` of a message: one statement a member, in declaration order. */
  method ReadMembers(buffer: array<Byte>, at: nat, fs: seq<Type>) returns (items: seq<Value>, next: nat)
    requires at <= buffer.Length && DecodeFields(fs, buffer[at..]).Some?
    ensures at <= next <= buffer.Length && DecodeFields(fs, buffer[at..]) == Some((items, buffer[next..]))
    decreases fs, 6, 0
  {
    items, next := [], at;
    ghost var all := DecodeFields(fs, buffer[at..]).value;
    ghost var ahead := all.0;
    for i := 0 to |fs|
      invariant at <= next <= buffer.Length && items + ahead == all.0
      invariant DecodeFields(fs[i..], buffer[next..]) == Some((ahead, all.1))
    {
      assert fs[i..][1..] == fs[i + 1..];
      var item, after := Read(buffer, next, fs[i]);
      ahead := ahead[1..];
      items, next := items + [item], after;
    }
    assert fs[|fs|..] == [] && ahead == [] && items + ahead == items;
  }

  // ---------------------------------------------------------------------------------------------
  // Writing and reading back

  /** What was written at some offset of a buffer is read back from there, wherever the buffer goes on. */
  method WriteThenRead(buffer: array<Byte>, at: nat, t: Type, v: Value) returns (v': Value, next: nat)
    requires HasType(t, v) && Fits(t, v) && at + |Encode(Appending, t, v)| <= buffer.Length
    modifies buffer
    ensures v' == v && next == at + |Encode(Appending, t, v)|
    ensures buffer[..] == Overwritten(old(buffer[..]), at, Encode(Appending, t, v))
  {
    WritersAgree(t, v);
    var end := Write(buffer, at, t, v);
    ghost var encoding := Encode(InPlace, t, v);
    assert buffer[..][at..] == encoding + buffer[..][end..];
    assert buffer[at..] == buffer[..][at..] && buffer[end..] == buffer[..][end..];
    RoundTrip(InPlace, t, v, buffer[end..]);
    v', next := Read(buffer, at, t);
    assert |buffer[next..]| == |buffer[end..]|;
  }
}
