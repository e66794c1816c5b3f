/** The message generator (`transform_data_type`, `build_sequence_size_entry`, `build_string_size_expr`,
    `create_message_file` and `process_service_content` in commands/setup.py): from the type of each declared
    field to the C++ type of the member and to the statement that adds the member to `getSize`. */
module Generator {
  import opened Wrappers
  import opened Codec
  import CodecBuffers

  // ---------------------------------------------------------------------------------------------
  // Names of types

  /** The table from names in message files to C++ names (commands/constants.py). */
  function TypeMapping(name: string): Option<string> {
    if name == "bool" then Some("bool")
    else if name == "byte" || name == "char" || name == "uint8" then Some("uint8_t")
    else if name == "float32" then Some("float")
    else if name == "float64" then Some("double")
    else if name == "int8" then Some("int8_t")
    else if name == "int16" then Some("int16_t")
    else if name == "uint16" then Some("uint16_t")
    else if name == "int32" then Some("int32_t")
    else if name == "uint32" then Some("uint32_t")
    else if name == "int64" then Some("int64_t")
    else if name == "uint64" then Some("uint64_t")
    else if name == "string" then Some("std::string")
    else if name == "wstring" then Some("std::u16string")
    else None
  }

  /** What the C++ names on the right of the table mean; None for every other name. */
  function Meaning(cppName: string): Option<Type> {
    if cppName == "bool" then Some(Bool)
    else if cppName == "uint8_t" || cppName == "int8_t" then Some(Scalar(1))
    else if cppName == "uint16_t" || cppName == "int16_t" then Some(Scalar(2))
    else if cppName == "uint32_t" || cppName == "int32_t" || cppName == "float" then Some(Scalar(4))
    else if cppName == "uint64_t" || cppName == "int64_t" || cppName == "double" then Some(Scalar(8))
    else if cppName == "std::string" then Some(Text)
    else if cppName == "std::u16string" then Some(WideText(2))
    else None
  }

  predicate IsStringType(cppName: string) {
    cppName == "std::string" || cppName == "std::u16string"
  }

  lemma MappedNamesMeanSomething(name: string)
    requires TypeMapping(name).Some?
    ensures Meaning(TypeMapping(name).value).Some?
  {
  }

  /** The C++ type of a member. */
  datatype CppType =
    | Plain(name: string)
    | VectorOf(elem: string)
    | ArrayOf(elem: string, size: string)

  datatype Transformed = Transformed(cpp: CppType, base: string, subproject: string, found: bool)

  // ---------------------------------------------------------------------------------------------
  // Reading a type's text

  /** The part of `s` before the first `c`, all of it when there is none. */
  function UpTo(s: string, c: char): string {
    if s == "" || s[0] == c then "" else [s[0]] + UpTo(s[1..], c)
  }

  /** The place behind the last slash; 0 when there is none. */
  function BehindLastSlash(s: string): (i: nat)
    ensures i <= |s| && (i > 0 ==> s[i - 1] == '/')
  {
    if s == "" then 0 else if s[|s| - 1] == '/' then |s| else BehindLastSlash(s[..|s| - 1])
  }

  predicate WordChar(c: char) {
    'a' <= c <= 'z' || 'A' <= c <= 'Z' || '0' <= c <= '9' || c == '_'
  }

  predicate DigitChar(c: char) {
    '0' <= c <= '9'
  }

  function WordLength(s: string): (n: nat)
    ensures n <= |s|
  {
    if s != "" && WordChar(s[0]) then 1 + WordLength(s[1..]) else 0
  }

  function DigitsLength(s: string): (n: nat)
    ensures n <= |s|
  {
    if s != "" && DigitChar(s[0]) then 1 + DigitsLength(s[1..]) else 0
  }

  /** A word, then a number in brackets, at the start of the text: the name and the number. */
  function FixedArray(s: string): Option<(string, string)> {
    var w := WordLength(s);
    if w == 0 || w == |s| || s[w] != '[' then None
    else
      var d := DigitsLength(s[w + 1..]);
      if d == 0 || w + 1 + d == |s| || s[w + 1 + d] != ']' then None
      else Some((s[..w], s[w + 1..w + 1 + d]))
  }

  function Qualified(package: string, name: string): string {
    package + "::msg::" + name
  }

  /** A package and the rest, divided at the last slash; a slash at the end only goes. */
  function DividePackage(text: string): (string, string) {
    var i := BehindLastSlash(text);
    if i == 0 then ("", text) else if i == |text| then ("", text[..i - 1]) else (text[..i - 1], text[i..])
  }

  function TransformName(subproject: string, dataType: string, project: string): Transformed {
    var package := if subproject == "" then project else subproject;
    var stripped := UpTo(UpTo(dataType, '<'), '>');
    match FixedArray(dataType)
    case Some((base, size)) =>
      (match TypeMapping(base)
       case Some(mapped) => Transformed(ArrayOf(mapped, size), mapped, subproject, true)
       case None => Transformed(ArrayOf(Qualified(package, base), size), base, subproject, subproject == ""))
    case None =>
      if dataType != "" && dataType[|dataType| - 1] == ']' then
        var base := UpTo(dataType, '[');
        match TypeMapping(base)
        case Some(mapped) => Transformed(VectorOf(mapped), mapped, subproject, true)
        case None => Transformed(VectorOf(Qualified(package, base)), base, subproject, false)
      else
        match TypeMapping(stripped)
        case Some(mapped) => Transformed(Plain(mapped), mapped, subproject, true)
        case None => Transformed(Plain(Qualified(package, dataType)), dataType, subproject, false)
  }

  /** `transform_data_type`. */
  function TransformDataType(text: string, project: string): Transformed {
    TransformName(DividePackage(text).0, DividePackage(text).1, project)
  }

  // What a declared type becomes, by the shape of its text.

  /** A name as it can be declared: none of the characters that structure a type's text. */
  predicate BareName(name: string) {
    name != "" && '/' !in name && '[' !in name && ']' !in name && '<' !in name && '>' !in name
  }

  predicate AllWord(s: string) {
    s != "" && forall i :: 0 <= i < |s| ==> WordChar(s[i])
  }

  predicate AllDigits(s: string) {
    s != "" && forall i :: 0 <= i < |s| ==> DigitChar(s[i])
  }

  /** A type's text, with the package in front if one is named. */
  function Declared(package: string, text: string): string {
    if package == "" then text else package + "/" + text
  }

  /** The C++ name of an element: the table's, or that of a message of the named package, or of the project. */
  function Element(package: string, name: string, project: string): string {
    if TypeMapping(name).Some? then TypeMapping(name).value
    else (if package == "" then project else package) + "::msg::" + name
  }

  lemma {:induction false} NoSlash(s: string)
    requires '/' !in s
    ensures BehindLastSlash(s) == 0
    decreases |s|
  {
    if s != "" {
      NoSlash(s[..|s| - 1]);
    }
  }

  lemma {:induction false} SlashInFront(package: string, text: string)
    requires '/' !in text
    ensures BehindLastSlash(package + "/" + text) == |package| + 1
    decreases |text|
  {
    var s := package + "/" + text;
    if text == "" {
      assert s[|s| - 1] == '/';
    } else {
      assert s[..|s| - 1] == package + "/" + text[..|text| - 1];
      SlashInFront(package, text[..|text| - 1]);
    }
  }

  lemma PackageCutOff(package: string, text: string)
    requires text != "" && '/' !in text
    ensures DividePackage(Declared(package, text)) == (package, text)
  {
    NoSlash(text);
    if package != "" {
      SlashInFront(package, text);
      var s := package + "/" + text;
      assert s[..|package|] == package && s[|package| + 1..] == text;
    }
  }

  lemma {:induction false} NotCut(s: string, c: char, rest: string)
    requires c !in s && (rest == "" || rest[0] == c)
    ensures UpTo(s + rest, c) == s
    decreases |s|
  {
    if s == "" {
      assert s + rest == rest;
    } else {
      assert (s + rest)[0] == s[0] && (s + rest)[1..] == s[1..] + rest;
      NotCut(s[1..], c, rest);
    }
  }

  lemma {:induction false} WordEnds(s: string, rest: string)
    requires rest == "" || !WordChar(rest[0])
    ensures WordLength(s + rest) <= |s|
    ensures (forall i :: 0 <= i < |s| ==> WordChar(s[i])) ==> WordLength(s + rest) == |s|
    decreases |s|
  {
    if s == "" {
      assert s + rest == rest;
    } else {
      assert (s + rest)[0] == s[0] && (s + rest)[1..] == s[1..] + rest;
      WordEnds(s[1..], rest);
    }
  }

  lemma {:induction false} DigitsEnd(s: string, rest: string)
    requires (forall i :: 0 <= i < |s| ==> DigitChar(s[i])) && (rest == "" || !DigitChar(rest[0]))
    ensures DigitsLength(s + rest) == |s|
    decreases |s|
  {
    if s == "" {
      assert s + rest == rest;
    } else {
      assert (s + rest)[0] == s[0] && (s + rest)[1..] == s[1..] + rest;
      DigitsEnd(s[1..], rest);
    }
  }

  /** No digit behind the bracket, or no bracket: no array. */
  lemma NoFixedArray(name: string, rest: string)
    requires '[' !in name && (rest == "" || (!WordChar(rest[0]) && (|rest| == 1 || !DigitChar(rest[1]))))
    ensures FixedArray(name + rest) == None
  {
    var s := name + rest;
    WordEnds(name, rest);
    var w := WordLength(s);
    if w < |s| && s[w] == '[' {
      assert w == |name| && s[w + 1..] == rest[1..];
    }
  }

  lemma IsFixedArray(name: string, digits: string)
    requires AllWord(name) && AllDigits(digits)
    ensures FixedArray(name + ("[" + digits + "]")) == Some((name, digits))
  {
    var rest := "[" + digits + "]";
    var s := name + rest;
    WordEnds(name, rest);
    DigitsEnd(digits, "]");
    assert s[|name| + 1..] == digits + "]";
    assert s[..|name|] == name && s[|name| + 1..|name| + 1 + |digits|] == digits;
    assert s[|name| + 1 + |digits|] == ']';
  }

  lemma PlainText(package: string, name: string, project: string)
    requires BareName(name)
    ensures TransformName(package, name, project).cpp == Plain(Element(package, name, project))
  {
    assert name + "" == name;
    NoFixedArray(name, "");
    NotCut(name, '<', "");
    NotCut(name, '>', "");
  }

  lemma VectorText(package: string, name: string, bound: string, project: string)
    requires BareName(name) && (bound == "" || !DigitChar(bound[0]))
    ensures TransformName(package, name + ("[" + bound + "]"), project).cpp == VectorOf(Element(package, name, project))
  {
    var rest := "[" + bound + "]";
    assert rest[1] == if bound == "" then ']' else bound[0];
    NoFixedArray(name, rest);
    NotCut(name, '[', rest);
    assert (name + rest)[|name + rest| - 1] == ']';
  }

  lemma ArrayText(package: string, name: string, digits: string, project: string)
    requires AllWord(name) && AllDigits(digits)
    ensures TransformName(package, name + ("[" + digits + "]"), project).cpp ==
            ArrayOf(Element(package, name, project), digits)
  {
    IsFixedArray(name, digits);
  }

  lemma BoundedText(package: string, name: string, bound: string, project: string)
    requires BareName(name) && TypeMapping(name).Some? && '[' !in bound && ']' !in bound
    ensures TransformName(package, name + ("<" + bound), project).cpp == Plain(TypeMapping(name).value)
  {
    var rest := "<" + bound;
    var s := name + rest;
    WordEnds(name, rest);
    assert '[' !in s && ']' !in s;
    assert FixedArray(s) == None && s[|s| - 1] != ']';
    NotCut(name, '<', rest);
    NotCut(name, '>', "");
    assert name + "" == name;
  }

  // The C++ type of a member, for every name and package.  A type of the table is its C++ type, wherever it is said
  // to come from; every other one is a message of the package that is named, or else of the project.

  lemma PlainShape(package: string, name: string, project: string)
    requires BareName(name)
    ensures TransformDataType(Declared(package, name), project).cpp == Plain(Element(package, name, project))
  {
    PackageCutOff(package, name);
    PlainText(package, name, project);
  }

  /** Empty brackets, and a bound that does not begin with a digit, give a vector ... */
  lemma VectorShape(package: string, name: string, bound: string, project: string)
    requires BareName(name) && '/' !in bound && (bound == "" || !DigitChar(bound[0]))
    ensures TransformDataType(Declared(package, name + ("[" + bound + "]")), project).cpp ==
            VectorOf(Element(package, name, project))
  {
    PackageCutOff(package, name + ("[" + bound + "]"));
    VectorText(package, name, bound, project);
  }

  /** ... a number an array ... */
  lemma ArrayShape(package: string, name: string, digits: string, project: string)
    requires AllWord(name) && AllDigits(digits)
    ensures TransformDataType(Declared(package, name + ("[" + digits + "]")), project).cpp ==
            ArrayOf(Element(package, name, project), digits)
  {
    PackageCutOff(package, name + ("[" + digits + "]"));
    ArrayText(package, name, digits, project);
  }

  /** ... and the bound of a string is dropped. */
  lemma BoundedShape(package: string, name: string, bound: string, project: string)
    requires BareName(name) && TypeMapping(name).Some? && '/' !in bound && '[' !in bound && ']' !in bound
    ensures TransformDataType(Declared(package, name + ("<" + bound)), project).cpp == Plain(TypeMapping(name).value)
  {
    PackageCutOff(package, name + ("<" + bound));
    BoundedText(package, name, bound, project);
  }

  /** The table gives a number as many bits as its name says. */
  lemma TableWidths(prefix: string, bits: string, width: nat)
    requires (bits, width) in {("8", 1), ("16", 2), ("32", 4), ("64", 8)}
    requires prefix in {"int", "uint"} || (prefix == "float" && width >= 4)
    ensures var cppName := TypeMapping(prefix + bits);
            cppName.Some? && Meaning(cppName.value) == Some(Scalar(width))
  {
    if prefix == "float" {
      assert prefix + bits == if width == 4 then "float32" else "float64";
    } else if prefix == "int" {
      assert prefix + bits ==
             if width == 1 then "int8" else if width == 2 then "int16" else if width == 4 then "int32" else "int64";
    } else {
      assert prefix + bits ==
             if width == 1 then "uint8" else if width == 2 then "uint16" else if width == 4 then "uint32" else "uint64";
    }
  }

  /** These are the names in the table; what is not a number is a flag, a string, or a single byte. */
  lemma TableNames(name: string)
    ensures TypeMapping(name).Some? <==>
            name in {"bool", "byte", "char", "string", "wstring", "float32", "float64", "int8", "int16", "int32",
                     "int64", "uint8", "uint16", "uint32", "uint64"}
    ensures name == "bool" ==> Meaning(TypeMapping(name).value) == Some(Bool)
    ensures name == "byte" || name == "char" ==> Meaning(TypeMapping(name).value) == Some(Scalar(1))
    ensures name == "string" ==> Meaning(TypeMapping(name).value) == Some(Text)
    ensures name == "wstring" ==> Meaning(TypeMapping(name).value) == Some(WideText(2))
  {
  }

  /** The name whose meaning decides the shape of the member. */
  function ElementName(cpp: CppType): string {
    match cpp
    case Plain(name) => name
    case VectorOf(elem) => elem
    case ArrayOf(elem, _) => elem
  }

  ghost predicate FarColons(s: string) {
    exists i :: 0 <= i < |s| - 5 && s[i] == ':' && s[i + 5] == ':'
  }

  lemma QualifiedHasFarColons(package: string, name: string)
    ensures FarColons(Qualified(package, name))
  {
    var s := Qualified(package, name);
    assert s[|package|] == ':' && s[|package| + 5] == ':';
  }

  lemma ColonsOfStringTypes(s: string, i: nat)
    requires s == "std::string" || s == "std::u16string"
    requires i < |s| && s[i] == ':'
    ensures i == 3 || i == 4
  {
  }

  lemma ColonFreeNames(s: string, i: nat)
    requires Meaning(s).Some? && !IsStringType(s) && i < |s|
    ensures s[i] != ':'
  {
  }

  /** The name of a message class is never one of the table's C++ names. */
  lemma QualifiedMeansNothing(package: string, name: string)
    ensures Meaning(Qualified(package, name)).None?
  {
    QualifiedHasFarColons(package, name);
    var s := Qualified(package, name);
    var i :| 0 <= i < |s| - 5 && s[i] == ':' && s[i + 5] == ':';
    if Meaning(s).Some? {
      if IsStringType(s) {
        ColonsOfStringTypes(s, i);
        ColonsOfStringTypes(s, i + 5);
      } else {
        ColonFreeNames(s, i);
      }
    }
  }

  // ---------------------------------------------------------------------------------------------
  // Statements of `getSize`

  /** One statement (or loop) of `getSize`.  `prefixed` adds the four bytes of a length; `wide` counts code
      units of two bytes. */
  datatype Entry =
    | EachText(prefixed: bool, wide: bool)
    | Counted(prefixed: bool, width: nat)
    | EachMessage(prefixed: bool)
    | OneText(wide: bool)
    | SizeOf(width: nat)
    | OneMessage

  function SizeOfName(cppName: string): nat
    requires Meaning(cppName).Some?
  {
    CodecBuffers.Width(Meaning(cppName).value)
  }

  /** `build_sequence_size_entry`: it looks at the bare name of the element, not at its C++ name. */
  function SequenceEntry(isVector: bool, base: string): Entry {
    if IsStringType(base) then EachText(isVector, base == "std::u16string")
    else if Meaning(base).Some? then Counted(isVector, SizeOfName(base))
    else EachMessage(isVector)
  }

  function SizeEntry(tr: Transformed): Entry {
    match tr.cpp
    case VectorOf(_) => SequenceEntry(true, tr.base)
    case ArrayOf(_, _) => SequenceEntry(false, tr.base)
    case Plain(name) =>
      if IsStringType(name) then OneText(name == "std::u16string")
      else if Meaning(name).Some? then SizeOf(SizeOfName(name))
      else OneMessage
  }

  // ---------------------------------------------------------------------------------------------
  // Members as types of the codec

  /** What the element's C++ name denotes: a type of the table, or the message class `m`. */
  function ElementType(cppName: string, m: Type): Type {
    if Meaning(cppName).Some? then Meaning(cppName).value else m
  }

  /** The member's type; `length` is what the compiler makes of an array's size. */
  function TypeOf(cpp: CppType, m: Type, length: nat): Type {
    match cpp
    case Plain(name) => ElementType(name, m)
    case VectorOf(elem) => Vector(ElementType(elem, m))
    case ArrayOf(elem, _) => Array(ElementType(elem, m), length)
  }

  predicate ElementShape(t: Type)
    decreases t, 0
  {
    match t
    case Scalar(_) => true
    case Bool => true
    case Text => true
    case WideText(u) => u == 2
    case Message(fs) => AllGenerated(fs)
    case _ => false
  }

  /** The types the generator gives members: one element, or one layer of vector or array around it. */
  predicate Generated(t: Type)
    decreases t, 1
  {
    if t.Vector? || t.Array? then ElementShape(t.elem) else ElementShape(t)
  }

  predicate AllGenerated(fs: seq<Type>)
    decreases fs, 0
  {
    fs == [] || (Generated(fs[0]) && AllGenerated(fs[1..]))
  }

  function EntryOfElements(prefixed: bool, e: Type): Entry
    requires ElementShape(e)
  {
    match e
    case Text => EachText(prefixed, false)
    case WideText(_) => EachText(prefixed, true)
    case Message(_) => EachMessage(prefixed)
    case _ => Counted(prefixed, CodecBuffers.Width(e))
  }

  /** The statement that fits a member of type `t`. */
  function EntryOf(t: Type): Entry
    requires Generated(t)
  {
    match t
    case Vector(e) => EntryOfElements(true, e)
    case Array(e, _) => EntryOfElements(false, e)
    case Text => OneText(false)
    case WideText(_) => OneText(true)
    case Message(_) => OneMessage
    case _ => SizeOf(CodecBuffers.Width(t))
  }

  /** The bare name of a sequence's element is a C++ name of the table, but the element is a message. */
  predicate Collides(tr: Transformed) {
    !tr.cpp.Plain? && Meaning(tr.base).Some? && Meaning(ElementName(tr.cpp)).None?
  }

  lemma ElementShapeOfNames(cppName: string, m: Type)
    requires m.Message? && Generated(m)
    ensures ElementShape(ElementType(cppName, m))
  {
  }

  /** For every type text the statement the generator emits fits the member's type, collisions aside. */
  lemma EntryFits(text: string, project: string, m: Type, length: nat)
    requires m.Message? && Generated(m)
    requires !Collides(TransformDataType(text, project))
    ensures var tr := TransformDataType(text, project);
            Generated(TypeOf(tr.cpp, m, length)) && SizeEntry(tr) == EntryOf(TypeOf(tr.cpp, m, length))
  {
    var tr := TransformDataType(text, project);
    BaseOrQualified(text, project);
    var elem := ElementName(tr.cpp);
    ElementShapeOfNames(elem, m);
    if tr.cpp.Plain? {
      PlainEntryFits(tr.cpp.name, m);
    } else {
      SequenceEntryFits(tr.cpp.VectorOf?, tr.base, elem, m);
    }
  }

  lemma PlainEntryFits(name: string, m: Type)
    requires m.Message? && Generated(m)
    ensures ElementShape(ElementType(name, m))
    ensures SizeEntry(Transformed(Plain(name), name, "", true)) == EntryOf(ElementType(name, m))
  {
    assert IsStringType(name) ==> Meaning(name).Some?;
  }

  lemma SequenceEntryFits(isVector: bool, base: string, elem: string, m: Type)
    requires m.Message? && Generated(m)
    requires if Meaning(base).Some? then elem == base else Meaning(elem).None?
    ensures ElementShape(ElementType(elem, m))
    ensures SequenceEntry(isVector, base) == EntryOfElements(isVector, ElementType(elem, m))
  {
    assert IsStringType(base) ==> Meaning(base).Some?;
  }

  /** The element's C++ name is the bare name, taken from the table, or the qualified name of a message. */
  lemma BaseOrQualified(text: string, project: string)
    ensures var tr := TransformDataType(text, project);
            || (Meaning(tr.base).Some? && ElementName(tr.cpp) == tr.base)
            || (Meaning(ElementName(tr.cpp)).None? &&
                exists package :: ElementName(tr.cpp) == Qualified(package, tr.base))
  {
    var (subproject, dataType) := DividePackage(text);
    var package := if subproject == "" then project else subproject;
    var tr := TransformDataType(text, project);
    if ElementName(tr.cpp) == Qualified(package, tr.base) {
      QualifiedMeansNothing(package, tr.base);
    } else {
      var base := match FixedArray(dataType)
        case Some((b, _)) => b
        case None => if dataType != "" && dataType[|dataType| - 1] == ']' then UpTo(dataType, '[')
                     else UpTo(UpTo(dataType, '<'), '>');
      MappedNamesMeanSomething(base);
    }
  }

  // ---------------------------------------------------------------------------------------------
  // What `getSize` returns

  /** Code units counted, then multiplied by their size. */
  function TextAmount(wide: bool, v: Value): nat
    requires v.Chars?
  {
    4 + if wide then |v.chars| / 2 * 2 else |v.chars|
  }

  function Prefix(prefixed: bool): nat {
    if prefixed then 4 else 0
  }

  /** What the fitting statement adds, before the sum wraps around. */
  ghost function Amount(t: Type, v: Value): nat
    requires Generated(t) && HasType(t, v)
    decreases t, 4
  {
    match EntryOf(t)
    case EachText(prefixed, wide) => Prefix(prefixed) + TextAmounts(wide, t.elem, v.items)
    case Counted(prefixed, width) => Prefix(prefixed) + |v.items| * width
    case EachMessage(prefixed) => Prefix(prefixed) + Sizes(t.elem, v.items)
    case OneText(wide) => TextAmount(wide, v)
    case SizeOf(width) => width
    case OneMessage => assert ElementShape(t); GetSize(t.fields, v.items)
  }

  ghost function TextAmounts(wide: bool, e: Type, items: seq<Value>): nat
    requires (e.Text? || e.WideText?) && AllHaveType(e, items)
    decreases |items|
  {
    if items == [] then 0
    else
      assert HasType(e, items[0]);
      TextAmount(wide, items[0]) + TextAmounts(wide, e, items[1..])
  }

  ghost function Sizes(m: Type, items: seq<Value>): nat
    requires m.Message? && ElementShape(m) && AllHaveType(m, items)
    decreases m, 3, |items|
  {
    if items == [] then 0 else assert HasType(m, items[0]); GetSize(m.fields, items[0].items) + Sizes(m, items[1..])
  }

  /** The generated `getSize` of a message: a 32-bit sum over the members, in which nested messages take part
      with what their own `getSize` returns. */
  ghost function GetSize(fs: seq<Type>, items: seq<Value>): (size: nat)
    requires AllGenerated(fs) && FieldsHaveType(fs, items)
    decreases fs, 2
  {
    if fs == [] then 0 else (Amount(fs[0], items[0]) + GetSize(fs[1..], items[1..])) % U32
  }

  lemma {:induction false} TextAmountsAreLengths(wide: bool, e: Type, items: seq<Value>)
    requires (e == Text && !wide) || (e == WideText(2) && wide)
    requires AllHaveType(e, items)
    ensures TextAmounts(wide, e, items) == FullLengthOfAll(e, items)
    decreases |items|
  {
    if items != [] {
      TextAmountsAreLengths(wide, e, items[1..]);
      DivBound(|items[0].chars|, 2);
    }
  }

  lemma {:induction false} CountedIsLength(e: Type, items: seq<Value>)
    requires (e.Scalar? || e.Bool?) && AllHaveType(e, items)
    ensures |items| * CodecBuffers.Width(e) == FullLengthOfAll(e, items)
    decreases |items|
  {
    if items != [] {
      CountedIsLength(e, items[1..]);
      CodecBuffers.SliceBound(|items|, CodecBuffers.Width(e));
    }
  }

  /** What a statement adds is the member's length, modulo 2^32. */
  lemma {:induction false} AmountIsLength(t: Type, v: Value)
    requires Generated(t) && HasType(t, v)
    ensures Amount(t, v) % U32 == FullLength(t, v) % U32
    decreases t, 4
  {
    match t
    case Vector(e) => ElementsAmount(true, t, e, v);
    case Array(e, _) => ElementsAmount(false, t, e, v);
    case Message(fs) => GetSizeIsLength(fs, v.items);
    case WideText(u) => DivBound(|v.chars|, 2);
    case _ =>
  }

  lemma {:induction false} ElementsAmount(prefixed: bool, t: Type, e: Type, v: Value)
    requires Generated(t) && HasType(t, v) && ElementShape(e) && v.Items?
    requires t == (if prefixed then Vector(e) else Array(e, |v.items|))
    ensures Amount(t, v) % U32 == FullLength(t, v) % U32
    decreases e, 5
  {
    match e
    case Text => TextAmountsAreLengths(false, e, v.items);
    case WideText(_) => TextAmountsAreLengths(true, e, v.items);
    case Message(_) =>
      SizesAreLengths(e, v.items);
      AddMod(Prefix(prefixed), Sizes(e, v.items), Prefix(prefixed), FullLengthOfAll(e, v.items));
    case Scalar(_) => CountedIsLength(e, v.items);
    case Bool => CountedIsLength(e, v.items);
    case Vector(_) =>
    case Array(_, _) =>
  }

  lemma {:induction false} SizesAreLengths(m: Type, items: seq<Value>)
    requires m.Message? && ElementShape(m) && AllHaveType(m, items)
    ensures Sizes(m, items) % U32 == FullLengthOfAll(m, items) % U32
    decreases m, 3, |items|
  {
    if items != [] {
      GetSizeIsLength(m.fields, items[0].items);
      SizesAreLengths(m, items[1..]);
      AddMod(GetSize(m.fields, items[0].items), Sizes(m, items[1..]),
             FullLength(m, items[0]), FullLengthOfAll(m, items[1..]));
    }
  }

  lemma {:induction false} GetSizeIsLength(fs: seq<Type>, items: seq<Value>)
    requires AllGenerated(fs) && FieldsHaveType(fs, items)
    ensures GetSize(fs, items) == FullLengthOfFields(fs, items) % U32
    decreases fs, 2
  {
    if fs != [] {
      AmountIsLength(fs[0], items[0]);
      GetSizeIsLength(fs[1..], items[1..]);
      AddMod(Amount(fs[0], items[0]), GetSize(fs[1..], items[1..]),
             FullLength(fs[0], items[0]), FullLengthOfFields(fs[1..], items[1..]));
    }
  }

  /** `getSize` is the length of what either writer writes, modulo 2^32; so it is that length exactly when
      the length is below 2^32. */
  lemma GetSizeIsEncodedLength(w: Writer, fs: seq<Type>, items: seq<Value>)
    requires AllGenerated(fs) && FieldsHaveType(fs, items)
    ensures GetSize(fs, items) == |EncodeFields(w, fs, items)| % U32
    ensures GetSize(fs, items) == |EncodeFields(w, fs, items)| <==> |EncodeFields(w, fs, items)| < U32
  {
    GetSizeIsLength(fs, items);
    LengthModuloOfFields(w, fs, items);
    SameExactlyBelow(|EncodeFields(w, fs, items)|);
  }

  lemma SameExactlyBelow(n: nat)
    ensures n % U32 == n <==> n < U32
  {
  }

  // ---------------------------------------------------------------------------------------------
  // `getSize` as it runs

  /** `temp += amount` on a 32-bit unsigned integer. */
  function Add32(temp: nat, amount: nat): (r: nat)
    ensures r < U32
  {
    (temp + amount) % U32
  }

  lemma Add32Then(temp: nat, a: nat, b: nat)
    ensures (Add32(temp, a) + b) % U32 == (temp + (a + b)) % U32
  {
  }

  lemma NextText(wide: bool, e: Type, rest: seq<Value>, temp: nat, total: nat)
    requires (e.Text? || e.WideText?) && rest != [] && AllHaveType(e, rest)
    requires (temp + TextAmounts(wide, e, rest)) % U32 == total % U32
    ensures AllHaveType(e, rest[1..]) && rest[0].Chars?
    ensures (Add32(temp, TextAmount(wide, rest[0])) + TextAmounts(wide, e, rest[1..])) % U32 == total % U32
  {
    assert HasType(e, rest[0]);
    Add32Then(temp, TextAmount(wide, rest[0]), TextAmounts(wide, e, rest[1..]));
  }

  method AddTexts(prefixed: bool, wide: bool, ghost e: Type, items: seq<Value>, start: nat) returns (temp: nat)
    requires (e.Text? || e.WideText?) && AllHaveType(e, items)
    ensures temp == Add32(start, Prefix(prefixed) + TextAmounts(wide, e, items))
  {
    temp := Add32(start, Prefix(prefixed));
    ghost var total := start + (Prefix(prefixed) + TextAmounts(wide, e, items));
    Add32Then(start, Prefix(prefixed), TextAmounts(wide, e, items));
    ghost var rest := items;
    for i := 0 to |items|
      invariant temp < U32 && rest == items[i..] && AllHaveType(e, rest)
      invariant (temp + TextAmounts(wide, e, rest)) % U32 == total % U32
    {
      NextText(wide, e, rest, temp, total);
      temp := Add32(temp, TextAmount(wide, items[i]));
      rest := rest[1..];
    }
    AllAdded(temp, total);
  }

  lemma AllAdded(temp: nat, total: nat)
    requires temp < U32 && (temp + 0) % U32 == total % U32
    ensures temp == total % U32
  {
  }

  method AddSizes(prefixed: bool, m: Type, items: seq<Value>, start: nat) returns (temp: nat)
    requires m.Message? && ElementShape(m) && AllHaveType(m, items)
    ensures temp == Add32(start, Prefix(prefixed) + Sizes(m, items))
    decreases m, 3
  {
    temp := Add32(start, Prefix(prefixed));
    ghost var total := start + (Prefix(prefixed) + Sizes(m, items));
    for i := 0 to |items|
      invariant temp < U32 && AllHaveType(m, items[i..])
      invariant (temp + Sizes(m, items[i..])) % U32 == total % U32
    {
      assert items[i..][1..] == items[i + 1..] && HasType(m, items[i]);
      var size := ComputeSize(m.fields, items[i].items);
      Add32Then(temp, size, Sizes(m, items[i + 1..]));
      temp := Add32(temp, size);
    }
    assert items[|items|..] == [];
  }

  /** Runs the statement of one member. */
  method AddMember(t: Type, v: Value, start: nat) returns (temp: nat)
    requires Generated(t) && HasType(t, v)
    ensures temp == Add32(start, Amount(t, v))
    decreases t, 4
  {
    match EntryOf(t)
    case EachText(prefixed, wide) => temp := AddTexts(prefixed, wide, t.elem, v.items, start);
    case Counted(prefixed, width) => temp := Add32(start, Prefix(prefixed) + |v.items| * width);
    case EachMessage(prefixed) => temp := AddSizes(prefixed, t.elem, v.items, start);
    case OneText(wide) => temp := Add32(start, TextAmount(wide, v));
    case SizeOf(width) => temp := Add32(start, width);
    case OneMessage =>
      var size := ComputeSize(t.fields, v.items);
      temp := Add32(start, size);
  }

  lemma NextMemberSize(fs: seq<Type>, items: seq<Value>, i: nat, temp: nat)
    requires i < |fs| && i < |items| && AllGenerated(fs[i..]) && FieldsHaveType(fs[i..], items[i..])
    ensures AllGenerated(fs[i + 1..]) && FieldsHaveType(fs[i + 1..], items[i + 1..])
    ensures Generated(fs[i]) && HasType(fs[i], items[i])
    ensures (Add32(temp, Amount(fs[i], items[i])) + GetSize(fs[i + 1..], items[i + 1..])) % U32 ==
            (temp + GetSize(fs[i..], items[i..])) % U32
  {
    assert fs[i..][1..] == fs[i + 1..] && items[i..][1..] == items[i + 1..];
    var rest := GetSize(fs[i + 1..], items[i + 1..]);
    Add32Then(temp, Amount(fs[i], items[i]), rest);
    AddMod(temp, GetSize(fs[i..], items[i..]), temp, Amount(fs[i], items[i]) + rest);
  }

  /** The body of `getSize`: one statement a member, in declaration order. */
  method ComputeSize(fs: seq<Type>, items: seq<Value>) returns (temp: nat)
    requires AllGenerated(fs) && FieldsHaveType(fs, items)
    ensures temp == GetSize(fs, items)
    ensures forall w :: temp == |EncodeFields(w, fs, items)| % U32
    decreases fs, 2
  {
    CodecBuffers.FieldCount(fs, items);
    temp := 0;
    for i := 0 to |fs|
      invariant temp < U32 && AllGenerated(fs[i..]) && FieldsHaveType(fs[i..], items[i..])
      invariant (temp + GetSize(fs[i..], items[i..])) % U32 == GetSize(fs, items) % U32
    {
      NextMemberSize(fs, items, i, temp);
      temp := AddMember(fs[i], items[i], temp);
    }
    assert fs[|fs|..] == [];
    SizeReached(temp, GetSize(fs, items));
    forall w
      ensures temp == |EncodeFields(w, fs, items)| % U32
    {
      GetSizeIsEncodedLength(w, fs, items);
    }
  }

  lemma SizeReached(temp: nat, size: nat)
    requires temp < U32 && size < U32 && temp % U32 == size % U32
    ensures temp == size
  {
  }

  // ---------------------------------------------------------------------------------------------
  // Exactly when the generated statement is right

  /** What a counting statement adds when it is given a sequence of anything. */
  function CountedAmount(prefixed: bool, width: nat, v: Value): nat
    requires v.Items?
  {
    Prefix(prefixed) + |v.items| * width
  }

  /** Running `entry` for a member of type `t` adds the member's length, modulo 2^32. */
  ghost predicate Adds(entry: Entry, t: Type, v: Value)
    requires HasType(t, v)
  {
    if entry.Counted? && v.Items? then
      CountedAmount(entry.prefixed, entry.width, v) % U32 == FullLength(t, v) % U32
    else
      Generated(t) && entry == EntryOf(t) && Amount(t, v) % U32 == FullLength(t, v) % U32
  }

  lemma FittingEntryAdds(t: Type, v: Value)
    requires Generated(t) && HasType(t, v)
    ensures Adds(EntryOf(t), t, v)
  {
    AmountIsLength(t, v);
  }

  /** The statement emitted for the text is right for every message class the element may denote and every
      value of the member. */
  ghost predicate EntryIsRight(text: string, project: string, length: nat) {
    var tr := TransformDataType(text, project);
    forall m: Type, v: Value :: m.Message? && Generated(m) && HasType(TypeOf(tr.cpp, m, length), v) ==>
      Adds(SizeEntry(tr), TypeOf(tr.cpp, m, length), v)
  }

  /** That is so exactly when the bare name does not collide with a C++ name of the table (for an array whose
      length is a 32-bit number other than 0). */
  lemma EntryIsRightExactlyWithoutCollision(text: string, project: string, length: nat)
    requires 0 < length < U32
    ensures EntryIsRight(text, project, length) <==> !Collides(TransformDataType(text, project))
  {
    var tr := TransformDataType(text, project);
    if Collides(tr) {
      CollisionCountsWrong(text, project, length);
    } else {
      forall m: Type, v: Value | m.Message? && Generated(m) && HasType(TypeOf(tr.cpp, m, length), v)
        ensures Adds(SizeEntry(tr), TypeOf(tr.cpp, m, length), v)
      {
        EntryFits(text, project, m, length);
        FittingEntryAdds(TypeOf(tr.cpp, m, length), v);
      }
    }
  }

  lemma {:induction false} CopiesHaveType(m: Type, v: Value, n: nat)
    requires HasType(m, v)
    ensures AllHaveType(m, seq(n, _ => v))
    ensures FullLengthOfAll(m, seq(n, _ => v)) == n * FullLength(m, v)
    decreases n
  {
    if n > 0 {
      CopiesHaveType(m, v, n - 1);
      assert seq(n, _ => v)[1..] == seq(n - 1, _ => v);
      CodecBuffers.SliceBound(n, FullLength(m, v));
    }
  }

  lemma OneFieldMessage(width: nat) returns (m: Type, item: Value)
    ensures m == Message([Scalar(width)]) && Generated(m)
    ensures HasType(m, item) && FullLength(m, item) == width
  {
    var bytes: seq<Byte> := seq(width, _ => 0);
    var fs, items := [Scalar(width)], [Bits(bytes)];
    m, item := Message(fs), Items(items);
    assert fs[1..] == [] && items[1..] == [];
    assert Generated(fs[0]) && AllGenerated(fs[1..]);
    assert AllGenerated(fs);
    assert FieldsHaveType(fs[1..], items[1..]) && FieldsHaveType(fs, items);
    assert FullLengthOfFields(fs, items) == width;
  }

  lemma Shifted(c: nat, n: nat)
    requires 0 < n < U32
    ensures c % U32 != (c + n) % U32
  {
  }

  /** A sequence of messages one byte wider than what is counted for each. */
  lemma WiderElements(isVector: bool, width: nat, length: nat) returns (m: Type, v: Value)
    requires 0 < length < U32
    ensures m.Message? && Generated(m) && v.Items?
    ensures HasType(if isVector then Vector(m) else Array(m, length), v)
    ensures CountedAmount(isVector, width, v) % U32 !=
            FullLength(if isVector then Vector(m) else Array(m, length), v) % U32
  {
    var item;
    m, item := OneFieldMessage(width + 1);
    var items := seq(length, _ => item);
    CopiesHaveType(m, item, length);
    v := Items(items);
    assert length * (width + 1) == length * width + length;
    Shifted(CountedAmount(isVector, width, v), length);
  }

  /** A message class named after a C++ type is counted by that type's size. */
  lemma CollisionCountsWrong(text: string, project: string, length: nat)
    requires 0 < length < U32 && Collides(TransformDataType(text, project))
    ensures !EntryIsRight(text, project, length)
  {
    var tr := TransformDataType(text, project);
    var entry := SizeEntry(tr);
    var isVector := tr.cpp.VectorOf?;
    var m, v := WiderElements(isVector, if entry.Counted? then entry.width else 0, length);
    var t := TypeOf(tr.cpp, m, length);
    assert t == if isVector then Vector(m) else Array(m, length);
    assert HasType(t, v) && !Adds(entry, t, v);
  }

  // ---------------------------------------------------------------------------------------------
  // From the lines of a message file to the members

  /** A line without its comment and the space around it: its words, what stands before its first space, and what
      stands behind, if there is a space at all. */
  datatype Line = Line(words: seq<string>, head: string, rest: Option<string>)

  datatype Kind = Blank | Member(text: string, name: string) | Constant(cppName: string) | Broken | Ignored

  /** A member takes two words, or three when it has a default; everything else with an equals sign is a constant.
      Broken is the exception for a line that has no space where one is needed, for a single word, and for a
      constant whose type is not in the table. */
  function KindOf(line: Line): Kind {
    var n := |line.words|;
    if n == 0 then Blank
    else if n < 4 && line.rest.None? then Broken
    else if n < 4 && '=' !in line.rest.value then
      if n == 1 then Broken else Member(line.words[0], line.words[1])
    else if '=' in line.head || (line.rest.Some? && '=' in line.rest.value) then
      if line.rest.None? || TypeMapping(line.head).None? then Broken else Constant(TypeMapping(line.head).value)
    else Ignored
  }

  function OwnMember(line: Line): seq<Kind> {
    if KindOf(line).Member? then [KindOf(line)] else []
  }

  /** The members in declaration order. */
  function Members(lines: seq<Line>): (members: seq<Kind>)
    ensures AllMembers(members)
    decreases |lines|
  {
    if lines == [] then [] else Members(lines[..|lines| - 1]) + OwnMember(lines[|lines| - 1])
  }

  lemma {:induction false} MembersConcat(a: seq<Line>, b: seq<Line>)
    ensures Members(a + b) == Members(a) + Members(b)
    decreases |b|
  {
    if b == [] {
      assert a + b == a && Members(a) + [] == Members(a);
    } else {
      var front, last := b[..|b| - 1], b[|b| - 1];
      assert (a + b)[..|a + b| - 1] == a + front && (a + b)[|a + b| - 1] == last;
      MembersConcat(a, front);
      KindsAssociative(Members(a), Members(front), OwnMember(last));
    }
  }

  lemma KindsAssociative(a: seq<Kind>, b: seq<Kind>, c: seq<Kind>)
    ensures (a + b) + c == a + (b + c)
  {
  }

  lemma MembersOfOne(line: Line)
    ensures Members([line]) == OwnMember(line)
  {
    assert [line][..0] == [];
    assert [] + OwnMember(line) == OwnMember(line);
  }

  /** Constants, blank lines and lines that are ignored can be left out anywhere: what counts is the lines that
      declare a member. */
  lemma OtherLinesAddNothing(a: seq<Line>, line: Line, b: seq<Line>)
    requires !KindOf(line).Member?
    ensures Members(a + [line] + b) == Members(a + b)
  {
    MembersConcat(a + [line], b);
    MembersConcat(a, [line]);
    MembersConcat(a, b);
    MembersOfOne(line);
    assert Members(a) + [] == Members(a);
  }

  /** The lines that declare a member. */
  function MemberLines(lines: seq<Line>): seq<Line>
    decreases |lines|
  {
    if lines == [] then []
    else
      MemberLines(lines[..|lines| - 1]) + if KindOf(lines[|lines| - 1]).Member? then [lines[|lines| - 1]] else []
  }

  /** There is one member for each of them, in the same order. */
  lemma {:induction false} OneMemberEach(lines: seq<Line>)
    ensures |Members(lines)| == |MemberLines(lines)|
    ensures forall i :: 0 <= i < |Members(lines)| ==> Members(lines)[i] == KindOf(MemberLines(lines)[i])
    ensures Members(MemberLines(lines)) == Members(lines)
    decreases |lines|
  {
    if lines != [] {
      var front, last := lines[..|lines| - 1], lines[|lines| - 1];
      OneMemberEach(front);
      if KindOf(last).Member? {
        MembersConcat(MemberLines(front), [last]);
        MembersOfOne(last);
      } else {
        assert MemberLines(front) + [] == MemberLines(front) && Members(front) + [] == Members(front);
      }
    }
  }

  /** The line declares a member `name` of type `text`: these two words, perhaps a default behind them, and no equals
      sign behind the first space. */
  predicate Declares(line: Line, text: string, name: string) {
    && (|line.words| == 2 || |line.words| == 3) && line.words[0] == text && line.words[1] == name
    && line.rest.Some? && '=' !in line.rest.value
  }

  /** Such a line adds one member of that type and that name, and no other line adds any. */
  lemma DeclaredMember(before: seq<Line>, line: Line, after: seq<Line>)
    ensures forall text, name :: Declares(line, text, name) ==>
              Members(before + [line] + after) == Members(before) + [Member(text, name)] + Members(after)
    ensures (forall text, name :: !Declares(line, text, name)) ==>
              Members(before + [line] + after) == Members(before + after)
  {
    MembersConcat(before + [line], after);
    MembersConcat(before, [line]);
    MembersOfOne(line);
    assert KindOf(line).Member? ==> Declares(line, line.words[0], line.words[1]);
    if !KindOf(line).Member? {
      OtherLinesAddNothing(before, line, after);
    }
  }

  /** A line stops the generator if it is one word, if it has no space where its first part should end, or if it is a
      constant whose type is not in the table. */
  lemma StopsExactly(line: Line)
    ensures KindOf(line) == Broken <==>
            && line.words != []
            && (|| (line.rest == None && (|line.words| < 4 || '=' in line.head))
                || (&& line.rest.Some? && '=' !in line.rest.value && |line.words| == 1)
                || (&& line.rest.Some? && TypeMapping(line.head).None?
                    && ('=' in line.rest.value || ('=' in line.head && |line.words| >= 4))))
  {
  }

  lemma NextLine(lines: seq<Line>, i: nat)
    requires i < |lines|
    ensures Members(lines[..i + 1]) == Members(lines[..i]) + OwnMember(lines[i])
  {
    assert lines[..i + 1][..i] == lines[..i];
  }

  /** What the generator emits for one member. */
  datatype Emission = Emission(cpp: CppType, name: string, entry: Entry)

  function EmissionOf(m: Kind, project: string): Emission
    requires m.Member?
  {
    var tr := TransformDataType(m.text, project);
    Emission(tr.cpp, m.name, SizeEntry(tr))
  }

  predicate AllMembers(members: seq<Kind>) {
    forall i :: 0 <= i < |members| ==> members[i].Member?
  }

  function Emissions(members: seq<Kind>, project: string): (emitted: seq<Emission>)
    requires AllMembers(members)
    ensures |emitted| == |members|
  {
    seq(|members|, i requires 0 <= i < |members| => EmissionOf(members[i], project))
  }

  function EmittedBy(line: Line, project: string): seq<Emission> {
    if KindOf(line).Member? then [EmissionOf(KindOf(line), project)] else []
  }

  /** What is emitted for the first lines, and for one more. */
  lemma NextEmission(lines: seq<Line>, i: nat, project: string)
    requires i < |lines|
    ensures Emissions(Members(lines[..i + 1]), project) ==
            Emissions(Members(lines[..i]), project) + EmittedBy(lines[i], project)
  {
    NextLine(lines, i);
  }

  lemma EmissionsConcat(a: seq<Kind>, b: seq<Kind>, project: string)
    requires AllMembers(a) && AllMembers(b)
    ensures AllMembers(a + b) && Emissions(a + b, project) == Emissions(a, project) + Emissions(b, project)
  {
  }

  /** So whatever stands around it, for a declaring line one member is emitted, with the C++ type of its type and its
      name. */
  lemma DeclaredEmission(before: seq<Line>, line: Line, after: seq<Line>, text: string, name: string, project: string)
    requires Declares(line, text, name)
    ensures var tr := TransformDataType(text, project);
            Emissions(Members(before + [line] + after), project) ==
            Emissions(Members(before), project) + [Emission(tr.cpp, name, SizeEntry(tr))]
            + Emissions(Members(after), project)
  {
    var one := [Member(text, name)];
    DeclaredMember(before, line, after);
    EmissionsConcat(Members(before), one, project);
    EmissionsConcat(Members(before) + one, Members(after), project);
    assert Emissions(one, project) == [EmissionOf(one[0], project)];
  }

  method EmitLine(line: Line, project: string) returns (broken: bool, emitted: seq<Emission>)
    ensures broken == KindOf(line).Broken? && emitted == EmittedBy(line, project)
  {
    var kind := KindOf(line);
    broken, emitted := kind.Broken?, [];
    if kind.Member? {
      var tr := TransformDataType(kind.text, project);
      emitted := [Emission(tr.cpp, kind.name, SizeEntry(tr))];
    }
  }

  /** The field loop: for every member the C++ type, the name that the statements for reading and writing use, and
      the statement of `getSize`, all in the same order.  Not `ok` is the exception a broken line raises. */
  method GenerateMembers(lines: seq<Line>, project: string) returns (ok: bool, emitted: seq<Emission>)
    ensures ok <==> forall i :: 0 <= i < |lines| ==> !KindOf(lines[i]).Broken?
    ensures ok ==> emitted == Emissions(Members(lines), project)
  {
    ok, emitted := true, [];
    for i := 0 to |lines|
      invariant ok && forall j :: 0 <= j < i ==> !KindOf(lines[j]).Broken?
      invariant emitted == Emissions(Members(lines[..i]), project)
    {
      NextEmission(lines, i, project);
      var broken, more := EmitLine(lines[i], project);
      if broken {
        return false, [];
      }
      emitted := emitted + more;
    }
    assert lines[..|lines|] == lines;
  }

  /** The types `fs` of the members of a class generated from the texts, when message classes stand for the
      types in `ms` and arrays have the lengths in `lengths`. */
  ghost predicate DeclaredAs(members: seq<Kind>, project: string, ms: seq<Type>, lengths: seq<nat>, fs: seq<Type>) {
    && |members| == |ms| == |lengths| == |fs|
    && forall i :: 0 <= i < |fs| ==>
         && members[i].Member? && ms[i].Message? && Generated(ms[i])
         && !Collides(TransformDataType(members[i].text, project))
         && fs[i] == TypeOf(TransformDataType(members[i].text, project).cpp, ms[i], lengths[i])
  }

  lemma {:induction false} AllGeneratedFromEach(fs: seq<Type>)
    requires forall i :: 0 <= i < |fs| ==> Generated(fs[i])
    ensures AllGenerated(fs)
    decreases |fs|
  {
    if fs != [] {
      AllGeneratedFromEach(fs[1..]);
    }
  }

  lemma EmittedEntryFits(members: seq<Kind>, project: string, ms: seq<Type>, lengths: seq<nat>, fs: seq<Type>, i: nat)
    requires DeclaredAs(members, project, ms, lengths, fs) && AllMembers(members) && i < |fs|
    ensures Generated(fs[i]) && Emissions(members, project)[i].entry == EntryOf(fs[i])
  {
    EntryFits(members[i].text, project, ms[i], lengths[i]);
  }

  /** The statements the generator emits for a message file are the ones `ComputeSize` runs for its members. */
  lemma EmittedEntriesFit(members: seq<Kind>, project: string, ms: seq<Type>, lengths: seq<nat>, fs: seq<Type>)
    requires DeclaredAs(members, project, ms, lengths, fs) && AllMembers(members)
    ensures AllGenerated(fs)
    ensures forall i :: 0 <= i < |fs| ==> Generated(fs[i]) && Emissions(members, project)[i].entry == EntryOf(fs[i])
  {
    forall i | 0 <= i < |fs|
      ensures Generated(fs[i]) && Emissions(members, project)[i].entry == EntryOf(fs[i])
    {
      EmittedEntryFits(members, project, ms, lengths, fs, i);
    }
    AllGeneratedFromEach(fs);
  }
}
