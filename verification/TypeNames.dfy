/** The type names front ends attach to allocations, and the layout types they stand for. */
module TypeNames {
  import opened Wrappers
  import opened MachineWords
  import opened HeapLayout

  datatype NameError = OpaqueType(name: string) | UnknownType(name: string)

  datatype Resolved = Ok(layout: Type) | Err(error: NameError)

  /** The named struct types of the module; an opaque one has no body. */
  type Structs = map<string, Option<Type>>

  // ----- The names -----

  predicate EndsWith(s: string, c: char) {
    s != [] && s[|s| - 1] == c
  }

  predicate EndsWithSlice(s: string) {
    |s| >= 3 && s[|s| - 3] == '[' && s[|s| - 2] == '*' && s[|s| - 1] == ']'
  }

  /** The scalar a name stands for. */
  function Primitive(name: string): Option<Type> {
    if name == "bool" || name == "u8" || name == "i8" then Some(Scalar(1, 1))
    else if name == "u16" || name == "i16" then Some(Scalar(2, 2))
    else if name == "u32" || name == "i32" || name == "f32" then Some(Scalar(4, 4))
    else if name == "u64" || name == "i64" || name == "f64" || name == "usize" then Some(Scalar(8, 8))
    else None
  }

  /** A letter and a number of bits: a scalar of that many bits, aligned to its size. */
  lemma PrimitiveIff(name: string)
    ensures Primitive(name) ==
      if name == "bool" then Some(Scalar(1, 1))
      else if name == "usize" then Some(Scalar(8, 8))
      else if name != [] && (name[0] == 'u' || name[0] == 'i' || name[0] == 'f') && name[1..] in {"8", "16", "32", "64"}
              && (name[0] == 'f' ==> Number(name[1..]) >= 32)
           then Some(Scalar(Number(name[1..]) / 8, Number(name[1..]) / 8))
      else None
  {
    ScalarWidths();
    hide Number;
    if name != [] { assert name == [name[0]] + name[1..]; }
    assert "u8"[1..] == "i8"[1..] == "8" && "u16"[1..] == "i16"[1..] == "16";
    assert "u32"[1..] == "i32"[1..] == "f32"[1..] == "32" && "u64"[1..] == "i64"[1..] == "f64"[1..] == "64";
    assert ['u'] + "8" == "u8" && ['u'] + "16" == "u16" && ['u'] + "32" == "u32" && ['u'] + "64" == "u64";
    assert ['i'] + "8" == "i8" && ['i'] + "16" == "i16" && ['i'] + "32" == "i32" && ['i'] + "64" == "i64";
    assert ['f'] + "32" == "f32" && ['f'] + "64" == "f64";
  }

  lemma ScalarWidths()
    ensures Number("8") == 8 && Number("16") == 16 && Number("32") == 32 && Number("64") == 64
  {
    TwoDigits("16");
    TwoDigits("32");
    TwoDigits("64");
  }

  lemma TwoDigits(s: string)
    requires |s| == 2
    ensures Number(s) == 10 * DigitValue(s[0]) + DigitValue(s[1])
  {
    assert s[..1][..0] == [] && s[..1][0] == s[0];
    assert Number(s[..1]) == 10 * Number([]) + DigitValue(s[0]);
  }

  /** Where the last '[' is. */
  function LastOpen(s: string): (r: Option<nat>)
    ensures r.Some? ==> r.value < |s|
  {
    if s == [] then None
    else if s[|s| - 1] == '[' then Some(|s| - 1)
    else LastOpen(s[..|s| - 1])
  }

  predicate IsDigit(c: char) {
    '0' <= c <= '9'
  }

  function DigitValue(c: char): nat {
    if IsDigit(c) then (c - '0') as nat else 0
  }

  /** consumeInteger in base ten: the number the leading digits spell; whatever follows them is left
      alone. There must be one, and the number must fit in 64 bits. */
  function LeadingDigits(s: string): (n: nat)
    ensures n <= |s|
  {
    if s == [] || !IsDigit(s[0]) then 0 else 1 + LeadingDigits(s[1..])
  }

  function Number(digits: string): nat {
    if digits == [] then 0 else 10 * Number(digits[..|digits| - 1]) + DigitValue(digits[|digits| - 1])
  }

  function ConsumeInteger(s: string): Option<nat> {
    var n := LeadingDigits(s);
    if n == 0 || Number(s[..n]) >= WORD_LIMIT then None else Some(Number(s[..n]))
  }

  /** The element name and count of an array name `element[count]`. */
  function SplitArray(name: string): (r: Option<(string, nat)>)
    ensures r.Some? ==> |r.value.0| < |name|
  {
    if !EndsWith(name, ']') then None
    else
      var open := LastOpen(name);
      if open.None? || open.value == 0 || open.value + 1 >= |name| - 1 then None
      else
        var count := ConsumeInteger(name[open.value + 1..|name| - 1]);
        if count.None? then None else Some((name[..open.value], count.value))
  }

  /** resolveTypeName. */
  function ResolveTypeName(structs: Structs, name: string): Resolved
    decreases |name|
  {
    if EndsWithSlice(name) || EndsWith(name, '*') then Ok(Pointer)
    else if Primitive(name).Some? then Ok(Primitive(name).value)
    else if SplitArray(name).Some? then
      var element := ResolveTypeName(structs, SplitArray(name).value.0);
      if element.Err? then element else Ok(ArrayOf(element.layout, SplitArray(name).value.1))
    else if name in structs then
      if structs[name].None? then Err(OpaqueType(name)) else Ok(structs[name].value)
    else Err(UnknownType(name))
  }

  // ----- What front ends spell -----

  datatype Spelling =
    | Builtin(name: string)
    | Named(name: string)
    | PointerTo(pointee: Spelling)
    | SliceOf(element: Spelling)
    | Array(element: Spelling, count: nat)

  /** Names a struct type may have without being read as something else. */
  predicate IsPlain(name: string) {
    name != [] && Primitive(name).None? && !EndsWith(name, '*') && !EndsWith(name, ']')
  }

  predicate IsSpelling(t: Spelling) {
    match t
    case Builtin(name) => Primitive(name).Some?
    case Named(name) => IsPlain(name)
    case PointerTo(_) => true
    case SliceOf(_) => true
    case Array(element, count) => IsSpelling(element) && count < WORD_LIMIT
  }

  function Digits(n: nat): (s: string)
    ensures s != [] && forall k :: 0 <= k < |s| ==> IsDigit(s[k])
  {
    var last := ['0' + (n % 10) as char];
    if n < 10 then last else Digits(n / 10) + last
  }

  function Spell(t: Spelling): string {
    match t
    case Builtin(name) => name
    case Named(name) => name
    case PointerTo(pointee) => Spell(pointee) + "*"
    case SliceOf(element) => Spell(element) + "[*]"
    case Array(element, count) => Spell(element) + "[" + Digits(count) + "]"
  }

  /** What a spelled type is laid out as. */
  function Meaning(structs: Structs, t: Spelling): Resolved {
    match t
    case Builtin(name) => if Primitive(name).Some? then Ok(Primitive(name).value) else Err(UnknownType(name))
    case Named(name) =>
      if name !in structs then Err(UnknownType(name))
      else if structs[name].None? then Err(OpaqueType(name)) else Ok(structs[name].value)
    case PointerTo(_) => Ok(Pointer)
    case SliceOf(_) => Ok(Pointer)
    case Array(element, count) =>
      var inner := Meaning(structs, element);
      if inner.Err? then inner else Ok(ArrayOf(inner.layout, count))
  }

  lemma {:induction false} NumberOfDigits(n: nat)
    ensures Number(Digits(n)) == n
  {
    if n >= 10 {
      NumberOfDigits(n / 10);
      assert Digits(n)[..|Digits(n)| - 1] == Digits(n / 10);
    }
  }

  lemma {:induction false} LastOpenOf(a: string, b: string)
    requires '[' !in b
    ensures LastOpen(a + "[" + b) == Some(|a|)
    decreases |b|
  {
    var s := a + "[" + b;
    if b != [] {
      assert s[..|s| - 1] == a + "[" + b[..|b| - 1];
      assert s[|s| - 1] == b[|b| - 1];
      LastOpenOf(a, b[..|b| - 1]);
    }
  }

  /** A number with text behind it that does not go on with a digit is consumed as that number. */
  lemma CountIsConsumed(count: nat, rest: string)
    requires count < WORD_LIMIT && (rest == [] || !IsDigit(rest[0]))
    ensures ConsumeInteger(Digits(count) + rest) == Some(count)
  {
    var digits := Digits(count);
    DigitsBeforeText(digits, rest);
    NumberOfDigits(count);
    assert (digits + rest)[..|digits|] == digits;
    hide Digits, Number, LeadingDigits;
  }

  lemma {:induction false} DigitsBeforeText(digits: string, rest: string)
    requires (forall k :: 0 <= k < |digits| ==> IsDigit(digits[k])) && (rest == [] || !IsDigit(rest[0]))
    ensures LeadingDigits(digits + rest) == |digits|
  {
    if digits == [] {
      assert digits + rest == rest;
    } else {
      assert (digits + rest)[1..] == digits[1..] + rest;
      DigitsBeforeText(digits[1..], rest);
    }
  }

  /** A bracketed name is read as an array exactly when it has an element name and its count begins
      with a number of 64 bits. */
  lemma BracketedIsArrayIff(element: string, count: string)
    requires '[' !in count
    ensures var n := LeadingDigits(count);
      SplitArray(element + "[" + count + "]") ==
        if element != [] && n > 0 && Number(count[..n]) < WORD_LIMIT then Some((element, Number(count[..n]))) else None
  {
    var name := element + "[" + count + "]";
    assert name == element + "[" + (count + "]");
    LastOpenOf(element, count + "]");
    hide LastOpen, Number;
    assert name[|element| + 1..|name| - 1] == count;
    assert name[..|element|] == element;
  }

  lemma {:induction false} LastOpenIsLast(s: string)
    ensures LastOpen(s).Some? ==> s[LastOpen(s).value] == '[' && forall k :: LastOpen(s).value < k < |s| ==> s[k] != '['
  {
    if s != [] { LastOpenIsLast(s[..|s| - 1]); }
  }

  /** And no other name is. */
  lemma ArraysAreBracketed(name: string)
    requires SplitArray(name).Some?
    ensures exists count :: '[' !in count && name == SplitArray(name).value.0 + "[" + count + "]"
  {
    LastOpenIsLast(name);
    var open := LastOpen(name).value;
    hide LastOpen, ConsumeInteger;
    var count := name[open + 1..|name| - 1];
    assert forall k :: 0 <= k < |count| ==> count[k] == name[open + 1 + k];
    assert name == name[..open] + "[" + count + "]";
  }

  lemma SpelledIsNotEmpty(t: Spelling)
    requires IsSpelling(t)
    ensures Spell(t) != []
  {
    assert Primitive([]).None?;
  }

  /** Every name a front end spells is resolved to the type it means, errors included. */
  lemma {:induction false} ResolvesToMeaning(structs: Structs, t: Spelling)
    requires IsSpelling(t)
    ensures ResolveTypeName(structs, Spell(t)) == Meaning(structs, t)
  {
    var name := Spell(t);
    hide SplitArray, Digits, Number, LeadingDigits, LastOpen;
    match t
    case Builtin(_) => PrimitivesArePlain(name);
    case Named(_) => NotAnArray(name);
    case PointerTo(_) =>
    case SliceOf(_) =>
    case Array(element, count) =>
      SpelledIsNotEmpty(element);
      assert Digits(count) + "" == Digits(count);
      TextBehindCountIsIgnored(structs, Spell(element), count, "");
      ResolvesToMeaning(structs, element);
  }

  lemma PrimitivesArePlain(name: string)
    ensures Primitive(name).Some? ==> !EndsWith(name, '*') && !EndsWith(name, ']')
  {
  }

  lemma NotAnArray(name: string)
    requires !EndsWith(name, ']')
    ensures SplitArray(name).None? && !EndsWithSlice(name)
  {
  }

  lemma ArrayName(element: string, count: string)
    requires '[' !in count && count != [] && IsDigit(count[0])
    ensures var name := element + "[" + count + "]";
      EndsWith(name, ']') && !EndsWith(name, '*') && !EndsWithSlice(name) && Primitive(name).None?
  {
    var name := element + "[" + count + "]";
    assert name[|name| - 1] == ']' && name[|name| - 2] == count[|count| - 1];
    assert |count| >= 2 ==> name[|name| - 3] == count[|count| - 2];
    assert !EndsWith(name, '*');
    PrimitivesArePlain(name);
  }

  function AsArray(element: Resolved, count: nat): Resolved {
    if element.Err? then element else Ok(ArrayOf(element.layout, count))
  }

  /** Whatever stands between the digits of a count and the closing bracket is not looked at, unless it
      is another bracket or goes on with the number. A well-formed name is the case of no such text. */
  lemma TextBehindCountIsIgnored(structs: Structs, element: string, count: nat, text: string)
    requires element != [] && count < WORD_LIMIT && '[' !in text && (text == [] || !IsDigit(text[0]))
    ensures ResolveTypeName(structs, element + "[" + (Digits(count) + text) + "]") == AsArray(ResolveTypeName(structs, element), count)
  {
    var digits := Digits(count) + text;
    assert forall k :: 0 <= k < |Digits(count)| ==> IsDigit(digits[k]);
    CountIsConsumed(count, text);
    hide Digits, Number, LeadingDigits, LastOpen, Primitive;
    BracketedIsArrayIff(element, digits);
    ArrayName(element, digits);
  }
}
