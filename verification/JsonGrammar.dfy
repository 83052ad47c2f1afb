/** The grammar of RFC 8259 as syntax trees: the text of a tree, when it is correct, and the value it stands for.
    Nothing here follows the parser's code.  Where the original takes more or less than the grammar, it says so. */
module JsonGrammar {
  import opened Bytes
  import opened Utf8
  import opened JsonNumber
  import opened JsonText
  import JsonString

  /** One character of a string literal, or one escape.  The numbers are those that the digits spell. */
  datatype Unit =
    | Plain(b: Byte)
    | Short(c: Byte)
    | Escaped(hex: seq<Byte>, v: int)
    | Surrogates(high: seq<Byte>, v: int, low: seq<Byte>, w: int)

  /** Values with the blanks around them. */
  datatype Padded = Padded(before: seq<Byte>, value: Syntax, after: seq<Byte>)
  datatype Field = Field(before: seq<Byte>, key: seq<Unit>, after: seq<Byte>, value: Padded)

  /** In an empty array or object there may be blanks. */
  datatype Syntax =
    | NullWord | TrueWord | FalseWord
    | NumberText(text: seq<Byte>)
    | Literal(units: seq<Unit>)
    | List(blank: seq<Byte>, items: seq<Padded>)
    | Record(blank: seq<Byte>, fields: seq<Field>)

  function Ascii(s: string): seq<Byte> {
    seq(|s|, i requires 0 <= i < |s| => s[i] as int % 0x80)
  }

  // ---- the text (sections 2, 4, 5 and 7)

  function UnitText(u: Unit): seq<Byte> {
    match u
    case Plain(b) => [b]
    case Short(c) => [BACKSLASH, c]
    case Escaped(hex, _) => [BACKSLASH, LOWER_U] + hex
    case Surrogates(high, _, low, _) => [BACKSLASH, LOWER_U] + high + [BACKSLASH, LOWER_U] + low
  }

  function UnitsText(us: seq<Unit>): seq<Byte> {
    if |us| == 0 then [] else UnitText(us[0]) + UnitsText(us[1..])
  }

  function TextOf(d: Syntax): seq<Byte>
    decreases d, 0
  {
    match d
    case NullWord => Ascii("null")
    case TrueWord => Ascii("true")
    case FalseWord => Ascii("false")
    case NumberText(text) => text
    case Literal(units) => [QUOTE] + UnitsText(units) + [QUOTE]
    case List(blank, items) => [LBRACKET] + (if |items| == 0 then blank else ElementsText(items)) + [RBRACKET]
    case Record(blank, fields) => [LBRACE] + (if |fields| == 0 then blank else FieldsText(fields)) + [RBRACE]
  }

  function PaddedText(p: Padded): seq<Byte>
    decreases p
  {
    p.before + TextOf(p.value) + p.after
  }

  function FieldText(f: Field): seq<Byte>
    decreases f
  {
    f.before + ([QUOTE] + UnitsText(f.key) + [QUOTE]) + f.after + [COLON] + PaddedText(f.value)
  }

  function ElementsText(items: seq<Padded>): seq<Byte>
    requires |items| > 0
    decreases items, 1
  {
    PaddedText(items[0]) + if |items| == 1 then [] else [COMMA] + ElementsText(items[1..])
  }

  function FieldsText(fields: seq<Field>): seq<Byte>
    requires |fields| > 0
    decreases fields, 1
  {
    FieldText(fields[0]) + if |fields| == 1 then [] else [COMMA] + FieldsText(fields[1..])
  }

  // ---- what is correct

  /** Space, tab, line feed, carriage return. */
  predicate White(s: seq<Byte>) {
    forall i :: 0 <= i < |s| ==> s[i] in {0x20, 0x09, 0x0A, 0x0D}
  }

  /** The escapes of section 7, with what they stand for. */
  const SHORT_ESCAPES: map<Byte, Byte> :=
    map[0x22 := 0x22, 0x5C := 0x5C, 0x2F := 0x2F, 0x62 := 0x08, 0x66 := 0x0C, 0x6E := 0x0A, 0x72 := 0x0D, 0x74 := 0x09]

  /** Other than in RFC 8259, digits may be letters beyond F, \u0000 is refused, and so is a surrogate without its other
      half. */
  ghost predicate UnitOk(u: Unit) {
    match u
    case Plain(b) => b >= 0x20 && b != 0x22 && b != 0x5C
    case Short(c) => c in SHORT_ESCAPES
    case Escaped(hex, v) => JsonString.Spells(hex, v) && v > 0 && Scalar(v)
    case Surrogates(high, v, low, w) =>
      JsonString.Spells(high, v) && JsonString.Spells(low, w) && 0xD800 <= v <= 0xDBFF && 0xDC00 <= w <= 0xDFFF
  }

  ghost predicate UnitsOk(us: seq<Unit>) {
    forall i :: 0 <= i < |us| ==> UnitOk(us[i])
  }

  /** Other than in RFC 8259, integers have 64 bits and reals are in the range of a double.  Equal keys are refused
      where `unique` says so. */
  ghost predicate Correct(d: Syntax, unique: bool)
    decreases d
  {
    match d
    case NumberText(text) =>
      IsNumber(text) &&
      (if IsInteger(text) then -0x8000_0000_0000_0000 <= IntValue(text) < 0x8000_0000_0000_0000
       else !Overflows(text))
    case Literal(units) => UnitsOk(units)
    case List(blank, items) => White(blank) && forall i :: 0 <= i < |items| ==> PaddedCorrect(items[i], unique)
    case Record(blank, fields) =>
      && White(blank) && (forall i :: 0 <= i < |fields| ==> FieldCorrect(fields[i], unique))
      && (unique ==> forall i, j :: 0 <= i < j < |fields| ==> UnitsBytes(fields[i].key) != UnitsBytes(fields[j].key))
    case _ => true
  }

  ghost predicate PaddedCorrect(p: Padded, unique: bool)
    decreases p
  {
    White(p.before) && White(p.after) && Correct(p.value, unique)
  }

  ghost predicate FieldCorrect(f: Field, unique: bool)
    decreases f
  {
    White(f.before) && UnitsOk(f.key) && White(f.after) && PaddedCorrect(f.value, unique)
  }

  // ---- what it stands for

  function UnitBytes(u: Unit): seq<Byte> {
    match u
    case Plain(b) => [b]
    case Short(c) => if c in SHORT_ESCAPES then [SHORT_ESCAPES[c]] else []
    case Escaped(_, v) => if Scalar(v) then Encoding(v) else []
    case Surrogates(_, v, _, w) =>
      // section 2 of RFC 2781
      var cp := 0x10000 + (v - 0xD800) * 0x400 + (w - 0xDC00);
      if Scalar(cp) then Encoding(cp) else []
  }

  function UnitsBytes(us: seq<Unit>): seq<Byte> {
    if |us| == 0 then [] else UnitBytes(us[0]) + UnitsBytes(us[1..])
  }

  function MeaningOf(d: Syntax): Value
    decreases d, 0
  {
    match d
    case NullWord => VNull
    case TrueWord => VTrue
    case FalseWord => VFalse
    case NumberText(text) => if IsInteger(text) then VInteger(IntValue(text)) else VReal(text)
    case Literal(units) => VString(UnitsBytes(units))
    case List(_, items) => VArray(Meanings(items))
    case Record(_, fields) => VObject(MapOfFields(fields))
  }

  function Meanings(items: seq<Padded>): seq<Value>
    decreases items, 1
  {
    if |items| == 0 then [] else [MeaningOf(items[0].value)] + Meanings(items[1..])
  }

  /** The last of equal keys counts. */
  function MapOfFields(fields: seq<Field>): map<CString, Value>
    decreases fields, 1
  {
    if |fields| == 0 then map[]
    else map[UnitsBytes(fields[0].key) := MeaningOf(fields[0].value.value)] + MapOfFields(fields[1..])
  }

  // ---- texts

  /** `rest` does not continue a word or a number that ends in front of it. */
  predicate Stops(d: Syntax, rest: seq<Byte>) {
    match d
    case NullWord => |rest| == 0 || !IsAlpha(rest[0])
    case TrueWord => |rest| == 0 || !IsAlpha(rest[0])
    case FalseWord => |rest| == 0 || !IsAlpha(rest[0])
    case NumberText(text) => NumberStops(text, rest)
    case _ => true
  }
}
