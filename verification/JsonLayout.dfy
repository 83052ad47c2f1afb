/** What is printed for a tree, as a syntax tree: blanks, lines and escapes according to the flags. */
module JsonLayout {
  import opened Bytes
  import opened Utf8
  import opened Wrappers
  import opened JsonNumber
  import opened JsonText
  import opened JsonParse
  import opened JsonGrammar
  import opened JsonDerive
  import JsonString

  // ---- the layout

  /** With JSON_INDENT, a new line, indented `n` times; else nothing. */
  predicate Line(w: seq<Byte>, f: Flags, n: nat) {
    if f.indent == 0 then w == []
    else |w| == 1 + n * f.indent && w[0] == 0x0A && forall k :: 0 < k < |w| ==> w[k] == 0x20
  }

  /** Between two elements; without JSON_INDENT a space, or nothing with JSON_COMPACT. */
  predicate Gap(w: seq<Byte>, f: Flags, n: nat) {
    if f.indent > 0 then Line(w, f, n) else w == if f.compact then [] else [0x20]
  }

  predicate LowerCase(hex: seq<Byte>) {
    forall i :: 0 <= i < |hex| ==> !IsUpper(hex[i])
  }

  /** A character is escaped only if it must be, and in the shortest way; with JSON_ENSURE_ASCII, all beyond ASCII
      are. */
  predicate UnitPrinted(u: Unit, ascii: bool) {
    match u
    case Plain(b) => ascii ==> b < 0x80
    case Short(c) => c != 0x2F
    case Escaped(hex, v) => LowerCase(hex) && (v < 0x20 || (ascii && v > 0x7F)) && v !in {8, 9, 10, 12, 13}
    case Surrogates(high, _, low, _) => LowerCase(high) && LowerCase(low) && ascii
  }

  predicate UnitsPrinted(us: seq<Unit>, s: CString, ascii: bool) {
    UnitsBytes(us) == s && forall i :: 0 <= i < |us| ==> UnitPrinted(us[i], ascii)
  }

  /** The syntax tree is the one to be printed for the tree, at the given depth, with its members in their order. */
  ghost predicate Prints(d: Syntax, t: Json, f: Flags, depth: nat)
    decreases t, 0
  {
    match t
    case Null => d == NullWord
    case True => d == TrueWord
    case False => d == FalseWord
    case Integer(n) => d.NumberText? && IsInteger(d.text) && IntValue(d.text) == n
    case Real(text) => d == NumberText(text)
    case String(s) => d.Literal? && UnitsPrinted(d.units, s, f.ascii)
    case Array(ts) => d.List? && d.blank == [] && PrintsItems(d.items, ts, f, depth, true)
    case Object(ms) => d.Record? && d.blank == [] && PrintsFields(d.fields, ms, f, depth, true)
  }

  /** Elements of an array: the first is `first`. */
  ghost predicate PrintsItems(items: seq<Padded>, ts: seq<Json>, f: Flags, depth: nat, first: bool)
    decreases ts, 1
  {
    |items| == |ts| && forall i :: 0 <= i < |ts| ==>
      && (if first && i == 0 then Line(items[i].before, f, depth + 1) else Gap(items[i].before, f, depth + 1))
      && (if i == |ts| - 1 then Line(items[i].after, f, depth) else items[i].after == [])
      && Prints(items[i].value, ts[i], f, depth + 1)
  }

  ghost predicate PrintsFields(fields: seq<Field>, ms: seq<Member<Json>>, f: Flags, depth: nat, first: bool)
    decreases ms, 1
  {
    |fields| == |ms| && forall i :: 0 <= i < |ms| ==>
      && (if first && i == 0 then Line(fields[i].before, f, depth + 1) else Gap(fields[i].before, f, depth + 1))
      && UnitsPrinted(fields[i].key, ms[i].key, f.ascii) && fields[i].after == []
      && fields[i].value.before == (if f.compact then [] else [0x20])
      && (if i == |ms| - 1 then Line(fields[i].value.after, f, depth) else fields[i].value.after == [])
      && Prints(fields[i].value.value, ms[i].value, f, depth + 1)
  }

  // ---- strings

  lemma {:induction false} UnitsConcat(a: seq<Unit>, b: seq<Unit>)
    ensures UnitsText(a + b) == UnitsText(a) + UnitsText(b) && UnitsBytes(a + b) == UnitsBytes(a) + UnitsBytes(b)
    decreases |a|
  {
    hide UnitText, UnitBytes;
    if |a| == 0 {
      assert a + b == b;
    } else {
      UnitsConcat(a[1..], b);
      assert (a + b)[1..] == a[1..] + b;
    }
  }

  lemma OneUnit(u: Unit)
    ensures UnitsText([u]) == UnitText(u) && UnitsBytes([u]) == UnitBytes(u)
  {
    hide UnitText, UnitBytes;
    assert [u][1..] == [];
  }

  lemma {:induction false} PlainUnits(c: seq<Byte>, ascii: bool) returns (us: seq<Unit>)
    requires JsonString.Plain(c) && (ascii ==> forall i :: 0 <= i < |c| ==> c[i] < 0x80)
    ensures UnitsOk(us) && UnitsText(us) == c && UnitsPrinted(us, c, ascii)
    decreases |c|
  {
    if |c| == 0 {
      us := [];
    } else {
      var rest := PlainUnits(c[1..], ascii);
      us := [Plain(c[0])] + rest;
      OneUnit(Plain(c[0]));
      UnitsConcat([Plain(c[0])], rest);
    }
  }

  lemma Hex4Lower(v: nat)
    requires v < 0x10000
    ensures LowerCase(JsonString.Hex4(v)) && JsonString.Spells(JsonString.Hex4(v), v)
  {
    hide HexDigit, JsonString.Spells;
    JsonString.HexSpellings(v, JsonString.Hex4(v));
    DigitLower(v / 16 / 16 / 16);
    DigitLower(v / 16 / 16 % 16);
    DigitLower(v / 16 % 16);
    DigitLower(v % 16);
  }

  lemma DigitLower(d: nat)
    requires d < 16
    ensures !IsUpper(HexDigit(d))
  {
  }

  lemma EscapeUnit(cp: int, ascii: bool) returns (u: Unit)
    requires Scalar(cp) && cp > 0 && JsonString.MustEscape(cp, ascii)
    ensures UnitOk(u) && UnitText(u) == JsonString.EscapeOf(cp) && UnitBytes(u) == Encoding(cp) && UnitPrinted(u, ascii)
  {
    hide JsonString.Hex4, JsonString.Spells, LowerCase;
    if |JsonString.EscapeOf(cp)| == 2 {
      u := Short(JsonString.EscapeOf(cp)[1]);
      JsonString.OneByte(cp);
    } else if cp < 0x10000 {
      u := Escaped(JsonString.Hex4(cp), cp);
      Hex4Lower(cp);
    } else {
      var high, low := JsonString.HighSurrogate(cp), JsonString.LowSurrogate(cp);
      u := Surrogates(JsonString.Hex4(high), high, JsonString.Hex4(low), low);
      Hex4Lower(high);
      Hex4Lower(low);
      assert (high - 0xD800) * 0x400 + (low - 0xDC00) + 0x10000 == cp;
    }
  }

  lemma CharUnits(c: seq<Byte>, ascii: bool) returns (us: seq<Unit>)
    requires IsChar(c) && 0 !in c
    ensures UnitsOk(us) && UnitsText(us) == JsonString.CharText(c, ascii) && UnitsPrinted(us, c, ascii)
  {
    hide IsChar, Decoding, Encoding, UnitText, UnitBytes, UnitOk, UnitPrinted, JsonString.EscapeOf, JsonString.Plain;
    DecodeEncode(c);
    JsonString.NotNul(c);
    if JsonString.MustEscape(Decoding(c), ascii) {
      var u := EscapeUnit(Decoding(c), ascii);
      us := [u];
      OneUnit(u);
    } else {
      JsonString.CopiedIsPlain(c, ascii);
      CopiedAscii(c, ascii);
      us := PlainUnits(c, ascii);
    }
  }

  lemma CopiedAscii(c: seq<Byte>, ascii: bool)
    requires IsChar(c) && !JsonString.MustEscape(Decoding(c), ascii)
    ensures ascii ==> forall i :: 0 <= i < |c| ==> c[i] < 0x80
  {
  }

  /** The text of a string literal. */
  lemma {:induction false} EscapeUnits(s: CString, ascii: bool) returns (us: seq<Unit>)
    requires IsUtf8(s) && 0 !in s
    ensures UnitsOk(us) && UnitsText(us) == JsonString.Escape(s, ascii) && UnitsPrinted(us, s, ascii)
    decreases |s|
  {
    hide IsChar, JsonString.CharText, CharLen, UnitOk, UnitPrinted, UnitText, UnitBytes;
    if |s| == 0 {
      us := [];
    } else {
      var n := CharLen(s);
      IsCharPrefix(s);
      var a := CharUnits(s[..n], ascii);
      var b := EscapeUnits(s[n..], ascii);
      us := a + b;
      UnitsConcat(a, b);
      assert s == s[..n] + s[n..];
    }
  }

  /** What dump_string writes between the quotes decodes to the string it was given. */
  lemma EscapeDecode(s: CString, ascii: bool)
    requires IsUtf8(s) && 0 !in s
    ensures JsonString.WellScanned(JsonString.Escape(s, ascii))
    ensures JsonString.Decode(JsonString.Escape(s, ascii)) == JsonString.Text(s)
  {
    hide IsUtf8, UnitsOk, UnitsText, UnitPrinted, JsonString.Escape, JsonString.Decode, JsonString.WellScanned;
    var us := EscapeUnits(s, ascii);
    UnitsRead(us);
  }

  /** String round trip: behind the opening quote, the scanner finds the closing quote that dump_string
      wrote, and decodes the text to the same bytes. */
  lemma StringRoundTrip(s: CString, ascii: bool, rest: seq<Byte>)
    requires IsUtf8(s) && 0 !in s
    ensures JsonString.Scan((JsonString.Quoted(s, ascii) + rest)[1..]) == Some(|JsonString.Escape(s, ascii)|)
    ensures JsonString.WellScanned(JsonString.Escape(s, ascii))
    ensures JsonString.Decode(JsonString.Escape(s, ascii)) == JsonString.Text(s)
  {
    hide JsonString.Escape, JsonString.Scan, JsonString.WellScanned, JsonString.Decode, IsUtf8;
    EscapeDecode(s, ascii);
    JsonString.WellScannedScan(JsonString.Escape(s, ascii), rest);
    assert (JsonString.Quoted(s, ascii) + rest)[1..] == JsonString.Escape(s, ascii) + [QUOTE] + rest;
  }

  // ---- the text that is printed is that of such a tree

  lemma IndentLaid(f: Flags, n: nat)
    ensures Line(Indent(f, n, false), f, n) && Gap(Indent(f, n, true), f, n)
    ensures White(Indent(f, n, false)) && White(Indent(f, n, true))
  {
  }

  lemma DecimalPrinted(n: int)
    ensures IsNumber(Decimal(n)) && IsInteger(Decimal(n)) && IntValue(Decimal(n)) == n
  {
    hide Decimal, IsInteger, IntValue;
    DecimalValue(n);
    DecimalScans(n, []);
    assert Decimal(n) + [] == Decimal(n);
    ScanStops(Decimal(n));
    assert Decimal(n)[..|Decimal(n)|] == Decimal(n);
  }

  lemma RealPrinted(text: seq<Byte>)
    requires RealText(text)
    ensures IsNumber(text) && !IsInteger(text) && !Overflows(text)
  {
    hide Overflows, ScanNumber, IsInteger;
    ScanStops(text);
    assert text[..|text|] == text;
  }

  lemma {:induction false} DumpPrints(t: Json, f: Flags, depth: nat, unique: bool) returns (d: Syntax)
    requires WellFormed(t) && GoodKeys(t)
    ensures TextOf(d) == Dump(t, f, depth) && Correct(d, unique) && MeaningOf(d) == ValueOf(t) && Prints(d, t, f, depth)
    decreases t, 0
  {
    hide Ascii, Indent, DumpItems, DumpMembers, GoodKeys, UnitsText, UnitsBytes, UnitsOk, IsNumber, IsInteger, IntValue,
         Overflows, Decimal, RealText, JsonString.Quoted, PrintsItems, PrintsFields, ElementsText, FieldsText, IsUtf8,
         UnitsPrinted, Meanings, MapOfFields, ValuesOf, MapOf;
    Words();
    match t
    case Null => d := NullWord;
    case True => d := TrueWord;
    case False => d := FalseWord;
    case Integer(n) => DecimalPrinted(n); d := NumberText(Decimal(n));
    case Real(text) => RealPrinted(text); d := NumberText(text);
    case String(s) => d := StringPrints(s, f, depth, unique);
    case Array(ts) => d := ArrayPrints(ts, f, depth, unique);
    case Object(ms) => d := ObjectPrints(ms, f, depth, unique);
  }

  lemma StringPrints(s: CString, f: Flags, depth: nat, unique: bool) returns (d: Syntax)
    requires GoodString(s)
    ensures TextOf(d) == JsonString.Quoted(s, f.ascii) && Correct(d, unique) && MeaningOf(d) == VString(s)
    ensures Prints(d, String(s), f, depth)
  {
    hide UnitsOk, UnitsText, UnitPrinted, IsUtf8, JsonString.Escape;
    var us := EscapeUnits(s, f.ascii);
    d := Literal(us);
  }

  lemma ArrayPrints(ts: seq<Json>, f: Flags, depth: nat, unique: bool) returns (d: Syntax)
    requires AllWellFormed(ts) && GoodKeys(Array(ts))
    ensures TextOf(d) == Dump(Array(ts), f, depth) && Correct(d, unique) && MeaningOf(d) == VArray(ValuesOf(ts))
    ensures Prints(d, Array(ts), f, depth)
    decreases ts, 2
  {
    hide Indent, DumpItems, GoodKeys, ElementsText, White, PaddedCorrect, Line, Gap, Dump, Correct, PrintsItems,
         Meanings, ValuesOf, AllWellFormed, WellFormed;
    DumpOfArray(ts, f, depth);
    if |ts| == 0 {
      d := List([], []);
      NoBlank(unique);
      NoValues();
      NothingPrinted(f, depth);
    } else {
      var w := Indent(f, depth + 1, false);
      IndentLaid(f, depth + 1);
      var items := ItemsPrint(ts, f, depth, w, true, unique);
      d := List([], items);
      ListCorrect(items, unique);
    }
  }

  lemma NoBlank(unique: bool)
    ensures Correct(List([], []), unique) && Correct(Record([], []), unique)
    ensures Meanings([]) == [] && MapOfFields([]) == map[]
  {
    EmptyCorrect([], unique);
  }

  lemma {:induction false} ItemsPrint(ts: seq<Json>, f: Flags, depth: nat, w: seq<Byte>, first: bool, unique: bool)
    returns (items: seq<Padded>)
    requires |ts| > 0 && AllWellFormed(ts) && GoodKeys(Array(ts)) && White(w)
    requires if first then Line(w, f, depth + 1) else Gap(w, f, depth + 1)
    ensures |items| > 0 && forall i :: 0 <= i < |items| ==> PaddedCorrect(items[i], unique)
    ensures ElementsText(items) == w + DumpItems(ts, f, depth) && Meanings(items) == ValuesOf(ts)
    ensures PrintsItems(items, ts, f, depth, first)
    decreases ts, 1
  {
    hide Indent, DumpItems, GoodKeys, ElementsText, White, Correct, Line, Gap, Meanings, ValuesOf, TextOf, MeaningOf,
         Prints, PrintsItems, Dump, WellFormed, ValueOf;
    ItemKeys(ts);
    var d := DumpPrints(ts[0], f, depth + 1, unique);
    if |ts| == 1 {
      var after := Indent(f, depth, false);
      IndentLaid(f, depth);
      var p := Padded(w, d, after);
      items := [p];
      OneElement(p, ts, f, depth, first);
    } else {
      IndentLaid(f, depth + 1);
      var more := ItemsPrint(ts[1..], f, depth, Indent(f, depth + 1, true), false, unique);
      var p := Padded(w, d, []);
      NoneWhite();
      items := [p] + more;
      MoreElements(p, more, ts, f, depth, first);
    }
  }

  lemma NoneWhite()
    ensures White([])
  {
  }

  lemma OneElement(p: Padded, ts: seq<Json>, f: Flags, depth: nat, first: bool)
    requires |ts| == 1 && AllWellFormed(ts) && p.after == Indent(f, depth, false) && Line(p.after, f, depth)
    requires TextOf(p.value) == Dump(ts[0], f, depth + 1) && MeaningOf(p.value) == ValueOf(ts[0])
    requires if first then Line(p.before, f, depth + 1) else Gap(p.before, f, depth + 1)
    requires Prints(p.value, ts[0], f, depth + 1)
    ensures ElementsText([p]) == p.before + DumpItems(ts, f, depth) && Meanings([p]) == ValuesOf(ts)
    ensures PrintsItems([p], ts, f, depth, first)
  {
    hide Indent, TextOf, MeaningOf, Prints, Dump, Line, Gap, WellFormed, ValueOf;
    assert [p][1..] == [] && ts[1..] == [] && [p][0] == p;
    Assoc(p.before, TextOf(p.value), p.after);
    assert PaddedText(p) + [] == PaddedText(p);
  }

  lemma MoreElements(p: Padded, more: seq<Padded>, ts: seq<Json>, f: Flags, depth: nat, first: bool)
    requires |ts| > 1 && AllWellFormed(ts) && p.after == [] && |more| > 0
    requires TextOf(p.value) == Dump(ts[0], f, depth + 1) && MeaningOf(p.value) == ValueOf(ts[0])
    requires if first then Line(p.before, f, depth + 1) else Gap(p.before, f, depth + 1)
    requires Prints(p.value, ts[0], f, depth + 1)
    requires ElementsText(more) == Indent(f, depth + 1, true) + DumpItems(ts[1..], f, depth)
    requires Meanings(more) == ValuesOf(ts[1..]) && PrintsItems(more, ts[1..], f, depth, false)
    ensures ElementsText([p] + more) == p.before + DumpItems(ts, f, depth)
    ensures Meanings([p] + more) == ValuesOf(ts)
    ensures PrintsItems([p] + more, ts, f, depth, first)
  {
    hide Indent, TextOf, MeaningOf, Prints, Dump, Line, Gap, WellFormed, ValueOf, PrintsItems;
    var items := [p] + more;
    assert items[0] == p && items[1..] == more;
    var x, head := Indent(f, depth + 1, true), Dump(ts[0], f, depth + 1);
    Assoc([COMMA], x, DumpItems(ts[1..], f, depth));
    assert PaddedText(p) == p.before + head;
    Assoc(p.before, head, [COMMA] + x + DumpItems(ts[1..], f, depth));
    ItemsShift(p, more, ts, f, depth, first);
  }

  lemma ItemsShift(p: Padded, more: seq<Padded>, ts: seq<Json>, f: Flags, depth: nat, first: bool)
    requires |ts| > 1 && p.after == [] && Prints(p.value, ts[0], f, depth + 1)
    requires if first then Line(p.before, f, depth + 1) else Gap(p.before, f, depth + 1)
    requires PrintsItems(more, ts[1..], f, depth, false)
    ensures PrintsItems([p] + more, ts, f, depth, first)
  {
    hide Prints, Line, Gap;
    var items := [p] + more;
    forall i | 0 <= i < |ts|
      ensures if first && i == 0 then Line(items[i].before, f, depth + 1) else Gap(items[i].before, f, depth + 1)
      ensures if i == |ts| - 1 then Line(items[i].after, f, depth) else items[i].after == []
      ensures Prints(items[i].value, ts[i], f, depth + 1)
    {
      if i > 0 {
        assert items[i] == more[i - 1] && ts[i] == ts[1..][i - 1];
      }
    }
  }

  lemma ObjectPrints(ms: seq<Member<Json>>, f: Flags, depth: nat, unique: bool) returns (d: Syntax)
    requires MembersWellFormed(ms) && GoodKeys(Object(ms))
    ensures TextOf(d) == Dump(Object(ms), f, depth) && Correct(d, unique) && MeaningOf(d) == VObject(MapOf(ms))
    ensures Prints(d, Object(ms), f, depth)
    decreases ms, 2
  {
    hide Indent, DumpMembers, GoodKeys, FieldsText, White, FieldCorrect, Line, Gap, FieldsFit, MapOf, MapOfFields, Keys,
         Dump, Correct, PrintsFields, MembersWellFormed, WellFormed;
    DumpOfObject(ms, f, depth);
    if |ms| == 0 {
      d := Record([], []);
      NoBlank(unique);
      NoMembersMean();
      NothingPrinted(f, depth);
    } else {
      var w := Indent(f, depth + 1, false);
      IndentLaid(f, depth + 1);
      var fields := FieldsPrint(ms, f, depth, w, true, unique);
      d := Record([], fields);
      NoneWhite();
      FieldsMapped(fields, ms, unique);
      RecordCorrect(fields, unique);
    }
  }

  lemma DumpOfObject(ms: seq<Member<Json>>, f: Flags, depth: nat)
    requires MembersWellFormed(ms)
    ensures WellFormed(Object(ms))
    ensures Dump(Object(ms), f, depth) ==
            [LBRACE] + (if |ms| == 0 then [] else Indent(f, depth + 1, false) + DumpMembers(ms, f, depth)) + [RBRACE]
  {
    hide Indent, DumpMembers, MembersWellFormed;
    if |ms| > 0 {
      Assoc([LBRACE], Indent(f, depth + 1, false), DumpMembers(ms, f, depth));
    }
  }

  lemma DumpOfArray(ts: seq<Json>, f: Flags, depth: nat)
    requires AllWellFormed(ts)
    ensures WellFormed(Array(ts))
    ensures Dump(Array(ts), f, depth) ==
            [LBRACKET] + (if |ts| == 0 then [] else Indent(f, depth + 1, false) + DumpItems(ts, f, depth)) + [RBRACKET]
  {
    hide Indent, DumpItems, AllWellFormed;
    if |ts| > 0 {
      Assoc([LBRACKET], Indent(f, depth + 1, false), DumpItems(ts, f, depth));
    }
  }

  lemma NothingPrinted(f: Flags, depth: nat)
    ensures PrintsItems([], [], f, depth, true) && PrintsFields([], [], f, depth, true)
  {
  }

  lemma NoValues()
    ensures ValuesOf([]) == []
  {
  }

  lemma NoMembersMean()
    ensures MapOf([]) == map[]
  {
  }

  lemma {:induction false} FieldsPrint(ms: seq<Member<Json>>, f: Flags, depth: nat, w: seq<Byte>, first: bool,
                                       unique: bool)
    returns (fields: seq<Field>)
    requires |ms| > 0 && MembersWellFormed(ms) && GoodKeys(Object(ms)) && White(w)
    requires if first then Line(w, f, depth + 1) else Gap(w, f, depth + 1)
    ensures |fields| > 0 && Stand(fields, ms, unique)
    ensures FieldsText(fields) == w + DumpMembers(ms, f, depth)
    ensures PrintsFields(fields, ms, f, depth, first)
    decreases ms, 1
  {
    hide Indent, DumpMembers, GoodKeys, FieldsText, White, Correct, Line, Gap, TextOf, MeaningOf, Stand, FieldCorrect,
         Prints, PrintsFields, Dump, WellFormed, ValueOf, MembersWellFormed, UnitsOk, UnitsText, UnitsPrinted, IsUtf8,
         JsonString.Escape, KeyText;
    MemberKeys(ms);
    FirstWellFormed(ms);
    var d := DumpPrints(ms[0].value, f, depth + 1, unique);
    var key := EscapeUnits(ms[0].key, f.ascii);
    NoneWhite();
    var blank := if f.compact then [] else [SPACE];
    SpaceWhite();
    if |ms| == 1 {
      var after := Indent(f, depth, false);
      IndentLaid(f, depth);
      var p := Field(w, key, [], Padded(blank, d, after));
      fields := [p];
      StandsFirst(p, ms, f.ascii, unique);
      OneMember(p, ms, f, depth, first);
    } else {
      IndentLaid(f, depth + 1);
      var more := FieldsPrint(ms[1..], f, depth, Indent(f, depth + 1, true), false, unique);
      var p := Field(w, key, [], Padded(blank, d, []));
      fields := [p] + more;
      StandsFirst(p, ms[..1], f.ascii, unique);
      MoreStand(p, more, ms, unique);
      MoreMembers(p, more, ms, f, depth, first);
    }
  }

  lemma SpaceWhite()
    ensures White([SPACE])
  {
  }

  lemma FirstWellFormed(ms: seq<Member<Json>>)
    requires |ms| > 0 && MembersWellFormed(ms)
    ensures WellFormed(ms[0].value) && MembersWellFormed(ms[1..]) && ms[0].key !in Keys(ms[1..])
  {
  }

  /** The fields stand for the members. */
  ghost predicate Stand(fields: seq<Field>, ms: seq<Member<Json>>, unique: bool) {
    |fields| == |ms| && forall i :: 0 <= i < |ms| ==>
      && FieldCorrect(fields[i], unique) && UnitsBytes(fields[i].key) == ms[i].key
      && MeaningOf(fields[i].value.value) == ValueOf(ms[i].value)
  }

  lemma StandsFirst(p: Field, ms: seq<Member<Json>>, ascii: bool, unique: bool)
    requires |ms| == 1 && White(p.before) && UnitsOk(p.key) && White(p.after)
    requires White(p.value.before) && White(p.value.after) && Correct(p.value.value, unique)
    requires UnitsPrinted(p.key, ms[0].key, ascii) && MeaningOf(p.value.value) == ValueOf(ms[0].value)
    ensures Stand([p], ms, unique)
  {
    hide White, UnitsOk, UnitPrinted, UnitsBytes;
    assert [p][0] == p && FieldCorrect(p, unique);
  }

  lemma MoreStand(p: Field, more: seq<Field>, ms: seq<Member<Json>>, unique: bool)
    requires |ms| > 0 && Stand([p], ms[..1], unique) && Stand(more, ms[1..], unique)
    ensures Stand([p] + more, ms, unique)
  {
    hide FieldCorrect, UnitsBytes, MeaningOf, ValueOf;
    assert [p][0] == p && ms[..1][0] == ms[0];
    assert forall i :: 0 < i < |ms| ==> ms[i] == ms[1..][i - 1];
  }

  /** So they mean the same, and their keys differ. */
  lemma {:induction false} FieldsMapped(fields: seq<Field>, ms: seq<Member<Json>>, unique: bool)
    requires MembersWellFormed(ms) && Stand(fields, ms, unique)
    ensures MapOfFields(fields) == MapOf(ms) && FieldsFit(fields, map[], unique)
    decreases |ms|
  {
    hide Stand, MembersWellFormed, FieldsFit, UnitsBytes, MeaningOf, ValueOf, Keys, WellFormed;
    StandTail(fields, ms, unique);
    if |ms| > 0 {
      FirstWellFormed(ms);
      FieldsMapped(fields[1..], ms[1..], unique);
      MapOfKeys(ms[1..]);
      KeysNew(fields, ms, unique);
      assert map[ms[0].key := ValueOf(ms[0].value)] + MapOf(ms[1..])
             == MapOf(ms[1..])[ms[0].key := ValueOf(ms[0].value)];
    }
  }

  lemma StandTail(fields: seq<Field>, ms: seq<Member<Json>>, unique: bool)
    requires Stand(fields, ms, unique)
    ensures |fields| == |ms| && (|ms| == 0 ==> FieldsFit(fields, map[], unique))
    ensures |ms| > 0 ==>
              Stand(fields[1..], ms[1..], unique) && UnitsBytes(fields[0].key) == ms[0].key &&
              MeaningOf(fields[0].value.value) == ValueOf(ms[0].value)
  {
    hide FieldCorrect, UnitsBytes;
    assert forall i :: 0 < i < |ms| ==> ms[i] == ms[1..][i - 1] && fields[i] == fields[1..][i - 1];
  }

  lemma KeysNew(fields: seq<Field>, ms: seq<Member<Json>>, unique: bool)
    requires |ms| > 0 && Stand(fields, ms, unique) && ms[0].key !in Keys(ms[1..])
    requires FieldsFit(fields[1..], map[], unique)
    ensures FieldsFit(fields, map[], unique)
  {
    hide FieldCorrect, UnitsBytes, MeaningOf, ValueOf;
    assert forall i :: 0 < i < |ms| ==> ms[i] == ms[1..][i - 1] && fields[i] == fields[1..][i - 1];
    assert forall i :: 0 < i < |ms| ==> ms[i].key in Keys(ms[1..]);
  }

  /** A printed member up to its value. */
  lemma KeyPart(p: Field, m: Member<Json>, f: Flags, body: seq<Byte>)
    requires IsUtf8(m.key) && UnitsText(p.key) == JsonString.Escape(m.key, f.ascii) && p.after == []
    requires p.value.before == (if f.compact then [] else [SPACE]) && body == TextOf(p.value.value) + p.value.after
    ensures FieldText(p) == p.before + (KeyText(m.key, f) + body)
  {
    hide IsUtf8, UnitsText, TextOf, JsonString.Escape;
    var q, blank := [QUOTE] + UnitsText(p.key) + [QUOTE], p.value.before;
    Assoc(blank, TextOf(p.value.value), p.value.after);
    assert p.before + q + p.after == p.before + q;
    assert KeyText(m.key, f) == q + ([COLON] + blank);
    Assoc(q, [COLON] + blank, body);
    Assoc([COLON], blank, body);
    Assoc(p.before, q, [COLON] + (blank + body));
    Assoc(p.before + q, [COLON], blank + body);
  }

  lemma OneMember(p: Field, ms: seq<Member<Json>>, f: Flags, depth: nat, first: bool)
    requires |ms| == 1 && MembersWellFormed(ms) && WellFormed(ms[0].value)
    requires p.value.after == Indent(f, depth, false) && Line(p.value.after, f, depth)
    requires TextOf(p.value.value) == Dump(ms[0].value, f, depth + 1)
    requires IsUtf8(ms[0].key) && UnitsText(p.key) == JsonString.Escape(ms[0].key, f.ascii) && p.after == []
    requires UnitsPrinted(p.key, ms[0].key, f.ascii) && p.value.before == if f.compact then [] else [SPACE]
    requires if first then Line(p.before, f, depth + 1) else Gap(p.before, f, depth + 1)
    requires Prints(p.value.value, ms[0].value, f, depth + 1)
    ensures FieldsText([p]) == p.before + DumpMembers(ms, f, depth)
    ensures PrintsFields([p], ms, f, depth, first)
  {
    hide Indent, TextOf, Prints, Dump, Line, Gap, WellFormed, IsUtf8, UnitsText, UnitsPrinted, KeyText, FieldText,
         JsonString.Escape;
    assert [p][0] == p;
    var head, body := Dump(ms[0].value, f, depth + 1), Dump(ms[0].value, f, depth + 1) + p.value.after;
    KeyPart(p, ms[0], f, body);
    assert FieldText(p) + [] == FieldText(p);
    Assoc(KeyText(ms[0].key, f), head, p.value.after);
  }

  lemma MoreMembers(p: Field, more: seq<Field>, ms: seq<Member<Json>>, f: Flags, depth: nat, first: bool)
    requires |ms| > 1 && MembersWellFormed(ms) && WellFormed(ms[0].value) && |more| > 0 && p.value.after == []
    requires TextOf(p.value.value) == Dump(ms[0].value, f, depth + 1)
    requires IsUtf8(ms[0].key) && UnitsText(p.key) == JsonString.Escape(ms[0].key, f.ascii) && p.after == []
    requires UnitsPrinted(p.key, ms[0].key, f.ascii) && p.value.before == if f.compact then [] else [SPACE]
    requires if first then Line(p.before, f, depth + 1) else Gap(p.before, f, depth + 1)
    requires Prints(p.value.value, ms[0].value, f, depth + 1)
    requires MembersWellFormed(ms[1..])
    requires FieldsText(more) == Indent(f, depth + 1, true) + DumpMembers(ms[1..], f, depth)
    requires PrintsFields(more, ms[1..], f, depth, false)
    ensures FieldsText([p] + more) == p.before + DumpMembers(ms, f, depth)
    ensures PrintsFields([p] + more, ms, f, depth, first)
  {
    hide Indent, TextOf, Prints, Dump, Line, Gap, WellFormed, IsUtf8, UnitsText, UnitsPrinted, KeyText, FieldText,
         JsonString.Escape, PrintsFields, MembersWellFormed;
    var fields := [p] + more;
    assert fields[0] == p && fields[1..] == more;
    var x, head, key := Indent(f, depth + 1, true), Dump(ms[0].value, f, depth + 1), KeyText(ms[0].key, f);
    var behind := [COMMA] + x + DumpMembers(ms[1..], f, depth);
    assert head + [] == head;
    KeyPart(p, ms[0], f, head);
    Assoc([COMMA], x, DumpMembers(ms[1..], f, depth));
    Assoc(p.before, key + head, behind);
    FieldsShift(p, more, ms, f, depth, first);
  }

  lemma FieldsShift(p: Field, more: seq<Field>, ms: seq<Member<Json>>, f: Flags, depth: nat, first: bool)
    requires |ms| > 1 && p.after == [] && p.value.after == [] && Prints(p.value.value, ms[0].value, f, depth + 1)
    requires UnitsPrinted(p.key, ms[0].key, f.ascii) && p.value.before == if f.compact then [] else [SPACE]
    requires if first then Line(p.before, f, depth + 1) else Gap(p.before, f, depth + 1)
    requires PrintsFields(more, ms[1..], f, depth, false)
    ensures PrintsFields([p] + more, ms, f, depth, first)
  {
    hide Prints, Line, Gap, UnitsPrinted;
    var fields := [p] + more;
    forall i | 0 <= i < |ms|
      ensures if first && i == 0 then Line(fields[i].before, f, depth + 1) else Gap(fields[i].before, f, depth + 1)
      ensures UnitsPrinted(fields[i].key, ms[i].key, f.ascii) && fields[i].after == []
      ensures fields[i].value.before == if f.compact then [] else [0x20]
      ensures if i == |ms| - 1 then Line(fields[i].value.after, f, depth) else fields[i].value.after == []
      ensures Prints(fields[i].value.value, ms[i].value, f, depth + 1)
    {
      if i > 0 {
        assert fields[i] == more[i - 1] && ms[i] == ms[1..][i - 1];
      }
    }
  }

  // ---- the round trip

  /** The printed text of a value, followed by something that does not continue it, parses to the value and leaves
      what follows. */
  lemma ParseDump(t: Json, f: Flags, depth: nat, rest: seq<Byte>, bad: bool, o: Options)
    requires WellFormed(t) && GoodKeys(t) && EndsValue(rest)
    ensures var l := Lex(Dump(t, f, depth) + rest, bad);
            ParseValue(l.token, l.rest, bad, o) == Parsed(ValueOf(t), rest)
  {
    hide Lex, ParseValue, WellFormed, GoodKeys, Dump, ValueOf, Correct, TextOf, MeaningOf, Prints;
    var d := DumpPrints(t, f, depth, o.rejectDuplicates);
    EndStops(d, rest);
    TextParses(d, rest, bad, o);
  }

  lemma EndStops(d: Syntax, rest: seq<Byte>)
    requires EndsValue(rest)
    ensures Stops(d, rest)
  {
  }
}
