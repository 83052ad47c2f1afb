/** The parser takes exactly the texts of correct syntax trees, for what they stand for. */
module JsonDerive {
  import opened Bytes
  import opened Utf8
  import opened Wrappers
  import opened JsonNumber
  import opened JsonText
  import opened JsonParse
  import opened JsonGrammar
  import JsonString

  // ---- strings

  lemma FirstUnit(s: seq<Byte>) returns (u: Unit)
    requires JsonString.WellScanned(s) && |s| > 0 && JsonString.FirstPiece(s).Piece?
    ensures UnitOk(u) && UnitText(u) == s[..JsonString.FirstPiece(s).len]
    ensures UnitBytes(u) == JsonString.FirstPiece(s).bytes
  {
    hide JsonString.Unhex4, JsonString.AllAlnum, JsonString.Spells, Encoding, JsonString.WellScanned, SHORT_ESCAPES,
         JsonString.Unescape;
    if s[0] != BACKSLASH {
      u := Plain(s[0]);
      FirstPlain(s);
    } else if s[1] != LOWER_U {
      u := Short(s[1]);
      FirstShort(s);
    } else {
      var v := JsonString.Unhex4(s[2..6]);
      JsonString.Unhex4Spelled(s[2..6], v);
      if 0xD800 <= v <= 0xDBFF {
        var t := s[6..];
        JsonString.UnicodeEscapeWhole(t);
        assert t[2..6] == s[8..12];
        var w := JsonString.Unhex4(s[8..12]);
        JsonString.Unhex4Spelled(s[8..12], w);
        u := Surrogates(s[2..6], v, s[8..12], w);
      } else {
        u := Escaped(s[2..6], v);
      }
    }
  }

  lemma FirstPlain(s: seq<Byte>)
    requires JsonString.WellScanned(s) && |s| > 0 && s[0] != BACKSLASH
    ensures UnitOk(Plain(s[0]))
  {
  }

  lemma FirstShort(s: seq<Byte>)
    requires JsonString.WellScanned(s) && |s| > 0 && s[0] == BACKSLASH && s[1] != LOWER_U
    ensures JsonString.ShortEscape(s[1]) && s[1] in SHORT_ESCAPES && SHORT_ESCAPES[s[1]] == JsonString.Unescape(s[1])
  {
  }

  /** A literal that decodes is made of units. */
  lemma {:induction false} DecodedUnits(s: seq<Byte>) returns (us: seq<Unit>)
    requires JsonString.WellScanned(s) && JsonString.Decode(s).Text?
    ensures UnitsOk(us) && UnitsText(us) == s && UnitsBytes(us) == JsonString.Decode(s).bytes
    decreases |s|
  {
    hide JsonString.FirstPiece, UnitOk, UnitText, UnitBytes;
    if |s| == 0 {
      us := [];
    } else {
      var n := JsonString.FirstPiece(s).len;
      var u := FirstUnit(s);
      var rest := DecodedUnits(s[n..]);
      us := [u] + rest;
      assert us[0] == u && us[1..] == rest;
      assert s == s[..n] + s[n..];
    }
  }

  /** And each unit is decoded to what it stands for. */
  lemma UnitReads(u: Unit, rest: seq<Byte>)
    requires UnitOk(u) && JsonString.WellScanned(rest)
    ensures JsonString.WellScanned(UnitText(u) + rest) && |UnitText(u)| > 0
    ensures JsonString.FirstPiece(UnitText(u) + rest) == JsonString.Piece(UnitBytes(u), |UnitText(u)|)
  {
    hide JsonString.Unhex4, JsonString.AllAlnum, JsonString.Spells, Encoding, JsonString.WellScanned,
         JsonString.SurrogatePair;
    var s := UnitText(u) + rest;
    match u
    case Plain(b) =>
      assert s[1..] == rest;
      JsonString.PlainFirst(s);
    case Short(c) =>
      assert s[2..] == rest;
      ShortIs(c);
      JsonString.ShortReads(s);
    case Escaped(hex, v) => EscapeRead(hex, v, rest);
    case Surrogates(high, v, low, w) => SurrogatesRead(high, v, low, w, rest);
  }

  lemma EscapeRead(hex: seq<Byte>, v: int, rest: seq<Byte>)
    requires UnitOk(Escaped(hex, v)) && JsonString.WellScanned(rest)
    ensures var s := UnitText(Escaped(hex, v)) + rest;
            |s| == 6 + |rest| && JsonString.WellScanned(s) &&
            JsonString.FirstPiece(s) == JsonString.Piece(Encoding(v), 6)
  {
    hide JsonString.Unhex4, JsonString.AllAlnum, JsonString.Spells, Encoding, JsonString.WellScanned,
         JsonString.SurrogatePair;
    var s := UnitText(Escaped(hex, v)) + rest;
    JsonString.Unhex4Spelled(hex, v);
    assert s[2..6] == hex && s[6..] == rest;
    EscapeScanned(s);
  }

  lemma SurrogatesRead(high: seq<Byte>, v: int, low: seq<Byte>, w: int, rest: seq<Byte>)
    requires UnitOk(Surrogates(high, v, low, w)) && JsonString.WellScanned(rest)
    ensures var s := UnitText(Surrogates(high, v, low, w)) + rest;
            |s| == 12 + |rest| && JsonString.WellScanned(s) &&
            JsonString.FirstPiece(s) == JsonString.Piece(UnitBytes(Surrogates(high, v, low, w)), 12)
  {
    hide JsonString.Unhex4, JsonString.AllAlnum, JsonString.Spells, Encoding, JsonString.WellScanned,
         JsonString.SurrogatePair;
    var s, t := UnitText(Surrogates(high, v, low, w)) + rest, [BACKSLASH, LOWER_U] + low + rest;
    JsonString.Unhex4Spelled(high, v);
    JsonString.Unhex4Spelled(low, w);
    assert s[2..6] == high && s[6..] == t && t[2..6] == low && t[6..] == rest;
    EscapeScanned(t);
    EscapeScanned(s);
    PairRead(v, w, t);
    PairFirst(s, v);
  }

  lemma PairFirst(s: seq<Byte>, v: int)
    requires JsonString.WellScanned(s) && |s| >= 8 && s[0] == BACKSLASH && s[1] == LOWER_U && 0xD800 <= v <= 0xDBFF
    requires JsonString.WellScanned(s[6..]) && s[6] == BACKSLASH && s[7] == LOWER_U
    requires JsonString.AllAlnum(s[2..6]) && JsonString.Unhex4(s[2..6]) == v
    ensures JsonString.FirstPiece(s) == JsonString.SurrogatePair(v, s[6..])
  {
    hide JsonString.Unhex4, JsonString.AllAlnum, JsonString.WellScanned, JsonString.SurrogatePair;
  }

  lemma PairRead(v: int, w: int, t: seq<Byte>)
    requires 0xD800 <= v <= 0xDBFF && 0xDC00 <= w <= 0xDFFF && JsonString.WellScanned(t)
    requires |t| >= 6 && t[0] == BACKSLASH && t[1] == LOWER_U
    requires JsonString.AllAlnum(t[2..6]) && JsonString.Unhex4(t[2..6]) == w
    ensures JsonString.SurrogatePair(v, t)
         == JsonString.Piece(Encoding(0x10000 + (v - 0xD800) * 0x400 + (w - 0xDC00)), 12)
  {
    hide JsonString.Unhex4, JsonString.AllAlnum, Encoding, JsonString.WellScanned;
  }

  lemma ShortIs(c: Byte)
    requires c in SHORT_ESCAPES
    ensures JsonString.ShortEscape(c) && SHORT_ESCAPES[c] == JsonString.Unescape(c)
  {
  }

  lemma EscapeScanned(s: seq<Byte>)
    requires |s| >= 6 && s[0] == BACKSLASH && s[1] == LOWER_U && JsonString.WellScanned(s[6..])
    ensures JsonString.WellScanned(s)
  {
  }

  lemma {:induction false} UnitsRead(us: seq<Unit>)
    requires UnitsOk(us)
    ensures JsonString.WellScanned(UnitsText(us))
    ensures JsonString.Decode(UnitsText(us)) == JsonString.Text(UnitsBytes(us))
    decreases |us|
  {
    hide JsonString.FirstPiece, UnitOk, UnitText, UnitBytes, JsonString.WellScanned;
    if |us| == 0 {
      JsonString.EmptyDecodes();
    } else {
      UnitsRead(us[1..]);
      UnitReads(us[0], UnitsText(us[1..]));
      assert (UnitText(us[0]) + UnitsText(us[1..]))[|UnitText(us[0])|..] == UnitsText(us[1..]);
    }
  }

  // ---- tokens

  lemma {:induction false} SpacesWhite(s: seq<Byte>)
    ensures White(s[..SpaceRun(s)]) && (SpaceRun(s) < |s| ==> !IsSpace(s[SpaceRun(s)]))
    decreases |s|
  {
    if |s| > 0 && IsSpace(s[0]) {
      SpacesWhite(s[1..]);
      assert s[..SpaceRun(s)] == [s[0]] + s[1..][..SpaceRun(s[1..])];
    }
  }

  lemma WhiteBlank(w: seq<Byte>)
    ensures White(w) <==> Blank(w)
  {
  }

  /** Blanks in front of what a token is made from. */
  lemma Leading(s: seq<Byte>) returns (w: seq<Byte>, t: seq<Byte>)
    ensures White(w) && s == w + t && w == s[..SpaceRun(s)] && t == s[SpaceRun(s)..]
  {
    SpacesWhite(s);
    w, t := s[..SpaceRun(s)], s[SpaceRun(s)..];
  }

  /** The end of the text is found exactly behind blanks only. */
  lemma LexEnd(s: seq<Byte>, bad: bool)
    ensures Lex(s, bad).token == TEof <==> White(s) && !bad
  {
    hide White;
    var w, t := Leading(s);
    WhiteBlank(s);
    if White(s) {
      SpaceRunBlank(s, []);
      assert s + [] == s;
    }
    OtherTokens(t, bad);
    assert |t| == 0 ==> w == s;
  }

  lemma OtherTokens(t: seq<Byte>, bad: bool)
    ensures |t| > 0 && t[0] == QUOTE ==> LexString(t).token != TEof && !LexString(t).token.TPunct?
    ensures |t| > 0 ==> LexNumber(t).token != TEof && !LexNumber(t).token.TPunct?
    ensures |t| > 0 && IsAlpha(t[0]) ==> LexWord(t).token != TEof && !LexWord(t).token.TPunct?
  {
    hide JsonString.Scan, JsonString.Decode, ScanNumber, IntValue, Overflows, AlphaRun;
  }

  lemma PunctIs(s: seq<Byte>, bad: bool, c: Byte) returns (w: seq<Byte>)
    requires Lex(s, bad).token == TPunct(c)
    ensures White(w) && s == w + ([c] + Lex(s, bad).rest)
  {
    hide LexString, LexNumber, LexWord, White, SpaceRun;
    var t;
    w, t := Leading(s);
    OtherTokens(t, bad);
    assert t == [t[0]] + t[1..];
  }

  lemma StringIs(s: seq<Byte>, bad: bool) returns (w: seq<Byte>, us: seq<Unit>)
    requires Lex(s, bad).token.TString?
    ensures White(w) && UnitsOk(us) && UnitsBytes(us) == Lex(s, bad).token.s
    ensures s == w + ([QUOTE] + UnitsText(us) + [QUOTE] + Lex(s, bad).rest)
  {
    hide LexNumber, LexWord, White, SpaceRun, JsonString.Scan, JsonString.Decode, JsonString.WellScanned;
    hide LexString, UnitsOk, UnitsText, UnitsBytes;
    var t;
    w, t := Leading(s);
    OnlyStrings(t);
    us := LiteralIs(t);
  }

  lemma LiteralIs(t: seq<Byte>) returns (us: seq<Unit>)
    requires |t| > 0 && t[0] == QUOTE && LexString(t).token.TString?
    ensures UnitsOk(us) && UnitsBytes(us) == LexString(t).token.s
    ensures t == [QUOTE] + UnitsText(us) + [QUOTE] + LexString(t).rest
  {
    hide JsonString.Scan, JsonString.Decode, JsonString.WellScanned, UnitsOk, UnitsText, UnitsBytes;
    var n := JsonString.Scan(t[1..]).value;
    JsonString.ScanWellScanned(t[1..]);
    us := DecodedUnits(t[1..][..n]);
    assert t == [QUOTE] + t[1..][..n] + [QUOTE] + t[n + 2..];
  }

  lemma OnlyStrings(t: seq<Byte>)
    ensures |t| > 0 ==> !LexNumber(t).token.TString?
    ensures |t| > 0 && IsAlpha(t[0]) ==> !LexWord(t).token.TString?
  {
    hide ScanNumber, IntValue, Overflows, AlphaRun;
  }

  /** The token of a number or a word, with the syntax it comes from. */
  lemma NumberIs(t: seq<Byte>) returns (d: Syntax)
    requires |t| > 0 && !NoToken(LexNumber(t).token)
    ensures d.NumberText? && Correct(d, true) && t == TextOf(d) + LexNumber(t).rest && Stops(d, LexNumber(t).rest)
    ensures LexNumber(t).token == if IsInteger(d.text) then TInteger(IntValue(d.text)) else TReal(d.text)
  {
    hide ScanNumber, IntValue, Overflows, NumberStops, IsNumber, IsInteger;
    ScanStops(t);
    var n := ScanNumber(t).len;
    d := NumberText(t[..n]);
    assert t == t[..n] + t[n..];
  }

  lemma Words()
    ensures Ascii("null") == NULL_TEXT && Ascii("true") == TRUE_TEXT && Ascii("false") == FALSE_TEXT
  {
    assert Ascii("null")[0] == 'n' as int;
  }

  lemma {:induction false} AlphaRunStops(s: seq<Byte>)
    ensures AlphaRun(s) < |s| ==> !IsAlpha(s[AlphaRun(s)])
    decreases |s|
  {
    if |s| > 0 && IsAlpha(s[0]) {
      AlphaRunStops(s[1..]);
    }
  }

  lemma WordIs(t: seq<Byte>) returns (d: Syntax)
    requires |t| > 0 && IsAlpha(t[0]) && !NoToken(LexWord(t).token)
    ensures d.NullWord? || d.TrueWord? || d.FalseWord?
    ensures t == TextOf(d) + LexWord(t).rest && Stops(d, LexWord(t).rest)
    ensures LexWord(t).token == if d.NullWord? then TNull else if d.TrueWord? then TTrue else TFalse
  {
    hide AlphaRun;
    AlphaRunStops(t);
    Words();
    var n := AlphaRun(t);
    d := if t[..n] == NULL_TEXT then NullWord else if t[..n] == TRUE_TEXT then TrueWord else FalseWord;
    assert t == t[..n] + t[n..];
  }

  /** A token that is a value by itself comes from blanks and the value's text. */
  lemma LeafIs(s: seq<Byte>, bad: bool, unique: bool) returns (w: seq<Byte>, d: Syntax)
    requires var tok := Lex(s, bad).token; !NoToken(tok) && !tok.TPunct?
    ensures White(w) && Correct(d, unique) && !d.List? && !d.Record?
    ensures s == w + (TextOf(d) + Lex(s, bad).rest) && Stops(d, Lex(s, bad).rest)
    ensures TokenMeans(Lex(s, bad).token, MeaningOf(d))
  {
    hide LexString, LexNumber, LexWord, White, SpaceRun, UnitsOk, UnitsText, UnitsBytes, IntValue, Overflows,
         NumberStops, IsNumber, IsInteger;
    var t;
    w, t := Leading(s);
    if t[0] == QUOTE {
      LiteralToken(t);
      var us := LiteralIs(t);
      d := Literal(us);
    } else if IsDigit(t[0]) || t[0] == MINUS {
      d := NumberIs(t);
    } else {
      d := WordIs(t);
    }
  }

  lemma LiteralToken(t: seq<Byte>)
    requires |t| > 0 && t[0] == QUOTE && !NoToken(LexString(t).token)
    ensures LexString(t).token.TString?
  {
    hide JsonString.Scan, JsonString.Decode;
  }

  predicate TokenMeans(tok: Token, v: Value) {
    match tok
    case TString(b) => v == VString(b)
    case TInteger(n) => v == VInteger(n)
    case TReal(text) => v == VReal(text)
    case TTrue => v == VTrue
    case TFalse => v == VFalse
    case TNull => v == VNull
    case _ => false
  }

  // ---- what the parser takes is the text of a correct tree

  /** The value parsed at the start of `s`, behind blanks `w`, has the syntax `d`. */
  ghost predicate Derived(s: seq<Byte>, w: seq<Byte>, d: Syntax, p: Parsed, unique: bool) {
    && p.Parsed? && White(w) && Correct(d, unique) && MeaningOf(d) == p.value
    && s == w + (TextOf(d) + p.rest) && Stops(d, p.rest)
  }

  lemma {:induction false} ValueDerives(s: seq<Byte>, bad: bool, o: Options) returns (w: seq<Byte>, d: Syntax)
    requires ParseValue(Lex(s, bad).token, Lex(s, bad).rest, bad, o).Parsed?
    ensures Derived(s, w, d, ParseValue(Lex(s, bad).token, Lex(s, bad).rest, bad, o), o.rejectDuplicates)
    ensures d.List? || d.Record? <==> Lex(s, bad).token == TPunct(LBRACKET) || Lex(s, bad).token == TPunct(LBRACE)
    decreases |s|, 0
  {
    hide Lex, White, Correct, MeaningOf, TextOf, ParseObject, ParseArray, Stops;
    var l := Lex(s, bad);
    if l.token == TPunct(LBRACE) {
      w := PunctIs(s, bad, LBRACE);
      d := RecordDerives(l.rest, bad, o);
      ContainerStops(d, ParseObject(l.rest, bad, o).rest);
    } else if l.token == TPunct(LBRACKET) {
      w := PunctIs(s, bad, LBRACKET);
      d := ListDerives(l.rest, bad, o);
      ContainerStops(d, ParseArray(l.rest, bad, o).rest);
    } else {
      w, d := LeafIs(s, bad, o.rejectDuplicates);
    }
  }

  lemma ContainerStops(d: Syntax, rest: seq<Byte>)
    requires d.List? || d.Record?
    ensures Stops(d, rest)
  {
  }

  lemma {:induction false} ListDerives(s: seq<Byte>, bad: bool, o: Options) returns (d: Syntax)
    requires ParseArray(s, bad, o).Parsed?
    ensures var p := ParseArray(s, bad, o);
            d.List? && Correct(d, o.rejectDuplicates) && MeaningOf(d) == p.value && [LBRACKET] + s == TextOf(d) + p.rest
    decreases |s|, 2
  {
    hide Lex, White, Correct, ParseItems, ElementsText, Meanings, PaddedCorrect;
    if Lex(s, bad).token == TPunct(RBRACKET) {
      var blank := PunctIs(s, bad, RBRACKET);
      d := List(blank, []);
      EmptyCorrect(blank, o.rejectDuplicates);
      BracesText(LBRACKET, blank, RBRACKET, s, Lex(s, bad).rest);
    } else {
      var items := ItemsDerive(s, [], bad, o);
      d := List([], items);
      ListCorrect(items, o.rejectDuplicates);
      assert [] + Meanings(items) == Meanings(items);
      BracesText(LBRACKET, ElementsText(items), RBRACKET, s, ParseArray(s, bad, o).rest);
    }
  }

  lemma BracesText(open: Byte, inner: seq<Byte>, close: Byte, s: seq<Byte>, rest: seq<Byte>)
    requires s == inner + ([close] + rest)
    ensures [open] + s == [open] + inner + [close] + rest
  {
  }

  lemma EmptyCorrect(blank: seq<Byte>, unique: bool)
    requires White(blank)
    ensures Correct(List(blank, []), unique) && Correct(Record(blank, []), unique)
    ensures Meanings([]) == [] && MapOfFields([]) == map[]
  {
  }

  lemma ListCorrect(items: seq<Padded>, unique: bool)
    requires forall i :: 0 <= i < |items| ==> PaddedCorrect(items[i], unique)
    ensures Correct(List([], items), unique)
  {
    hide PaddedCorrect;
  }

  lemma {:induction false} ItemsDerive(s: seq<Byte>, acc: seq<Value>, bad: bool, o: Options)
    returns (items: seq<Padded>)
    requires ParseItems(Lex(s, bad).token, Lex(s, bad).rest, acc, bad, o).Parsed?
    ensures |items| > 0 && forall i :: 0 <= i < |items| ==> PaddedCorrect(items[i], o.rejectDuplicates)
    ensures var p := ParseItems(Lex(s, bad).token, Lex(s, bad).rest, acc, bad, o);
            p.value == VArray(acc + Meanings(items)) && s == ElementsText(items) + ([RBRACKET] + p.rest)
    decreases |s|, 1
  {
    hide Lex, White, Correct, MeaningOf, TextOf, Stops, ParseItems, ParseValue;
    var l := Lex(s, bad);
    ItemsThen(l.token, l.rest, acc, bad, o);
    var w, d := ValueDerives(s, bad, o);
    var p := ParseValue(l.token, l.rest, bad, o);
    var l' := Lex(p.rest, bad);
    var after := PunctIs(p.rest, bad, if l'.token == TPunct(COMMA) then COMMA else RBRACKET);
    var first := Padded(w, d, after);
    if l'.token == TPunct(COMMA) {
      var more := ItemsDerive(l'.rest, acc + [p.value], bad, o);
      items := [first] + more;
      MoreItems(first, more, s, p.rest, l'.rest, ParseItems(l.token, l.rest, acc, bad, o).rest);
      assert acc + Meanings(items) == acc + [p.value] + Meanings(more);
    } else {
      items := [first];
      OneItem(first, s, p.rest, l'.rest);
      assert acc + Meanings(items) == acc + [p.value];
    }
  }

  lemma Assoc(a: seq<Byte>, b: seq<Byte>, c: seq<Byte>)
    ensures a + (b + c) == a + b + c
  {
  }

  lemma PaddedStart(p: Padded, s: seq<Byte>, mid: seq<Byte>, tail: seq<Byte>)
    requires s == p.before + (TextOf(p.value) + mid) && mid == p.after + tail
    ensures s == PaddedText(p) + tail
  {
    hide TextOf;
    Assoc(p.before, TextOf(p.value), mid);
    Assoc(p.before + TextOf(p.value), p.after, tail);
  }

  lemma MoreItems(first: Padded, more: seq<Padded>, s: seq<Byte>, mid: seq<Byte>, tail: seq<Byte>, rest: seq<Byte>)
    requires s == first.before + (TextOf(first.value) + mid) && mid == first.after + ([COMMA] + tail)
    requires |more| > 0 && tail == ElementsText(more) + ([RBRACKET] + rest)
    ensures s == ElementsText([first] + more) + ([RBRACKET] + rest)
    ensures Meanings([first] + more) == [MeaningOf(first.value)] + Meanings(more)
  {
    hide TextOf, MeaningOf, PaddedText;
    var items := [first] + more;
    assert items[0] == first && items[1..] == more;
    PaddedStart(first, s, mid, [COMMA] + tail);
    Assoc([COMMA], ElementsText(more), [RBRACKET] + rest);
    Assoc(PaddedText(first), [COMMA] + ElementsText(more), [RBRACKET] + rest);
  }

  lemma OneItem(first: Padded, s: seq<Byte>, mid: seq<Byte>, rest: seq<Byte>)
    requires s == first.before + (TextOf(first.value) + mid) && mid == first.after + ([RBRACKET] + rest)
    ensures s == ElementsText([first]) + ([RBRACKET] + rest)
    ensures Meanings([first]) == [MeaningOf(first.value)]
  {
    hide TextOf, MeaningOf, PaddedText;
    assert [first][1..] == [];
    PaddedStart(first, s, mid, [RBRACKET] + rest);
    assert PaddedText(first) + [] == PaddedText(first);
  }

  lemma {:induction false} RecordDerives(s: seq<Byte>, bad: bool, o: Options) returns (d: Syntax)
    requires ParseObject(s, bad, o).Parsed?
    ensures var p := ParseObject(s, bad, o);
            d.Record? && Correct(d, o.rejectDuplicates) && MeaningOf(d) == p.value && [LBRACE] + s == TextOf(d) + p.rest
    decreases |s|, 2
  {
    hide Lex, White, Correct, ParseMembers, FieldsFit, FieldsText, MapOfFields;
    if Lex(s, bad).token == TPunct(RBRACE) {
      var blank := PunctIs(s, bad, RBRACE);
      d := Record(blank, []);
      EmptyCorrect(blank, o.rejectDuplicates);
      BracesText(LBRACE, blank, RBRACE, s, Lex(s, bad).rest);
    } else {
      var fields := FieldsDerive(s, map[], bad, o);
      d := Record([], fields);
      RecordCorrect(fields, o.rejectDuplicates);
      assert map[] + MapOfFields(fields) == MapOfFields(fields);
      BracesText(LBRACE, FieldsText(fields), RBRACE, s, ParseObject(s, bad, o).rest);
    }
  }

  /** The fields are correct, and their keys new where that is asked for. */
  ghost predicate FieldsFit(fields: seq<Field>, m: map<CString, Value>, unique: bool) {
    && (forall i :: 0 <= i < |fields| ==> FieldCorrect(fields[i], unique))
    && (unique ==>
          && (forall i :: 0 <= i < |fields| ==> UnitsBytes(fields[i].key) !in m)
          && (forall i, j :: 0 <= i < j < |fields| ==> UnitsBytes(fields[i].key) != UnitsBytes(fields[j].key)))
  }

  lemma RecordCorrect(fields: seq<Field>, unique: bool)
    requires FieldsFit(fields, map[], unique)
    ensures Correct(Record([], fields), unique)
  {
    hide FieldCorrect, UnitsBytes;
  }

  lemma {:induction false} FieldsDerive(s: seq<Byte>, m: map<CString, Value>, bad: bool, o: Options)
    returns (fields: seq<Field>)
    requires ParseMembers(Lex(s, bad).token, Lex(s, bad).rest, m, bad, o).Parsed?
    ensures |fields| > 0 && FieldsFit(fields, m, o.rejectDuplicates)
    ensures var p := ParseMembers(Lex(s, bad).token, Lex(s, bad).rest, m, bad, o);
            p.value == VObject(m + MapOfFields(fields)) && s == FieldsText(fields) + ([RBRACE] + p.rest)
    decreases |s|, 1
  {
    hide Lex, White, Correct, MeaningOf, TextOf, Stops, ParseMembers, ParseValue, UnitsOk, UnitsText, UnitsBytes,
         FieldsFit, FieldsText, MapOfFields;
    var l := Lex(s, bad);
    MembersThen(l.token, l.rest, m, bad, o);
    var before, key := StringIs(s, bad);
    var after := PunctIs(l.rest, bad, COLON);
    var l1 := Lex(l.rest, bad);
    var w, d := ValueDerives(l1.rest, bad, o);
    var p := ParseValue(Lex(l1.rest, bad).token, Lex(l1.rest, bad).rest, bad, o);
    var l' := Lex(p.rest, bad);
    var w' := PunctIs(p.rest, bad, if l'.token == TPunct(COMMA) then COMMA else RBRACE);
    var first := Field(before, key, after, Padded(w, d, w'));
    FirstFits(first, m, o.rejectDuplicates);
    if l'.token == TPunct(COMMA) {
      var m' := m[l.token.s := p.value];
      var more := FieldsDerive(l'.rest, m', bad, o);
      fields := [first] + more;
      MoreFit(first, more, m, p.value, o.rejectDuplicates);
      MoreFields(first, more, s, l.rest, l1.rest, p.rest, l'.rest, ParseMembers(l.token, l.rest, m, bad, o).rest);
      assert m' + MapOfFields(more) == m + MapOfFields(fields);
    } else {
      fields := [first];
      OneField(first, s, l.rest, l1.rest, p.rest, l'.rest);
      assert m[l.token.s := p.value] == m + MapOfFields(fields);
    }
  }

  lemma FirstFits(first: Field, m: map<CString, Value>, unique: bool)
    requires FieldCorrect(first, unique) && (unique ==> UnitsBytes(first.key) !in m)
    ensures FieldsFit([first], m, unique)
  {
    hide FieldCorrect, UnitsBytes;
  }

  lemma MoreFit(first: Field, more: seq<Field>, m: map<CString, Value>, v: Value, unique: bool)
    requires FieldsFit([first], m, unique) && FieldsFit(more, m[UnitsBytes(first.key) := v], unique)
    ensures FieldsFit([first] + more, m, unique)
  {
    hide FieldCorrect, UnitsBytes;
    assert [first][0] == first;
  }

  lemma FieldStart(f: Field, s: seq<Byte>, behind: seq<Byte>, colon: seq<Byte>, mid: seq<Byte>, tail: seq<Byte>)
    requires s == f.before + ([QUOTE] + UnitsText(f.key) + [QUOTE] + behind)
    requires behind == f.after + ([COLON] + colon)
    requires colon == f.value.before + (TextOf(f.value.value) + mid) && mid == f.value.after + tail
    ensures s == FieldText(f) + tail
  {
    hide TextOf, UnitsText, PaddedText;
    var key := [QUOTE] + UnitsText(f.key) + [QUOTE];
    PaddedStart(f.value, colon, mid, tail);
    Assoc(f.before, key, behind);
    Assoc(f.before + key, f.after, [COLON] + colon);
    Assoc(f.before + key + f.after, [COLON], colon);
    Assoc(f.before + key + f.after + [COLON], PaddedText(f.value), tail);
  }

  lemma MoreFields(first: Field, more: seq<Field>, s: seq<Byte>, behind: seq<Byte>, colon: seq<Byte>, mid: seq<Byte>,
                   tail: seq<Byte>, rest: seq<Byte>)
    requires s == first.before + ([QUOTE] + UnitsText(first.key) + [QUOTE] + behind)
    requires behind == first.after + ([COLON] + colon)
    requires colon == first.value.before + (TextOf(first.value.value) + mid)
    requires mid == first.value.after + ([COMMA] + tail)
    requires |more| > 0 && tail == FieldsText(more) + ([RBRACE] + rest)
    ensures s == FieldsText([first] + more) + ([RBRACE] + rest)
    ensures MapOfFields([first] + more)
            == map[UnitsBytes(first.key) := MeaningOf(first.value.value)] + MapOfFields(more)
  {
    hide TextOf, MeaningOf, UnitsText, UnitsBytes, FieldText;
    var fields := [first] + more;
    assert fields[0] == first && fields[1..] == more;
    FieldStart(first, s, behind, colon, mid, [COMMA] + tail);
    Assoc([COMMA], FieldsText(more), [RBRACE] + rest);
    Assoc(FieldText(first), [COMMA] + FieldsText(more), [RBRACE] + rest);
  }

  lemma OneField(first: Field, s: seq<Byte>, behind: seq<Byte>, colon: seq<Byte>, mid: seq<Byte>, rest: seq<Byte>)
    requires s == first.before + ([QUOTE] + UnitsText(first.key) + [QUOTE] + behind)
    requires behind == first.after + ([COLON] + colon)
    requires colon == first.value.before + (TextOf(first.value.value) + mid)
    requires mid == first.value.after + ([RBRACE] + rest)
    ensures s == FieldsText([first]) + ([RBRACE] + rest)
    ensures MapOfFields([first]) == map[UnitsBytes(first.key) := MeaningOf(first.value.value)]
  {
    hide TextOf, MeaningOf, UnitsText, UnitsBytes, FieldText;
    assert [first][1..] == [];
    FieldStart(first, s, behind, colon, mid, [RBRACE] + rest);
    assert FieldText(first) + [] == FieldText(first);
  }

  // ---- the text of a correct tree is taken

  lemma {:induction false} AlphaRunWhole(w: seq<Byte>, rest: seq<Byte>)
    requires (forall i :: 0 <= i < |w| ==> IsAlpha(w[i])) && (|rest| == 0 || !IsAlpha(rest[0]))
    ensures AlphaRun(w + rest) == |w|
    decreases |w|
  {
    if |w| == 0 {
      assert w + rest == rest;
    } else {
      AlphaRunWhole(w[1..], rest);
      assert (w + rest)[1..] == w[1..] + rest;
    }
  }

  lemma WordRead(w: seq<Byte>, rest: seq<Byte>, bad: bool)
    requires w == NULL_TEXT || w == TRUE_TEXT || w == FALSE_TEXT
    requires |rest| == 0 || !IsAlpha(rest[0])
    ensures Lex(w + rest, bad)
         == Lexed(if w == NULL_TEXT then TNull else if w == TRUE_TEXT then TTrue else TFalse, rest)
  {
    hide LexString, LexNumber, AlphaRun, SpaceRun;
    AlphaRunWhole(w, rest);
    NoSpace(w + rest);
    assert (w + rest)[..|w|] == w && (w + rest)[|w|..] == rest && (w + rest)[0..] == w + rest;
  }

  lemma NumberRead(text: seq<Byte>, unique: bool, rest: seq<Byte>, bad: bool)
    requires Correct(NumberText(text), unique) && Stops(NumberText(text), rest)
    ensures Lex(text + rest, bad) == Lexed(if IsInteger(text) then TInteger(IntValue(text)) else TReal(text), rest)
  {
    hide ScanNumber, IntValue, Overflows, NumberStops, IsNumber, IsInteger, SpaceRun, LexString, LexWord;
    var t := text + rest;
    NumberAccepted(text, rest);
    NoSpace(t);
    assert t[..|text|] == text && t[|text|..] == rest && t[0..] == t;
  }

  lemma LiteralRead(us: seq<Unit>, rest: seq<Byte>, bad: bool)
    requires UnitsOk(us)
    ensures Lex([QUOTE] + UnitsText(us) + [QUOTE] + rest, bad) == Lexed(TString(UnitsBytes(us)), rest)
  {
    hide UnitsText, UnitsBytes, UnitsOk, JsonString.Scan, JsonString.Decode, JsonString.WellScanned, SpaceRun,
         LexNumber, LexWord;
    var text := UnitsText(us);
    var t, n := [QUOTE] + text + [QUOTE] + rest, |text|;
    UnitsRead(us);
    JsonString.WellScannedScan(text, rest);
    assert t[1..] == text + [QUOTE] + rest;
    assert t[1..][..n] == text && t[n + 2..] == rest && t[0..] == t;
    NoSpace(t);
  }

  /** Behind blanks, a comma, bracket or brace, nothing continues. */
  lemma StopsBehind(d: Syntax, w: seq<Byte>, c: Byte, more: seq<Byte>)
    requires White(w) && c in {COMMA, RBRACKET, RBRACE}
    ensures Stops(d, w + ([c] + more))
  {
  }

  lemma LexBehind(w: seq<Byte>, c: Byte, more: seq<Byte>, bad: bool)
    requires White(w) && IsPunct(c)
    ensures Lex(w + ([c] + more), bad) == Lexed(TPunct(c), more)
  {
    hide Lex, White, Blank;
    WhiteBlank(w);
    LexBlank(w, [c] + more, bad);
    LexPunct(c, more, bad);
  }

  lemma {:induction false} TextParses(d: Syntax, rest: seq<Byte>, bad: bool, o: Options)
    requires Correct(d, o.rejectDuplicates) && Stops(d, rest)
    ensures var l := Lex(TextOf(d) + rest, bad);
            ParseValue(l.token, l.rest, bad, o) == Parsed(MeaningOf(d), rest) &&
            (l.token == TPunct(LBRACKET) || l.token == TPunct(LBRACE) <==> d.List? || d.Record?)
    decreases d, 0
  {
    hide Lex, ParseArray, ParseObject, ElementsText, FieldsText, UnitsText, UnitsBytes, UnitsOk, Ascii, IsInteger,
         IntValue, IsNumber, Overflows, NumberStops, Meanings, MapOfFields, White;
    Words();
    match d
    case NullWord => WordRead(NULL_TEXT, rest, bad);
    case TrueWord => WordRead(TRUE_TEXT, rest, bad);
    case FalseWord => WordRead(FALSE_TEXT, rest, bad);
    case NumberText(text) => NumberRead(text, o.rejectDuplicates, rest, bad);
    case Literal(units) => LiteralRead(units, rest, bad);
    case List(blank, items) => ListParses(blank, items, rest, bad, o);
    case Record(blank, fields) => RecordParses(blank, fields, rest, bad, o);
  }

  lemma ListParses(blank: seq<Byte>, items: seq<Padded>, rest: seq<Byte>, bad: bool, o: Options)
    requires Correct(List(blank, items), o.rejectDuplicates)
    ensures var l := Lex(TextOf(List(blank, items)) + rest, bad);
            l.token == TPunct(LBRACKET) && ParseArray(l.rest, bad, o) == Parsed(VArray(Meanings(items)), rest)
    decreases items, 2
  {
    hide Lex, ParseItems, ElementsText, Meanings, White, PaddedCorrect;
    var inner := if |items| == 0 then blank else ElementsText(items);
    BracesText(LBRACKET, inner, RBRACKET, inner + ([RBRACKET] + rest), rest);
    LexPunct(LBRACKET, inner + ([RBRACKET] + rest), bad);
    if |items| == 0 {
      LexBehind(blank, RBRACKET, rest, bad);
      EmptyCorrect(blank, o.rejectDuplicates);
    } else {
      ElementsParse(items, [], rest, bad, o);
      assert [] + Meanings(items) == Meanings(items);
    }
  }

  lemma {:induction false} ElementsParse(items: seq<Padded>, acc: seq<Value>, rest: seq<Byte>, bad: bool, o: Options)
    requires |items| > 0 && forall i :: 0 <= i < |items| ==> PaddedCorrect(items[i], o.rejectDuplicates)
    ensures var l := Lex(ElementsText(items) + ([RBRACKET] + rest), bad);
            !NoToken(l.token) && l.token != TPunct(RBRACKET) &&
            ParseItems(l.token, l.rest, acc, bad, o) == Parsed(VArray(acc + Meanings(items)), rest)
    decreases items, 1
  {
    hide Lex, ParseItems, ParseValue, ElementsText, Meanings, MeaningOf, TextOf, White, Stops, Correct, NoToken;
    var p, more := items[0], items[1..];
    assert items == [p] + more;
    var tail := if |more| == 0 then [RBRACKET] + rest else [COMMA] + (ElementsText(more) + ([RBRACKET] + rest));
    var mid, text := p.after + tail, p.before + (TextOf(p.value) + (p.after + tail));
    ElementParses(p, tail, bad, o);
    var l := Lex(text, bad);
    ItemsStep(l.token, l.rest, acc, bad, o, MeaningOf(p.value), mid);
    if |more| == 0 {
      assert items == [p];
      OneItem(p, text, mid, rest);
      LexBehind(p.after, RBRACKET, rest, bad);
    } else {
      MoreItems(p, more, text, mid, ElementsText(more) + ([RBRACKET] + rest), rest);
      LexBehind(p.after, COMMA, ElementsText(more) + ([RBRACKET] + rest), bad);
      ElementsParse(more, acc + [MeaningOf(p.value)], rest, bad, o);
      assert acc + Meanings(items) == acc + [MeaningOf(p.value)] + Meanings(more);
    }
  }

  /** A value with blanks around it, and a comma or the end behind. */
  lemma ElementParses(p: Padded, tail: seq<Byte>, bad: bool, o: Options)
    requires PaddedCorrect(p, o.rejectDuplicates) && |tail| > 0 && tail[0] in {COMMA, RBRACKET, RBRACE}
    ensures var l := Lex(p.before + (TextOf(p.value) + (p.after + tail)), bad);
            ParseValue(l.token, l.rest, bad, o) == Parsed(MeaningOf(p.value), p.after + tail)
    decreases p, 0
  {
    hide Lex, ParseValue, MeaningOf, TextOf, White, Stops, Correct, Blank;
    assert tail == [tail[0]] + tail[1..];
    StopsBehind(p.value, p.after, tail[0], tail[1..]);
    TextParses(p.value, p.after + tail, bad, o);
    WhiteBlank(p.before);
    LexBlank(p.before, TextOf(p.value) + (p.after + tail), bad);
  }

  lemma RecordParses(blank: seq<Byte>, fields: seq<Field>, rest: seq<Byte>, bad: bool, o: Options)
    requires Correct(Record(blank, fields), o.rejectDuplicates)
    ensures var l := Lex(TextOf(Record(blank, fields)) + rest, bad);
            l.token == TPunct(LBRACE) && ParseObject(l.rest, bad, o) == Parsed(VObject(MapOfFields(fields)), rest)
    decreases fields, 2
  {
    hide Lex, ParseMembers, FieldsText, MapOfFields, White, FieldCorrect, UnitsBytes;
    var inner := if |fields| == 0 then blank else FieldsText(fields);
    BracesText(LBRACE, inner, RBRACE, inner + ([RBRACE] + rest), rest);
    LexPunct(LBRACE, inner + ([RBRACE] + rest), bad);
    if |fields| == 0 {
      LexBehind(blank, RBRACE, rest, bad);
      EmptyCorrect(blank, o.rejectDuplicates);
    } else {
      FieldsParse(fields, map[], rest, bad, o);
      assert map[] + MapOfFields(fields) == MapOfFields(fields);
    }
  }

  lemma {:induction false} FieldsParse(fields: seq<Field>, m: map<CString, Value>, rest: seq<Byte>, bad: bool,
                                       o: Options)
    requires |fields| > 0 && FieldsFit(fields, m, o.rejectDuplicates)
    ensures var l := Lex(FieldsText(fields) + ([RBRACE] + rest), bad);
            l.token.TString? &&
            ParseMembers(l.token, l.rest, m, bad, o) == Parsed(VObject(m + MapOfFields(fields)), rest)
    decreases fields, 1
  {
    hide Lex, ParseMembers, ParseValue, FieldsText, FieldText, MapOfFields, MeaningOf, TextOf, White, Stops, Correct,
         UnitsText, UnitsBytes, UnitsOk, FieldsFit, MemberValue, FieldCorrect;
    var f, more := fields[0], fields[1..];
    assert fields == [f] + more;
    var v, key := MeaningOf(f.value.value), UnitsBytes(f.key);
    var m' := m[key := v];
    FitParts(fields, m, v, o.rejectDuplicates);
    var tail := if |more| == 0 then [RBRACE] + rest else [COMMA] + (FieldsText(more) + ([RBRACE] + rest));
    var s, behind := FieldParses(f, tail, bad, o);
    MembersThen(TString(key), behind, m, bad, o);
    var mid := f.value.after + tail;
    if |more| == 0 {
      assert fields == [f];
      FieldsOne(f);
      LexBehind(f.value.after, RBRACE, rest, bad);
      assert m' == m + MapOfFields(fields);
    } else {
      FieldsMore(f, more, rest);
      LexBehind(f.value.after, COMMA, FieldsText(more) + ([RBRACE] + rest), bad);
      FieldsParse(more, m', rest, bad, o);
      assert m' + MapOfFields(more) == m + MapOfFields(fields);
    }
  }

  lemma FieldsOne(f: Field)
    ensures FieldsText([f]) == FieldText(f)
    ensures MapOfFields([f]) == map[UnitsBytes(f.key) := MeaningOf(f.value.value)]
  {
    hide FieldText, UnitsBytes, MeaningOf;
    assert [f][1..] == [];
  }

  lemma FieldsMore(f: Field, more: seq<Field>, rest: seq<Byte>)
    requires |more| > 0
    ensures FieldsText([f] + more) + ([RBRACE] + rest) ==
            FieldText(f) + ([COMMA] + (FieldsText(more) + ([RBRACE] + rest)))
    ensures MapOfFields([f] + more) == map[UnitsBytes(f.key) := MeaningOf(f.value.value)] + MapOfFields(more)
  {
    hide FieldText, UnitsBytes, MeaningOf;
    var fields := [f] + more;
    assert fields[0] == f && fields[1..] == more;
    Assoc([COMMA], FieldsText(more), [RBRACE] + rest);
    Assoc(FieldText(f), [COMMA] + FieldsText(more), [RBRACE] + rest);
  }

  lemma FitParts(fields: seq<Field>, m: map<CString, Value>, v: Value, unique: bool)
    requires |fields| > 0 && FieldsFit(fields, m, unique)
    ensures FieldCorrect(fields[0], unique) && (unique ==> UnitsBytes(fields[0].key) !in m)
    ensures FieldsFit(fields[1..], m[UnitsBytes(fields[0].key) := v], unique)
  {
    hide FieldCorrect, UnitsBytes;
  }

  /** One member: key, colon and value, with what comes behind the value. */
  lemma FieldParses(f: Field, tail: seq<Byte>, bad: bool, o: Options) returns (s: seq<Byte>, behind: seq<Byte>)
    requires FieldCorrect(f, o.rejectDuplicates) && |tail| > 0 && tail[0] in {COMMA, RBRACE}
    ensures s == FieldText(f) + tail && Lex(s, bad) == Lexed(TString(UnitsBytes(f.key)), behind)
    ensures MemberValue(behind, bad, o) == Parsed(MeaningOf(f.value.value), f.value.after + tail)
    ensures White(f.value.after)
    decreases f, 0
  {
    hide Lex, ParseValue, MeaningOf, TextOf, White, Correct, UnitsText, UnitsBytes, UnitsOk, FieldText, Blank;
    var p := f.value;
    var mid := p.after + tail;
    var colon := p.before + (TextOf(p.value) + mid);
    behind := f.after + ([COLON] + colon);
    s := f.before + ([QUOTE] + UnitsText(f.key) + [QUOTE] + behind);
    FieldStart(f, s, behind, colon, mid, tail);
    WhiteBlank(f.before);
    LexBlank(f.before, [QUOTE] + UnitsText(f.key) + [QUOTE] + behind, bad);
    LiteralRead(f.key, behind, bad);
    LexBehind(f.after, COLON, colon, bad);
    ElementParses(p, tail, bad, o);
  }

  // ---- json_loads

  /** The text is one of a correct tree that stands for `v`, between blanks, where an array or object is asked for
      unless JSON_DECODE_ANY is set, and behind it nothing is looked at under JSON_DISABLE_EOF_CHECK. */
  ghost predicate TextFor(s: seq<Byte>, bad: bool, o: Options, v: Value, before: seq<Byte>, d: Syntax,
                          after: seq<Byte>) {
    && s == before + (TextOf(d) + after) && White(before) && Correct(d, o.rejectDuplicates) && MeaningOf(d) == v
    && (o.decodeAny || d.List? || d.Record?)
    && (if o.disableEofCheck then Stops(d, after) else White(after) && !bad)
  }

  ghost predicate StandsFor(s: seq<Byte>, bad: bool, o: Options, v: Value) {
    exists before, d, after :: TextFor(s, bad, o, v, before, d, after)
  }

  /** parse_json gives a value exactly for the texts that stand for it. */
  lemma ParsedExactly(s: seq<Byte>, bad: bool, o: Options, v: Value)
    ensures ParseJson(s, bad, o) == Loaded(v) <==> StandsFor(s, bad, o, v)
  {
    hide Lex, ParseValue, White, Correct, MeaningOf, TextOf, Stops, Blank;
    if ParseJson(s, bad, o) == Loaded(v) {
      var w, d := ValueDerives(s, bad, o);
      var rest := ParseValue(Lex(s, bad).token, Lex(s, bad).rest, bad, o).rest;
      LexEnd(rest, bad);
      assert TextFor(s, bad, o, v, w, d, rest);
    }
    if StandsFor(s, bad, o, v) {
      var before, d, after :| TextFor(s, bad, o, v, before, d, after);
      if !o.disableEofCheck {
        WhiteStops(d, after);
        LexEnd(after, bad);
      }
      TextParses(d, after, bad, o);
      WhiteBlank(before);
      LexBlank(before, TextOf(d) + after, bad);
    }
  }

  lemma WhiteStops(d: Syntax, w: seq<Byte>)
    requires White(w)
    ensures Stops(d, w)
  {
  }
}
