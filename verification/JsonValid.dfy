/** The text do_dump writes, and every string lex_scan_string makes, is UTF-8 without NUL; so what was
    dumped can be loaded as the C string it is. */
module JsonValid {
  import opened Bytes
  import opened Utf8
  import opened Stream
  import opened JsonNumber
  import opened JsonText
  import opened JsonParse
  import opened JsonRoundTrip
  import JsonString

  /** Without NUL, and all below 0x80. */
  predicate Ascii(s: seq<Byte>) {
    forall i :: 0 <= i < |s| ==> 0 < s[i] < 0x80
  }

  /** What the printer may emit: with JSON_ENSURE_ASCII only ASCII. */
  predicate Fine(s: seq<Byte>, ascii: bool) {
    GoodString(s) && (ascii ==> Ascii(s))
  }

  lemma FineConcat(a: seq<Byte>, b: seq<Byte>, ascii: bool)
    requires Fine(a, ascii) && Fine(b, ascii)
    ensures Fine(a + b, ascii)
  {
    hide IsUtf8;
    Utf8Concat(a, b);
  }

  lemma {:induction false} AsciiFine(s: seq<Byte>, ascii: bool)
    requires Ascii(s)
    ensures Fine(s, ascii)
  {
    if |s| > 0 {
      AsciiFine(s[1..], ascii);
      assert CharLen(s) == 1;
    }
  }

  // ---- strings

  lemma HexAscii(v: nat)
    requires v < 0x10000
    ensures Ascii(JsonString.Hex4(v))
  {
  }

  lemma EscapeOfAscii(cp: int)
    requires Scalar(cp)
    ensures Ascii(JsonString.EscapeOf(cp))
  {
    hide JsonString.Hex4;
    if cp >= 0x10000 {
      HexAscii(JsonString.HighSurrogate(cp));
      HexAscii(JsonString.LowSurrogate(cp));
    } else {
      HexAscii(cp);
    }
  }

  lemma CharIsUtf8(c: seq<Byte>)
    requires IsChar(c)
    ensures IsUtf8(c)
  {
    CharInFront(c, []);
    assert c + [] == c;
    assert c[CharLen(c)..] == [];
  }

  lemma CharTextFine(c: seq<Byte>, ascii: bool)
    requires IsChar(c) && 0 !in c
    ensures Fine(JsonString.CharText(c, ascii), ascii)
  {
    hide IsUtf8, JsonString.EscapeOf;
    DecodeEncode(c);
    if JsonString.MustEscape(Decoding(c), ascii) {
      EscapeOfAscii(Decoding(c));
      AsciiFine(JsonString.EscapeOf(Decoding(c)), ascii);
    } else {
      CharIsUtf8(c);
    }
  }

  lemma {:induction false} EscapeFine(s: CString, ascii: bool)
    requires GoodString(s)
    ensures Fine(JsonString.Escape(s, ascii), ascii)
    decreases |s|
  {
    hide CharLen, JsonString.CharText, Fine;
    if |s| == 0 {
      AsciiFine([], ascii);
    } else {
      var n := CharLen(s);
      IsCharPrefix(s);
      EscapeFine(s[n..], ascii);
      CharTextFine(s[..n], ascii);
      FineConcat(JsonString.CharText(s[..n], ascii), JsonString.Escape(s[n..], ascii), ascii);
    }
  }

  lemma QuotedFine(s: CString, ascii: bool)
    requires GoodString(s)
    ensures Fine(JsonString.Quoted(s, ascii), ascii)
  {
    hide Fine;
    EscapeFine(s, ascii);
    AsciiFine([QUOTE], ascii);
    FineConcat([QUOTE], JsonString.Escape(s, ascii), ascii);
    FineConcat([QUOTE] + JsonString.Escape(s, ascii), [QUOTE], ascii);
  }

  /** What is written of a key, invalid or not. */
  lemma ShownFine(s: CString, ascii: bool)
    requires 0 !in s
    ensures Fine(JsonString.Shown(s, ascii), ascii)
  {
    hide Fine, JsonString.Escape, JsonString.LastEscape, IsUtf8;
    if IsUtf8(s) {
      QuotedFine(s, ascii);
    } else {
      JsonString.LastEscapeValid(s, ascii);
      EscapeFine(s[..JsonString.LastEscape(s, ascii)], ascii);
      AsciiFine([QUOTE], ascii);
      FineConcat([QUOTE], JsonString.Escape(s[..JsonString.LastEscape(s, ascii)], ascii), ascii);
    }
  }

  // ---- printed text

  lemma IndentFine(f: Flags, depth: nat, space: bool)
    ensures Fine(Indent(f, depth, space), f.ascii)
  {
    AsciiFine(Indent(f, depth, space), f.ascii);
  }

  lemma DecimalFine(n: int, ascii: bool)
    ensures Fine(Decimal(n), ascii)
  {
    AsciiFine(Decimal(n), ascii);
  }

  /** Three pieces in a row. */
  lemma FineConcat3(a: seq<Byte>, b: seq<Byte>, c: seq<Byte>, ascii: bool)
    requires Fine(a, ascii) && Fine(b, ascii) && Fine(c, ascii)
    ensures Fine(a + b + c, ascii)
  {
    hide Fine;
    FineConcat(a, b, ascii);
    FineConcat(a + b, c, ascii);
  }

  lemma {:induction false} DumpFine(t: Json, f: Flags, depth: nat)
    requires WellFormed(t)
    ensures Fine(Dump(t, f, depth), f.ascii)
    decreases t, 0
  {
    hide Fine, Indent, DumpItems, DumpMembers;
    match t
    case Integer(n) => DecimalFine(n, f.ascii);
    case Real(text) =>
      RealScans(text, []);
      NumberAscii(text);
      AsciiFine(text, f.ascii);
    case String(s) => QuotedFine(s, f.ascii);
    case Array(items) =>
      AsciiFine([LBRACKET, RBRACKET], f.ascii);
      if |items| > 0 {
        DumpItemsFine(items, f, depth);
        Bracketed(LBRACKET, Indent(f, depth + 1, false), DumpItems(items, f, depth), RBRACKET, f, depth);
      }
    case Object(members) =>
      AsciiFine([LBRACE, RBRACE], f.ascii);
      if |members| > 0 {
        DumpMembersFine(members, f, depth);
        Bracketed(LBRACE, Indent(f, depth + 1, false), DumpMembers(members, f, depth), RBRACE, f, depth);
      }
    case _ =>
      AsciiFine(NULL_TEXT, f.ascii);
      AsciiFine(TRUE_TEXT, f.ascii);
      AsciiFine(FALSE_TEXT, f.ascii);
  }

  lemma Bracketed(open: Byte, w: seq<Byte>, body: seq<Byte>, close: Byte, f: Flags, depth: nat)
    requires w == Indent(f, depth + 1, false) && Fine(body, f.ascii) && IsPunct(open) && IsPunct(close)
    ensures Fine([open] + w + body + [close], f.ascii)
  {
    hide Fine, Indent;
    AsciiFine([open], f.ascii);
    AsciiFine([close], f.ascii);
    IndentFine(f, depth + 1, false);
    FineConcat3([open], w, body, f.ascii);
    FineConcat([open] + w + body, [close], f.ascii);
  }

  lemma {:induction false} DumpItemsFine(ts: seq<Json>, f: Flags, depth: nat)
    requires |ts| > 0 && AllWellFormed(ts)
    ensures Fine(DumpItems(ts, f, depth), f.ascii)
    decreases ts, 1
  {
    hide Fine, Indent, Dump;
    DumpFine(ts[0], f, depth + 1);
    IndentFine(f, depth, false);
    if |ts| == 1 {
      FineConcat(Dump(ts[0], f, depth + 1), Indent(f, depth, false), f.ascii);
    } else {
      DumpItemsFine(ts[1..], f, depth);
      NextFine(Dump(ts[0], f, depth + 1), f, depth, DumpItems(ts[1..], f, depth));
    }
  }

  lemma NextFine(first: seq<Byte>, f: Flags, depth: nat, more: seq<Byte>)
    requires Fine(first, f.ascii) && Fine(more, f.ascii)
    ensures Fine(first + ([COMMA] + Indent(f, depth + 1, true) + more), f.ascii)
  {
    hide Fine, Indent;
    AsciiFine([COMMA], f.ascii);
    IndentFine(f, depth + 1, true);
    FineConcat3([COMMA], Indent(f, depth + 1, true), more, f.ascii);
    FineConcat(first, [COMMA] + Indent(f, depth + 1, true) + more, f.ascii);
  }

  lemma {:induction false} DumpMembersFine(ms: seq<Member<Json>>, f: Flags, depth: nat)
    requires |ms| > 0 && MembersWellFormed(ms)
    ensures Fine(DumpMembers(ms, f, depth), f.ascii)
    decreases ms, 1
  {
    hide Fine, Indent, Dump, JsonString.Shown;
    var head := KeyText(ms[0].key, f) + Dump(ms[0].value, f, depth + 1);
    ShownFine(ms[0].key, f.ascii);
    AsciiFine(Separator(f), f.ascii);
    DumpFine(ms[0].value, f, depth + 1);
    FineConcat3(JsonString.Shown(ms[0].key, f.ascii), Separator(f), Dump(ms[0].value, f, depth + 1), f.ascii);
    IndentFine(f, depth, false);
    if |ms| == 1 {
      FineConcat(head, Indent(f, depth, false), f.ascii);
    } else {
      DumpMembersFine(ms[1..], f, depth);
      NextFine(head, f, depth, DumpMembers(ms[1..], f, depth));
    }
  }

  /** The text is UTF-8 without NUL, and with JSON_ENSURE_ASCII it is ASCII. */
  lemma DumpTextValid(t: Json, f: Flags)
    requires WellFormed(t)
    ensures IsUtf8(DumpText(t, f)) && 0 !in DumpText(t, f)
    ensures f.ascii ==> Ascii(DumpText(t, f))
  {
    ArrangeKeeps(t, f);
    DumpFine(Arrange(t, f), f, 0);
  }

  /** json_loads of what json_dumps gave, from the stream's view of the input on. */
  lemma LoadsDumps(t: Json, f: Flags, o: Options)
    requires WellFormed(t) && GoodKeys(t)
    requires t.Array? || t.Object? || o.decodeAny
    ensures var text := DumpText(t, f);
            0 !in text && ParseJson(ValidPrefix(text), !IsUtf8(text), o) == Loaded(ValueOf(t))
  {
    hide ParseJson, ValidPrefix, IsUtf8, GoodKeys;
    DumpTextValid(t, f);
    ValidPrefixAll(DumpText(t, f));
    LoadDump(t, f, o);
  }

  // ---- loaded strings

  lemma PieceGood(s: seq<Byte>)
    requires JsonString.WellScanned(s) && |s| > 0 && s[0] == BACKSLASH && JsonString.FirstPiece(s).Piece?
    ensures GoodString(JsonString.FirstPiece(s).bytes) && Ascii(s[..JsonString.FirstPiece(s).len])
  {
    hide IsUtf8, JsonString.SurrogatePair, Encoding, JsonString.Unhex4;
    var p := JsonString.FirstPiece(s);
    if s[1] != LOWER_U {
      ShortGood(s[1]);
    } else {
      var v := JsonString.Unhex4(s[2..6]);
      EscapeAscii(s);
      if 0xD800 <= v <= 0xDBFF {
        PairGood(v, s[6..]);
        assert s[..12] == s[..6] + s[6..][..6];
      } else {
        EncodingGood(v);
      }
    }
  }

  lemma ShortGood(c: Byte)
    requires JsonString.ShortEscape(c)
    ensures GoodString([JsonString.Unescape(c)]) && Ascii([BACKSLASH, c])
  {
    AsciiFine([JsonString.Unescape(c)], true);
  }

  lemma EscapeAscii(s: seq<Byte>)
    requires |s| >= 6 && s[0] == BACKSLASH && s[1] == LOWER_U && JsonString.AllAlnum(s[2..6])
    ensures Ascii(s[..6])
  {
    assert s[..6] == [s[0], s[1]] + s[2..6];
  }

  lemma EncodingGood(cp: int)
    requires Scalar(cp) && cp > 0
    ensures GoodString(Encoding(cp))
  {
    hide IsUtf8, Decoding, Encoding;
    EncodeDecode(cp);
    CharIsUtf8(Encoding(cp));
    NoNul(Encoding(cp));
  }

  lemma NoNul(c: seq<Byte>)
    requires IsChar(c) && Decoding(c) > 0
    ensures 0 !in c
  {
  }

  lemma PairGood(v: int, t: seq<Byte>)
    requires 0xD800 <= v <= 0xDBFF && JsonString.WellScanned(t)
    requires |t| >= 2 && t[0] == BACKSLASH && t[1] == LOWER_U && JsonString.SurrogatePair(v, t).Piece?
    ensures GoodString(JsonString.SurrogatePair(v, t).bytes) && |t| >= 6 && Ascii(t[..6])
  {
    hide IsUtf8, Encoding, JsonString.WellScanned, JsonString.Unhex4, Ascii, JsonString.AllAlnum;
    EscapeAscii(t);
    EncodingGood((v - 0xD800) * 1024 + (JsonString.Unhex4(t[2..6]) - 0xDC00) + 0x10000);
  }

  lemma GoodConcat(a: seq<Byte>, b: seq<Byte>)
    requires GoodString(a) && GoodString(b)
    ensures GoodString(a + b)
  {
    hide IsUtf8;
    Utf8Concat(a, b);
  }

  /** ASCII in front of a text is not part of one of its characters. */
  lemma {:induction false} AsciiInFront(a: seq<Byte>, b: seq<Byte>)
    requires Ascii(a) && GoodString(a + b)
    ensures GoodString(b)
  {
    if |a| == 0 {
      assert a + b == b;
    } else {
      assert (a + b)[1..] == a[1..] + b;
      assert CharLen(a + b) == 1;
      AsciiInFront(a[1..], b);
    }
  }

  /** A plain character: nothing in it can be taken for a quote or an escape. */
  lemma PlainChar(s: seq<Byte>)
    requires GoodString(s) && |s| > 0 && s[0] != BACKSLASH && s[0] != QUOTE && s[0] > 0x1F
    ensures 0 < CharLen(s) <= |s|
    ensures JsonString.Plain(s[..CharLen(s)]) && IsChar(s[..CharLen(s)]) && GoodString(s[CharLen(s)..])
  {
    IsCharPrefix(s);
  }

  lemma {:induction false} PlainScanned(c: seq<Byte>, rest: seq<Byte>)
    requires JsonString.Plain(c) && JsonString.WellScanned(c + rest)
    ensures JsonString.WellScanned(rest)
    decreases |c|
  {
    if |c| == 0 {
      assert c + rest == rest;
    } else {
      assert (c + rest)[1..] == c[1..] + rest;
      PlainScanned(c[1..], rest);
    }
  }

  /** Whatever string literal is accepted, the string made of it is UTF-8 without NUL. */
  lemma {:induction false} DecodeValid(s: seq<Byte>)
    requires GoodString(s) && JsonString.WellScanned(s) && JsonString.Decode(s).Text?
    ensures GoodString(JsonString.Decode(s).bytes)
    decreases |s|
  {
    hide IsUtf8, JsonString.FirstPiece, JsonString.WellScanned, CharLen, IsChar, JsonString.Plain;
    if |s| == 0 {
      Utf8Empty();
    } else if s[0] == BACKSLASH {
      var p := JsonString.FirstPiece(s);
      PieceGood(s);
      assert s == s[..p.len] + s[p.len..];
      AsciiInFront(s[..p.len], s[p.len..]);
      DecodeValid(s[p.len..]);
      GoodConcat(p.bytes, JsonString.Decode(s[p.len..]).bytes);
    } else {
      NotQuote(s);
      PlainChar(s);
      var n := CharLen(s);
      assert s == s[..n] + s[n..];
      PlainScanned(s[..n], s[n..]);
      JsonString.PlainReads(s[..n], s[n..]);
      DecodeValid(s[n..]);
      CharIsUtf8(s[..n]);
      GoodConcat(s[..n], JsonString.Decode(s[n..]).bytes);
    }
  }

  lemma Utf8Empty()
    ensures GoodString([])
  {
  }

  lemma NotQuote(s: seq<Byte>)
    requires JsonString.WellScanned(s) && |s| > 0 && s[0] != BACKSLASH
    ensures s[0] != QUOTE && s[0] > 0x1F
  {
  }

  // ---- loaded values

  predicate GoodToken(tok: Token) {
    && (tok.TString? ==> GoodString(tok.s))
    && (tok.TInteger? ==> INT_MIN <= tok.n <= INT_MAX)
    && (tok.TReal? ==> RealText(tok.text))
  }

  /** An ASCII byte is a character of its own: UTF-8 can be cut in front of it. */
  lemma {:induction false} CutAtAscii(s: seq<Byte>, n: nat)
    requires GoodString(s) && n < |s| && s[n] < 0x80
    ensures GoodString(s[..n]) && GoodString(s[n + 1..])
    decreases n
  {
    hide CharLen, IsChar;
    if n == 0 {
      Utf8Empty();
      assert s == s[..1] + s[1..];
      AsciiInFront(s[..1], s[1..]);
    } else {
      var k := CharLen(s);
      InsideChar(s, n);
      CutAtAscii(s[k..], n - k);
      CharIsUtf8(s[..k]);
      assert s[k..][..n - k] == s[k..n] && s[k..][n - k + 1..] == s[n + 1..];
      GoodConcat(s[..k], s[k..n]);
      assert s[..n] == s[..k] + s[k..n];
    }
  }

  lemma InsideChar(s: seq<Byte>, n: nat)
    requires GoodString(s) && 0 < n < |s| && s[n] < 0x80
    ensures 0 < CharLen(s) <= n && IsChar(s[..CharLen(s)]) && GoodString(s[CharLen(s)..])
  {
    IsCharPrefix(s);
  }

  lemma {:induction false} SpacesAscii(s: seq<Byte>)
    requires GoodString(s)
    ensures GoodString(s[SpaceRun(s)..])
  {
    if |s| > 0 && IsSpace(s[0]) {
      assert s == s[..1] + s[1..];
      AsciiInFront(s[..1], s[1..]);
      SpacesAscii(s[1..]);
      assert s[SpaceRun(s)..] == s[1..][SpaceRun(s[1..])..];
    }
  }

  lemma {:induction false} WordAscii(s: seq<Byte>)
    ensures Ascii(s[..AlphaRun(s)])
  {
    if |s| > 0 && IsAlpha(s[0]) {
      WordAscii(s[1..]);
      assert s[..AlphaRun(s)] == [s[0]] + s[1..][..AlphaRun(s[1..])];
    }
  }

  lemma DigitsAscii(s: seq<Byte>)
    requires AllDigits(s)
    ensures Ascii(s)
  {
  }

  lemma PartsAscii(s: seq<Byte>, i: nat, j: nat, k: nat)
    requires NumberParts(s, i, j, k)
    ensures Ascii(s)
  {
    hide GrammarFrac, GrammarExp;
    IntAscii(s[i..j]);
    FracAscii(s[j..k]);
    ExpAscii(s[k..]);
    assert Ascii(s[..i]);
    forall x | 0 <= x < |s|
      ensures 0 < s[x] < 0x80
    {
      assert x < i ==> s[x] == s[..i][x];
      assert i <= x < j ==> s[x] == s[i..j][x - i];
      assert j <= x < k ==> s[x] == s[j..k][x - j];
      assert k <= x ==> s[x] == s[k..][x - k];
    }
  }

  lemma IntAscii(s: seq<Byte>)
    requires GrammarInt(s)
    ensures Ascii(s)
  {
  }

  lemma FracAscii(s: seq<Byte>)
    requires GrammarFrac(s)
    ensures Ascii(s)
  {
    if |s| > 0 {
      DigitsAscii(s[1..]);
      assert s == [DOT] + s[1..];
    }
  }

  lemma ExpAscii(s: seq<Byte>)
    requires GrammarExp(s)
    ensures Ascii(s)
  {
    if |s| > 1 && AllDigits(s[1..]) {
      assert s == [s[0]] + s[1..];
    } else if |s| > 0 {
      assert s == [s[0], s[1]] + s[2..];
    }
  }

  lemma NumberAscii(s: seq<Byte>)
    requires IsNumber(s)
    ensures Ascii(s)
  {
    hide NumberParts;
    var i, j, k :| NumberParts(s, i, j, k);
    PartsAscii(s, i, j, k);
  }

  lemma LexNumberGood(t: seq<Byte>)
    requires GoodString(t) && |t| > 0
    ensures GoodString(LexNumber(t).rest) && GoodToken(LexNumber(t).token)
  {
    hide ScanNumber, IsNumber, IntValue, IsUtf8;
    Utf8Empty();
    var r := ScanNumber(t);
    if !r.BadNumber? {
      ScanIsNumber(t);
      NumberAscii(t[..r.len]);
      assert t == t[..r.len] + t[r.len..];
      AsciiInFront(t[..r.len], t[r.len..]);
    }
  }

  lemma LexWordGood(t: seq<Byte>)
    requires GoodString(t) && |t| > 0 && IsAlpha(t[0])
    ensures GoodString(LexWord(t).rest) && GoodToken(LexWord(t).token)
  {
    hide AlphaRun, IsUtf8;
    Utf8Empty();
    var n := AlphaRun(t);
    WordAscii(t);
    assert t == t[..n] + t[n..];
    AsciiInFront(t[..n], t[n..]);
  }

  lemma LexStringGood(t: seq<Byte>)
    requires GoodString(t) && |t| > 0 && t[0] == QUOTE
    ensures GoodString(LexString(t).rest) && GoodToken(LexString(t).token)
  {
    hide JsonString.Scan, JsonString.Decode, JsonString.WellScanned, IsUtf8;
    Utf8Empty();
    var s := t[1..];
    assert t == t[..1] + s;
    AsciiInFront(t[..1], s);
    if JsonString.Scan(s).Some? {
      var n := JsonString.Scan(s).value;
      JsonString.ScanWellScanned(s);
      CutAtAscii(s, n);
      assert t[n + 2..] == s[n + 1..];
      if JsonString.Decode(s[..n]).Text? {
        DecodeValid(s[..n]);
      }
    }
  }

  lemma LexGood(s: seq<Byte>, bad: bool)
    requires GoodString(s)
    ensures GoodString(Lex(s, bad).rest) && GoodToken(Lex(s, bad).token)
  {
    hide LexString, LexNumber, LexWord, IsUtf8, SpaceRun;
    Utf8Empty();
    SpacesAscii(s);
    var t := s[SpaceRun(s)..];
    if |t| > 0 {
      if IsPunct(t[0]) {
        assert t == t[..1] + t[1..];
        AsciiInFront(t[..1], t[1..]);
      } else if t[0] == QUOTE {
        LexStringGood(t);
      } else if IsDigit(t[0]) || t[0] == MINUS {
        LexNumberGood(t);
      } else if IsAlpha(t[0]) {
        LexWordGood(t);
      }
    }
  }

  predicate GoodParsed(p: Parsed) {
    p.Parsed? ==> GoodValue(p.value) && GoodString(p.rest)
  }

  lemma {:induction false} ParseValueGood(tok: Token, s: seq<Byte>, bad: bool, o: Options)
    requires GoodToken(tok) && GoodString(s)
    ensures GoodParsed(ParseValue(tok, s, bad, o))
    decreases |s|, 2
  {
    hide IsUtf8, ParseObject, ParseArray;
    if tok == TPunct(LBRACE) {
      ParseObjectGood(s, bad, o);
    } else if tok == TPunct(LBRACKET) {
      ParseArrayGood(s, bad, o);
    }
  }

  lemma {:induction false} ParseObjectGood(s: seq<Byte>, bad: bool, o: Options)
    requires GoodString(s)
    ensures GoodParsed(ParseObject(s, bad, o))
    decreases |s|, 1
  {
    hide IsUtf8, Lex, ParseMembers;
    var l := Lex(s, bad);
    LexGood(s, bad);
    ParseMembersGood(l.token, l.rest, map[], bad, o);
  }

  lemma {:induction false} ParseMembersGood(tok: Token, s: seq<Byte>, m: map<CString, Value>, bad: bool, o: Options)
    requires GoodToken(tok) && GoodString(s) && GoodValue(VObject(m))
    ensures GoodParsed(ParseMembers(tok, s, m, bad, o))
    decreases |s|, 0
  {
    hide IsUtf8, Lex, ParseValue, GoodString, GoodValue;
    var l1 := Lex(s, bad);
    LexGood(s, bad);
    if tok.TString? && l1.token == TPunct(COLON) {
      var l2 := Lex(l1.rest, bad);
      LexGood(l1.rest, bad);
      ParseValueGood(l2.token, l2.rest, bad, o);
      var p := ParseValue(l2.token, l2.rest, bad, o);
      if p.Parsed? {
        var l3 := Lex(p.rest, bad);
        GoodMembers(m, tok.s, p.value);
        LexGood(p.rest, bad);
        LexGood(l3.rest, bad);
        if l3.token == TPunct(COMMA) {
          var l4 := Lex(l3.rest, bad);
          ParseMembersGood(l4.token, l4.rest, m[tok.s := p.value], bad, o);
        }
      }
    }
  }

  lemma {:induction false} ParseArrayGood(s: seq<Byte>, bad: bool, o: Options)
    requires GoodString(s)
    ensures GoodParsed(ParseArray(s, bad, o))
    decreases |s|, 1
  {
    hide IsUtf8, Lex, ParseItems;
    var l := Lex(s, bad);
    LexGood(s, bad);
    if !NoToken(l.token) {
      ParseItemsGood(l.token, l.rest, [], bad, o);
    }
  }

  lemma GoodItems(acc: seq<Value>, v: Value)
    requires GoodValue(VArray(acc)) && GoodValue(v)
    ensures GoodValue(VArray(acc + [v]))
  {
  }

  lemma GoodMembers(m: map<CString, Value>, k: CString, v: Value)
    requires GoodValue(VObject(m)) && GoodString(k) && GoodValue(v)
    ensures GoodValue(VObject(m[k := v]))
  {
  }

  lemma {:induction false} ParseItemsGood(tok: Token, s: seq<Byte>, acc: seq<Value>, bad: bool, o: Options)
    requires GoodToken(tok) && GoodString(s) && GoodValue(VArray(acc))
    ensures GoodParsed(ParseItems(tok, s, acc, bad, o))
    decreases |s|, 3
  {
    hide IsUtf8, Lex, ParseValue, GoodString, GoodToken, GoodValue;
    ParseValueGood(tok, s, bad, o);
    var p := ParseValue(tok, s, bad, o);
    if p.Parsed? {
      var l := Lex(p.rest, bad);
      LexGood(p.rest, bad);
      LexGood(l.rest, bad);
      GoodItems(acc, p.value);
      if l.token == TPunct(COMMA) {
        var l' := Lex(l.rest, bad);
        ParseItemsGood(l'.token, l'.rest, acc + [p.value], bad, o);
      }
    }
  }

  lemma {:induction false} PrefixGood(s: seq<Byte>)
    requires 0 !in s
    ensures GoodString(ValidPrefix(s))
    decreases |s|
  {
    hide IsChar, CharLen;
    var n := CharLen(s);
    if n == 0 {
      Utf8Empty();
    } else {
      IsCharPrefix(s);
      CharIsUtf8(s[..n]);
      PrefixGood(s[n..]);
      GoodConcat(s[..n], ValidPrefix(s[n..]));
    }
  }

  /** Whatever the input, a value that json_loads returns has only valid strings and keys. */
  lemma LoadedIsGood(input: CString, o: Options)
    requires 0 !in input
    ensures var r := ParseJson(ValidPrefix(input), !IsUtf8(input), o);
            r.Loaded? ==> GoodValue(r.value)
  {
    hide IsUtf8, Lex, ParseValue, ValidPrefix;
    PrefixGood(input);
    var l := Lex(ValidPrefix(input), !IsUtf8(input));
    LexGood(ValidPrefix(input), !IsUtf8(input));
    ParseValueGood(l.token, l.rest, !IsUtf8(input), o);
  }

  /** The text loads as the value it was made of if and only if all keys in it are valid: nothing that is loaded has
      an invalid key. */
  lemma LoadsExactly(t: Json, f: Flags, o: Options)
    requires WellFormed(t)
    requires t.Array? || t.Object? || o.decodeAny
    ensures var text := DumpText(t, f);
            0 !in text &&
            (ParseJson(ValidPrefix(text), !IsUtf8(text), o) == Loaded(ValueOf(t)) <==> GoodKeys(t))
  {
    hide ParseJson, ValidPrefix, IsUtf8, GoodKeys, GoodValue, WellFormed, DumpText, ValueOf;
    DumpTextValid(t, f);
    GoodMeaning(t);
    LoadedIsGood(DumpText(t, f), o);
    if GoodKeys(t) {
      LoadsDumps(t, f, o);
    }
  }

  // ---- loading, dumping, and loading again

  /** A good value is the meaning of some tree the printer accepts. */
  lemma {:induction false} TreeFor(v: Value) returns (t: Json)
    requires GoodValue(v)
    ensures WellFormed(t) && ValueOf(t) == v
    decreases v, 2, 0
  {
    hide GoodString, RealText;
    match v
    case VNull => t := Null;
    case VTrue => t := True;
    case VFalse => t := False;
    case VInteger(n) => t := Integer(n);
    case VReal(text) => t := Real(text);
    case VString(s) => t := String(s);
    case VArray(items) =>
      var ts := TreesFor(v, items);
      t := Array(ts);
    case VObject(members) =>
      var ms := MembersFor(v, members);
      t := Object(ms);
  }

  lemma {:induction false} TreesFor(v: Value, vs: seq<Value>) returns (ts: seq<Json>)
    requires forall i :: 0 <= i < |vs| ==> vs[i] < v && GoodValue(vs[i])
    ensures AllWellFormed(ts) && ValuesOf(ts) == vs
    decreases v, 1, |vs|
  {
    if |vs| == 0 {
      ts := [];
    } else {
      var t := TreeFor(vs[0]);
      var rest := TreesFor(v, vs[1..]);
      ts := [t] + rest;
      assert ts[1..] == rest;
    }
  }

  lemma {:induction false} MembersFor(v: Value, m: map<CString, Value>) returns (ms: seq<Member<Json>>)
    requires forall k :: k in m ==> m[k] < v && GoodString(k) && GoodValue(m[k])
    ensures MembersWellFormed(ms) && MapOf(ms) == m
    decreases v, 1, |m|
  {
    hide GoodString, GoodValue, WellFormed, MembersWellFormed, MapOf, ValueOf;
    if m == map[] {
      ms := [];
      NoMembers();
    } else {
      var k :| k in m;
      var t := TreeFor(m[k]);
      Smaller(m, k);
      var rest := MembersFor(v, m - {k});
      ms := [Member(k, 0, t)] + rest;
      OneMember(k, t, rest);
      assert (m - {k})[k := m[k]] == m;
    }
  }

  lemma NoMembers()
    ensures MembersWellFormed([]) && MapOf([]) == map[]
  {
  }

  lemma OneMember(k: CString, t: Json, rest: seq<Member<Json>>)
    requires GoodString(k) && WellFormed(t) && MembersWellFormed(rest) && k !in MapOf(rest)
    ensures MembersWellFormed([Member(k, 0, t)] + rest) &&
            MapOf([Member(k, 0, t)] + rest) == MapOf(rest)[k := ValueOf(t)]
  {
    hide WellFormed, ValueOf, IsUtf8, Keys;
    MapOfKeys(rest);
    assert ([Member(k, 0, t)] + rest)[1..] == rest;
  }

  lemma Smaller(m: map<CString, Value>, k: CString)
    requires k in m
    ensures |m - {k}| < |m|
  {
    assert (m - {k}).Keys == m.Keys - {k};
  }

  /** A loaded value can be dumped under any flags, and loading that text gives the value again.  A real
      keeps the text it was read from. */
  lemma Reload(input: CString, o: Options) returns (t: Json)
    requires 0 !in input
    requires ParseJson(ValidPrefix(input), !IsUtf8(input), o).Loaded?
    ensures WellFormed(t) && ValueOf(t) == ParseJson(ValidPrefix(input), !IsUtf8(input), o).value
    ensures forall f: Flags ::
              ParseJson(ValidPrefix(DumpText(t, f)), !IsUtf8(DumpText(t, f)), o.(decodeAny := true))
                == Loaded(ValueOf(t))
  {
    hide ParseJson, ValidPrefix, IsUtf8, WellFormed, ValueOf, DumpText, GoodKeys, GoodValue;
    LoadedIsGood(input, o);
    t := TreeFor(ParseJson(ValidPrefix(input), !IsUtf8(input), o).value);
    GoodMeaning(t);
    forall f: Flags
      ensures ParseJson(ValidPrefix(DumpText(t, f)), !IsUtf8(DumpText(t, f)), o.(decodeAny := true))
              == Loaded(ValueOf(t))
    {
      LoadsDumps(t, f, o.(decodeAny := true));
    }
  }
}
