/** When loading a text runs into the assertion of decode_unicode_escape. */
module JsonAbort {
  import opened Bytes
  import opened Wrappers
  import opened JsonNumber
  import opened JsonText
  import opened JsonParse
  import JsonString

  /** A token runs into it if it is a string literal in which a \u without four letters or digits comes before any
      that means no character. */
  lemma LexAborts(s: seq<Byte>, bad: bool)
    ensures Lex(s, bad).token == TAborted <==>
              var t := s[SpaceRun(s)..];
              |t| > 0 && t[0] == QUOTE && JsonString.Scan(t[1..]).Some? &&
              var text := t[1..][..JsonString.Scan(t[1..]).value];
              JsonString.WellScanned(text) && JsonString.FirstForeign(text) < JsonString.FirstMisfit(text)
  {
    hide JsonString.Scan, JsonString.Decode, JsonString.WellScanned, JsonString.FirstForeign, JsonString.FirstMisfit,
      SpaceRun, LexNumber, LexWord;
    var t := s[SpaceRun(s)..];
    if |t| > 0 {
      OnlyStringsAbort(t);
      if t[0] == QUOTE && JsonString.Scan(t[1..]).Some? {
        JsonString.ScanWellScanned(t[1..]);
        JsonString.DecodeExactly(t[1..][..JsonString.Scan(t[1..]).value]);
      }
    }
  }

  lemma OnlyStringsAbort(t: seq<Byte>)
    requires |t| > 0
    ensures !LexNumber(t).token.TAborted? && (IsAlpha(t[0]) ==> !LexWord(t).token.TAborted?)
  {
    hide ScanNumber, IntValue, AlphaRun;
  }

  /** Where the first literal of that kind starts, reading token by token. */
  function AbortAt(s: seq<Byte>): (r: Option<nat>)
    ensures r.Some? ==> r.value <= |s|
    decreases |s|
  {
    var l := Lex(s, false);
    if l.token == TAborted then Some(SpaceRun(s))
    else if NoToken(l.token) then None
    else JsonString.Plus(|s| - |l.rest|, AbortAt(l.rest))
  }

  /** The first one is at the start of `t`. */
  predicate Cut(a: seq<Byte>, t: seq<Byte>) {
    |t| > 0 && t[0] == QUOTE && AbortAt(a + t) == Some(|a|)
  }

  // ---- the text in front of a quote has the same tokens without it

  lemma {:induction false} SpacesBefore(a: seq<Byte>, t: seq<Byte>)
    requires |t| > 0 && t[0] == QUOTE
    ensures SpaceRun(a + t) == SpaceRun(a)
  {
    if |a| > 0 {
      SpacesBefore(a[1..], t);
      assert (a + t)[1..] == a[1..] + t;
    }
  }

  lemma {:induction false} WordBefore(a: seq<Byte>, t: seq<Byte>)
    requires |t| > 0 && t[0] == QUOTE
    ensures AlphaRun(a + t) == AlphaRun(a)
  {
    if |a| > 0 {
      WordBefore(a[1..], t);
      assert (a + t)[1..] == a[1..] + t;
    }
  }

  lemma {:induction false} DigitsBefore(a: seq<Byte>, t: seq<Byte>)
    requires |t| > 0 && t[0] == QUOTE
    ensures DigitRun(a + t) == DigitRun(a)
  {
    if |a| > 0 {
      DigitsBefore(a[1..], t);
      assert (a + t)[1..] == a[1..] + t;
    }
  }

  lemma DigitsBehind(a: seq<Byte>, t: seq<Byte>, i: nat)
    requires |t| > 0 && t[0] == QUOTE && i <= |a|
    ensures DigitRun((a + t)[i..]) == DigitRun(a[i..])
  {
    hide DigitRun;
    DigitsBefore(a[i..], t);
    assert (a + t)[i..] == a[i..] + t;
  }

  lemma ExponentBefore(a: seq<Byte>, t: seq<Byte>, k: nat)
    requires |t| > 0 && t[0] == QUOTE && k < |a|
    ensures ScanExponent(a + t, k) == ScanExponent(a, k)
  {
    hide DigitRun;
    var l := if k + 1 < |a| && (a[k + 1] == PLUS || a[k + 1] == MINUS) then k + 2 else k + 1;
    DigitsBehind(a, t, l);
  }

  lemma FractionBefore(a: seq<Byte>, t: seq<Byte>, j: nat)
    requires |t| > 0 && t[0] == QUOTE && j < |a| && a[j] == DOT
    ensures ScanFraction(a + t, j) == ScanFraction(a, j)
  {
    hide DigitRun, ScanExponent;
    if j + 1 < |a| {
      DigitsBehind(a, t, j + 1);
      var k := j + 1 + DigitRun(a[j + 1..]);
      if k < |a| {
        ExponentBefore(a, t, k);
      }
    }
  }

  lemma NumberBefore(a: seq<Byte>, t: seq<Byte>)
    requires |t| > 0 && t[0] == QUOTE && |a| > 0
    ensures ScanNumber(a + t) == ScanNumber(a)
  {
    hide DigitRun, ScanExponent, ScanFraction;
    var i := if a[0] == MINUS then 1 else 0;
    if i < |a| {
      DigitsBehind(a, t, i);
      var j := if a[i] == ZERO then i + 1 else i + DigitRun(a[i..]);
      if j < |a| {
        ExponentBefore(a, t, j);
        if a[j] == DOT {
          FractionBefore(a, t, j);
        }
      }
    }
  }

  /** A token that ends in front of `t` is one of the text without it. */
  ghost predicate SameToken(l: Lexed, l': Lexed, t: seq<Byte>) {
    l'.token == l.token && l'.rest == l.rest + t
  }

  lemma LexNumberBefore(a: seq<Byte>, t: seq<Byte>)
    requires |t| > 0 && t[0] == QUOTE && |a| > 0 && !NoToken(LexNumber(a + t).token)
    ensures SameToken(LexNumber(a), LexNumber(a + t), t)
  {
    hide ScanNumber, IntValue, IsInteger, IsNumber;
    NumberBefore(a, t);
    var r := ScanNumber(a);
    if !r.BadNumber? {
      ScanIsNumber(a);
      assert (a + t)[..r.len] == a[..r.len] && (a + t)[r.len..] == a[r.len..] + t;
    }
  }

  lemma LexWordBefore(a: seq<Byte>, t: seq<Byte>)
    requires |t| > 0 && t[0] == QUOTE && |a| > 0 && IsAlpha(a[0]) && !NoToken(LexWord(a + t).token)
    ensures SameToken(LexWord(a), LexWord(a + t), t)
  {
    hide AlphaRun;
    WordBefore(a, t);
    var n := AlphaRun(a);
    assert (a + t)[..n] == a[..n] && (a + t)[n..] == a[n..] + t;
  }

  lemma LexStringBefore(a: seq<Byte>, t: seq<Byte>)
    requires |a| > 0 && a[0] == QUOTE && !NoToken(LexString(a + t).token) && |LexString(a + t).rest| >= |t|
    ensures SameToken(LexString(a), LexString(a + t), t)
  {
    hide JsonString.Scan, JsonString.Decode, JsonString.WellScanned;
    var v, n := a[1..], JsonString.Scan((a + t)[1..]).value;
    assert (a + t)[1..] == v + t && (a + t)[n + 2..] == a[n + 2..] + t;
    ScanBefore(v, t, n);
  }

  /** A closing quote in front of `t` is found without it. */
  lemma ScanBefore(v: seq<Byte>, t: seq<Byte>, n: nat)
    requires JsonString.Scan(v + t) == Some(n) && n < |v|
    ensures JsonString.Scan(v) == Some(n) && (v + t)[..n] == v[..n]
  {
    hide JsonString.Scan, JsonString.WellScanned;
    JsonString.ScanWellScanned(v + t);
    assert (v + t)[..n] == v[..n] && v == v[..n] + [QUOTE] + v[n + 1..];
    JsonString.WellScannedScan(v[..n], v[n + 1..]);
  }

  lemma LexBefore(a: seq<Byte>, t: seq<Byte>, bad: bool)
    requires |t| > 0 && t[0] == QUOTE && SpaceRun(a) < |a|
    requires !NoToken(Lex(a + t, bad).token) && |Lex(a + t, bad).rest| >= |t|
    ensures SameToken(Lex(a, false), Lex(a + t, bad), t)
  {
    hide SpaceRun, LexString, LexNumber, LexWord;
    SpacesBefore(a, t);
    var u := a[SpaceRun(a)..];
    assert (a + t)[SpaceRun(a)..] == u + t;
    if IsPunct(u[0]) {
      assert (u + t)[1..] == u[1..] + t;
    } else if u[0] == QUOTE {
      LexStringBefore(u, t);
    } else if IsDigit(u[0]) || u[0] == MINUS {
      LexNumberBefore(u, t);
    } else if IsAlpha(u[0]) {
      LexWordBefore(u, t);
    }
  }

  // ---- token by token, up to the literal

  lemma NotAtEnd(s: seq<Byte>, bad: bool)
    requires SpaceRun(s) < |s|
    ensures Lex(s, bad) == Lex(s, false)
    ensures NoToken(Lex(s, bad).token) || |Lex(s, bad).rest| < |s| - SpaceRun(s)
  {
    hide LexString, LexNumber, LexWord;
  }

  lemma AllBlank(a: seq<Byte>)
    requires SpaceRun(a) == |a|
    ensures Lex(a, false).token == TEof
  {
  }

  lemma CutUnfold(a: seq<Byte>, t: seq<Byte>)
    requires Cut(a, t)
    ensures var l := Lex(a + t, false);
            if SpaceRun(a) == |a| then l.token == TAborted
            else !NoToken(l.token) && |t| <= |l.rest| < |a + t| && AbortAt(l.rest) == Some(|l.rest| - |t|)
  {
    hide Lex, SpaceRun, AbortAt;
    SpacesBefore(a, t);
    NotAtEnd(a + t, false);
    AbortStep(a + t);
  }

  lemma AbortStep(s: seq<Byte>)
    ensures var l := Lex(s, false);
            AbortAt(s) == if l.token == TAborted then Some(SpaceRun(s))
                          else if NoToken(l.token) then None
                          else JsonString.Plus(|s| - |l.rest|, AbortAt(l.rest))
  {
    hide Lex, SpaceRun;
  }

  /** With and without what starts with the literal: at the literal, the end of the text; before it, the same
      token. */
  lemma LexTwin(a: seq<Byte>, t: seq<Byte>, bad: bool)
    requires Cut(a, t)
    ensures var l, l' := Lex(a, false), Lex(a + t, bad);
            || (l.token == TEof && l'.token == TAborted)
            || (!NoToken(l.token) && SameToken(l, l', t) && |l.rest| < |a| && Cut(l.rest, t))
  {
    hide SpaceRun, Lex, AbortAt, NoToken;
    SpacesBefore(a, t);
    NotAtEnd(a + t, bad);
    CutUnfold(a, t);
    if SpaceRun(a) == |a| {
      AllBlank(a);
    } else {
      LexBefore(a, t, false);
    }
  }

  /** Parsing comes to the same without what starts with the literal, except that it finds the end of the text where it
      would have found the literal. */
  ghost predicate Twin(p: Parsed, p': Parsed, t: seq<Byte>) {
    match p
    case Parsed(v, rest) => p' == Parsed(v, rest + t) && Cut(rest, t)
    case Failed(tok) => p' == Failed(if tok == TEof then TAborted else tok) && !tok.TAborted?
  }

  lemma FailedTwin(tok: Token, tok': Token, t: seq<Byte>)
    requires (tok == TEof && tok' == TAborted) || (!NoToken(tok) && tok' == tok)
    ensures Twin(Failed(tok), Failed(tok'), t)
  {
  }

  lemma ParsedTwin(v: Value, rest: seq<Byte>, t: seq<Byte>)
    requires Cut(rest, t)
    ensures Twin(Parsed(v, rest), Parsed(v, rest + t), t)
  {
  }

  lemma {:induction false} ValueTwin(tok: Token, a: seq<Byte>, t: seq<Byte>, bad: bool, o: Options)
    requires Cut(a, t) && !NoToken(tok)
    ensures Twin(ParseValue(tok, a, false, o), ParseValue(tok, a + t, bad, o), t)
    decreases |a|, 2
  {
    hide Cut, ParseObject, ParseArray;
    if tok == TPunct(LBRACE) {
      ObjectTwin(a, t, bad, o);
    } else if tok == TPunct(LBRACKET) {
      ArrayTwin(a, t, bad, o);
    }
  }

  /** The same, for a token that has just been scanned in both. */
  lemma {:induction false} NextTwin(a: seq<Byte>, t: seq<Byte>, bad: bool, o: Options)
    requires Cut(a, t)
    ensures var l, l' := Lex(a, false), Lex(a + t, bad);
            Twin(ParseValue(l.token, l.rest, false, o), ParseValue(l'.token, l'.rest, bad, o), t)
    decreases |a|, 0
  {
    hide Cut, Lex, ParseObject, ParseArray;
    LexTwin(a, t, bad);
    var l := Lex(a, false);
    if !NoToken(l.token) {
      ValueTwin(l.token, l.rest, t, bad, o);
    }
  }

  lemma {:induction false} ObjectTwin(a: seq<Byte>, t: seq<Byte>, bad: bool, o: Options)
    requires Cut(a, t)
    ensures Twin(ParseObject(a, false, o), ParseObject(a + t, bad, o), t)
    decreases |a|, 1
  {
    hide Cut, Lex, ParseMembers;
    LexTwin(a, t, bad);
    var l, l' := Lex(a, false), Lex(a + t, bad);
    MembersStop(l.token, l.rest, map[], false, o);
    MembersStop(l'.token, l'.rest, map[], bad, o);
    if !NoToken(l.token) {
      MembersTwin(l.token, l.rest, t, map[], bad, o);
    }
  }

  lemma MembersStop(tok: Token, s: seq<Byte>, m: map<CString, Value>, bad: bool, o: Options)
    ensures NoToken(tok) ==> ParseMembers(tok, s, m, bad, o) == Failed(tok)
  {
  }

  lemma {:induction false} MembersTwin(tok: Token, a: seq<Byte>, t: seq<Byte>, m: map<CString, Value>, bad: bool,
                                       o: Options)
    requires Cut(a, t) && !NoToken(tok)
    ensures Twin(ParseMembers(tok, a, m, false, o), ParseMembers(tok, a + t, m, bad, o), t)
    decreases |a|, 0, 1
  {
    hide Cut, Lex, ParseValue, Twin;
    FailedTwin(tok, tok, t);
    LexTwin(a, t, bad);
    var l1, l1' := Lex(a, false), Lex(a + t, bad);
    FailedTwin(l1.token, l1'.token, t);
    MembersThen(tok, a, m, false, o);
    MembersThen(tok, a + t, m, bad, o);
    if tok.TString? && !(o.rejectDuplicates && tok.s in m) && l1.token == TPunct(COLON) {
      NextTwin(l1.rest, t, bad, o);
      var l2, l2' := Lex(l1.rest, false), Lex(l1'.rest, bad);
      var p, p' := ParseValue(l2.token, l2.rest, false, o), ParseValue(l2'.token, l2'.rest, bad, o);
      TwinCases(p, p', t);
      if p.Parsed? {
        MembersTailTwin(p.rest, t, m[tok.s := p.value], bad, o);
      }
    }
  }

  lemma TwinCases(p: Parsed, p': Parsed, t: seq<Byte>)
    requires Twin(p, p', t)
    ensures p.Parsed? ==> p'.Parsed? && p'.value == p.value && p'.rest == p.rest + t && Cut(p.rest, t)
    ensures p.Failed? ==> p'.Failed?
  {
    hide Cut;
  }

  lemma {:induction false} MembersTailTwin(a: seq<Byte>, t: seq<Byte>, m: map<CString, Value>, bad: bool, o: Options)
    requires Cut(a, t)
    ensures Twin(MembersTail(a, m, false, o), MembersTail(a + t, m, bad, o), t)
    decreases |a|, 0, 0
  {
    hide Cut, Lex, Twin, ParseMembers;
    LexTwin(a, t, bad);
    var l, l' := Lex(a, false), Lex(a + t, bad);
    FailedTwin(l.token, l'.token, t);
    if l.token == TPunct(COMMA) {
      LexTwin(l.rest, t, bad);
      var l2, l2' := Lex(l.rest, false), Lex(l'.rest, bad);
      MembersStop(l2.token, l2.rest, m, false, o);
      MembersStop(l2'.token, l2'.rest, m, bad, o);
      if !NoToken(l2.token) {
        MembersTwin(l2.token, l2.rest, t, m, bad, o);
      } else {
        FailedTwin(l2.token, l2'.token, t);
      }
    } else if l.token == TPunct(RBRACE) {
      ParsedTwin(VObject(m), l.rest, t);
    }
  }

  lemma {:induction false} ArrayTwin(a: seq<Byte>, t: seq<Byte>, bad: bool, o: Options)
    requires Cut(a, t)
    ensures Twin(ParseArray(a, false, o), ParseArray(a + t, bad, o), t)
    decreases |a|, 1
  {
    hide Cut, Lex, ParseItems;
    LexTwin(a, t, bad);
    var l := Lex(a, false);
    if !NoToken(l.token) {
      ItemsTwin(l.token, l.rest, t, [], bad, o);
    }
  }

  lemma ItemsStop(tok: Token, s: seq<Byte>, acc: seq<Value>, bad: bool, o: Options)
    ensures NoToken(tok) ==> ParseItems(tok, s, acc, bad, o) == Failed(tok)
  {
  }

  lemma {:induction false} ItemsTwin(tok: Token, a: seq<Byte>, t: seq<Byte>, acc: seq<Value>, bad: bool, o: Options)
    requires Cut(a, t) && !NoToken(tok)
    ensures Twin(ParseItems(tok, a, acc, false, o), ParseItems(tok, a + t, acc, bad, o), t)
    decreases |a|, 3, 1
  {
    hide Cut, Lex, ParseValue, Twin;
    ValueTwin(tok, a, t, bad, o);
    var p, p' := ParseValue(tok, a, false, o), ParseValue(tok, a + t, bad, o);
    TwinCases(p, p', t);
    if p.Parsed? {
      ItemsTailTwin(p.rest, t, acc + [p.value], bad, o);
      ItemsThen(tok, a, acc, false, o);
      ItemsThen(tok, a + t, acc, bad, o);
    }
  }

  lemma {:induction false} ItemsTailTwin(a: seq<Byte>, t: seq<Byte>, acc: seq<Value>, bad: bool, o: Options)
    requires Cut(a, t)
    ensures Twin(ItemsTail(a, acc, false, o), ItemsTail(a + t, acc, bad, o), t)
    decreases |a|, 3, 0
  {
    hide Cut, Lex, Twin, ParseItems;
    LexTwin(a, t, bad);
    var l, l' := Lex(a, false), Lex(a + t, bad);
    FailedTwin(l.token, l'.token, t);
    if l.token == TPunct(COMMA) {
      LexTwin(l.rest, t, bad);
      var l2, l2' := Lex(l.rest, false), Lex(l'.rest, bad);
      ItemsStop(l2.token, l2.rest, acc, false, o);
      ItemsStop(l2'.token, l2'.rest, acc, bad, o);
      if !NoToken(l2.token) {
        ItemsTwin(l2.token, l2.rest, t, acc, bad, o);
      } else {
        FailedTwin(l2.token, l2'.token, t);
      }
    } else if l.token == TPunct(RBRACKET) {
      ParsedTwin(VArray(acc), l.rest, t);
    }
  }

  // ---- where there is no such literal

  lemma LexClean(s: seq<Byte>, bad: bool)
    requires AbortAt(s).None?
    ensures var l := Lex(s, bad);
            !l.token.TAborted? && (NoToken(l.token) || AbortAt(l.rest).None?)
  {
    hide Lex, SpaceRun;
    if SpaceRun(s) < |s| {
      NotAtEnd(s, bad);
    } else {
      EndNotAborted(s, bad);
    }
  }

  lemma EndNotAborted(s: seq<Byte>, bad: bool)
    requires SpaceRun(s) == |s|
    ensures NoToken(Lex(s, bad).token) && !Lex(s, bad).token.TAborted?
  {
  }

  predicate Clean(p: Parsed) {
    if p.Parsed? then AbortAt(p.rest).None? else !p.tok.TAborted?
  }

  lemma {:induction false} ValueClean(tok: Token, s: seq<Byte>, bad: bool, o: Options)
    requires !tok.TAborted? && (NoToken(tok) || AbortAt(s).None?)
    ensures Clean(ParseValue(tok, s, bad, o))
    decreases |s|, 2
  {
    hide Lex, AbortAt, ParseMembers, ParseItems;
    if tok == TPunct(LBRACE) || tok == TPunct(LBRACKET) {
      LexClean(s, bad);
      var l := Lex(s, bad);
      if tok == TPunct(LBRACE) {
        MembersClean(l.token, l.rest, map[], bad, o);
      } else if !NoToken(l.token) {
        ItemsClean(l.token, l.rest, [], bad, o);
      }
    }
  }

  lemma {:induction false} MembersClean(tok: Token, s: seq<Byte>, m: map<CString, Value>, bad: bool, o: Options)
    requires !tok.TAborted? && (NoToken(tok) || AbortAt(s).None?)
    ensures Clean(ParseMembers(tok, s, m, bad, o))
    decreases |s|, 0
  {
    hide Lex, AbortAt, ParseValue;
    if tok.TString? {
      LexClean(s, bad);
      var l1 := Lex(s, bad);
      if l1.token == TPunct(COLON) {
        LexClean(l1.rest, bad);
        var l2 := Lex(l1.rest, bad);
        ValueClean(l2.token, l2.rest, bad, o);
        var p := ParseValue(l2.token, l2.rest, bad, o);
        if p.Parsed? {
          LexClean(p.rest, bad);
          var l3 := Lex(p.rest, bad);
          if l3.token == TPunct(COMMA) {
            LexClean(l3.rest, bad);
            var l4 := Lex(l3.rest, bad);
            MembersClean(l4.token, l4.rest, m[tok.s := p.value], bad, o);
          }
        }
      }
    }
  }

  lemma {:induction false} ItemsClean(tok: Token, s: seq<Byte>, acc: seq<Value>, bad: bool, o: Options)
    requires !tok.TAborted? && (NoToken(tok) || AbortAt(s).None?)
    ensures Clean(ParseItems(tok, s, acc, bad, o))
    decreases |s|, 3
  {
    hide Lex, AbortAt, ParseValue;
    ValueClean(tok, s, bad, o);
    var p := ParseValue(tok, s, bad, o);
    if p.Parsed? {
      LexClean(p.rest, bad);
      var l := Lex(p.rest, bad);
      if l.token == TPunct(COMMA) {
        LexClean(l.rest, bad);
        var l2 := Lex(l.rest, bad);
        ItemsClean(l2.token, l2.rest, acc + [p.value], bad, o);
      }
    }
  }

  // ---- json_loads

  /** Loading the text comes to its end before it fails, or comes to its end because that is checked for. */
  predicate RunsOut(s: seq<Byte>, o: Options) {
    match ParseJson(s, false, o)
    case LoadError(tok) => tok.TEof?
    case Loaded(_) => !o.disableEofCheck
  }

  lemma {:induction false} AbortIsQuote(s: seq<Byte>)
    requires AbortAt(s).Some?
    ensures AbortAt(s).value < |s| && s[AbortAt(s).value] == QUOTE
    decreases |s|
  {
    hide Lex, SpaceRun;
    var l := Lex(s, false);
    if l.token == TAborted {
      AbortedStart(s);
    } else {
      AbortIsQuote(l.rest);
      RestIsSuffix(s);
    }
  }

  lemma AbortedStart(s: seq<Byte>)
    requires Lex(s, false).token == TAborted
    ensures SpaceRun(s) < |s| && s[SpaceRun(s)] == QUOTE
  {
    hide Lex, SpaceRun;
    LexAbortsQuote(s);
    assert SpaceRun(s) < |s| ==> s[SpaceRun(s)..][0] == s[SpaceRun(s)];
  }

  lemma LexAbortsQuote(s: seq<Byte>)
    ensures Lex(s, false).token == TAborted ==> |s[SpaceRun(s)..]| > 0 && s[SpaceRun(s)..][0] == QUOTE
  {
    hide LexString, SpaceRun, LexNumber, LexWord;
    var t := s[SpaceRun(s)..];
    if |t| > 0 {
      OnlyStringsAbort(t);
    }
  }

  lemma RestIsSuffix(s: seq<Byte>)
    requires !NoToken(Lex(s, false).token)
    ensures s[|s| - |Lex(s, false).rest|..] == Lex(s, false).rest
  {
    hide JsonString.Scan, JsonString.Decode, SpaceRun, ScanNumber, AlphaRun, IntValue;
  }

  /** json_loads runs into the assertion exactly if the text in front of the first such literal is unfinished, or is
      finished while the end of the text is checked for. */
  lemma LoadsAbortsExactly(s: seq<Byte>, bad: bool, o: Options)
    ensures ParseJson(s, bad, o) == LoadError(TAborted) <==>
              AbortAt(s).Some? && RunsOut(s[..AbortAt(s).value], o)
  {
    hide Lex, AbortAt, ParseValue;
    if AbortAt(s).None? {
      LexClean(s, bad);
      var l := Lex(s, bad);
      ValueClean(l.token, l.rest, bad, o);
      var p := ParseValue(l.token, l.rest, bad, o);
      if p.Parsed? {
        LexClean(p.rest, bad);
      }
    } else {
      AbortIsQuote(s);
      var n := AbortAt(s).value;
      assert s == s[..n] + s[n..];
      LoadTwin(s[..n], s[n..], bad, o);
    }
  }

  lemma LoadTwin(a: seq<Byte>, t: seq<Byte>, bad: bool, o: Options)
    requires Cut(a, t)
    ensures ParseJson(a + t, bad, o) == LoadError(TAborted) <==> RunsOut(a, o)
  {
    hide Lex, Cut, ParseValue;
    LexTwin(a, t, bad);
    NextTwin(a, t, bad, o);
    var l := Lex(a, false);
    var p := ParseValue(l.token, l.rest, false, o);
    if p.Parsed? {
      LexTwin(p.rest, t, bad);
    }
  }

  /** An array with such a literal, whatever the flags. */
  lemma StopsInArray(bad: bool, o: Options)
    ensures ParseJson([LBRACKET, QUOTE, BACKSLASH, LOWER_U, 0x2D, 0x30, 0x30, 0x30, QUOTE, RBRACKET], bad, o)
            == LoadError(TAborted)
  {
    hide Lex, JsonString.Scan, JsonString.Decode, JsonString.WellScanned;
    var literal := [BACKSLASH, LOWER_U, 0x2D, 0x30, 0x30, 0x30];
    var t := [QUOTE] + literal + [QUOTE, RBRACKET];
    assert [LBRACKET, QUOTE, BACKSLASH, LOWER_U, 0x2D, 0x30, 0x30, 0x30, QUOTE, RBRACKET] == [LBRACKET] + t;
    LexPunct(LBRACKET, t, bad);
    JsonString.NonAlnumAborts();
    JsonString.WellScannedScan(literal, [RBRACKET]);
    assert t[1..] == literal + [QUOTE] + [RBRACKET];
    assert t[1..][..6] == literal;
    LexLiteral(t, bad);
    assert ParseArray(t, bad, o) == Failed(TAborted);
    assert ParseValue(TPunct(LBRACKET), t, bad, o) == Failed(TAborted);
  }

  lemma LexLiteral(t: seq<Byte>, bad: bool)
    requires |t| > 0 && t[0] == QUOTE && JsonString.Scan(t[1..]).Some?
    requires JsonString.WellScanned(t[1..][..JsonString.Scan(t[1..]).value])
    requires JsonString.Decode(t[1..][..JsonString.Scan(t[1..]).value]) == JsonString.Aborted
    ensures Lex(t, bad).token == TAborted
  {
    hide JsonString.Scan, JsonString.Decode, JsonString.WellScanned, LexNumber, LexWord;
    assert SpaceRun(t) == 0 && t[0..] == t;
  }
}
