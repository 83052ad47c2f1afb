/** The parser of load.c as functions on the bytes still to come. */
module JsonParse {
  import opened Bytes
  import opened Utf8
  import JsonString
  import opened JsonNumber
  import opened JsonText

  /** JSON_REJECT_DUPLICATES, JSON_DISABLE_EOF_CHECK, JSON_DECODE_ANY */
  datatype Options = Options(rejectDuplicates: bool, disableEofCheck: bool, decodeAny: bool)

  /** Parsing fails at a token.  At TAborted it does not fail but ends the process: the assertion of
      decode_unicode_escape has failed. */
  datatype Parsed = Parsed(value: Value, rest: seq<Byte>) | Failed(tok: Token)

  /** parse_value, with `tok` scanned and `s` behind it. */
  function ParseValue(tok: Token, s: seq<Byte>, bad: bool, o: Options): (r: Parsed)
    ensures r.Parsed? ==> |r.rest| <= |s|
    decreases |s|, 2
  {
    match tok
    case TString(t) => Parsed(VString(t), s)
    case TInteger(n) => Parsed(VInteger(n), s)
    case TReal(t) => Parsed(VReal(t), s)
    case TTrue => Parsed(VTrue, s)
    case TFalse => Parsed(VFalse, s)
    case TNull => Parsed(VNull, s)
    case TPunct(c) =>
      if c == LBRACE then ParseObject(s, bad, o) else if c == LBRACKET then ParseArray(s, bad, o) else Failed(tok)
    case _ => Failed(tok)
  }

  predicate NoToken(tok: Token) { tok.TEof? || tok.TInvalid? || tok.TAborted? }

  function ParseObject(s: seq<Byte>, bad: bool, o: Options): (r: Parsed)
    ensures r.Parsed? ==> |r.rest| <= |s|
    decreases |s|, 1
  {
    var l := Lex(s, bad);
    if l.token == TPunct(RBRACE) then Parsed(VObject(map[]), l.rest)
    else ParseMembers(l.token, l.rest, map[], bad, o)
  }

  /** The loop of parse_object; `m` holds the members so far. */
  function ParseMembers(tok: Token, s: seq<Byte>, m: map<CString, Value>, bad: bool, o: Options): (r: Parsed)
    ensures r.Parsed? ==> |r.rest| <= |s|
    decreases |s|, 0
  {
    if !tok.TString? || (o.rejectDuplicates && tok.s in m) then Failed(tok)
    else
      var l1 := Lex(s, bad);
      if l1.token != TPunct(COLON) then Failed(l1.token)
      else
        var l2 := Lex(l1.rest, bad);
        match ParseValue(l2.token, l2.rest, bad, o)
        case Failed(at) => Failed(at)
        case Parsed(v, rest) =>
          var m' := m[tok.s := v];
          var l3 := Lex(rest, bad);
          if l3.token == TPunct(COMMA) then
            var l4 := Lex(l3.rest, bad);
            ParseMembers(l4.token, l4.rest, m', bad, o)
          else if l3.token == TPunct(RBRACE) then Parsed(VObject(m'), l3.rest)
          else Failed(l3.token)
  }

  function ParseArray(s: seq<Byte>, bad: bool, o: Options): (r: Parsed)
    ensures r.Parsed? ==> |r.rest| <= |s|
    decreases |s|, 1
  {
    var l := Lex(s, bad);
    if l.token == TPunct(RBRACKET) then Parsed(VArray([]), l.rest)
    else if NoToken(l.token) then Failed(l.token)
    else ParseItems(l.token, l.rest, [], bad, o)
  }

  /** The loop of parse_array; `acc` holds the elements so far. */
  function ParseItems(tok: Token, s: seq<Byte>, acc: seq<Value>, bad: bool, o: Options): (r: Parsed)
    ensures r.Parsed? ==> |r.rest| <= |s|
    decreases |s|, 3
  {
    match ParseValue(tok, s, bad, o)
    case Failed(at) => Failed(at)
    case Parsed(v, rest) =>
      var l := Lex(rest, bad);
      if l.token == TPunct(COMMA) then
        var l' := Lex(l.rest, bad);
        ParseItems(l'.token, l'.rest, acc + [v], bad, o)
      else if l.token == TPunct(RBRACKET) then Parsed(VArray(acc + [v]), l.rest)
      else Failed(l.token)
  }

  /** Colon and value of a member. */
  function MemberValue(s: seq<Byte>, bad: bool, o: Options): (r: Parsed)
    ensures r.Parsed? ==> |r.rest| <= |s|
  {
    var l := Lex(s, bad);
    if l.token != TPunct(COLON) then Failed(l.token)
    else
      var l' := Lex(l.rest, bad);
      ParseValue(l'.token, l'.rest, bad, o)
  }

  /** The loop of parse_object behind the value of a member. */
  function MembersTail(s: seq<Byte>, m: map<CString, Value>, bad: bool, o: Options): Parsed {
    var l := Lex(s, bad);
    if l.token == TPunct(COMMA) then
      var l' := Lex(l.rest, bad);
      ParseMembers(l'.token, l'.rest, m, bad, o)
    else if l.token == TPunct(RBRACE) then Parsed(VObject(m), l.rest)
    else Failed(l.token)
  }

  lemma MembersThen(tok: Token, s: seq<Byte>, m: map<CString, Value>, bad: bool, o: Options)
    ensures var p := MemberValue(s, bad, o);
            ParseMembers(tok, s, m, bad, o) ==
              if !tok.TString? || (o.rejectDuplicates && tok.s in m) then Failed(tok)
              else if p.Failed? then p
              else MembersTail(p.rest, m[tok.s := p.value], bad, o)
  {
    hide Lex, ParseValue;
  }

  /** The loop of parse_array behind an element. */
  function ItemsTail(s: seq<Byte>, acc: seq<Value>, bad: bool, o: Options): Parsed {
    var l := Lex(s, bad);
    if l.token == TPunct(COMMA) then
      var l' := Lex(l.rest, bad);
      ParseItems(l'.token, l'.rest, acc, bad, o)
    else if l.token == TPunct(RBRACKET) then Parsed(VArray(acc), l.rest)
    else Failed(l.token)
  }

  lemma ItemsThen(tok: Token, s: seq<Byte>, acc: seq<Value>, bad: bool, o: Options)
    ensures var p := ParseValue(tok, s, bad, o);
            ParseItems(tok, s, acc, bad, o) == if p.Failed? then p else ItemsTail(p.rest, acc + [p.value], bad, o)
  {
    hide Lex, ParseValue;
  }

  datatype Loaded = Loaded(value: Value) | LoadError(tok: Token)

  /** parse_json */
  function ParseJson(s: seq<Byte>, bad: bool, o: Options): Loaded {
    var l := Lex(s, bad);
    if !o.decodeAny && l.token != TPunct(LBRACKET) && l.token != TPunct(LBRACE) then LoadError(l.token)
    else
      match ParseValue(l.token, l.rest, bad, o)
      case Failed(at) => LoadError(at)
      case Parsed(v, rest) =>
        var end := Lex(rest, bad).token;
        if !o.disableEofCheck && end != TEof then LoadError(end) else Loaded(v)
  }

  // ---- single tokens

  predicate Blank(w: seq<Byte>) {
    forall i :: 0 <= i < |w| ==> IsSpace(w[i])
  }

  lemma {:induction false} SpaceRunBlank(w: seq<Byte>, s: seq<Byte>)
    requires Blank(w)
    ensures SpaceRun(w + s) == |w| + SpaceRun(s)
  {
    if |w| == 0 {
      assert w + s == s;
    } else {
      SpaceRunBlank(w[1..], s);
      assert (w + s)[1..] == w[1..] + s;
    }
  }

  lemma LexBlank(w: seq<Byte>, s: seq<Byte>, bad: bool)
    requires Blank(w)
    ensures Lex(w + s, bad) == Lex(s, bad)
  {
    hide SpaceRun, LexString, LexNumber, LexWord, IsPunct;
    SpaceRunBlank(w, s);
    assert (w + s)[|w| + SpaceRun(s)..] == s[SpaceRun(s)..];
  }

  lemma LexPunct(c: Byte, rest: seq<Byte>, bad: bool)
    requires IsPunct(c)
    ensures Lex([c] + rest, bad) == Lexed(TPunct(c), rest)
  {
    assert ([c] + rest)[1..] == rest;
  }

  /** Blanks and punctuation: nothing that continues a number or a word. */
  predicate EndsValue(rest: seq<Byte>) {
    |rest| == 0 || IsPunct(rest[0]) || IsSpace(rest[0])
  }

  lemma NoSpace(s: seq<Byte>)
    requires |s| > 0 && !IsSpace(s[0])
    ensures SpaceRun(s) == 0
  {
  }

  // ---- single steps

  lemma ItemsStep(tok: Token, s: seq<Byte>, acc: seq<Value>, bad: bool, o: Options, v: Value, tail: seq<Byte>)
    requires ParseValue(tok, s, bad, o) == Parsed(v, tail)
    ensures !NoToken(tok) && tok != TPunct(RBRACKET)
    ensures Lex(tail, bad).token == TPunct(RBRACKET) ==>
              ParseItems(tok, s, acc, bad, o) == Parsed(VArray(acc + [v]), Lex(tail, bad).rest)
    ensures Lex(tail, bad).token == TPunct(COMMA) ==>
              var l := Lex(Lex(tail, bad).rest, bad);
              ParseItems(tok, s, acc, bad, o) == ParseItems(l.token, l.rest, acc + [v], bad, o)
  {
  }

  lemma ItemKeys(ts: seq<Json>)
    requires |ts| > 0 && GoodKeys(Array(ts))
    ensures GoodKeys(ts[0]) && GoodKeys(Array(ts[1..]))
  {
  }

  lemma MemberKeys(ms: seq<Member<Json>>)
    requires |ms| > 0 && MembersWellFormed(ms) && GoodKeys(Object(ms))
    ensures GoodString(ms[0].key) && GoodKeys(ms[0].value) && GoodKeys(Object(ms[1..]))
  {
    hide WellFormed, Keys, IsUtf8;
  }

  lemma KeysTail<V>(ms: seq<Member<V>>)
    requires |ms| > 0
    ensures Keys(ms) == {ms[0].key} + Keys(ms[1..])
  {
    assert ms == [ms[0]] + ms[1..];
  }

  lemma {:induction false} MapOfKeys(ms: seq<Member<Json>>)
    ensures MapOf(ms).Keys == Keys(ms)
  {
    if |ms| > 0 {
      MapOfKeys(ms[1..]);
      KeysTail(ms);
    }
  }
}
