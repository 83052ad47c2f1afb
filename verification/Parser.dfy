/** The parser of load.c: recursive descent, one token ahead, on the lexer's state. */
module Parser {
  import opened Bytes
  import opened Utf8
  import opened Stream
  import opened JsonText
  import opened JsonParse
  import opened Lexer
  import opened JsonAbort
  import opened JsonDerive

  /** What a function of the parser returns: a value or NULL; or it does not return, since an assertion failed. */
  datatype Result = Got(value: Value) | Nothing | Stopped

  /** The outcome where `tok` makes parsing fail. */
  function Refusal(tok: Token): Result {
    if tok.TAborted? then Stopped else Nothing
  }

  /** The outcome is the specified one, and on success what is left of the input is, too. */
  ghost predicate Agrees(lex: Lexer, r: Result, p: Parsed)
    reads lex, lex.stream, lex.stream.buffer
    requires lex.Valid()
  {
    match p
    case Failed(tok) => r == Refusal(tok)
    case Parsed(v, rest) => r == Got(v) && lex.Rem() == rest
  }

  /** The current token is scanned and `s` comes behind it, unless scanning failed. */
  ghost predicate Ahead(lex: Lexer, tok: Token, s: seq<Byte>)
    reads lex, lex.stream, lex.stream.buffer
    requires lex.Valid()
  {
    lex.Gives(Lexed(tok, s))
  }

  method Scan(lex: Lexer)
    requires lex.Valid()
    modifies lex, lex.stream, lex.stream.buffer
    ensures lex.Valid() && lex.Bad() == old(lex.Bad())
    ensures Ahead(lex, Lex(old(lex.Rem()), old(lex.Bad())).token, Lex(old(lex.Rem()), old(lex.Bad())).rest)
  {
    lex.Scan();
  }

  /** parse_value */
  method ParseOne(lex: Lexer, o: Options, ghost s: seq<Byte>) returns (r: Result)
    requires lex.Valid() && Ahead(lex, lex.token, s)
    modifies lex, lex.stream, lex.stream.buffer
    ensures lex.Valid() && lex.Bad() == old(lex.Bad())
    ensures Agrees(lex, r, ParseValue(old(lex.token), s, old(lex.Bad()), o))
    decreases |s|, if NoToken(lex.token) then 0 else 2
  {
    hide Lexer.Valid, Lexer.Rem, Lexer.Bad, ParseObject, ParseArray;
    match lex.token
    case TString(t) => r := Got(VString(t));
    case TInteger(n) => r := Got(VInteger(n));
    case TReal(t) => r := Got(VReal(t));
    case TTrue => r := Got(VTrue);
    case TFalse => r := Got(VFalse);
    case TNull => r := Got(VNull);
    case TPunct(c) =>
      if c == LBRACE {
        r := ParseMap(lex, o, s);
      } else if c == LBRACKET {
        r := ParseList(lex, o, s);
      } else {
        r := Nothing;
      }
    case _ => r := Refusal(lex.token);
  }

  /** Colon and value of a member. */
  method ParseMember(lex: Lexer, o: Options, ghost s: seq<Byte>) returns (r: Result)
    requires lex.Valid() && lex.Rem() == s
    modifies lex, lex.stream, lex.stream.buffer
    ensures lex.Valid() && lex.Bad() == old(lex.Bad())
    ensures Agrees(lex, r, MemberValue(s, old(lex.Bad()), o))
    decreases |s|, 0, 0
  {
    hide Lexer.Valid, Lexer.Rem, Lexer.Bad, ParseValue, Lex;
    Scan(lex);
    if lex.token != TPunct(COLON) {
      return Refusal(lex.token);
    }
    ghost var rest := lex.Rem();
    Scan(lex);
    r := ParseOne(lex, o, Lex(rest, old(lex.Bad())).rest);
  }

  /** parse_object */
  method ParseMap(lex: Lexer, o: Options, ghost s: seq<Byte>) returns (r: Result)
    requires lex.Valid() && lex.Rem() == s
    modifies lex, lex.stream, lex.stream.buffer
    ensures lex.Valid() && lex.Bad() == old(lex.Bad())
    ensures Agrees(lex, r, ParseObject(s, old(lex.Bad()), o))
    decreases |s|, 1
  {
    hide Lexer.Valid, Lexer.Rem, Lexer.Bad, MemberValue, ParseMembers, Lex;
    ghost var bad := lex.Bad();
    Scan(lex);
    ghost var tail := Lex(s, bad).rest;
    if lex.token == TPunct(RBRACE) {
      return Got(VObject(map[]));
    }
    var members: map<CString, Value> := map[];
    while true
      invariant lex.Valid() && lex.Bad() == bad && Ahead(lex, lex.token, tail) && |tail| <= |s|
      invariant ParseObject(s, bad, o) == ParseMembers(lex.token, tail, members, bad, o)
      decreases |tail|
    {
      MembersThen(lex.token, tail, members, bad, o);
      if !lex.token.TString? {
        return Refusal(lex.token);
      }
      var key := lex.token.s;
      if o.rejectDuplicates && key in members {
        return Nothing;
      }
      var value := ParseMember(lex, o, tail);
      if !value.Got? {
        return value;
      }
      members := members[key := value.value];
      ghost var l := Lex(lex.Rem(), bad);
      Scan(lex);
      if lex.token != TPunct(COMMA) {
        return if lex.token == TPunct(RBRACE) then Got(VObject(members)) else Refusal(lex.token);
      }
      Scan(lex);
      tail := Lex(l.rest, bad).rest;
    }
  }

  /** parse_array */
  method ParseList(lex: Lexer, o: Options, ghost s: seq<Byte>) returns (r: Result)
    requires lex.Valid() && lex.Rem() == s
    modifies lex, lex.stream, lex.stream.buffer
    ensures lex.Valid() && lex.Bad() == old(lex.Bad())
    ensures Agrees(lex, r, ParseArray(s, old(lex.Bad()), o))
    decreases |s|, 1
  {
    hide Lexer.Valid, Lexer.Rem, Lexer.Bad, ParseValue, ParseItems, Lex;
    ghost var bad := lex.Bad();
    Scan(lex);
    ghost var tail := Lex(s, bad).rest;
    if lex.token == TPunct(RBRACKET) {
      return Got(VArray([]));
    }
    var items: seq<Value> := [];
    while lex.token != TEof
      invariant lex.Valid() && lex.Bad() == bad && Ahead(lex, lex.token, tail) && |tail| <= |s|
      invariant NoToken(lex.token) || |tail| < |s|
      invariant ParseArray(s, bad, o) == if NoToken(lex.token) then Failed(lex.token)
                                         else ParseItems(lex.token, tail, items, bad, o)
      decreases |tail|
    {
      NoItems(lex.token, tail, items, bad, o);
      ItemsThen(lex.token, tail, items, bad, o);
      var elem := ParseOne(lex, o, tail);
      if !elem.Got? {
        return elem;
      }
      items := items + [elem.value];
      ghost var l := Lex(lex.Rem(), bad);
      Scan(lex);
      if lex.token != TPunct(COMMA) {
        return if lex.token == TPunct(RBRACKET) then Got(VArray(items)) else Refusal(lex.token);
      }
      Scan(lex);
      tail := Lex(l.rest, bad).rest;
      NoItems(lex.token, tail, items, bad, o);
    }
    r := Nothing;
  }

  lemma NoItems(tok: Token, s: seq<Byte>, acc: seq<Value>, bad: bool, o: Options)
    ensures NoToken(tok) ==> ParseValue(tok, s, bad, o) == ParseItems(tok, s, acc, bad, o) == Failed(tok)
  {
  }

  function Outcome(l: Loaded): Result {
    match l
    case Loaded(v) => Got(v)
    case LoadError(tok) => Refusal(tok)
  }

  /** parse_json */
  method ParseText(lex: Lexer, o: Options) returns (r: Result)
    requires lex.Valid()
    modifies lex, lex.stream, lex.stream.buffer
    ensures r == Outcome(ParseJson(old(lex.Rem()), old(lex.Bad()), o))
  {
    hide Lexer.Valid, Lexer.Rem, Lexer.Bad, ParseValue, Lex;
    Scan(lex);
    if !o.decodeAny && lex.token != TPunct(LBRACKET) && lex.token != TPunct(LBRACE) {
      return Refusal(lex.token);
    }
    r := ParseOne(lex, o, Lex(old(lex.Rem()), old(lex.Bad())).rest);
    if r.Got? && !o.disableEofCheck {
      Scan(lex);
      if lex.token != TEof {
        r := Refusal(lex.token);
      }
    }
  }

  /** json_loads.  It does not return if what stands in front of the first string literal that cannot be decoded for
      an assertion is unfinished, or is finished while the end of the text is checked for. */
  method Loads(input: CString, o: Options) returns (r: Result)
    requires 0 !in input
    ensures r == Outcome(ParseJson(ValidPrefix(input), !IsUtf8(input), o))
    ensures r == Stopped <==>
              var at := AbortAt(ValidPrefix(input));
              at.Some? && RunsOut(ValidPrefix(input)[..at.value], o)
    ensures forall v :: r == Got(v) <==> StandsFor(ValidPrefix(input), !IsUtf8(input), o, v)
    ensures !o.disableEofCheck ==> forall v :: r == Got(v) <==> IsUtf8(input) && StandsFor(input, false, o, v)
  {
    hide ParseJson, ValidPrefix, IsUtf8, AbortAt, RunsOut, TextFor;
    var lex := new Lexer(input);
    r := ParseText(lex, o);
    LoadsAbortsExactly(ValidPrefix(input), !IsUtf8(input), o);
    ValidPrefixAll(input);
    forall v
      ensures r == Got(v) <==> StandsFor(ValidPrefix(input), !IsUtf8(input), o, v)
    {
      ParsedExactly(ValidPrefix(input), !IsUtf8(input), o, v);
    }
    if !o.disableEofCheck && !IsUtf8(input) {
      NoneStandsFor(ValidPrefix(input), o);
    }
  }

  /** Nothing stands in front of invalid bytes, where the end of the text is checked for. */
  lemma NoneStandsFor(s: seq<Byte>, o: Options)
    requires !o.disableEofCheck
    ensures forall v :: !StandsFor(s, true, o, v)
  {
  }
}
