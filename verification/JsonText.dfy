/** JSON values as trees, the text do_dump prints for them, and the tokens lex_scan finds in a text. */
module JsonText {
  import opened Bytes
  import opened Utf8
  import JsonString
  import opened JsonNumber

  /** A value with no cycle in it.  A real is known by the text it is printed as.  The members of an object stand
      in iteration order of its table. */
  datatype Json =
    | Null | True | False
    | Integer(n: int)
    | Real(text: seq<Byte>)
    | String(s: CString)
    | Array(items: seq<Json>)
    | Object(members: seq<Member<Json>>)

  /** What a table maps a key to, with the serial number of the key. */
  datatype Member<V> = Member(key: CString, serial: nat, value: V)

  /** What a value means: objects are maps. */
  datatype Value =
    | VNull | VTrue | VFalse
    | VInteger(n: int)
    | VReal(text: seq<Byte>)
    | VString(s: CString)
    | VArray(items: seq<Value>)
    | VObject(members: map<CString, Value>)

  function ValueOf(t: Json): Value
    decreases t, 0
  {
    match t
    case Null => VNull
    case True => VTrue
    case False => VFalse
    case Integer(n) => VInteger(n)
    case Real(text) => VReal(text)
    case String(s) => VString(s)
    case Array(items) => VArray(ValuesOf(items))
    case Object(members) => VObject(MapOf(members))
  }

  function ValuesOf(ts: seq<Json>): seq<Value>
    decreases ts, 1
  {
    if |ts| == 0 then [] else [ValueOf(ts[0])] + ValuesOf(ts[1..])
  }

  function MapOf(ms: seq<Member<Json>>): map<CString, Value>
    decreases ms, 1
  {
    if |ms| == 0 then map[] else MapOf(ms[1..])[ms[0].key := ValueOf(ms[0].value)]
  }

  predicate GoodString(s: CString) { IsUtf8(s) && 0 !in s }

  /** Valid UTF-8 strings, 64-bit integers, and each key once per object.  Nothing is asked of the bytes of a key but
      that there is no NUL among them. */
  predicate WellFormed(t: Json)
    decreases t, 0
  {
    match t
    case Integer(n) => INT_MIN <= n <= INT_MAX
    case Real(text) => RealText(text)
    case String(s) => GoodString(s)
    case Array(items) => AllWellFormed(items)
    case Object(members) => MembersWellFormed(members)
    case _ => true
  }

  predicate AllWellFormed(ts: seq<Json>)
    decreases ts, 1
  {
    |ts| == 0 || (WellFormed(ts[0]) && AllWellFormed(ts[1..]))
  }

  predicate MembersWellFormed(ms: seq<Member<Json>>)
    decreases ms, 1
  {
    |ms| == 0 || (0 !in ms[0].key && ms[0].key !in Keys(ms[1..]) && WellFormed(ms[0].value) &&
                  MembersWellFormed(ms[1..]))
  }

  /** All keys are valid UTF-8. */
  predicate GoodKeys(t: Json) {
    match t
    case Array(items) => forall i :: 0 <= i < |items| ==> GoodKeys(items[i])
    case Object(members) => forall i :: 0 <= i < |members| ==> IsUtf8(members[i].key) && GoodKeys(members[i].value)
    case _ => true
  }

  /** Valid strings and keys, 64-bit integers, and reals that print as reals. */
  predicate GoodValue(v: Value) {
    match v
    case VInteger(n) => INT_MIN <= n <= INT_MAX
    case VReal(text) => RealText(text)
    case VString(s) => GoodString(s)
    case VArray(items) => forall i :: 0 <= i < |items| ==> GoodValue(items[i])
    case VObject(members) => forall k :: k in members ==> GoodString(k) && GoodValue(members[k])
    case _ => true
  }

  function Keys<V>(ms: seq<Member<V>>): set<CString> {
    set i | 0 <= i < |ms| :: ms[i].key
  }

  /** A table has each key once. */
  ghost predicate Unique<V>(ms: seq<Member<V>>) {
    forall i, j :: 0 <= i < j < |ms| ==> ms[i].key != ms[j].key
  }

  /** hashtable_find_pair: the position of a key among the members, or the length. */
  function Find<V>(ms: seq<Member<V>>, key: CString): (i: nat)
    ensures i <= |ms| && (i < |ms| ==> ms[i].key == key)
    ensures forall j :: 0 <= j < i ==> ms[j].key != key
  {
    if |ms| == 0 || ms[0].key == key then 0 else 1 + Find(ms[1..], key)
  }

  // ---- printing

  /** JSON_INDENT, JSON_COMPACT, JSON_ENSURE_ASCII, JSON_SORT_KEYS, JSON_PRESERVE_ORDER */
  datatype Flags = Flags(indent: nat, compact: bool, ascii: bool, sortKeys: bool, preserveOrder: bool)

  function Spaces(n: nat): (s: seq<Byte>)
    ensures |s| == n
  {
    seq(n, _ => SPACE)
  }

  /** dump_indent */
  function Indent(f: Flags, depth: nat, space: bool): seq<Byte> {
    if f.indent > 0 then [NEWLINE] + Spaces(depth * f.indent)
    else if space && !f.compact then [SPACE]
    else []
  }

  const NULL_TEXT: seq<Byte> := [0x6E, 0x75, 0x6C, 0x6C]
  const TRUE_TEXT: seq<Byte> := [0x74, 0x72, 0x75, 0x65]
  const FALSE_TEXT: seq<Byte> := [0x66, 0x61, 0x6C, 0x73, 0x65]

  function Separator(f: Flags): seq<Byte> {
    if f.compact then [COLON] else [COLON, SPACE]
  }

  /** A key and its separator.  That a key could not be printed is not noticed. */
  function KeyText(key: CString, f: Flags): seq<Byte> {
    JsonString.Shown(key, f.ascii) + Separator(f)
  }

  /** The text of a value whose members stand in the order they are printed in. */
  function Dump(t: Json, f: Flags, depth: nat): seq<Byte>
    requires WellFormed(t)
    decreases t, 0
  {
    match t
    case Null => NULL_TEXT
    case True => TRUE_TEXT
    case False => FALSE_TEXT
    case Integer(n) => Decimal(n)
    case Real(text) => text
    case String(s) => JsonString.Quoted(s, f.ascii)
    case Array(items) =>
      if |items| == 0 then [LBRACKET, RBRACKET]
      else [LBRACKET] + Indent(f, depth + 1, false) + DumpItems(items, f, depth) + [RBRACKET]
    case Object(members) =>
      if |members| == 0 then [LBRACE, RBRACE]
      else [LBRACE] + Indent(f, depth + 1, false) + DumpMembers(members, f, depth) + [RBRACE]
  }

  function DumpItems(ts: seq<Json>, f: Flags, depth: nat): seq<Byte>
    requires |ts| > 0 && AllWellFormed(ts)
    decreases ts, 1
  {
    Dump(ts[0], f, depth + 1) +
    (if |ts| == 1 then Indent(f, depth, false)
     else [COMMA] + Indent(f, depth + 1, true) + DumpItems(ts[1..], f, depth))
  }

  function DumpMembers(ms: seq<Member<Json>>, f: Flags, depth: nat): seq<Byte>
    requires |ms| > 0 && MembersWellFormed(ms)
    decreases ms, 1
  {
    KeyText(ms[0].key, f) + Dump(ms[0].value, f, depth + 1) +
    (if |ms| == 1 then Indent(f, depth, false)
     else [COMMA] + Indent(f, depth + 1, true) + DumpMembers(ms[1..], f, depth))
  }

  // ---- the order of members

  /** strcmp(a, b) < 0 */
  predicate Less(a: CString, b: CString)
    decreases |a|
  {
    if |b| == 0 then false
    else if |a| == 0 then true
    else a[0] < b[0] || (a[0] == b[0] && Less(a[1..], b[1..]))
  }

  predicate Before<V>(a: Member<V>, b: Member<V>, byKey: bool) {
    if byKey then Less(a.key, b.key) else a.serial < b.serial
  }

  /** qsort, as insertion from the back. */
  function Sorted<V>(ms: seq<Member<V>>, byKey: bool): seq<Member<V>> {
    if |ms| == 0 then [] else InsertSorted(ms[0], Sorted(ms[1..], byKey), byKey)
  }

  function InsertSorted<V>(m: Member<V>, ms: seq<Member<V>>, byKey: bool): seq<Member<V>> {
    if |ms| == 0 || !Before(ms[0], m, byKey) then [m] + ms
    else [ms[0]] + InsertSorted(m, ms[1..], byKey)
  }

  /** The order in which do_dump prints the members of an object. */
  function Order<V>(ms: seq<Member<V>>, f: Flags): seq<Member<V>> {
    if f.sortKeys then Sorted(ms, true) else if f.preserveOrder then Sorted(ms, false) else ms
  }

  /** The tree with the members of every object in printing order. */
  function Arrange(t: Json, f: Flags): Json
    decreases t, 0
  {
    match t
    case Array(items) => Array(ArrangeAll(items, f))
    case Object(members) => Object(Order(ArrangeMembers(members, f), f))
    case _ => t
  }

  function ArrangeAll(ts: seq<Json>, f: Flags): (r: seq<Json>)
    ensures |r| == |ts|
    decreases ts, 1
  {
    if |ts| == 0 then [] else [Arrange(ts[0], f)] + ArrangeAll(ts[1..], f)
  }

  function ArrangeMembers(ms: seq<Member<Json>>, f: Flags): (r: seq<Member<Json>>)
    ensures |r| == |ms|
    ensures forall i :: 0 <= i < |r| ==> r[i].key == ms[i].key && r[i].serial == ms[i].serial
    decreases ms, 1
  {
    if |ms| == 0 then []
    else [Member(ms[0].key, ms[0].serial, Arrange(ms[0].value, f))] + ArrangeMembers(ms[1..], f)
  }

  // ---- tokens

  datatype Token =
    | TPunct(c: Byte)
    | TString(s: seq<Byte>)
    | TInteger(n: int)
    | TReal(text: seq<Byte>)
    | TTrue | TFalse | TNull | TEof | TInvalid | TAborted

  datatype Lexed = Lexed(token: Token, rest: seq<Byte>)

  predicate IsPunct(c: Byte) {
    c == LBRACE || c == RBRACE || c == LBRACKET || c == RBRACKET || c == COLON || c == COMMA
  }

  function SpaceRun(s: seq<Byte>): (n: nat)
    ensures n <= |s|
  {
    if |s| > 0 && IsSpace(s[0]) then 1 + SpaceRun(s[1..]) else 0
  }

  function AlphaRun(s: seq<Byte>): (n: nat)
    ensures n <= |s|
    ensures |s| > 0 && IsAlpha(s[0]) ==> n > 0
  {
    if |s| > 0 && IsAlpha(s[0]) then 1 + AlphaRun(s[1..]) else 0
  }

  /** lex_scan on the bytes still to come.  `bad` says that behind them the input is not UTF-8. */
  function Lex(s: seq<Byte>, bad: bool): (r: Lexed)
    ensures |r.rest| <= |s|
    ensures r.token.TEof? || r.token.TInvalid? || r.token.TAborted? || |r.rest| < |s|
  {
    var t := s[SpaceRun(s)..];
    if |t| == 0 then Lexed(if bad then TInvalid else TEof, [])
    else if IsPunct(t[0]) then Lexed(TPunct(t[0]), t[1..])
    else if t[0] == QUOTE then LexString(t)
    else if IsDigit(t[0]) || t[0] == MINUS then LexNumber(t)
    else if IsAlpha(t[0]) then LexWord(t)
    else Lexed(TInvalid, [])
  }

  function LexString(t: seq<Byte>): (r: Lexed)
    requires |t| > 0 && t[0] == QUOTE
    ensures |r.rest| < |t|
  {
    match JsonString.Scan(t[1..])
    case None => Lexed(TInvalid, [])
    case Some(n) =>
      JsonString.ScanWellScanned(t[1..]);
      match JsonString.Decode(t[1..][..n])
      case Text(bytes) => Lexed(TString(bytes), t[n + 2..])
      case Invalid => Lexed(TInvalid, [])
      case Aborted => Lexed(TAborted, [])
  }

  function LexNumber(t: seq<Byte>): (r: Lexed)
    requires |t| > 0
    ensures |r.rest| < |t|
  {
    match ScanNumber(t)
    case BadNumber => Lexed(TInvalid, [])
    case RealLexeme(n) => if Overflows(t[..n]) then Lexed(TInvalid, []) else Lexed(TReal(t[..n]), t[n..])
    case IntegerLexeme(n) =>
      ScanIsNumber(t);
      if INT_MIN <= IntValue(t[..n]) <= INT_MAX then Lexed(TInteger(IntValue(t[..n])), t[n..])
      else Lexed(TInvalid, [])
  }

  function LexWord(t: seq<Byte>): (r: Lexed)
    requires |t| > 0 && IsAlpha(t[0])
    ensures |r.rest| < |t|
  {
    var n := AlphaRun(t);
    if t[..n] == TRUE_TEXT then Lexed(TTrue, t[n..])
    else if t[..n] == FALSE_TEXT then Lexed(TFalse, t[n..])
    else if t[..n] == NULL_TEXT then Lexed(TNull, t[n..])
    else Lexed(TInvalid, [])
  }
}
