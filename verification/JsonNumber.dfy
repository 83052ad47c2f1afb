/** JSON numbers: what snprintf("%lld") writes, and what lex_scan_number recognizes. */
module JsonNumber {
  import opened Bytes

  const INT_MIN: int := -0x8000_0000_0000_0000
  const INT_MAX: int := 0x7fff_ffff_ffff_ffff

  // ---- decimal

  function Digits(n: nat): (s: seq<Byte>)
    ensures |s| > 0 && AllDigits(s)
    ensures n > 0 ==> s[0] != ZERO
    ensures n == 0 ==> s == [ZERO]
  {
    if n < 10 then [0x30 + n] else Digits(n / 10) + [0x30 + n % 10]
  }

  function Decimal(n: int): (s: seq<Byte>)
    ensures |s| > 0
  {
    if n < 0 then [MINUS] + Digits(-n) else Digits(n)
  }

  predicate AllDigits(s: seq<Byte>) {
    forall i :: 0 <= i < |s| ==> IsDigit(s[i])
  }

  function NatValue(s: seq<Byte>): nat
    requires AllDigits(s)
  {
    if |s| == 0 then 0 else NatValue(s[..|s| - 1]) * 10 + (s[|s| - 1] - 0x30)
  }

  /** An optional minus sign and digits. */
  predicate IsInteger(s: seq<Byte>) {
    if |s| > 0 && s[0] == MINUS then |s| > 1 && AllDigits(s[1..]) else |s| > 0 && AllDigits(s)
  }

  /** strtoll, before the range check. */
  function IntValue(s: seq<Byte>): int
    requires IsInteger(s)
  {
    if s[0] == MINUS then -(NatValue(s[1..]) as int) else NatValue(s)
  }

  lemma {:induction false} DigitsValue(n: nat)
    ensures NatValue(Digits(n)) == n
  {
    if n < 10 {
      assert Digits(n)[..0] == [];
    } else {
      DigitsValue(n / 10);
      assert Digits(n)[..|Digits(n)| - 1] == Digits(n / 10);
    }
  }

  lemma DecimalValue(n: int)
    ensures IsInteger(Decimal(n)) && IntValue(Decimal(n)) == n
  {
    if n < 0 {
      DigitsValue(-n);
      assert Decimal(n)[1..] == Digits(-n);
    } else {
      DigitsValue(n);
    }
  }

  // ---- scanning

  datatype Lexeme = IntegerLexeme(len: nat) | RealLexeme(len: nat) | BadNumber

  /** The loop over digits. */
  function DigitRun(s: seq<Byte>): (n: nat)
    ensures n <= |s| && AllDigits(s[..n]) && (n < |s| ==> !IsDigit(s[n]))
  {
    if |s| > 0 && IsDigit(s[0]) then
      var n := DigitRun(s[1..]);
      assert s[..n + 1] == [s[0]] + s[1..][..n];
      n + 1
    else 0
  }

  /** lex_scan_number on a text that starts with a digit or a minus sign. */
  function ScanNumber(s: seq<Byte>): (r: Lexeme)
    requires |s| > 0
    ensures !r.BadNumber? ==> 0 < r.len <= |s|
  {
    var i := if s[0] == MINUS then 1 else 0;
    if i == |s| || !IsDigit(s[i]) then BadNumber
    else if s[i] == ZERO && i + 1 < |s| && IsDigit(s[i + 1]) then BadNumber
    else
      var j := if s[i] == ZERO then i + 1 else i + DigitRun(s[i..]);
      if j < |s| && s[j] == DOT then ScanFraction(s, j)
      else if j < |s| && (s[j] == UPPER_E || s[j] == LOWER_E) then ScanExponent(s, j)
      else IntegerLexeme(j)
  }

  function ScanFraction(s: seq<Byte>, j: nat): (r: Lexeme)
    requires j < |s| && s[j] == DOT
    ensures !r.IntegerLexeme? && (!r.BadNumber? ==> j < r.len <= |s|)
  {
    if j + 1 == |s| || !IsDigit(s[j + 1]) then BadNumber
    else
      var k := j + 1 + DigitRun(s[j + 1..]);
      if k < |s| && (s[k] == UPPER_E || s[k] == LOWER_E) then ScanExponent(s, k) else RealLexeme(k)
  }

  function ScanExponent(s: seq<Byte>, k: nat): (r: Lexeme)
    requires k < |s|
    ensures !r.IntegerLexeme? && (!r.BadNumber? ==> k < r.len <= |s|)
  {
    var l := if k + 1 < |s| && (s[k + 1] == PLUS || s[k + 1] == MINUS) then k + 2 else k + 1;
    if l == |s| || !IsDigit(s[l]) then BadNumber
    else RealLexeme(l + DigitRun(s[l..]))
  }

  // ---- the range of a double

  function Pow(b: nat, e: nat): nat {
    if e == 0 then 1 else b * Pow(b, e - 1)
  }

  /** Halfway between the greatest double and 2 to the power of 1024: from there on, rounding overflows. */
  function DoubleBound(): int {
    Pow(2, 1024) - Pow(2, 970)
  }

  /** x times ten to the power of e. */
  function Scale(x: real, e: int): real
    decreases if e < 0 then -e else e
  {
    if e == 0 then x else if e > 0 then Scale(x * 10.0, e - 1) else Scale(x / 10.0, e + 1)
  }

  function RunValue(s: seq<Byte>): nat {
    NatValue(s[..DigitRun(s)])
  }

  /** The value of an exponent part, which may be missing. */
  function Exponent(s: seq<Byte>): int {
    if |s| < 2 then 0
    else if s[1] == MINUS then -(RunValue(s[2..]) as int)
    else if s[1] == PLUS then RunValue(s[2..])
    else RunValue(s[1..])
  }

  /** The value of a number lexeme, without its sign. */
  function Magnitude(s: seq<Byte>): real {
    var i := if |s| > 0 && s[0] == MINUS then 1 else 0;
    var j := i + DigitRun(s[i..]);
    if j < |s| && s[j] == DOT then
      var n := DigitRun(s[j + 1..]);
      Scale(NatValue(s[i..][..j - i] + s[j + 1..][..n]) as real, Exponent(s[j + 1 + n..]) - n)
    else Scale(NatValue(s[i..][..j - i]) as real, Exponent(s[j..]))
  }

  /** jsonp_strtod fails: strtod, which rounds to the nearest double, has none. */
  predicate Overflows(s: seq<Byte>) {
    Magnitude(s) >= DoubleBound() as real
  }

  // ---- the grammar (section 6 of RFC 8259)

  /** int = zero / ( digit1-9 *DIGIT ) */
  predicate GrammarInt(s: seq<Byte>) {
    s == [ZERO] || (|s| > 0 && AllDigits(s) && s[0] != ZERO)
  }

  /** [ frac ], frac = decimal-point 1*DIGIT */
  predicate GrammarFrac(s: seq<Byte>) {
    |s| == 0 || (|s| > 1 && s[0] == DOT && AllDigits(s[1..]))
  }

  /** [ exp ], exp = e [ minus / plus ] 1*DIGIT */
  predicate GrammarExp(s: seq<Byte>) {
    |s| == 0
    || ((s[0] == UPPER_E || s[0] == LOWER_E) &&
        ((|s| > 1 && AllDigits(s[1..]))
      || (|s| > 2 && (s[1] == PLUS || s[1] == MINUS) && AllDigits(s[2..]))))
  }

  /** number = [ minus ] int [ frac ] [ exp ], with the parts ending at positions i, j, k. */
  ghost predicate NumberParts(s: seq<Byte>, i: nat, j: nat, k: nat) {
    && i <= j <= k <= |s|
    && (s[..i] == [] || s[..i] == [MINUS])
    && GrammarInt(s[i..j]) && GrammarFrac(s[j..k]) && GrammarExp(s[k..])
  }

  ghost predicate IsNumber(s: seq<Byte>) {
    exists i, j, k :: NumberParts(s, i, j, k)
  }

  /** Nothing that could continue a number. */
  predicate EndsNumber(rest: seq<Byte>) {
    |rest| == 0 || !(IsDigit(rest[0]) || rest[0] == DOT || rest[0] == UPPER_E || rest[0] == LOWER_E)
  }

  /** What follows does not continue a number of length `n` whose integer part ends at `j` and whose fraction ends at
      `k`. */
  predicate Ends(n: nat, j: nat, k: nat, rest: seq<Byte>) {
    |rest| > 0 ==>
      && !IsDigit(rest[0])
      && (j == n ==> rest[0] != DOT)
      && (k == n ==> rest[0] != UPPER_E && rest[0] != LOWER_E)
  }

  /** The same, by what there is in the number. */
  predicate NumberStops(s: seq<Byte>, rest: seq<Byte>) {
    |rest| > 0 ==>
      && !IsDigit(rest[0])
      && (rest[0] == DOT ==> !IsInteger(s))
      && (rest[0] == UPPER_E || rest[0] == LOWER_E ==> UPPER_E in s || LOWER_E in s)
  }

  lemma {:induction false} DigitRunIs(d: seq<Byte>, t: seq<Byte>)
    requires AllDigits(d) && (|t| > 0 ==> !IsDigit(t[0]))
    ensures DigitRun(d + t) == |d|
  {
    if |d| == 0 {
      assert d + t == t;
    } else {
      DigitRunIs(d[1..], t);
      assert (d + t)[1..] == d[1..] + t;
    }
  }

  // ---- what is recognized is a number

  lemma ExponentIsGrammar(s: seq<Byte>, k: nat)
    requires k < |s| && (s[k] == UPPER_E || s[k] == LOWER_E) && !ScanExponent(s, k).BadNumber?
    ensures ScanExponent(s, k).RealLexeme? && GrammarExp(s[k..ScanExponent(s, k).len])
    ensures ScanExponent(s, k).len < |s| ==> !IsDigit(s[ScanExponent(s, k).len])
  {
    var l := if k + 1 < |s| && (s[k + 1] == PLUS || s[k + 1] == MINUS) then k + 2 else k + 1;
    var e := s[k..ScanExponent(s, k).len];
    assert s[l..][..DigitRun(s[l..])] == e[l - k..];
  }

  lemma FractionIsGrammar(s: seq<Byte>, j: nat) returns (k: nat)
    requires j < |s| && s[j] == DOT && !ScanFraction(s, j).BadNumber?
    ensures ScanFraction(s, j).RealLexeme? && j <= k <= ScanFraction(s, j).len
    ensures GrammarFrac(s[j..k]) && GrammarExp(s[k..ScanFraction(s, j).len])
    ensures Ends(ScanFraction(s, j).len, j, k, s[ScanFraction(s, j).len..])
  {
    var n := DigitRun(s[j + 1..]);
    k := j + 1 + n;
    assert s[j + 1..][..n] == s[j..k][1..];
    if k < |s| && (s[k] == UPPER_E || s[k] == LOWER_E) {
      ExponentIsGrammar(s, k);
    }
  }

  lemma IntIsGrammar(s: seq<Byte>, i: nat) returns (j: nat)
    requires i < |s| && IsDigit(s[i])
    requires !(s[i] == ZERO && i + 1 < |s| && IsDigit(s[i + 1]))
    ensures j == if s[i] == ZERO then i + 1 else i + DigitRun(s[i..])
    ensures i < j <= |s| && GrammarInt(s[i..j]) && AllDigits(s[i..j]) && (j < |s| ==> !IsDigit(s[j]))
  {
    if s[i] == ZERO {
      j := i + 1;
      assert s[i..j] == [ZERO];
    } else {
      j := i + DigitRun(s[i..]);
      assert s[i..j] == s[i..][..DigitRun(s[i..])];
    }
  }

  lemma PartsOfPrefix(s: seq<Byte>, i: nat, j: nat, k: nat, n: nat)
    requires i <= j <= k <= n <= |s|
    requires s[..i] == [] || s[..i] == [MINUS]
    requires GrammarInt(s[i..j]) && GrammarFrac(s[j..k]) && GrammarExp(s[k..n])
    ensures NumberParts(s[..n], i, j, k)
  {
    hide GrammarInt, GrammarFrac, GrammarExp;
    Slices(s, 0, i, n);
    Slices(s, i, j, n);
    Slices(s, j, k, n);
    Slices(s, k, n, n);
  }

  lemma Slices(s: seq<Byte>, i: nat, j: nat, n: nat)
    requires i <= j <= n <= |s|
    ensures s[..n][i..j] == s[i..j]
  {
  }

  lemma TailOfSlice(s: seq<Byte>, k: nat, l: nat, n: nat)
    requires k <= l <= n <= |s|
    ensures s[k..n][l - k..] == s[l..n]
  {
  }

  lemma SliceAndRest(s: seq<Byte>, l: nat, n: nat)
    requires l <= n <= |s|
    ensures s[l..] == s[l..n] + s[n..]
  {
  }

  /** The parts of what lex_scan_number accepts. */
  lemma ScanParts(s: seq<Byte>) returns (i: nat, j: nat, k: nat)
    requires |s| > 0 && !ScanNumber(s).BadNumber?
    ensures NumberParts(s[..ScanNumber(s).len], i, j, k)
    ensures ScanNumber(s).RealLexeme? ==> j < ScanNumber(s).len
    ensures ScanNumber(s).IntegerLexeme? ==> IsInteger(s[..ScanNumber(s).len]) && EndsNumber(s[ScanNumber(s).len..])
    ensures Ends(ScanNumber(s).len, j, k, s[ScanNumber(s).len..])
  {
    hide ScanFraction, ScanExponent, NumberParts, DigitRun, GrammarInt, GrammarFrac, GrammarExp, IsInteger, EndsNumber;
    i := if s[0] == MINUS then 1 else 0;
    var n := ScanNumber(s).len;
    assert s[..i] == if i == 0 then [] else [MINUS];
    j := IntIsGrammar(s, i);
    k := j;
    NoPart(s, j);
    if j < |s| && s[j] == DOT {
      k := FractionIsGrammar(s, j);
    } else if j < |s| && (s[j] == UPPER_E || s[j] == LOWER_E) {
      ExponentIsGrammar(s, j);
    } else {
      IntegerWhole(s, i, j);
    }
    PartsOfPrefix(s, i, j, k, n);
  }

  /** A number may lack its fraction and its exponent. */
  lemma NoPart(s: seq<Byte>, j: nat)
    requires j <= |s|
    ensures GrammarFrac(s[j..j]) && GrammarExp(s[j..j])
  {
  }

  lemma IntegerWhole(s: seq<Byte>, i: nat, j: nat)
    requires i < j <= |s| && AllDigits(s[i..j]) && i == (if s[0] == MINUS then 1 else 0)
    requires j < |s| ==> !IsDigit(s[j]) && s[j] != DOT && s[j] != UPPER_E && s[j] != LOWER_E
    ensures IsInteger(s[..j]) && EndsNumber(s[j..])
  {
    assert s[..j][i..] == s[i..j];
    assert i == 0 ==> s[..j] == s[i..j];
  }

  /** Whatever lex_scan_number accepts is a number of the grammar; an integer lexeme is one without
      fraction and exponent, and the next character does not continue the number. */
  lemma ScanIsNumber(s: seq<Byte>)
    requires |s| > 0 && !ScanNumber(s).BadNumber?
    ensures IsNumber(s[..ScanNumber(s).len])
    ensures ScanNumber(s).IntegerLexeme? ==> IsInteger(s[..ScanNumber(s).len]) && EndsNumber(s[ScanNumber(s).len..])
    ensures ScanNumber(s).RealLexeme? ==> ScanNumber(s[..ScanNumber(s).len]) == ScanNumber(s)
    ensures ScanNumber(s).len < |s| ==> !IsDigit(s[ScanNumber(s).len])
  {
    hide ScanNumber, NumberParts;
    var i, j, k := ScanParts(s);
    var t := s[..ScanNumber(s).len];
    NumberScans(t, [], i, j, k);
    assert t + [] == t;
  }

  // ---- every number is recognized

  lemma GrammarExponentScans(s: seq<Byte>, k: nat, n: nat)
    requires k < n <= |s| && GrammarExp(s[k..n]) && (n < |s| ==> !IsDigit(s[n]))
    ensures ScanExponent(s, k) == RealLexeme(n)
  {
    hide DigitRun;
    var e := s[k..n];
    assert e[1] == s[k + 1];
    var l := if s[k + 1] == PLUS || s[k + 1] == MINUS then k + 2 else k + 1;
    TailOfSlice(s, k, l, n);
    DigitRunIs(s[l..n], s[n..]);
    SliceAndRest(s, l, n);
    assert s[l] == s[l..n][0];
  }

  lemma GrammarFractionScans(s: seq<Byte>, j: nat, k: nat, n: nat)
    requires j < k <= n <= |s| && GrammarFrac(s[j..k]) && GrammarExp(s[k..n]) && Ends(n, j, k, s[n..])
    ensures s[j] == DOT && ScanFraction(s, j) == RealLexeme(n)
  {
    hide ScanExponent, DigitRun;
    var f := s[j..k];
    assert f[0] == s[j] && f[1] == s[j + 1];
    TailOfSlice(s, j, j + 1, k);
    if k < n {
      assert s[k..n][0] == s[k];
      GrammarExponentScans(s, k, n);
    }
    DigitRunIs(s[j + 1..k], s[k..]);
    SliceAndRest(s, j + 1, k);
  }

  /** A number of the grammar with nothing behind it that continues it is scanned as a whole. */
  lemma NumberScans(s: seq<Byte>, rest: seq<Byte>, i: nat, j: nat, k: nat)
    requires NumberParts(s, i, j, k) && Ends(|s|, j, k, rest)
    ensures ScanNumber(s + rest) == if j == |s| then IntegerLexeme(|s|) else RealLexeme(|s|)
  {
    hide GrammarInt, GrammarFrac, GrammarExp, Ends, ScanNumber;
    var t, n := s + rest, |s|;
    assert t[..n] == s && t[n..] == rest;
    Slices(t, 0, i, n);
    Slices(t, i, j, n);
    Slices(t, j, k, n);
    Slices(t, k, n, n);
    IntNotEmpty(s[i..j]);
    assert t[i] == t[i..j][0];
    assert i > 0 ==> t[0] == s[..i][0];
    IntScans(t, i, j, k, n);
  }

  lemma IntNotEmpty(s: seq<Byte>)
    requires GrammarInt(s)
    ensures |s| > 0 && s[0] != MINUS
  {
  }

  lemma IntRun(t: seq<Byte>, i: nat, j: nat)
    requires i < j <= |t| && GrammarInt(t[i..j]) && (j < |t| ==> !IsDigit(t[j]))
    ensures IsDigit(t[i]) && j == if t[i] == ZERO then i + 1 else i + DigitRun(t[i..])
  {
    assert t[i] == t[i..j][0];
    assert t[i..] == t[i..j] + t[j..];
    DigitRunIs(t[i..j], t[j..]);
  }

  lemma IntScans(t: seq<Byte>, i: nat, j: nat, k: nat, n: nat)
    requires i < j <= k <= n <= |t| && i <= 1 && (i == 1 <==> t[0] == MINUS)
    requires GrammarInt(t[i..j]) && GrammarFrac(t[j..k]) && GrammarExp(t[k..n]) && Ends(n, j, k, t[n..])
    ensures ScanNumber(t) == if j == n then IntegerLexeme(n) else RealLexeme(n)
  {
    hide ScanFraction, ScanExponent, DigitRun;
    assert j < k ==> t[j] == t[j..k][0];
    assert k < n ==> t[k] == t[k..n][0];
    assert n < |t| ==> t[n] == t[n..][0];
    IntRun(t, i, j);
    if j < k {
      GrammarFractionScans(t, j, k, n);
    } else if k < n {
      GrammarExponentScans(t, k, n);
    }
  }

  /** A number without fraction and exponent is an integer, and one with an exponent has an e in it. */
  lemma PartsTell(s: seq<Byte>, i: nat, j: nat, k: nat)
    requires NumberParts(s, i, j, k)
    ensures j == |s| <==> IsInteger(s)
    ensures k < |s| <==> UPPER_E in s || LOWER_E in s
  {
    hide GrammarInt, GrammarFrac, GrammarExp, IsInteger;
    assert s == s[..i] + s[i..j] + s[j..k] + s[k..];
    IntNotEmpty(s[i..j]);
    PartBytes(s[i..j], s[j..k], s[k..]);
    if j == |s| {
      WholeIsInteger(s, i);
    } else {
      BrokenIsNoInteger(s, i, j);
    }
  }

  lemma PartBytes(a: seq<Byte>, b: seq<Byte>, c: seq<Byte>)
    requires GrammarInt(a) && GrammarFrac(b) && GrammarExp(c)
    ensures UPPER_E !in a && LOWER_E !in a && UPPER_E !in b && LOWER_E !in b
    ensures |c| > 0 ==> c[0] == UPPER_E || c[0] == LOWER_E
    ensures |b| > 0 ==> b[0] == DOT
  {
    assert forall i :: 0 <= i < |b| - 1 ==> b[i + 1] == b[1..][i];
  }

  lemma WholeIsInteger(s: seq<Byte>, i: nat)
    requires i <= |s| && (s[..i] == [] || s[..i] == [MINUS]) && GrammarInt(s[i..|s|])
    ensures IsInteger(s)
  {
    assert s[i..|s|] == s[i..];
    assert s == s[..i] + s[i..];
  }

  lemma BrokenIsNoInteger(s: seq<Byte>, i: nat, j: nat)
    requires i < j < |s| && i <= 1 && !IsDigit(s[j])
    ensures !IsInteger(s)
  {
    assert |s| > 1 ==> s[1..][j - 1] == s[j];
  }

  lemma NumberStopsIs(s: seq<Byte>, i: nat, j: nat, k: nat, rest: seq<Byte>)
    requires NumberParts(s, i, j, k)
    ensures NumberStops(s, rest) <==> Ends(|s|, j, k, rest)
  {
    hide NumberParts, IsInteger;
    PartsTell(s, i, j, k);
    InRange(s, i, j, k);
  }

  lemma InRange(s: seq<Byte>, i: nat, j: nat, k: nat)
    requires NumberParts(s, i, j, k)
    ensures i <= j <= k <= |s|
  {
  }

  /** What is accepted stops where nothing continues it. */
  lemma ScanStops(s: seq<Byte>)
    requires |s| > 0 && !ScanNumber(s).BadNumber?
    ensures var n := ScanNumber(s).len;
            IsNumber(s[..n]) && NumberStops(s[..n], s[n..]) && (ScanNumber(s).IntegerLexeme? <==> IsInteger(s[..n]))
  {
    hide ScanNumber, NumberParts, NumberStops, IsInteger;
    var i, j, k := ScanParts(s);
    var t := s[..ScanNumber(s).len];
    NumberStopsIs(t, i, j, k, s[ScanNumber(s).len..]);
    PartsTell(t, i, j, k);
    InRange(t, i, j, k);
  }

  /** And every number with nothing behind it that continues it is accepted. */
  lemma NumberAccepted(s: seq<Byte>, rest: seq<Byte>)
    requires IsNumber(s) && NumberStops(s, rest)
    ensures |s| > 0 && (IsDigit(s[0]) || s[0] == MINUS)
    ensures ScanNumber(s + rest) == if IsInteger(s) then IntegerLexeme(|s|) else RealLexeme(|s|)
  {
    hide ScanNumber, NumberStops, IsInteger;
    var i, j, k :| NumberParts(s, i, j, k);
    NumberHead(s, i, j, k);
    NumberStopsIs(s, i, j, k, rest);
    NumberScans(s, rest, i, j, k);
    PartsTell(s, i, j, k);
  }

  lemma NumberHead(s: seq<Byte>, i: nat, j: nat, k: nat)
    requires NumberParts(s, i, j, k)
    ensures |s| > 0 && (IsDigit(s[0]) || s[0] == MINUS)
  {
    IntNotEmpty(s[i..j]);
    assert i > 0 ==> s[..i][0] == s[0];
    assert s[i..j][0] == s[i];
  }

  /** The text snprintf writes for an integer is scanned as a whole, as an integer. */
  lemma DecimalScans(n: int, rest: seq<Byte>)
    requires EndsNumber(rest)
    ensures ScanNumber(Decimal(n) + rest) == IntegerLexeme(|Decimal(n)|)
  {
    var s := Decimal(n);
    var i := if n < 0 then 1 else 0;
    assert s[i..|s|] == Digits(if n < 0 then -n else n);
    assert NumberParts(s, i, |s|, |s|);
    NumberScans(s, rest, i, |s|, |s|);
  }

  /** A number with a fraction or an exponent that is in the range of a double, as jsonp_dtostr writes reals. */
  predicate RealText(s: seq<Byte>) {
    |s| > 0 && ScanNumber(s) == RealLexeme(|s|) && !Overflows(s)
  }

  /** The text of a real is scanned as a whole, as a real. */
  lemma RealScans(s: seq<Byte>, rest: seq<Byte>)
    requires RealText(s) && EndsNumber(rest)
    ensures ScanNumber(s + rest) == RealLexeme(|s|) && IsNumber(s)
  {
    hide ScanNumber, NumberParts, Overflows;
    ScanIsNumber(s);
    assert s[..|s|] == s == s + [];
    var i, j, k :| NumberParts(s, i, j, k);
    NumberScans(s, [], i, j, k);
    NumberScans(s, rest, i, j, k);
  }

  // ---- which powers of ten overflow

  lemma {:induction false} ScalePow(x: nat, e: nat)
    ensures Scale(x as real, e) == (x * Pow(10, e)) as real
    decreases e
  {
    if e > 0 {
      ScalePow(x * 10, e - 1);
      assert (x * 10) as real == x as real * 10.0;
      assert x * 10 * Pow(10, e - 1) == x * Pow(10, e);
    }
  }

  lemma {:induction false} PowGrows(b: nat, m: nat, n: nat)
    requires b > 0 && m <= n
    ensures 0 < Pow(b, m) <= Pow(b, n)
    decreases n
  {
    if m < n {
      PowGrows(b, m, n - 1);
    } else if n > 0 {
      PowGrows(b, m - 1, n - 1);
    }
  }

  lemma {:induction false} PowAdd(b: nat, m: nat, n: nat)
    ensures Pow(b, m + n) == Pow(b, m) * Pow(b, n)
    decreases m
  {
    hide Pow;
    PowNone(b);
    if m > 0 {
      PowAdd(b, m - 1, n);
      PowNext(b, m - 1);
      PowNext(b, m - 1 + n);
      Regroup(b, Pow(b, m - 1), Pow(b, n));
    }
  }

  lemma PowNone(b: nat)
    ensures Pow(b, 0) == 1
  {
  }

  lemma PowNext(b: nat, n: nat)
    ensures Pow(b, n + 1) == b * Pow(b, n)
  {
  }

  lemma Regroup(a: nat, x: nat, y: nat)
    ensures a * x * y == a * (x * y)
  {
  }

  lemma {:induction false} PowTimes(b: nat, m: nat, n: nat)
    ensures Pow(Pow(b, m), n) == Pow(b, m * n)
    decreases n
  {
    hide Pow;
    PowNone(b);
    PowNone(Pow(b, m));
    if n > 0 {
      PowTimes(b, m, n - 1);
      PowNext(Pow(b, m), n - 1);
      PowAdd(b, m, m * (n - 1));
      assert m + m * (n - 1) == m * n;
    }
  }

  lemma {:induction false} PowProduct(a: nat, b: nat, n: nat)
    ensures Pow(a * b, n) == Pow(a, n) * Pow(b, n)
    decreases n
  {
    hide Pow;
    PowNone(a);
    PowNone(b);
    PowNone(a * b);
    if n > 0 {
      PowProduct(a, b, n - 1);
      PowNext(a, n - 1);
      PowNext(b, n - 1);
      PowNext(a * b, n - 1);
      Products(a, b, Pow(a, n - 1), Pow(b, n - 1));
    }
  }

  lemma Products(a: nat, b: nat, x: nat, y: nat)
    ensures a * b * (x * y) == (a * x) * (b * y)
  {
    assert a * b * (x * y) == a * (b * (x * y));
    assert b * (x * y) == x * (b * y);
  }

  lemma {:induction false} PowLess(a: nat, b: nat, n: nat)
    requires a <= b
    ensures Pow(a, n) <= Pow(b, n)
    decreases n
  {
    hide Pow;
    PowNone(a);
    PowNone(b);
    if n > 0 {
      PowLess(a, b, n - 1);
      PowNext(a, n - 1);
      PowNext(b, n - 1);
      ProductLess(a, b, Pow(a, n - 1), Pow(b, n - 1));
    }
  }

  lemma ProductLess(a: nat, b: nat, x: nat, y: nat)
    requires a <= b && x <= y
    ensures a * x <= b * y
  {
    assert a * x <= a * y;
    assert a * y <= b * y;
  }

  /** 10 to the power of 28 is between 1024 and 1034 times 2 to the power of 83. */
  lemma SmallPowers()
    ensures Pow(2, 93) <= Pow(10, 28) <= 1034 * Pow(2, 83)
    ensures Pow(1034, 11) < Pow(2, 111) - Pow(2, 57)
  {
    hide Pow;
    PowsOfTwo();
    PowsOfTen();
  }

  lemma FirstPowers()
    ensures Pow(2, 2) == 4 && Pow(2, 3) == 8 && Pow(2, 9) == 512 && Pow(2, 10) == 1024
    ensures Pow(10, 7) == 10000000 && Pow(1034, 11) == 1444527873376251946774133815568384
  {
  }

  lemma PowsOfTwo()
    ensures Pow(2, 57) == 144115188075855872 && Pow(2, 111) == 2596148429267413814265248164610048
    ensures Pow(2, 83) == 9671406556917033397649408 && Pow(2, 93) == 9903520314283042199192993792
  {
    hide Pow;
    FirstPowers();
    PowAdd(2, 9, 9);
    PowAdd(2, 18, 9);
    PowAdd(2, 27, 27);
    PowAdd(2, 54, 3);
    PowAdd(2, 54, 57);
    PowAdd(2, 54, 27);
    PowAdd(2, 81, 2);
    PowAdd(2, 83, 10);
  }

  lemma PowsOfTen()
    ensures Pow(10, 28) == 10000000000000000000000000000
    ensures Pow(1034, 11) == 1444527873376251946774133815568384
  {
    hide Pow;
    FirstPowers();
    PowAdd(10, 7, 7);
    PowAdd(10, 14, 14);
  }

  /** 10 to the power of 308 is in the range of a double, and 10 to the power of 309 is not. */
  lemma Bounds()
    ensures Pow(10, 308) < DoubleBound() <= Pow(10, 309)
  {
    hide Pow;
    SmallPowers();
    PowTimes(10, 28, 11);
    UpperBound();
    LowerBound();
  }

  lemma BoundParts()
    ensures DoubleBound() == Pow(2, 913) * (Pow(2, 111) - Pow(2, 57)) && Pow(2, 913) > 0
  {
    hide Pow;
    PowAdd(2, 913, 111);
    PowAdd(2, 913, 57);
    PowGrows(2, 0, 913);
    PowNone(2);
  }

  lemma UpperBound()
    ensures Pow(Pow(10, 28), 11) < DoubleBound()
  {
    hide Pow, DoubleBound;
    SmallPowers();
    BoundParts();
    var p := Pow(2, 83);
    PowLess(Pow(10, 28), 1034 * p, 11);
    PowProduct(1034, p, 11);
    PowTimes(2, 83, 11);
    LessTimes(Pow(1034, 11), Pow(2, 111) - Pow(2, 57), Pow(2, 913));
  }

  lemma LessTimes(x: int, z: int, y: int)
    requires x < z && y > 0
    ensures x * y < y * z
  {
  }

  lemma LowerBound()
    ensures DoubleBound() <= 10 * Pow(Pow(10, 28), 11) == Pow(10, 309)
  {
    hide Pow;
    SmallPowers();
    PowLess(Pow(2, 93), Pow(10, 28), 11);
    PowTimes(2, 93, 11);
    PowTimes(10, 28, 11);
    PowNext(2, 1023);
    PowNext(10, 308);
    PowGrows(2, 0, 970);
  }

  /** The text of a power of ten is a number; it is too large exactly from 10 to the power of 309 on. */
  lemma PowersOfTen(n: nat)
    ensures var s := [0x31, LOWER_E] + Digits(n);
            ScanNumber(s) == RealLexeme(|s|) && IsNumber(s) && (Overflows(s) <==> n >= 309)
  {
    hide Pow, Scale, DoubleBound, Overflows, NumberParts, ScanNumber;
    var s := [0x31, LOWER_E] + Digits(n);
    PowerParts(n);
    NumberScans(s, [], 0, 1, 1);
    assert s + [] == s;
    PowerMagnitude(n);
    Bounds();
    if n >= 309 {
      PowGrows(10, 309, n);
    } else {
      PowGrows(10, n, 308);
    }
    OverflowsAt(s, Pow(10, n));
  }

  lemma OverflowsAt(s: seq<Byte>, n: nat)
    requires Magnitude(s) == n as real
    ensures Overflows(s) <==> n >= DoubleBound()
  {
    hide Magnitude, DoubleBound;
  }

  lemma PowerParts(n: nat)
    ensures NumberParts([0x31, LOWER_E] + Digits(n), 0, 1, 1)
  {
    var s := [0x31, LOWER_E] + Digits(n);
    assert s[..0] == [] && s[0..1] == [0x31] && s[1..1] == [] && s[1..][1..] == Digits(n);
  }

  lemma PowerMagnitude(n: nat)
    ensures Magnitude([0x31, LOWER_E] + Digits(n)) == Pow(10, n) as real
  {
    hide Pow, Scale, Digits;
    var s, d := [0x31, LOWER_E] + Digits(n), Digits(n);
    assert s[0..] == [0x31] + s[1..];
    DigitRunIs([0x31], s[1..]);
    assert s[0..][..1] == [0x31] && s[0..][..1][..0] == [];
    assert s[1..][1..] == d == d + [];
    DigitRunIs(d, []);
    assert d[..|d|] == d;
    DigitsValue(n);
    ScalePow(1, n);
  }
}
