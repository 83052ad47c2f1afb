/** JSON string literals: what dump_string writes and what lex_scan_string makes of it. */
module JsonString {
  import opened Bytes
  import opened Utf8
  import opened Wrappers

  // ---- hexadecimal

  function Hex4(v: nat): (s: seq<Byte>)
    requires v < 0x10000
    ensures |s| == 4
  {
    [HexDigit(v / 16 / 16 / 16), HexDigit(v / 16 / 16 % 16), HexDigit(v / 16 % 16), HexDigit(v % 16)]
  }

  /** What decode_unicode_escape takes a character for; its assertion rejects all but letters and
      digits. */
  function HexValue(c: Byte): (v: int)
    requires IsDigit(c) || IsAlpha(c)
    ensures 0 <= v <= 35
  {
    if IsDigit(c) then c as int - 0x30 else if IsLower(c) then c as int - 0x61 + 10 else c as int - 0x41 + 10
  }

  predicate AllAlnum(s: seq<Byte>) {
    forall i :: 0 <= i < |s| ==> IsDigit(s[i]) || IsAlpha(s[i])
  }

  function Unhex4(s: seq<Byte>): (v: int)
    requires |s| == 4 && AllAlnum(s)
    ensures 0 <= v <= 0x25553
  {
    ((HexValue(s[0]) * 16 + HexValue(s[1])) * 16 + HexValue(s[2])) * 16 + HexValue(s[3])
  }

  /** It is the value of the digit, whatever its case. */
  lemma HexValueIs(c: Byte, d: int)
    ensures DigitIs(c, d) <==> (IsDigit(c) || IsAlpha(c)) && HexValue(c) == d
  {
  }

  /** The four characters spell the number, in either case. */
  ghost predicate Spells(s: seq<Byte>, v: int) {
    |s| == 4 && exists a, b, c, d ::
      DigitIs(s[0], a) && DigitIs(s[1], b) && DigitIs(s[2], c) && DigitIs(s[3], d) &&
      v == a * 0x1000 + b * 0x100 + c * 0x10 + d
  }

  lemma Unhex4Spelled(s: seq<Byte>, v: int)
    ensures Spells(s, v) <==> |s| == 4 && AllAlnum(s) && Unhex4(s) == v
  {
    hide DigitIs, HexValue;
    if Spells(s, v) {
      var a, b, c, d :| DigitIs(s[0], a) && DigitIs(s[1], b) && DigitIs(s[2], c) && DigitIs(s[3], d) &&
        v == a * 0x1000 + b * 0x100 + c * 0x10 + d;
      HexValueIs(s[0], a);
      HexValueIs(s[1], b);
      HexValueIs(s[2], c);
      HexValueIs(s[3], d);
    }
    if |s| == 4 && AllAlnum(s) {
      HexValueIs(s[0], HexValue(s[0]));
      HexValueIs(s[1], HexValue(s[1]));
      HexValueIs(s[2], HexValue(s[2]));
      HexValueIs(s[3], HexValue(s[3]));
    }
  }

  /** Every spelling of a number, with letters of either case, is read as the number. */
  lemma HexSpellings(v: nat, t: seq<Byte>)
    requires v < 0x10000 && |t| == 4
    requires forall i :: 0 <= i < 4 ==> t[i] == Hex4(v)[i] || (IsAlpha(Hex4(v)[i]) && t[i] == Hex4(v)[i] - 0x20)
    ensures AllAlnum(t) && Unhex4(t) == v && Spells(t, v)
  {
    hide HexValue, HexDigit, Spells;
    var s, a, b, c := Hex4(v), v / 16, v / 16 / 16, v / 16 / 16 / 16;
    assert v == a * 16 + v % 16 && a == b * 16 + a % 16 && b == c * 16 + b % 16;
    EitherCase(c, t[0]);
    EitherCase(b % 16, t[1]);
    EitherCase(a % 16, t[2]);
    EitherCase(v % 16, t[3]);
    Unhex4Spelled(t, v);
  }

  lemma EitherCase(d: nat, c: Byte)
    requires d < 16 && (c == HexDigit(d) || (IsAlpha(HexDigit(d)) && c == HexDigit(d) - 0x20))
    ensures (IsDigit(c) || IsAlpha(c)) && HexValue(c) == d
  {
  }

  // ---- writing

  /** The escape of a code point that dump_string does not copy. */
  function EscapeOf(cp: int): seq<Byte>
    requires Scalar(cp)
  {
    if cp == 0x5C then [BACKSLASH, BACKSLASH]
    else if cp == 0x22 then [BACKSLASH, QUOTE]
    else if cp == 0x08 then [BACKSLASH, LOWER_B]
    else if cp == 0x0C then [BACKSLASH, LOWER_F]
    else if cp == 0x0A then [BACKSLASH, LOWER_N]
    else if cp == 0x0D then [BACKSLASH, LOWER_R]
    else if cp == 0x09 then [BACKSLASH, LOWER_T]
    else if cp < 0x10000 then [BACKSLASH, LOWER_U] + Hex4(cp)
    else [BACKSLASH, LOWER_U] + Hex4(HighSurrogate(cp)) + [BACKSLASH, LOWER_U] + Hex4(LowSurrogate(cp))
  }

  /** The two surrogates of a code point beyond 16 bits: ten bits of it in each. */
  function HighSurrogate(cp: int): (v: nat)
    requires 0x10000 <= cp <= 0x10FFFF
    ensures 0xD800 <= v <= 0xDBFF
  {
    0xD800 + (cp - 0x10000) / 1024
  }

  function LowSurrogate(cp: int): (v: nat)
    requires 0x10000 <= cp <= 0x10FFFF
    ensures 0xDC00 <= v <= 0xDFFF
  {
    0xDC00 + (cp - 0x10000) % 1024
  }

  /** dump_string stops copying at this code point. */
  predicate MustEscape(cp: int, ascii: bool) {
    cp == 0x5C || cp == 0x22 || cp < 0x20 || (ascii && cp > 0x7F)
  }

  function CharText(c: seq<Byte>, ascii: bool): seq<Byte>
    requires IsChar(c)
  {
    DecodeEncode(c);
    if MustEscape(Decoding(c), ascii) then EscapeOf(Decoding(c)) else c
  }

  /** The text between the quotes. */
  function Escape(s: CString, ascii: bool): seq<Byte>
    requires IsUtf8(s)
    decreases |s|
  {
    if |s| == 0 then []
    else CharText(s[..CharLen(s)], ascii) + Escape(s[CharLen(s)..], ascii)
  }

  function Quoted(s: CString, ascii: bool): seq<Byte>
    requires IsUtf8(s)
  {
    [QUOTE] + Escape(s, ascii) + [QUOTE]
  }

  /** Behind the last character that must be escaped, of those in front of the first that is invalid; 0 if there is
      none. */
  function LastEscape(s: CString, ascii: bool): (n: nat)
    ensures n <= |s|
    decreases |s|
  {
    var k := CharLen(s);
    if k == 0 then 0
    else
      var n := LastEscape(s[k..], ascii);
      IsCharPrefix(s);
      if n > 0 then k + n else if MustEscape(Decoding(s[..k]), ascii) then k else 0
  }

  lemma {:induction false} LastEscapeValid(s: CString, ascii: bool)
    ensures IsUtf8(s[..LastEscape(s, ascii)])
    decreases |s|
  {
    hide CharLen, IsChar, Decoding, MustEscape;
    var k, n := CharLen(s), LastEscape(s, ascii);
    if n > 0 {
      LastEscapeValid(s[k..], ascii);
      IsCharPrefix(s);
      CharInFront(s[..k], s[k..n]);
      assert s[..n] == s[..k] + s[k..n];
      if n > k {
        assert s[k..n] == s[k..][..n - k];
      }
    }
  }

  /** Of the valid characters `u` in front of the first that is invalid, that is where the last one ends that must be
      escaped; behind it, escaping changes nothing. */
  lemma {:induction false} LastEscapeExactly(u: CString, t: CString, ascii: bool) returns (m: nat)
    requires IsUtf8(u) && CharLen(t) == 0
    ensures var n := LastEscape(u + t, ascii);
            n <= |u| && IsUtf8(u[..n]) && IsUtf8(u[n..]) && Escape(u[n..], ascii) == u[n..] &&
            (n > 0 ==> m < n && IsUtf8(u[..m]) && IsChar(u[m..n]) && MustEscape(Decoding(u[m..n]), ascii))
    decreases |u|
  {
    hide IsChar, Decoding, MustEscape, CharLen, Escape, LastEscape;
    if |u| == 0 {
      assert u + t == t;
      NothingToEscape(t, ascii);
      m := 0;
    } else {
      var k := CharLen(u);
      IsCharPrefix(u);
      LastEscapeStep(u, t, ascii);
      var n := LastEscape(u[k..] + t, ascii);
      var l := LastEscapeExactly(u[k..], t, ascii);
      if n > 0 {
        m := k + l;
        LongerPrefix(u, k, l);
        LongerPrefix(u, k, n);
        assert u[m..k + n] == u[k..][l..n] && u[k + n..] == u[k..][n..];
      } else {
        m := 0;
        FirstOnly(u, k, ascii);
      }
    }
  }

  lemma LastEscapeStep(u: CString, t: CString, ascii: bool)
    requires CharLen(u) > 0
    ensures var k, n := CharLen(u), LastEscape(u[CharLen(u)..] + t, ascii);
            IsChar(u[..k]) &&
            LastEscape(u + t, ascii) == if n > 0 then k + n else if MustEscape(Decoding(u[..k]), ascii) then k else 0
  {
    hide IsChar, Decoding, MustEscape, CharLen;
    var k := CharLen(u);
    IsCharPrefix(u);
    assert u + t == u[..k] + (u[k..] + t);
    CharInFront(u[..k], u[k..] + t);
  }

  lemma NothingToEscape(t: CString, ascii: bool)
    requires CharLen(t) == 0
    ensures IsUtf8([]) && Escape([], ascii) == [] && LastEscape(t, ascii) == 0
  {
  }

  lemma LongerPrefix(u: CString, k: nat, l: nat)
    requires 0 < k <= k + l <= |u| && IsChar(u[..k]) && IsUtf8(u[k..][..l])
    ensures IsUtf8(u[..k + l])
  {
    hide IsChar, CharLen;
    assert u[..k + l] == u[..k] + u[k..][..l];
    CharInFront(u[..k], u[k..][..l]);
  }

  /** Behind the first character, nothing must be escaped. */
  lemma FirstOnly(u: CString, k: nat, ascii: bool)
    requires IsUtf8(u) && |u| > 0 && k == CharLen(u) && IsChar(u[..k])
    requires IsUtf8(u[k..]) && Escape(u[k..], ascii) == u[k..]
    ensures IsUtf8(u[..0]) && IsUtf8(u[..k])
    ensures u[..0] == [] && u[0..] == u
    ensures !MustEscape(Decoding(u[..k]), ascii) ==> Escape(u, ascii) == u
  {
    hide IsChar, CharLen, Decoding, MustEscape;
    assert u == u[..k] + u[k..];
    CharInFront(u[..k], []);
    assert u[..k] + [] == u[..k];
  }

  /** All that dump_string writes: of an invalid string, the quote in front and what it had to escape something in,
      but no quote behind. */
  function Shown(s: CString, ascii: bool): seq<Byte> {
    if IsUtf8(s) then Quoted(s, ascii)
    else LastEscapeValid(s, ascii); [QUOTE] + Escape(s[..LastEscape(s, ascii)], ascii)
  }

  // ---- reading

  predicate ShortEscape(c: Byte) {
    c == QUOTE || c == BACKSLASH || c == SLASH || c == LOWER_B || c == LOWER_F || c == LOWER_N || c == LOWER_R ||
      c == LOWER_T
  }

  /** The first loop of lex_scan_string, behind the opening quote: the position of the closing quote.
      Any four characters are let through behind \u (l_isxdigit holds of everything). */
  function Scan(s: seq<Byte>): (r: Option<nat>)
    ensures r.Some? ==> r.value < |s| && s[r.value] == QUOTE
    decreases |s|
  {
    if |s| == 0 then None
    else if s[0] == QUOTE then Some(0)
    else if s[0] <= 0x1F then None
    else if s[0] == BACKSLASH then
      if |s| >= 6 && s[1] == LOWER_U then Plus(6, Scan(s[6..]))
      else if |s| >= 2 && ShortEscape(s[1]) then Plus(2, Scan(s[2..]))
      else None
    else Plus(1, Scan(s[1..]))
  }

  function Plus(k: nat, r: Option<nat>): Option<nat> {
    if r.Some? then Some(k + r.value) else None
  }

  datatype Decoded = Text(bytes: seq<Byte>) | Invalid | Aborted

  function Prepend(a: seq<Byte>, d: Decoded): Decoded {
    if d.Text? then Text(a + d.bytes) else d
  }

  function Unescape(c: Byte): Byte
    requires ShortEscape(c)
  {
    if c == LOWER_B then BACKSPACE else if c == LOWER_F then FORMFEED else if c == LOWER_N then NEWLINE
    else if c == LOWER_R then RETURN else if c == LOWER_T then TAB else c
  }

  /** A text made of whole escapes and plain bytes, as the first loop leaves it. */
  predicate WellScanned(s: seq<Byte>)
    decreases |s|
  {
    if |s| == 0 then true
    else if s[0] == BACKSLASH then
      if |s| >= 6 && s[1] == LOWER_U then WellScanned(s[6..])
      else |s| >= 2 && ShortEscape(s[1]) && WellScanned(s[2..])
    else s[0] > 0x1F && s[0] != QUOTE && WellScanned(s[1..])
  }

  /** What the second loop writes for the first plain byte or escape of a text, and how much of the
      text it uses up for that. */
  datatype Piece = Piece(bytes: seq<Byte>, len: nat) | InvalidPiece | AbortedPiece

  function FirstPiece(s: seq<Byte>): (p: Piece)
    requires WellScanned(s) && |s| > 0
    ensures p.Piece? ==> 0 < p.len <= |s| && WellScanned(s[p.len..])
    ensures p.Piece? ==> |p.bytes| <= p.len
  {
    if s[0] != BACKSLASH then Piece([s[0]], 1)
    else if s[1] != LOWER_U then Piece([Unescape(s[1])], 2)
    else if !AllAlnum(s[2..6]) then AbortedPiece
    else
      var v := Unhex4(s[2..6]);
      if 0xD800 <= v <= 0xDBFF then
        if |s| >= 8 && s[6] == BACKSLASH && s[7] == LOWER_U
        then
          var t := s[6..];
          UnicodeEscapeWhole(t);
          assert t[6..] == s[12..];
          SurrogatePair(v, t)
        else InvalidPiece
      else if 0xDC00 <= v <= 0xDFFF then InvalidPiece
      else if v == 0 then InvalidPiece
      else Piece(Encoding(v), 6)
  }

  lemma UnicodeEscapeWhole(t: seq<Byte>)
    requires WellScanned(t) && |t| >= 2 && t[0] == BACKSLASH && t[1] == LOWER_U
    ensures |t| >= 6 && WellScanned(t[6..])
  {
  }

  /** A high surrogate `v` followed by another \u escape, which starts `t`. */
  function SurrogatePair(v: int, t: seq<Byte>): (p: Piece)
    requires 0xD800 <= v <= 0xDBFF
    requires WellScanned(t) && |t| >= 2 && t[0] == BACKSLASH && t[1] == LOWER_U
    ensures |t| >= 6 && WellScanned(t[6..])
    ensures p.Piece? ==> p.len == 12 && |p.bytes| <= 4
  {
    if !AllAlnum(t[2..6]) then AbortedPiece
    else
      var v2 := Unhex4(t[2..6]);
      if 0xDC00 <= v2 <= 0xDFFF then Piece(Encoding((v - 0xD800) * 1024 + (v2 - 0xDC00) + 0x10000), 12)
      else InvalidPiece
  }

  /** The second loop of lex_scan_string, on the text between the quotes. */
  function Decode(s: seq<Byte>): Decoded
    requires WellScanned(s)
    decreases |s|
  {
    if |s| == 0 then Text([])
    else
      match FirstPiece(s)
      case Piece(bytes, len) => Prepend(bytes, Decode(s[len..]))
      case InvalidPiece => Invalid
      case AbortedPiece => Aborted
  }

  // ---- the two loops fit together

  /** The text in front of the closing quote consists of whole escapes and plain bytes. */
  lemma {:induction false} ScanWellScanned(s: seq<Byte>)
    requires Scan(s).Some?
    ensures WellScanned(s[..Scan(s).value])
    decreases |s|
  {
    hide ShortEscape;
    var n := Scan(s).value;
    if n > 0 {
      var k := if s[0] != BACKSLASH then 1 else if |s| >= 6 && s[1] == LOWER_U then 6 else 2;
      ScanWellScanned(s[k..]);
      FrontOf(s, k, n);
    }
  }

  lemma FrontOf(s: seq<Byte>, k: nat, n: nat)
    requires k <= n <= |s|
    ensures s[..n][k..] == s[k..][..n - k]
  {
  }

  /** Such a text is scanned up to a quote behind it, and not further. */
  lemma {:induction false} WellScannedScan(t: seq<Byte>, rest: seq<Byte>)
    requires WellScanned(t)
    ensures Scan(t + [QUOTE] + rest) == Some(|t|)
    decreases |t|
  {
    var s := t + [QUOTE] + rest;
    if |t| == 0 {
    } else {
      var k := if t[0] != BACKSLASH then 1 else if |t| >= 6 && t[1] == LOWER_U then 6 else 2;
      WellScannedScan(t[k..], rest);
      TailBehind(t, k, rest);
    }
  }

  lemma TailBehind(t: seq<Byte>, k: nat, rest: seq<Byte>)
    requires k <= |t|
    ensures (t + [QUOTE] + rest)[k..] == t[k..] + [QUOTE] + rest
  {
  }

  /** The decoded string never outgrows the text it comes from, so with its NUL it fits the
      allocated buffer of saved_text.length + 1 bytes. */
  lemma {:induction false} DecodeFits(s: seq<Byte>)
    requires WellScanned(s) && Decode(s).Text?
    ensures |Decode(s).bytes| <= |s|
    decreases |s|
  {
    if |s| > 0 {
      DecodeFits(s[FirstPiece(s).len..]);
    }
  }

  // ---- single pieces

  lemma OneByte(cp: int)
    requires 0 <= cp < 0x80
    ensures Encoding(cp) == [cp]
  {
  }

  lemma ShortReads(s: seq<Byte>)
    requires |s| >= 2 && s[0] == BACKSLASH && ShortEscape(s[1]) && WellScanned(s[2..])
    ensures WellScanned(s) && FirstPiece(s) == Piece([Unescape(s[1])], 2)
  {
  }

  predicate Plain(s: seq<Byte>) {
    forall i :: 0 <= i < |s| ==> s[i] > 0x1F && s[i] != QUOTE && s[i] != BACKSLASH
  }

  /** Plain bytes are copied one by one. */
  lemma {:induction false} PlainReads(c: seq<Byte>, rest: seq<Byte>)
    requires Plain(c) && WellScanned(rest)
    ensures WellScanned(c + rest) && Decode(c + rest) == Prepend(c, Decode(rest))
    decreases |c|
  {
    hide FirstPiece, WellScanned;
    if |c| == 0 {
      assert c + rest == rest;
    } else {
      PlainReads(c[1..], rest);
      assert (c + rest)[1..] == c[1..] + rest;
      assert c == [c[0]] + c[1..];
      PlainFirst(c + rest);
    }
  }

  lemma PlainFirst(s: seq<Byte>)
    requires |s| > 0 && s[0] > 0x1F && s[0] != QUOTE && s[0] != BACKSLASH && WellScanned(s[1..])
    ensures WellScanned(s) && FirstPiece(s) == Piece([s[0]], 1)
  {
  }

  /** A character that dump_string copies is plain; none is NUL. */
  lemma CopiedIsPlain(c: seq<Byte>, ascii: bool)
    requires IsChar(c) && !MustEscape(Decoding(c), ascii)
    ensures Plain(c)
  {
  }

  lemma NotNul(c: seq<Byte>)
    requires IsChar(c) && 0 !in c
    ensures Decoding(c) > 0
  {
  }

  lemma EmptyDecodes()
    ensures WellScanned([]) && Decode([]) == Text([])
  {
  }

  // ---- the check of the hexadecimal digits, which never fails

  predicate IsHex(c: Byte) { IsDigit(c) || 0x41 <= c <= 0x46 || 0x61 <= c <= 0x66 }

  predicate AllHex(s: seq<Byte>) {
    forall i :: 0 <= i < |s| ==> IsHex(s[i])
  }

  /** char of section 7 of RFC 8259, on the bytes between the quotes. */
  predicate GrammarChars(s: seq<Byte>)
    decreases |s|
  {
    || |s| == 0
    || (s[0] > 0x1F && s[0] != QUOTE && s[0] != BACKSLASH && GrammarChars(s[1..]))
    || (s[0] == BACKSLASH && |s| >= 2 && ShortEscape(s[1]) && GrammarChars(s[2..]))
    || (s[0] == BACKSLASH && |s| >= 6 && s[1] == LOWER_U && AllHex(s[2..6]) && GrammarChars(s[6..]))
  }

  /** Every \u is followed by four hexadecimal digits. */
  predicate HexEscapes(s: seq<Byte>)
    requires WellScanned(s)
    decreases |s|
  {
    if |s| == 0 then true
    else if s[0] != BACKSLASH then HexEscapes(s[1..])
    else if |s| >= 6 && s[1] == LOWER_U then AllHex(s[2..6]) && HexEscapes(s[6..])
    else HexEscapes(s[2..])
  }

  /** Of the texts that the scanner lets through, those with proper \u escapes are the grammatical
      ones, and every grammatical text is let through. */
  lemma {:induction false} ScannedGrammar(s: seq<Byte>)
    ensures GrammarChars(s) <==> WellScanned(s) && HexEscapes(s)
    decreases |s|
  {
    if |s| == 0 {
    } else if s[0] != BACKSLASH {
      ScannedGrammar(s[1..]);
    } else {
      if |s| >= 2 {
        ScannedGrammar(s[2..]);
      }
      if |s| >= 6 {
        ScannedGrammar(s[6..]);
      }
    }
  }

  /** Where the first \u stands that is not followed by four letters or digits, or the length. */
  function FirstForeign(s: seq<Byte>): (n: nat)
    requires WellScanned(s)
    ensures n <= |s|
    decreases |s|
  {
    if |s| == 0 then 0
    else if s[0] != BACKSLASH then 1 + FirstForeign(s[1..])
    else if s[1] != LOWER_U then 2 + FirstForeign(s[2..])
    else if AllAlnum(s[2..6]) then 6 + FirstForeign(s[6..])
    else 0
  }

  /** The \u at the start, with four letters or digits, stands for no character: it is zero, or a surrogate without
      its other half.  A high surrogate in front of a \u that has no number is not judged. */
  predicate Misfit(s: seq<Byte>)
    requires |s| >= 6 && AllAlnum(s[2..6])
  {
    var v := Unhex4(s[2..6]);
    || v == 0
    || 0xDC00 <= v <= 0xDFFF
    || (0xD800 <= v <= 0xDBFF && !(
          |s| >= 12 && s[6] == BACKSLASH && s[7] == LOWER_U &&
          (AllAlnum(s[8..12]) ==> 0xDC00 <= Unhex4(s[8..12]) <= 0xDFFF)))
  }

  predicate HighEscape(s: seq<Byte>)
    requires |s| >= 6 && AllAlnum(s[2..6])
  {
    0xD800 <= Unhex4(s[2..6]) <= 0xDBFF
  }

  /** Where the first \u stands that means no character, or the length. */
  function FirstMisfit(s: seq<Byte>): (n: nat)
    requires WellScanned(s)
    ensures n <= |s|
    decreases |s|
  {
    if |s| == 0 then 0
    else if s[0] != BACKSLASH then 1 + FirstMisfit(s[1..])
    else if s[1] != LOWER_U then 2 + FirstMisfit(s[2..])
    else if !AllAlnum(s[2..6]) then 6 + FirstMisfit(s[6..])
    else if Misfit(s) then 0
    else if HighEscape(s) then UnicodeEscapeWhole(s[6..]); assert s[6..][6..] == s[12..]; 12 + FirstMisfit(s[12..])
    else 6 + FirstMisfit(s[6..])
  }

  /** The second loop runs into an assertion of decode_unicode_escape exactly if a \u without four letters or digits
      comes before any that means no character, and fails exactly if it is the other way round. */
  lemma {:induction false} DecodeExactly(s: seq<Byte>)
    requires WellScanned(s)
    ensures Decode(s) == Aborted <==> FirstForeign(s) < FirstMisfit(s)
    ensures Decode(s) == Invalid <==> FirstMisfit(s) < FirstForeign(s)
    decreases |s|
  {
    hide Unhex4, Encoding, Unescape, AllAlnum;
    if |s| > 0 {
      if s[0] == BACKSLASH && s[1] == LOWER_U {
        EscapeExactly(s);
      }
      if FirstPiece(s).Piece? {
        DecodeExactly(s[FirstPiece(s).len..]);
      }
    }
  }

  /** The cases of the first escape. */
  lemma EscapeExactly(s: seq<Byte>)
    requires WellScanned(s) && |s| >= 2 && s[0] == BACKSLASH && s[1] == LOWER_U
    ensures FirstPiece(s).AbortedPiece? ==> FirstForeign(s) < FirstMisfit(s)
    ensures FirstPiece(s).InvalidPiece? ==> FirstMisfit(s) < FirstForeign(s)
    ensures FirstPiece(s).Piece? ==>
              var n := FirstPiece(s).len;
              FirstForeign(s) == n + FirstForeign(s[n..]) && FirstMisfit(s) == n + FirstMisfit(s[n..])
  {
    hide Unhex4, Encoding, Unescape, AllAlnum, FirstForeign, FirstMisfit, WellScanned;
    EscapeStep(s);
    if |s| >= 8 && s[6] == BACKSLASH && s[7] == LOWER_U {
      var t := s[6..];
      UnicodeEscapeWhole(t);
      assert t[2..6] == s[8..12] && t[6..] == s[12..] && t[0] == BACKSLASH && t[1] == LOWER_U;
      EscapeStep(t);
    }
  }

  lemma EscapeStep(s: seq<Byte>)
    requires WellScanned(s) && |s| >= 2 && s[0] == BACKSLASH && s[1] == LOWER_U
    ensures |s| >= 6 && WellScanned(s[6..])
    ensures FirstForeign(s) == if AllAlnum(s[2..6]) then 6 + FirstForeign(s[6..]) else 0
    ensures AllAlnum(s[2..6]) && Misfit(s) ==> FirstMisfit(s) == 0
    ensures AllAlnum(s[2..6]) && !Misfit(s) && HighEscape(s) ==>
              |s| >= 12 && WellScanned(s[12..]) && FirstMisfit(s) == 12 + FirstMisfit(s[12..])
    ensures AllAlnum(s[2..6]) && !Misfit(s) && !HighEscape(s) ==> FirstMisfit(s) == 6 + FirstMisfit(s[6..])
    ensures !AllAlnum(s[2..6]) ==> FirstMisfit(s) == 6 + FirstMisfit(s[6..])
  {
    hide Unhex4, AllAlnum;
    if AllAlnum(s[2..6]) && !Misfit(s) && HighEscape(s) {
      UnicodeEscapeWhole(s[6..]);
      assert s[6..][6..] == s[12..];
    }
  }

  /** The check misses letters that are no digits: "\ug000" is accepted, as U+10000. */
  lemma NonHexAccepted()
    ensures var s := [BACKSLASH, LOWER_U, 0x67, 0x30, 0x30, 0x30];
            Scan(s + [QUOTE]) == Some(6) && WellScanned(s) && Decode(s) == Text(Encoding(0x10000)) && !GrammarChars(s)
  {
    var s := [BACKSLASH, LOWER_U, 0x67, 0x30, 0x30, 0x30];
    assert s[6..] == [] && s[2..6] == [0x67, 0x30, 0x30, 0x30];
    assert (s + [QUOTE])[6..] == [QUOTE];
    assert WellScanned(s[6..]);
    assert Unhex4(s[2..6]) == 0x10000;
    assert Decode([]) == Text([]);
    assert !IsHex(s[2..6][0]);
  }

  /** It also lets through what is not even a letter, and then the assertion fails. */
  lemma NonAlnumAborts()
    ensures var s := [BACKSLASH, LOWER_U, 0x2D, 0x30, 0x30, 0x30];
            Scan(s + [QUOTE]) == Some(6) && WellScanned(s) && Decode(s) == Aborted
  {
    var s := [BACKSLASH, LOWER_U, 0x2D, 0x30, 0x30, 0x30];
    assert s[6..] == [] && s[2..6] == [0x2D, 0x30, 0x30, 0x30];
    assert (s + [QUOTE])[6..] == [QUOTE];
    assert WellScanned(s[6..]);
    assert !(IsDigit(s[2..6][0]) || IsAlpha(s[2..6][0]));
  }
}
