/** lex_t: the stream, the text saved for the current token, and the token. */
module Lexer {
  import opened Bytes
  import opened Utf8
  import opened Stream
  import opened JsonNumber
  import opened JsonText
  import opened Wrappers
  import JsonString

  /** The byte that Seen shows, as saved text. */
  function Head(s: seq<Byte>): seq<Byte> {
    if |s| > 0 then s[..1] else []
  }

  /** l_isxdigit, which holds of every character and of both end marks. */
  predicate IsXDigit(c: int) {
    IsDigit(c) || 0x41 <= c || c <= 0x46 || 0x61 <= c || c <= 0x66
  }

  predicate EndMark(c: int) { c == STATE_EOF || c == STATE_ERROR }

  /** decode_unicode_escape: `s` is `u` and what comes behind; fails an assertion on anything but letters and
      digits. */
  method DecodeUnicodeEscape(s: seq<Byte>) returns (value: Option<int>)
    requires |s| >= 5 && s[0] == LOWER_U
    ensures forall v :: value == Some(v) <==> JsonString.Spells(s[1..5], v)
    ensures value == if JsonString.AllAlnum(s[1..5]) then Some(JsonString.Unhex4(s[1..5])) else None
  {
    hide JsonString.Spells, JsonString.Unhex4;
    forall v
      ensures JsonString.Spells(s[1..5], v) <==> JsonString.AllAlnum(s[1..5]) && JsonString.Unhex4(s[1..5]) == v
    {
      JsonString.Unhex4Spelled(s[1..5], v);
    }
    var v := 0;
    for i := 1 to 5
      invariant JsonString.AllAlnum(s[1..i]) && v == Shifted(s[1..i])
    {
      var c := s[i];
      assert s[1..i + 1] == s[1..i] + [c];
      if IsDigit(c) {
        v := v * 16 + (c as int - 0x30);
      } else if IsLower(c) {
        v := v * 16 + (c as int - 0x61 + 10);
      } else if IsUpper(c) {
        v := v * 16 + (c as int - 0x41 + 10);
      } else {
        assert s[1..5][i - 1] == c;
        return None;
      }
    }
    ShiftedFour(s[1..5]);
    value := Some(v);
  }

  /** The value of a run of digits, from the left. */
  function Shifted(s: seq<Byte>): int
    requires JsonString.AllAlnum(s)
  {
    if |s| == 0 then 0 else Shifted(s[..|s| - 1]) * 16 + JsonString.HexValue(s[|s| - 1])
  }

  lemma ShiftedFour(s: seq<Byte>)
    requires |s| == 4 && JsonString.AllAlnum(s)
    ensures Shifted(s) == JsonString.Unhex4(s)
  {
    assert s[..3][..2] == s[..2] && s[..2][..1] == s[..1] && s[..1][..0] == [];
    assert Shifted(s[..1]) == JsonString.HexValue(s[0]);
    assert Shifted(s[..2]) == Shifted(s[..1]) * 16 + JsonString.HexValue(s[1]);
    assert Shifted(s[..3]) == Shifted(s[..2]) * 16 + JsonString.HexValue(s[2]);
  }

  /** utf8_encode into a buffer of four bytes. */
  method EncodedPiece(value: int, len: nat) returns (piece: JsonString.Piece)
    requires 0 <= value <= 0x10FFFF
    ensures piece == JsonString.Piece(Encoding(value), len)
  {
    var buffer := new Byte[4](_ => 0);
    var r, length := Encode(value, buffer);
    piece := JsonString.Piece(buffer[..length], len);
  }

  /** One turn of the decode loop: a byte, a short escape, or one or two \u escapes. */
  method NextPiece(s: seq<Byte>) returns (piece: JsonString.Piece)
    requires JsonString.WellScanned(s) && |s| > 0
    ensures piece == JsonString.FirstPiece(s)
  {
    hide Encoding, JsonString.Unhex4, JsonString.AllAlnum, JsonString.Spells, JsonString.Unescape;
    if s[0] != BACKSLASH {
      return JsonString.Piece([s[0]], 1);
    }
    if s[1] != LOWER_U {
      return JsonString.Piece([JsonString.Unescape(s[1])], 2);
    }
    assert s[1..][1..5] == s[2..6];
    var first := DecodeUnicodeEscape(s[1..]);
    if first.None? {
      return JsonString.AbortedPiece;
    }
    var value := first.value;
    if 0xD800 <= value <= 0xDBFF {
      if |s| >= 8 && s[6] == BACKSLASH && s[7] == LOWER_U {
        JsonString.UnicodeEscapeWhole(s[6..]);
        assert s[7..][1..5] == s[6..][2..6];
        var second := DecodeUnicodeEscape(s[7..]);
        if second.None? {
          return JsonString.AbortedPiece;
        }
        if 0xDC00 <= second.value <= 0xDFFF {
          piece := EncodedPiece((value - 0xD800) * 1024 + (second.value - 0xDC00) + 0x10000, 12);
        } else {
          piece := JsonString.InvalidPiece;
        }
      } else {
        piece := JsonString.InvalidPiece;
      }
    } else if 0xDC00 <= value <= 0xDFFF || value == 0 {
      piece := JsonString.InvalidPiece;
    } else {
      piece := EncodedPiece(value, 6);
    }
  }

  /** The decode loop of lex_scan_string, into a buffer of saved_text.length + 1 bytes, where the saved
      text is `text` in quotes. */
  method DecodeText(text: seq<Byte>) returns (d: JsonString.Decoded)
    requires JsonString.WellScanned(text)
    ensures d == JsonString.Decode(text)
  {
    hide JsonString.FirstPiece, JsonString.WellScanned, JsonString.Decode;
    NothingDecodes();
    var target := new Byte[|text| + 2 + 1];
    var t, p := 0, 0;
    assert text[0..] == text;
    assert JsonString.Prepend(target[..0], JsonString.Decode(text)) == JsonString.Decode(text);
    while p < |text|
      invariant 0 <= t <= p <= |text| && JsonString.WellScanned(text[p..])
      invariant JsonString.Decode(text) == JsonString.Prepend(target[..t], JsonString.Decode(text[p..]))
    {
      DecodeStep(text[p..]);
      var piece := NextPiece(text[p..]);
      match piece
      case InvalidPiece =>
        return JsonString.Invalid;
      case AbortedPiece =>
        return JsonString.Aborted;
      case Piece(bytes, len) =>
        ghost var before := target[..t];
        Write(target, t, bytes);
        assert text[p..][len..] == text[p + len..];
        PrependTwice(before, bytes, JsonString.Decode(text[p + len..]));
        t, p := t + |bytes|, p + len;
    }
    target[t] := 0;
    assert text[p..] == [];
    d := JsonString.Text(target[..t]);
  }

  lemma NothingDecodes()
    ensures JsonString.WellScanned([]) && JsonString.Decode([]) == JsonString.Text([])
  {
  }

  lemma DecodeStep(s: seq<Byte>)
    requires |s| > 0 && JsonString.WellScanned(s)
    ensures var p := JsonString.FirstPiece(s);
            JsonString.Decode(s) ==
              if p.Piece? then JsonString.Prepend(p.bytes, JsonString.Decode(s[p.len..]))
              else if p.InvalidPiece? then JsonString.Invalid
              else JsonString.Aborted
  {
    hide JsonString.FirstPiece, JsonString.WellScanned;
  }

  /** memcpy of a few bytes. */
  method Write(target: array<Byte>, t: nat, bytes: seq<Byte>)
    requires t + |bytes| <= target.Length
    modifies target
    ensures target[..t + |bytes|] == old(target[..t]) + bytes
  {
    forall i | 0 <= i < |bytes| {
      target[t + i] := bytes[i];
    }
  }

  lemma PrependTwice(a: seq<Byte>, b: seq<Byte>, d: JsonString.Decoded)
    ensures JsonString.Prepend(a, JsonString.Prepend(b, d)) == JsonString.Prepend(a + b, d)
  {
    if d.Text? {
      assert a + (b + d.bytes) == a + b + d.bytes;
    }
  }

  class Lexer {
    const stream: Stream
    var saved: seq<Byte>  // saved_text
    var token: Token

    ghost predicate Valid()
      reads stream, stream.buffer
    {
      stream.Valid()
    }

    /** The bytes still to come. */
    ghost function Rem(): seq<Byte>
      reads stream, stream.buffer
      requires Valid()
    {
      stream.Remaining()
    }

    ghost predicate Bad()
      reads stream, stream.buffer
      requires Valid()
    {
      stream.Bad()
    }

    /** lex_unget is allowed: `c` was the last character read, or an end mark. */
    ghost predicate CanUnget(c: int)
      reads stream, stream.buffer
      requires Valid()
    {
      EndMark(c) || (-128 <= c < 128 && stream.bufferPos > 0 && stream.state == STATE_OK &&
                     SChar(stream.buffer[stream.bufferPos - 1]) == c)
    }

    /** `c` has just been read, and was the first byte of `cur`. */
    ghost predicate Read(c: int, cur: seq<Byte>)
      reads stream, stream.buffer
      requires Valid()
    {
      c == Seen(cur, Bad()) && Rem() == Rest(cur) && CanUnget(c) && (EndMark(c) <==> cur == [])
    }

    /** lex_init */
    constructor (input: CString)
      requires 0 !in input
      ensures Valid() && fresh(stream) && fresh(stream.buffer)
      ensures Rem() == ValidPrefix(input) && Bad() == !IsUtf8(input)
    {
      stream := new Stream(input);
      saved, token := [], TInvalid;
    }

    /** lex_get */
    method Get() returns (c: int)
      requires Valid()
      modifies stream, stream.buffer
      ensures Valid() && Bad() == old(Bad()) && Read(c, old(Rem()))
    {
      hide stream.Valid, stream.Remaining, stream.Bad;
      stream.FirstNotSentinel();
      c := stream.Get();
    }

    /** lex_get_save */
    method GetSave() returns (c: int)
      requires Valid()
      modifies this`saved, stream, stream.buffer
      ensures Valid() && Bad() == old(Bad()) && Read(c, old(Rem()))
      ensures saved == old(saved) + Head(old(Rem()))
    {
      hide Valid, Rem, Bad, Read;
      HeadIs();
      ghost var cur := Rem();
      c := Get();
      ReadByte(c, cur);
      if !EndMark(c) {
        saved := saved + [if c < 0 then c + 256 else c];
      }
    }

    lemma HeadIs()
      ensures forall s: seq<Byte> :: |s| > 0 ==> Head(s) == [s[0]]
    {
    }

    /** The character is the first byte, and no byte looks like an end mark. */
    lemma ReadByte(c: int, cur: seq<Byte>)
      requires Valid() && Read(c, cur)
      ensures EndMark(c) <==> cur == []
      ensures cur != [] ==> c == SChar(cur[0]) && (if c < 0 then c + 256 else c) == cur[0] as int
      ensures cur == [] ==> c == if Bad() then STATE_ERROR else STATE_EOF
      ensures Rem() == Rest(cur)
    {
    }

    /** lex_unget_unsave */
    method UngetUnsave(c: int, ghost cur: seq<Byte>)
      requires Valid() && Read(c, cur)
      requires |cur| > 0 ==> |saved| > 0 && saved[|saved| - 1] == cur[0]
      modifies this`saved, stream
      ensures Valid() && Bad() == old(Bad()) && Rem() == cur
      ensures saved == if cur == [] then old(saved) else old(saved)[..|old(saved)| - 1]
    {
      hide stream.Valid, stream.Remaining, stream.Bad;
      ReadByte(c, cur);
      assert cur != [] ==> cur == [cur[0]] + cur[1..];
      if !EndMark(c) {
        stream.Unget(c);
        saved := saved[..|saved| - 1];
      }
    }

    /** lex_unget */
    method Unget(c: int, ghost cur: seq<Byte>)
      requires Valid() && Read(c, cur)
      modifies stream
      ensures Valid() && Bad() == old(Bad()) && Rem() == cur
    {
      hide stream.Valid, stream.Remaining, stream.Bad;
      ReadByte(c, cur);
      assert cur != [] ==> cur == [cur[0]] + cur[1..];
      stream.Unget(c);
    }

    /** The lexer stands in `s`: `cur` is what is left of it, `c` its first character, and the text up
        to and including that is saved behind `start`. */
    ghost predicate In(start: seq<Byte>, s: seq<Byte>, cur: seq<Byte>, c: int)
      reads this`saved, stream, stream.buffer
      requires Valid()
    {
      Read(c, cur) && Suffix(s, cur) && saved == start + Upto(s, cur)
    }

    lemma LastSaved(start: seq<Byte>, s: seq<Byte>, cur: seq<Byte>, c: int)
      requires Valid() && In(start, s, cur, c) && cur != []
      ensures |saved| > 0 && saved[|saved| - 1] == cur[0]
      ensures saved[..|saved| - 1] == start + s[..|s| - |cur|]
    {
      hide Valid, Read;
    }

    /** Reads and saves the next character. */
    method Next(ghost start: seq<Byte>, ghost s: seq<Byte>, ghost cur: seq<Byte>, c: int) returns (c': int)
      requires Valid() && In(start, s, cur, c)
      modifies this`saved, stream, stream.buffer
      ensures Valid() && Bad() == old(Bad()) && In(start, s, Rest(cur), c')
    {
      hide Valid, Rem, Bad, Read, Suffix, Upto;
      ReadByte(c, cur);
      UptoNext(s, cur);
      assert saved + Head(Rest(cur)) == start + (Upto(s, cur) + Head(Rest(cur)));
      c' := GetSave();
    }

    /** Reads and saves the first character of `s`. */
    method First(ghost s: seq<Byte>) returns (c: int)
      requires Valid() && Rem() == s
      modifies this`saved, stream, stream.buffer
      ensures Valid() && Bad() == old(Bad()) && In(old(saved), s, s, c)
    {
      hide Valid, Rem, Bad, Read;
      c := GetSave();
    }

    /** The first loop of lex_scan_string; `s` is what comes behind the opening quote, already saved.
        On success the text and the closing quote are saved. */
    method ScanText(ghost s: seq<Byte>) returns (ok: bool)
      requires Valid() && Rem() == s
      modifies this`saved, stream, stream.buffer
      ensures Valid() && Bad() == old(Bad())
      ensures ok == JsonString.Scan(s).Some?
      ensures ok ==> saved == old(saved) + s[..JsonString.Scan(s).value] + [QUOTE]
      ensures ok ==> Rem() == s[JsonString.Scan(s).value + 1..]
    {
      hide Valid, Rem, Bad, Read, Upto, Suffix;
      ghost var cur := s;
      var c := First(s);
      while c != 0x22
        invariant Valid() && Bad() == old(Bad()) && In(old(saved), s, cur, c) && Progress(s, cur)
        decreases |cur|
      {
        ReadByte(c, cur);
        ScanStep(s, cur);
        if EndMark(c) {
          return false;
        } else if 0 <= c <= 0x1F {
          LastSaved(old(saved), s, cur, c);
          UngetUnsave(c, cur);
          return false;
        } else if c == 0x5C {
          c := Next(old(saved), s, cur, c);
          ReadByte(c, Rest(cur));
          if c == 0x75 {
            c := SkipHex(old(saved), s, Rest(cur), c);
            cur := Drop(cur, 6);
          } else if c == 0x22 || c == 0x5C || c == 0x2F || c == 0x62 || c == 0x66 || c == 0x6E || c == 0x72 ||
            c == 0x74 {
            c := Next(old(saved), s, Rest(cur), c);
            cur := Drop(cur, 2);
          } else {
            return false;
          }
        } else {
          c := Next(old(saved), s, cur, c);
          cur := Drop(cur, 1);
        }
      }
      ReadByte(c, cur);
      TextSaved(s, cur);
      ok := true;
    }

    /** Behind \u, any four characters are accepted. */
    method SkipHex(ghost start: seq<Byte>, ghost s: seq<Byte>, ghost cur: seq<Byte>, c: int) returns (c': int)
      requires Valid() && In(start, s, cur, c)
      modifies this`saved, stream, stream.buffer
      ensures Valid() && Bad() == old(Bad()) && In(start, s, Drop(cur, 5), c')
    {
      hide Valid, Rem, Bad, In;
      c' := Next(start, s, cur, c);
      DropNext(cur, 0);
      DropNext(cur, 1);
      for i := 0 to 4
        invariant Valid() && Bad() == old(Bad()) && In(start, s, Drop(cur, i + 1), c')
      {
        assert IsXDigit(c');  // the check of the original never fails
        DropNext(cur, i + 1);
        c' := Next(start, s, Drop(cur, i + 1), c');
      }
    }

    /** The token and the bytes left are those of `l`; where scanning failed only the token is. */
    ghost predicate Gives(l: Lexed)
      reads this`token, stream, stream.buffer
      requires Valid()
    {
      token == l.token && (token.TInvalid? || token.TAborted? || Rem() == l.rest)
    }

    /** lex_scan_string, with the opening quote saved. */
    method ScanString(ghost s: seq<Byte>)
      requires Valid() && Rem() == s && saved == [QUOTE]
      modifies this, stream, stream.buffer
      ensures Valid() && Bad() == old(Bad()) && Gives(LexString([QUOTE] + s))
    {
      hide Valid, Rem, Bad, JsonString.Scan, JsonString.Decode, JsonString.WellScanned, LexString;
      token := TInvalid;
      LexStringOf(s);
      var ok := ScanText(s);
      if ok {
        JsonString.ScanWellScanned(s);
        var d := DecodeText(saved[1..|saved| - 1]);
        match d
        case Text(bytes) => token := TString(bytes);
        case Invalid =>
        case Aborted => token := TAborted;
      }
    }

    // ---- numbers and words, which begin with the first saved character

    /** The first `i` characters of `s` are saved, and so is `c`, which comes behind them. */
    ghost predicate At(s: seq<Byte>, i: nat, c: int)
      reads this`saved, stream, stream.buffer
      requires Valid()
    {
      i <= |s| && In([], s, Drop(s, i), c)
    }

    lemma Char(s: seq<Byte>, i: nat, c: int)
      requires Valid() && At(s, i, c)
      ensures i <= |s| && Sees(s, i, c)
    {
      hide Rem, Bad, CanUnget, Suffix, Upto;
    }

    method Step(ghost s: seq<Byte>, ghost i: nat, c: int) returns (c': int)
      requires Valid() && At(s, i, c) && i < |s|
      modifies this`saved, stream, stream.buffer
      ensures Valid() && Bad() == old(Bad()) && At(s, i + 1, c')
    {
      hide Valid, Rem, Bad, In;
      DropNext(s, i);
      c' := Next([], s, Drop(s, i), c);
    }

    /** lex_unget_unsave of the character behind a lexeme. */
    method PutBack(ghost s: seq<Byte>, ghost i: nat, c: int)
      requires Valid() && At(s, i, c)
      modifies this`saved, stream
      ensures Valid() && Bad() == old(Bad()) && i <= |s| && Rem() == s[i..] && saved == s[..i]
    {
      hide Valid, Rem, Bad, Read;
      if i < |s| {
        LastSaved([], s, Drop(s, i), c);
      } else {
        assert saved == s;
      }
      UngetUnsave(c, Drop(s, i));
    }

    /** A digit, and all digits behind it. */
    method EatDigits(ghost s: seq<Byte>, ghost i: nat, c: int) returns (c': int, ghost j: nat)
      requires Valid() && At(s, i, c) && IsDigit(c)
      modifies this`saved, stream, stream.buffer
      ensures Valid() && Bad() == old(Bad()) && At(s, j, c')
      ensures i < |s| && j == i + DigitRun(s[i..]) <= |s|
    {
      hide Valid, Rem, Bad, At, DigitRun;
      Char(s, i, c);
      DigitRunStep(s, i);
      c' := Step(s, i, c);
      j := i + 1;
      while IsDigit(c')
        invariant Valid() && Bad() == old(Bad()) && At(s, j, c')
        invariant j <= |s| && j + DigitRun(s[j..]) == i + DigitRun(s[i..])
        decreases |s| - j
      {
        Char(s, j, c');
        DigitRunStep(s, j);
        c' := Step(s, j, c');
        j := j + 1;
      }
      Char(s, j, c');
      DigitRunStep(s, j);
    }

    /** The integer part of a number, from behind its sign. */
    method IntegerPart(ghost s: seq<Byte>, ghost i: nat, c: int) returns (ok: bool, c': int, ghost j: nat)
      requires Valid() && At(s, i, c)
      modifies this`saved, stream, stream.buffer
      ensures Valid() && Bad() == old(Bad())
      ensures ok == GoodInteger(s, i)
      ensures ok ==> j == IntegerEnd(s, i) && At(s, j, c')
    {
      hide Valid, Rem, Bad, At, DigitRun;
      Char(s, i, c);
      ok, c', j := false, c, i;
      if c == 0x30 {
        c' := Step(s, i, c);
        j := i + 1;
        Char(s, j, c');
        if IsDigit(c') {
          PutBack(s, j, c');
          return;
        }
        ok := true;
      } else if IsDigit(c) {
        c', j := EatDigits(s, i, c);
        ok := true;
      } else {
        PutBack(s, i, c);
      }
    }

    /** `.` and digits. */
    method Fraction(ghost s: seq<Byte>, ghost j: nat, c: int) returns (ok: bool, c': int, ghost k: nat)
      requires Valid() && At(s, j, c) && c == 0x2E
      modifies this`saved, stream, stream.buffer
      ensures Valid() && Bad() == old(Bad())
      ensures j < |s| && s[j] == DOT
      ensures ok == (j + 1 < |s| && IsDigit(s[j + 1]))
      ensures ok ==> k == j + 1 + DigitRun(s[j + 1..]) && At(s, k, c')
    {
      hide Valid, Rem, Bad, At, In, DigitRun;
      Char(s, j, c);
      ok, k := false, j;
      DropNext(s, j);
      c' := GetBehind(s, j, c);
      if !IsDigit(c') {
        Unget(c', Drop(s, j + 1));
        return;
      }
      Save(s, j + 1, c');
      c', k := EatDigits(s, j + 1, c');
      ok := true;
    }

    /** lex_get behind a saved character. */
    method GetBehind(ghost s: seq<Byte>, ghost j: nat, c: int) returns (c': int)
      requires Valid() && At(s, j, c) && j < |s|
      modifies stream, stream.buffer
      ensures Valid() && Bad() == old(Bad()) && Read(c', Drop(s, j + 1)) && saved == s[..j + 1] && Sees(s, j + 1, c')
    {
      hide Valid, Rem, Bad, CanUnget;
      DropNext(s, j);
      c' := Get();
    }

    /** lex_save */
    method Save(ghost s: seq<Byte>, ghost i: nat, c: int)
      requires Valid() && i < |s| && Read(c, Drop(s, i)) && saved == s[..i] && Sees(s, i, c)
      modifies this`saved
      ensures Valid() && Bad() == old(Bad()) && At(s, i, c)
    {
      hide Valid, Rem, Bad, Read;
      saved := saved + [if c < 0 then c + 256 else c];
    }

    /** `e` or `E`, a sign perhaps, and digits. */
    method Exponent(ghost s: seq<Byte>, ghost k: nat, c: int) returns (ok: bool, c': int, ghost m: nat)
      requires Valid() && At(s, k, c) && (c == 0x45 || c == 0x65)
      modifies this`saved, stream, stream.buffer
      ensures Valid() && Bad() == old(Bad())
      ensures k < |s| && (s[k] == UPPER_E || s[k] == LOWER_E)
      ensures ok == ScanExponent(s, k).RealLexeme?
      ensures ok ==> m == ScanExponent(s, k).len && At(s, m, c')
    {
      hide Valid, Rem, Bad, At, DigitRun;
      Char(s, k, c);
      ok, m := false, k + 1;
      c' := Step(s, k, c);
      Char(s, m, c');
      if c' == 0x2B || c' == 0x2D {
        c' := Step(s, m, c');
        m := m + 1;
        Char(s, m, c');
      }
      if !IsDigit(c') {
        PutBack(s, m, c');
        return;
      }
      c', m := EatDigits(s, m, c');
      ok := true;
    }

    /** The rest of a number behind its integer part, when that is not all of it. */
    method RealPart(ghost s: seq<Byte>, ghost j: nat, c: int) returns (ok: bool)
      requires Valid() && At(s, j, c) && (c == 0x2E || c == 0x45 || c == 0x65)
      modifies this`saved, stream, stream.buffer
      ensures Valid() && Bad() == old(Bad())
      ensures j < |s|
      ensures ok == RealRest(s, j).RealLexeme?
      ensures ok ==> saved == s[..RealRest(s, j).len] && Rem() == s[RealRest(s, j).len..]
    {
      hide Valid, Rem, Bad, At, DigitRun, ScanExponent;
      Char(s, j, c);
      var c', k := c, j;
      ok := true;
      if c == 0x2E {
        ok, c', k := Fraction(s, j, c);
        if !ok {
          return;
        }
        Char(s, k, c');
      }
      if c' == 0x45 || c' == 0x65 {
        ok, c', k := Exponent(s, k, c');
        if !ok {
          return;
        }
      }
      PutBack(s, k, c');
    }

    /** lex_scan_number: `c`, a digit or a minus sign, starts `s`.  On success the saved text is a number
        lexeme of section 6 of RFC 8259, and the stream resumes at the character behind it. */
    method ScanNumber(ghost s: seq<Byte>, c: int)
      requires Valid() && At(s, 0, c) && |s| > 0
      modifies this, stream, stream.buffer
      ensures Valid() && Bad() == old(Bad()) && Gives(LexNumber(s))
      ensures token.TInteger? || token.TReal? ==> IsNumber(saved) && saved + Rem() == s
    {
      hide Valid, Rem, Bad, At, GoodInteger, IntegerEnd, RealRest, IsNumber, IntValue, IsInteger, LexNumber;
      hide JsonNumber.ScanNumber, Overflows;
      token := TInvalid;
      Char(s, 0, c);
      NumberToken(s);
      var c', ok := c, true;
      ghost var i, j: nat := 0, 0;
      if c == 0x2D {
        c' := Step(s, 0, c);
        i := 1;
      }
      NumberFrom(s, i);
      ok, c', j := IntegerPart(s, i, c');
      if ok {
        Char(s, j, c');
        if c' != 0x2E && c' != 0x45 && c' != 0x65 {
          PutBack(s, j, c');
          var value := IntValue(saved);
          if INT_MIN <= value <= INT_MAX {
            token := TInteger(value);
          }
        } else {
          ok := RealPart(s, j, c');
          if ok && !Overflows(saved) {
            token := TReal(saved);
          }
        }
      }
    }

    /** true, false, null, or some other run of letters. */
    method ScanWord(ghost s: seq<Byte>, c: int)
      requires Valid() && At(s, 0, c) && |s| > 0 && IsAlpha(s[0])
      modifies this, stream, stream.buffer
      ensures Valid() && Bad() == old(Bad()) && Gives(LexWord(s))
    {
      hide Valid, Rem, Bad, At, AlphaRun;
      AlphaRunStep(s, 0);
      Char(s, 0, c);
      var c' := Step(s, 0, c);
      ghost var i: nat := 1;
      while IsAlpha(c')
        invariant Valid() && Bad() == old(Bad()) && At(s, i, c')
        invariant i <= |s| && i + AlphaRun(s[i..]) == AlphaRun(s[0..])
        decreases |s| - i
      {
        Char(s, i, c');
        AlphaRunStep(s, i);
        c' := Step(s, i, c');
        i := i + 1;
      }
      Char(s, i, c');
      AlphaRunStep(s, i);
      PutBack(s, i, c');
      assert s[0..] == s;
      token := if saved == TRUE_TEXT then TTrue else if saved == FALSE_TEXT then TFalse
               else if saved == NULL_TEXT then TNull else TInvalid;
    }

    /** lex_save_cached: what is left of the buffered character is skipped. */
    method SaveCached()
      requires Valid() && stream.state == STATE_OK
      modifies this`saved, stream`bufferPos, stream`position
      ensures Valid() && Bad() == old(Bad())
    {
      hide ValidPrefix;
      while stream.buffer[stream.bufferPos] != 0
        invariant Valid() && stream.state == STATE_OK
        decreases stream.filled - stream.bufferPos
      {
        saved := saved + [stream.buffer[stream.bufferPos]];
        stream.bufferPos, stream.position := stream.bufferPos + 1, stream.position + 1;
      }
    }

    /** lex_scan */
    method Scan()
      requires Valid()
      modifies this, stream, stream.buffer
      ensures Valid() && Bad() == old(Bad()) && Gives(Lex(old(Rem()), old(Bad())))
    {
      hide Valid, Rem, Bad, Read, Lex, LexString, LexNumber, LexWord, At;
      saved := [];
      ghost var s, bad := Rem(), Bad();
      var c := Get();
      ReadByte(c, s);
      while c == 0x20 || c == 0x09 || c == 0x0A || c == 0x0D
        invariant Valid() && Bad() == bad && saved == [] && Read(c, s) && Lex(s, bad) == Lex(old(Rem()), bad)
        decreases |s|
      {
        ReadByte(c, s);
        LexSpace(s, bad);
        c := Get();
        s := Rest(s);
      }
      ReadByte(c, s);
      LexCases(s, bad);
      if c == STATE_EOF {
        token := TEof;
      } else if c == STATE_ERROR {
        token := TInvalid;
      } else {
        SaveFirst(s, c);
        if c == 0x7B || c == 0x7D || c == 0x5B || c == 0x5D || c == 0x3A || c == 0x2C {
          token := TPunct(c);
        } else if c == 0x22 {
          assert s == [QUOTE] + s[1..];
          ScanString(s[1..]);
        } else if IsDigit(c) || c == 0x2D {
          ScanNumber(s, c);
        } else if IsAlpha(c) {
          ScanWord(s, c);
        } else {
          StateOk(s, c);
          SaveCached();
          token := TInvalid;
        }
      }
    }

    /** lex_save of the first character of a token. */
    method SaveFirst(ghost s: seq<Byte>, c: int)
      requires Valid() && Read(c, s) && s != [] && saved == []
      modifies this`saved
      ensures Valid() && Bad() == old(Bad()) && Read(c, s) && saved == [s[0]] && At(s, 0, c)
    {
      hide Valid, Rem, Bad, Read;
      ReadByte(c, s);
      saved := saved + [if c < 0 then c + 256 else c];
    }

    lemma StateOk(s: seq<Byte>, c: int)
      requires Valid() && Read(c, s) && s != []
      ensures stream.state == STATE_OK
    {
    }
  }

  lemma AlphaRunStep(s: seq<Byte>, i: nat)
    requires i <= |s|
    ensures AlphaRun(s[i..]) == if i < |s| && IsAlpha(s[i]) then 1 + AlphaRun(s[i + 1..]) else 0
  {
    if i < |s| {
      assert s[i..][1..] == s[i + 1..];
    }
  }

  lemma LexSpace(s: seq<Byte>, bad: bool)
    requires s != [] && IsSpace(s[0])
    ensures Lex(s[1..], bad) == Lex(s, bad)
  {
    assert s[1..][SpaceRun(s[1..])..] == s[SpaceRun(s)..];
  }

  /** The token that a text without leading blanks starts with. */
  lemma LexCases(s: seq<Byte>, bad: bool)
    requires s != [] ==> !IsSpace(s[0])
    ensures Lex(s, bad)
         == if s == [] then Lexed(if bad then TInvalid else TEof, [])
            else if IsPunct(s[0]) then Lexed(TPunct(s[0]), s[1..])
            else if s[0] == QUOTE then LexString(s)
            else if IsDigit(s[0]) || s[0] == MINUS then LexNumber(s)
            else if IsAlpha(s[0]) then LexWord(s)
            else Lexed(TInvalid, [])
  {
    hide LexString, LexNumber, LexWord, IsPunct;
    assert s[SpaceRun(s)..] == s;
  }

  /** What comes of a number whose integer part is followed by the rest at position `j`. */
  function RealRest(s: seq<Byte>, j: nat): (r: Lexeme)
    requires j < |s|
    ensures !r.IntegerLexeme?
  {
    if s[j] == DOT then ScanFraction(s, j) else ScanExponent(s, j)
  }

  predicate GoodInteger(s: seq<Byte>, i: nat) {
    i < |s| && IsDigit(s[i]) && !(s[i] == ZERO && i + 1 < |s| && IsDigit(s[i + 1]))
  }

  function IntegerEnd(s: seq<Byte>, i: nat): nat
    requires i < |s|
  {
    if s[i] == ZERO then i + 1 else i + DigitRun(s[i..])
  }

  lemma NumberFrom(s: seq<Byte>, i: nat)
    requires |s| > 0 && i == if s[0] == MINUS then 1 else 0
    ensures !GoodInteger(s, i) ==> JsonNumber.ScanNumber(s).BadNumber?
    ensures GoodInteger(s, i) ==> (
              var j := IntegerEnd(s, i);
              if j < |s| && (s[j] == DOT || s[j] == UPPER_E || s[j] == LOWER_E)
              then JsonNumber.ScanNumber(s) == RealRest(s, j)
              else JsonNumber.ScanNumber(s) == IntegerLexeme(j))
  {
    hide ScanFraction, ScanExponent, DigitRun;
  }

  /** The token of a number, by its lexeme. */
  lemma NumberToken(s: seq<Byte>)
    requires |s| > 0
    ensures var r := JsonNumber.ScanNumber(s);
            match r
            case BadNumber => LexNumber(s).token == TInvalid
            case RealLexeme(n) =>
              IsNumber(s[..n]) && s[..n] + s[n..] == s &&
              (if Overflows(s[..n]) then LexNumber(s).token == TInvalid
               else LexNumber(s) == Lexed(TReal(s[..n]), s[n..]))
            case IntegerLexeme(n) =>
              IsNumber(s[..n]) && s[..n] + s[n..] == s && IsInteger(s[..n]) &&
              (if INT_MIN <= IntValue(s[..n]) <= INT_MAX
               then LexNumber(s) == Lexed(TInteger(IntValue(s[..n])), s[n..])
               else LexNumber(s).token == TInvalid)
  {
    hide JsonNumber.ScanNumber, IsNumber, IsInteger, IntValue, Overflows;
    if !JsonNumber.ScanNumber(s).BadNumber? {
      ScanIsNumber(s);
    }
  }

  /** `c` is what is seen of `s` at position `i`. */
  ghost predicate Sees(s: seq<Byte>, i: nat, c: int) {
    if i < |s| then c == SChar(s[i]) else EndMark(c)
  }

  lemma DigitRunStep(s: seq<Byte>, i: nat)
    requires i <= |s|
    ensures DigitRun(s[i..]) == if i < |s| && IsDigit(s[i]) then 1 + DigitRun(s[i + 1..]) else 0
  {
    if i < |s| {
      assert s[i..][1..] == s[i + 1..];
    }
  }

  lemma LexStringOf(s: seq<Byte>)
    ensures JsonString.Scan(s).None? ==> LexString([QUOTE] + s).token == TInvalid
    ensures JsonString.Scan(s).Some? ==>
              var n := JsonString.Scan(s).value;
              JsonString.WellScanned(s[..n]) &&
              LexString([QUOTE] + s) == (
                match JsonString.Decode(s[..n])
                case Text(bytes) => Lexed(TString(bytes), s[n + 1..])
                case Invalid => Lexed(TInvalid, [])
                case Aborted => Lexed(TAborted, []))
  {
    hide JsonString.Scan, JsonString.Decode, JsonString.WellScanned;
    assert ([QUOTE] + s)[1..] == s;
    if JsonString.Scan(s).Some? {
      JsonString.ScanWellScanned(s);
      assert ([QUOTE] + s)[JsonString.Scan(s).value + 2..] == s[JsonString.Scan(s).value + 1..];
    }
  }

  function Drop(s: seq<Byte>, k: nat): seq<Byte> {
    if k <= |s| then s[k..] else []
  }

  lemma DropNext(s: seq<Byte>, k: nat)
    ensures Drop(s, 0) == s && Drop(s, 1) == Rest(s) && Rest(Drop(s, k)) == Drop(s, k + 1)
    ensures Drop(Rest(s), k) == Drop(s, k + 1)
  {
  }

  ghost predicate Suffix(s: seq<Byte>, cur: seq<Byte>) {
    |cur| <= |s| && s[|s| - |cur|..] == cur
  }

  /** The text of `s` up to and including the first byte of its suffix `cur`. */
  function Upto(s: seq<Byte>, cur: seq<Byte>): seq<Byte>
    requires Suffix(s, cur)
  {
    s[..|s| - |cur|] + Head(cur)
  }

  lemma UptoNext(s: seq<Byte>, cur: seq<Byte>)
    requires Suffix(s, cur)
    ensures Suffix(s, Rest(cur)) && Upto(s, Rest(cur)) == Upto(s, cur) + Head(Rest(cur))
  {
  }

  /** The scan of `s` has got to its suffix `cur`. */
  ghost predicate Progress(s: seq<Byte>, cur: seq<Byte>) {
    |cur| <= |s| && JsonString.Scan(s) == JsonString.Plus(|s| - |cur|, JsonString.Scan(cur))
  }

  lemma ScanStep(s: seq<Byte>, cur: seq<Byte>)
    requires Progress(s, cur) && (cur != [] ==> cur[0] != QUOTE)
    ensures cur == [] || cur[0] <= 0x1F ==> JsonString.Scan(s).None?
    ensures cur != [] && cur[0] > 0x1F && cur[0] != BACKSLASH ==> Progress(s, Drop(cur, 1))
    ensures cur != [] && cur[0] == BACKSLASH ==>
              if |cur| >= 2 && cur[1] == LOWER_U then Progress(s, Drop(cur, 6))
              else if |cur| >= 2 && JsonString.ShortEscape(cur[1]) then Progress(s, Drop(cur, 2))
              else JsonString.Scan(s).None?
  {
    hide JsonString.ShortEscape, JsonString.Scan;
    ScanOne(cur);
  }

  /** One turn of the scan. */
  lemma ScanOne(s: seq<Byte>)
    ensures s == [] || (s[0] != QUOTE && s[0] <= 0x1F) ==> JsonString.Scan(s).None?
    ensures s != [] && s[0] > 0x1F && s[0] != QUOTE && s[0] != BACKSLASH ==>
              JsonString.Scan(s) == JsonString.Plus(1, JsonString.Scan(Drop(s, 1)))
    ensures s != [] && s[0] == BACKSLASH ==>
              JsonString.Scan(s) ==
                if |s| >= 2 && s[1] == LOWER_U then JsonString.Plus(6, JsonString.Scan(Drop(s, 6)))
                else if |s| >= 2 && JsonString.ShortEscape(s[1]) then JsonString.Plus(2, JsonString.Scan(Drop(s, 2)))
                else None
  {
    hide JsonString.ShortEscape;
    NotShortEscape();
  }

  lemma NotShortEscape()
    ensures !JsonString.ShortEscape(LOWER_U)
  {
  }

  lemma TextSaved(s: seq<Byte>, cur: seq<Byte>)
    requires Progress(s, cur) && Suffix(s, cur) && cur != [] && cur[0] == QUOTE
    ensures JsonString.Scan(s) == Some(|s| - |cur|)
    ensures Upto(s, cur) == s[..|s| - |cur|] + [QUOTE] && cur[1..] == s[|s| - |cur| + 1..]
  {
    hide JsonString.Scan, Suffix, Upto;
    ScanOfQuote(cur);
    SuffixTail(s, cur);
  }

  lemma SuffixTail(s: seq<Byte>, cur: seq<Byte>)
    requires Suffix(s, cur) && cur != []
    ensures Upto(s, cur) == s[..|s| - |cur|] + [cur[0]] && cur[1..] == s[|s| - |cur| + 1..]
  {
  }

  lemma ScanOfQuote(cur: seq<Byte>)
    requires cur != [] && cur[0] == QUOTE
    ensures JsonString.Scan(cur) == Some(0)
  {
  }
}
