/** Where the printer writes to, and how it writes strings. */
module PrintString {
  import opened Bytes
  import opened Utf8
  import opened Wrappers
  import opened JsonString

  /** The dump callback with its data.  Whether a call fails may depend on all the calls made so far. */
  class Sink {
    var text: seq<Byte>            // what was taken
    var calls: seq<seq<Byte>>
    ghost var failed: bool         // some call has failed
    const fails: seq<seq<Byte>> -> bool

    constructor (fails: seq<seq<Byte>> -> bool)
      ensures text == [] && !failed && this.fails == fails
    {
      this.fails := fails;
      text, calls, failed := [], [], false;
    }

    ghost predicate MayFail() {
      exists cs :: fails(cs)
    }

    method Put(s: seq<Byte>) returns (ok: bool)
      modifies this
      ensures ok ==> text == old(text) + s && failed == old(failed)
      ensures !ok ==> text == old(text) && failed && MayFail()
    {
      calls := calls + [s];
      ok := !fails(calls);
      if ok {
        text := text + s;
      } else {
        failed := true;
      }
    }
  }

  /** The text put so far is the escaped form of the string up to `str`; the characters from there to `pos` are valid
      and will be copied. */
  ghost predicate Escaping(s: CString, ascii: bool, done: seq<Byte>, str: nat, pos: nat)
    requires str <= pos <= |s|
  {
    && IsUtf8(s[..str]) && done == Escape(s[..str], ascii)
    && IsUtf8(s[..pos]) && Escape(s[..pos], ascii) == done + s[str..pos]
    && (IsUtf8(s) <==> IsUtf8(s[pos..]))
    && LastEscape(s, ascii) == if LastEscape(s[pos..], ascii) > 0 then pos + LastEscape(s[pos..], ascii) else str
  }

  /** Another character behind a valid string. */
  lemma {:induction false} EscapeMore(a: CString, c: seq<Byte>, ascii: bool)
    requires IsUtf8(a) && IsChar(c)
    ensures IsUtf8(a + c) && Escape(a + c, ascii) == Escape(a, ascii) + CharText(c, ascii)
    decreases |a|
  {
    hide IsChar, CharLen, CharText;
    if |a| == 0 {
      EscapeOne(c, ascii);
      assert a + c == c;
    } else {
      var n := CharLen(a);
      IsCharPrefix(a);
      EscapeMore(a[n..], c, ascii);
      CharInFront(a[..n], a[n..] + c);
      assert a + c == a[..n] + (a[n..] + c);
    }
  }

  lemma EscapeOne(c: seq<Byte>, ascii: bool)
    requires IsChar(c)
    ensures IsUtf8(c) && Escape(c, ascii) == CharText(c, ascii)
  {
    hide CharText, CharLen;
    CharInFront(c, []);
    CharNotEmpty(c);
    assert c + [] == c;
    assert c[CharLen(c)..] == [] && c[..CharLen(c)] == c;
  }

  lemma CharNotEmpty(c: seq<Byte>)
    requires IsChar(c)
    ensures |c| > 0
  {
  }

  /** What comes behind the first character. */
  lemma Behind(t: seq<Byte>, ascii: bool)
    requires CharLen(t) > 0
    ensures IsChar(t[..CharLen(t)])
    ensures IsUtf8(t) <==> IsUtf8(t[CharLen(t)..])
    ensures var k, n := CharLen(t), LastEscape(t[CharLen(t)..], ascii);
            LastEscape(t, ascii) == if n > 0 then k + n else if MustEscape(Decoding(t[..k]), ascii) then k else 0
  {
    hide CharLen, IsChar, Decoding, MustEscape;
    IsCharPrefix(t);
  }

  /** The character at `pos` is copied. */
  lemma EscapingCopy(s: CString, ascii: bool, done: seq<Byte>, str: nat, pos: nat, n: nat)
    requires str <= pos < |s| && Escaping(s, ascii, done, str, pos)
    requires n == CharLen(s[pos..]) > 0 && pos + n <= |s| && IsChar(s[pos..pos + n])
    requires !MustEscape(Decoding(s[pos..pos + n]), ascii)
    ensures Escaping(s, ascii, done, str, pos + n)
  {
    hide CharLen, IsChar, Decoding, MustEscape, EscapeOf, Escape, IsUtf8, LastEscape;
    var c := s[pos..pos + n];
    assert s[pos..][n..] == s[pos + n..] && s[pos..][..n] == c;
    Behind(s[pos..], ascii);
    EscapeMore(s[..pos], c, ascii);
    assert s[..pos + n] == s[..pos] + c;
    assert s[str..pos + n] == s[str..pos] + c;
  }

  /** What is pending has been put, and the escape of the character at `pos`. */
  lemma EscapingPut(s: CString, ascii: bool, done: seq<Byte>, str: nat, pos: nat, n: nat)
    requires str <= pos < |s| && Escaping(s, ascii, done, str, pos)
    requires n == CharLen(s[pos..]) > 0 && pos + n <= |s| && IsChar(s[pos..pos + n])
    requires MustEscape(Decoding(s[pos..pos + n]), ascii) && Scalar(Decoding(s[pos..pos + n]))
    ensures Escaping(s, ascii, done + s[str..pos] + EscapeOf(Decoding(s[pos..pos + n])), pos + n, pos + n)
  {
    hide CharLen, IsChar, Decoding, MustEscape, EscapeOf, Escape, IsUtf8, LastEscape;
    var c := s[pos..pos + n];
    assert s[pos..][n..] == s[pos + n..] && s[pos..][..n] == c;
    Behind(s[pos..], ascii);
    EscapeMore(s[..pos], c, ascii);
    assert s[..pos + n] == s[..pos] + c;
    assert s[pos + n..pos + n] == [];
  }

  /** Nothing that starts at `pos` is a character: what has been put is all that will be. */
  lemma EscapingInvalid(s: CString, ascii: bool, done: seq<Byte>, str: nat, pos: nat)
    requires str <= pos < |s| && Escaping(s, ascii, done, str, pos) && CharLen(s[pos..]) == 0
    ensures !IsUtf8(s) && Shown(s, ascii) == [QUOTE] + done
  {
    hide CharLen;
  }

  lemma EscapingStart(s: CString, ascii: bool)
    ensures Escaping(s, ascii, [], 0, 0)
  {
    assert s[0..] == s && s[0..0] == [] && s[..0] == [];
  }

  lemma EscapingEnd(s: CString, ascii: bool, done: seq<Byte>, str: nat)
    requires str <= |s| && Escaping(s, ascii, done, str, |s|)
    ensures IsUtf8(s) && Shown(s, ascii) == [QUOTE] + (done + s[str..]) + [QUOTE]
  {
    hide CharLen, LastEscape;
    assert s[|s|..] == [] && s[..|s|] == s;
    assert s[str..|s|] == s[str..];
  }

  /** The switch of dump_string: the escape of a code point. */
  method EscapeText(codepoint: int) returns (text: seq<Byte>)
    requires Scalar(codepoint)
    ensures text == EscapeOf(codepoint)
  {
    match codepoint
    case 0x5C => text := [BACKSLASH, BACKSLASH];
    case 0x22 => text := [BACKSLASH, QUOTE];
    case 0x08 => text := [BACKSLASH, LOWER_B];
    case 0x0C => text := [BACKSLASH, LOWER_F];
    case 0x0A => text := [BACKSLASH, LOWER_N];
    case 0x0D => text := [BACKSLASH, LOWER_R];
    case 0x09 => text := [BACKSLASH, LOWER_T];
    case _ =>
      if codepoint < 0x10000 {
        text := [BACKSLASH, LOWER_U] + Hex4(codepoint);
      } else {
        text := [BACKSLASH, LOWER_U] + Hex4(HighSurrogate(codepoint)) + [BACKSLASH, LOWER_U]
          + Hex4(LowSurrogate(codepoint));
      }
  }

  /** The inner loop of dump_string: copies until a character must be escaped, or the string ends. */
  method SkipCopied(s: CString, ascii: bool, ghost done: seq<Byte>, str: nat)
    returns (pos: nat, end: int, codepoint: int)
    requires 0 !in s && str <= |s| && Escaping(s, ascii, done, str, str)
    ensures str <= pos <= |s| && Escaping(s, ascii, done, str, pos)
    ensures end == -1 ==> pos < |s| && CharLen(s[pos..]) == 0
    ensures end == pos ==> pos == |s|
    ensures end == -1 || pos <= end <= |s|
    ensures pos < end ==>
              end == pos + CharLen(s[pos..]) && IsChar(s[pos..end]) && codepoint == Decoding(s[pos..end]) &&
              Scalar(codepoint) && MustEscape(codepoint, ascii)
  {
    hide CharLen, IsChar, Decoding, EscapeOf, Escaping, IsUtf8;
    pos, end, codepoint := str, str, 0;
    while end < |s|
      invariant str <= pos == end <= |s| && Escaping(s, ascii, done, str, pos)
    {
      end, codepoint := Iterate(s, pos);
      if end == -1 {
        return;
      }
      FirstChar(s, pos);
      if codepoint == 0x5C || codepoint == 0x22 || codepoint < 0x20 {
        return;
      }
      if ascii && codepoint > 0x7F {
        return;
      }
      EscapingCopy(s, ascii, done, str, pos, end - pos);
      pos := end;
    }
  }

  lemma FirstChar(s: CString, pos: nat)
    requires pos < |s| && CharLen(s[pos..]) > 0
    ensures var n := CharLen(s[pos..]); IsChar(s[pos..pos + n]) && Scalar(Decoding(s[pos..pos + n]))
  {
    hide Decoding, IsChar, CharLen;
    var n := CharLen(s[pos..]);
    IsCharPrefix(s[pos..]);
    assert s[pos..pos + n] == s[pos..][..n];
    DecodeEncode(s[pos..pos + n]);
  }

  /** dump_string: fails exactly on strings that are not UTF-8, where the closing quote is missing. */
  method DumpString(s: CString, ascii: bool, out: Sink) returns (ok: bool)
    requires 0 !in s
    modifies out
    ensures old(out.failed) ==> out.failed
    ensures out.failed ==> old(out.failed) || (out.MayFail() && !ok)
    ensures !out.failed ==> (ok <==> IsUtf8(s)) && out.text == old(out.text) + Shown(s, ascii)
  {
    hide CharLen, IsChar, Decoding, EscapeOf, Escaping, IsUtf8, MustEscape, Escape, Shown;
    ok := out.Put([QUOTE]);
    if !ok {
      return;
    }
    ghost var done: seq<Byte> := [];
    var str: nat := 0;
    EscapingStart(s, ascii);
    while true
      invariant str <= |s| && Escaping(s, ascii, done, str, str)
      invariant out.failed == old(out.failed)
      invariant out.text == old(out.text) + [QUOTE] + done
      decreases |s| - str
    {
      var pos, end, codepoint := SkipCopied(s, ascii, done, str);
      if end == -1 {
        EscapingInvalid(s, ascii, done, str, pos);
        Closed(old(out.text), done);
        return false;
      }
      if pos != str {
        ok := out.Put(s[str..pos]);
        if !ok {
          return;
        }
      }
      Flushed(old(out.text), done, s[str..pos]);
      if end == pos {
        EscapingEnd(s, ascii, done, str);
        assert s[str..pos] == s[str..];
        done := done + s[str..pos];
        break;
      }
      var text := EscapeText(codepoint);
      ok := out.Put(text);
      if !ok {
        return;
      }
      EscapingPut(s, ascii, done, str, pos, end - pos);
      Flushed(old(out.text), done + s[str..pos], text);
      done := done + s[str..pos] + text;
      str := end;
    }
    assert IsUtf8(s) && Shown(s, ascii) == [QUOTE] + done + [QUOTE];
    ok := out.Put([QUOTE]);
    Closed(old(out.text), done);
  }

  lemma Flushed(base: seq<Byte>, done: seq<Byte>, more: seq<Byte>)
    ensures base + [QUOTE] + done + more == base + [QUOTE] + (done + more)
    ensures more == [] ==> base + [QUOTE] + done == base + [QUOTE] + (done + more)
  {
  }

  lemma Closed(base: seq<Byte>, done: seq<Byte>)
    ensures base + [QUOTE] + done == base + ([QUOTE] + done)
    ensures base + [QUOTE] + done + [QUOTE] == base + ([QUOTE] + done + [QUOTE])
  {
  }
}
