/** UTF-8 encoding, decoding and validation. */
module Utf8 {
  import opened Bytes

  // ---- the grammar (section 4 of RFC 3629)

  predicate Tail(b: Byte) { 0x80 <= b <= 0xBF }

  predicate Char1(s: seq<Byte>) { |s| == 1 && s[0] <= 0x7F }

  predicate Char2(s: seq<Byte>) { |s| == 2 && 0xC2 <= s[0] <= 0xDF && Tail(s[1]) }

  predicate Char3(s: seq<Byte>) {
    |s| == 3 && Tail(s[2]) &&
    ( (s[0] == 0xE0 && 0xA0 <= s[1] <= 0xBF)
   || (0xE1 <= s[0] <= 0xEC && Tail(s[1]))
   || (s[0] == 0xED && 0x80 <= s[1] <= 0x9F)
   || (0xEE <= s[0] <= 0xEF && Tail(s[1])))
  }

  predicate Char4(s: seq<Byte>) {
    |s| == 4 && Tail(s[2]) && Tail(s[3]) &&
    ( (s[0] == 0xF0 && 0x90 <= s[1] <= 0xBF)
   || (0xF1 <= s[0] <= 0xF3 && Tail(s[1]))
   || (s[0] == 0xF4 && 0x80 <= s[1] <= 0x8F))
  }

  /** UTF8-char */
  predicate IsChar(s: seq<Byte>) { Char1(s) || Char2(s) || Char3(s) || Char4(s) }

  /** The length of the character a byte string starts with, or 0 if it starts with none. */
  function CharLen(s: seq<Byte>): (n: nat)
    ensures n <= |s| && n <= 4
  {
    if |s| >= 1 && Char1(s[..1]) then 1
    else if |s| >= 2 && Char2(s[..2]) then 2
    else if |s| >= 3 && Char3(s[..3]) then 3
    else if |s| >= 4 && Char4(s[..4]) then 4
    else 0
  }

  /** UTF8-octets: a sequence of characters. */
  predicate IsUtf8(s: seq<Byte>)
    decreases |s|
  {
    |s| == 0 || (CharLen(s) > 0 && IsUtf8(s[CharLen(s)..]))
  }

  // ---- code points

  /** A code point that is not a surrogate. */
  predicate Scalar(cp: int) { 0 <= cp <= 0x10FFFF && !(0xD800 <= cp <= 0xDFFF) }

  /** What utf8_encode writes for a code point in range (surrogates included). */
  function Encoding(cp: int): (s: seq<Byte>)
    requires 0 <= cp <= 0x10FFFF
    ensures 1 <= |s| <= 4
  {
    if cp < 0x80 then [cp]
    else if cp < 0x800 then Bytes2(cp / 64, cp % 64)
    else if cp < 0x10000 then Bytes3(cp / 64 / 64, cp / 64 % 64, cp % 64)
    else Bytes4(cp / 64 / 64 / 64, cp / 64 / 64 % 64, cp / 64 % 64, cp % 64)
  }

  function Bytes2(x: nat, y: nat): (s: seq<Byte>)
    requires x < 32 && y < 64
    ensures |s| == 2
  {
    [0xC0 + x, 0x80 + y]
  }

  function Bytes3(x: nat, y: nat, z: nat): (s: seq<Byte>)
    requires x < 16 && y < 64 && z < 64
    ensures |s| == 3
  {
    [0xE0 + x, 0x80 + y, 0x80 + z]
  }

  function Bytes4(x: nat, y: nat, z: nat, w: nat): (s: seq<Byte>)
    requires x < 8 && y < 64 && z < 64 && w < 64
    ensures |s| == 4
  {
    [0xF0 + x, 0x80 + y, 0x80 + z, 0x80 + w]
  }

  /** The value of two, three or four bytes with their six-bit payloads. */
  function Value2(a: int, b: int): int { (a - 0xC0) * 64 + (b - 0x80) }

  function Value3(a: int, b: int, c: int): int { (a - 0xE0) * 4096 + (b - 0x80) * 64 + (c - 0x80) }

  function Value4(a: int, b: int, c: int, d: int): int {
    (a - 0xF0) * 262144 + (b - 0x80) * 4096 + (c - 0x80) * 64 + (d - 0x80)
  }

  /** The code point of a character. */
  function Decoding(s: seq<Byte>): int
    requires IsChar(s)
  {
    match |s|
    case 1 => s[0]
    case 2 => Value2(s[0], s[1])
    case 3 => Value3(s[0], s[1], s[2])
    case _ => Value4(s[0], s[1], s[2], s[3])
  }

  lemma DivMod64(q: nat, r: nat)
    requires r < 64
    ensures (q * 64 + r) / 64 == q && (q * 64 + r) % 64 == r
  {
  }

  lemma Split64(x: nat)
    ensures x == x / 64 * 64 + x % 64 && x % 64 < 64
  {
  }

  /** Encoding a scalar value gives a character that decodes to it. */
  lemma EncodeDecode(cp: int)
    requires Scalar(cp)
    ensures IsChar(Encoding(cp)) && Decoding(Encoding(cp)) == cp
  {
    Split64(cp);
    Split64(cp / 64);
    Split64(cp / 64 / 64);
    EncodeDecodeDigits(cp, cp / 64, cp / 64 / 64, cp / 64 / 64 / 64, cp % 64, cp / 64 % 64, cp / 64 / 64 % 64);
  }

  lemma EncodeDecodeDigits(cp: nat, a: nat, b: nat, c: nat, x: nat, y: nat, z: nat)
    requires Scalar(cp) && cp == 64 * a + x && a == 64 * b + y && b == 64 * c + z && x < 64 && y < 64 && z < 64
    ensures cp < 0x80 ==> IsChar([cp]) && Decoding([cp]) == cp
    ensures 0x80 <= cp < 0x800 ==> IsChar(Bytes2(a, x)) && Decoding(Bytes2(a, x)) == cp
    ensures 0x800 <= cp < 0x10000 ==> IsChar(Bytes3(b, y, x)) && Decoding(Bytes3(b, y, x)) == cp
    ensures 0x10000 <= cp ==> IsChar(Bytes4(c, z, y, x)) && Decoding(Bytes4(c, z, y, x)) == cp
  {
  }

  lemma Encode2(a: nat, b: nat)
    requires 0xC2 <= a <= 0xDF && 0x80 <= b <= 0xBF
    ensures Scalar(Value2(a, b)) && Encoding(Value2(a, b)) == [a, b]
  {
    DivMod64(a - 0xC0, b - 0x80);
  }

  lemma Encode3(a: nat, b: nat, c: nat)
    requires a < 256 && b < 256 && c < 256 && Char3([a, b, c])
    ensures Scalar(Value3(a, b, c)) && Encoding(Value3(a, b, c)) == [a, b, c]
  {
    var q := (a - 0xE0) * 64 + (b - 0x80);
    assert Value3(a, b, c) == q * 64 + (c - 0x80);
    DivMod64(q, c - 0x80);
    DivMod64(a - 0xE0, b - 0x80);
  }

  lemma Encode4(a: nat, b: nat, c: nat, d: nat)
    requires a < 256 && b < 256 && c < 256 && d < 256 && Char4([a, b, c, d])
    ensures Scalar(Value4(a, b, c, d)) && Encoding(Value4(a, b, c, d)) == [a, b, c, d]
  {
    var p := (a - 0xF0) * 64 + (b - 0x80);
    var q := p * 64 + (c - 0x80);
    assert Value4(a, b, c, d) == q * 64 + (d - 0x80);
    DivMod64(q, d - 0x80);
    DivMod64(p, c - 0x80);
    DivMod64(a - 0xF0, b - 0x80);
  }

  /** Every character decodes to a scalar value, and encodes back to itself. */
  lemma DecodeEncode(s: seq<Byte>)
    requires IsChar(s)
    ensures Scalar(Decoding(s)) && Encoding(Decoding(s)) == s
  {
    hide Encoding, Value2, Value3, Value4;
    if |s| == 1 {
      Encode1(s[0]);
    } else if |s| == 2 {
      Encode2(s[0], s[1]);
    } else if |s| == 3 {
      assert s == [s[0], s[1], s[2]];
      Encode3(s[0], s[1], s[2]);
    } else {
      assert s == [s[0], s[1], s[2], s[3]];
      Encode4(s[0], s[1], s[2], s[3]);
    }
  }

  /** The order of characters as byte strings is that of their code points (section 1 of RFC 3629).  With the two round
      trips, that leaves only one encoding. */
  lemma EncodingAscends(a: int, b: int) returns (k: nat)
    requires Scalar(a) && Scalar(b) && a < b
    ensures k < |Encoding(a)| && k < |Encoding(b)|
    ensures Encoding(a)[..k] == Encoding(b)[..k] && Encoding(a)[k] < Encoding(b)[k]
  {
    hide Encoding, IsChar, Decoding;
    EncodeDecode(a);
    EncodeDecode(b);
    k := CharsAscend(Encoding(a), Encoding(b));
  }

  lemma CharsAscend(s: seq<Byte>, t: seq<Byte>) returns (k: nat)
    requires IsChar(s) && IsChar(t) && Decoding(s) < Decoding(t)
    ensures k < |s| && k < |t| && s[..k] == t[..k] && s[k] < t[k]
  {
    if s[0] != t[0] {
      k := 0;
    } else if s[1] != t[1] {
      k := 1;
    } else if s[2] != t[2] {
      k := 2;
    } else {
      k := 3;
    }
  }

  lemma Encode1(a: Byte)
    requires a < 0x80
    ensures Encoding(a) == [a]
  {
  }

  /** The bytes of an encoding, each from the code point. */
  lemma EncodingBytes(cp: nat)
    requires cp <= 0x10FFFF
    ensures cp < 0x80 ==> Encoding(cp) == [cp]
    ensures 0x80 <= cp < 0x800 ==> Encoding(cp) == [0xC0 + cp / 64 % 32, 0x80 + cp % 64]
    ensures 0x800 <= cp < 0x10000 ==> Encoding(cp) == [0xE0 + cp / 4096 % 16, 0x80 + cp / 64 % 64, 0x80 + cp % 64]
    ensures 0x10000 <= cp ==>
              Encoding(cp) == [0xF0 + cp / 262144 % 8, 0x80 + cp / 4096 % 64, 0x80 + cp / 64 % 64, 0x80 + cp % 64]
  {
    DivDiv(cp);
  }

  /** utf8_encode */
  method Encode(cp: int, buffer: array<Byte>) returns (r: int, size: nat)
    requires buffer.Length >= 4
    modifies buffer
    ensures r == if 0 <= cp <= 0x10FFFF then 0 else -1
    ensures r == 0 ==> size <= 4 && buffer[..size] == Encoding(cp)
    ensures r == -1 ==> buffer[..] == old(buffer[..])
  {
    hide Encoding;
    size := 0;
    if cp < 0 || cp > 0x10FFFF {
      return -1, 0;
    }
    EncodingBytes(cp);
    if cp < 0x80 {
      buffer[0] := cp;
      size := 1;
    } else if cp < 0x800 {
      buffer[0] := 0xC0 + cp / 64 % 32;
      buffer[1] := 0x80 + cp % 64;
      size := 2;
    } else if cp < 0x10000 {
      buffer[0] := 0xE0 + cp / 4096 % 16;
      buffer[1] := 0x80 + cp / 64 % 64;
      buffer[2] := 0x80 + cp % 64;
      size := 3;
    } else {
      buffer[0] := 0xF0 + cp / 262144 % 8;
      buffer[1] := 0x80 + cp / 4096 % 64;
      buffer[2] := 0x80 + cp / 64 % 64;
      buffer[3] := 0x80 + cp % 64;
      size := 4;
    }
    r := 0;
  }

  lemma DivDiv(cp: nat)
    ensures cp / 4096 == cp / 64 / 64 && cp / 262144 == cp / 64 / 64 / 64
  {
  }

  /** utf8_check_first */
  function CheckFirst(u: Byte): nat {
    if u < 0x80 then 1
    else if 0x80 <= u <= 0xBF then 0
    else if u == 0xC0 || u == 0xC1 then 0
    else if 0xC2 <= u <= 0xDF then 2
    else if 0xE0 <= u <= 0xEF then 3
    else if 0xF0 <= u <= 0xF4 then 4
    else 0
  }

  /** The value bits of the first byte of a `size`-byte sequence. */
  function LeadBits(u: Byte, size: nat): nat {
    match size
    case 2 => u % 32
    case 3 => u % 16
    case _ => u % 8
  }

  /** The value accumulated from the first bytes of a `size`-byte sequence, six bits per byte. */
  function Accumulated(s: seq<Byte>, size: nat): nat
    requires |s| > 0
  {
    if |s| == 1 then LeadBits(s[0], size)
    else Accumulated(s[..|s| - 1], size) * 64 + s[|s| - 1] % 64
  }

  /** utf8_check_full accepts a multi-byte sequence by its value. */
  predicate InRange(size: nat, value: int) {
    !(value > 0x10FFFF || 0xD800 <= value <= 0xDFFF
      || (size == 2 && value < 0x80) || (size == 3 && value < 0x800) || (size == 4 && value < 0x10000))
  }

  lemma Ranges2(a: nat, b: nat)
    requires 0xC2 <= a <= 0xDF && 0x80 <= b <= 0xBF
    ensures InRange(2, Value2(a, b)) && Char2([a, b])
  {
  }

  lemma Ranges3(a: nat, b: nat, c: nat)
    requires 0xE0 <= a <= 0xEF && 0x80 <= b <= 0xBF && 0x80 <= c <= 0xBF
    ensures InRange(3, Value3(a, b, c)) <==> Char3([a, b, c])
  {
  }

  lemma Ranges4(a: nat, b: nat, c: nat, d: nat)
    requires 0xF0 <= a <= 0xF4 && 0x80 <= b <= 0xBF && 0x80 <= c <= 0xBF && 0x80 <= d <= 0xBF
    ensures InRange(4, Value4(a, b, c, d)) <==> Char4([a, b, c, d])
  {
  }

  lemma AccumulatedValue(s: seq<Byte>)
    requires 2 <= |s| <= 4 && CheckFirst(s[0]) == |s|
    requires forall j :: 1 <= j < |s| ==> Tail(s[j])
    ensures |s| == 2 ==> Accumulated(s, 2) == Value2(s[0], s[1])
    ensures |s| == 3 ==> Accumulated(s, 3) == Value3(s[0], s[1], s[2])
    ensures |s| == 4 ==> Accumulated(s, 4) == Value4(s[0], s[1], s[2], s[3])
  {
    hide Accumulated, LeadBits, CheckFirst, Tail;
    LeadBitsAre(s[0]);
    TailBitsAre(s[1]);
    if |s| == 2 {
      Unfold2(s, 2);
    } else if |s| == 3 {
      TailBitsAre(s[2]);
      Unfold2(s[..2], 3);
      Unfold(s, 3);
    } else {
      Unfold2(s[..2], 4);
      assert s[..3][..2] == s[..2];
      TailBitsAre(s[2]);
      TailBitsAre(s[3]);
      Unfold(s[..3], 4);
      Unfold(s, 4);
    }
  }

  lemma LeadBitsAre(u: Byte)
    ensures CheckFirst(u) == 2 ==> LeadBits(u, 2) == u as int - 0xC0
    ensures CheckFirst(u) == 3 ==> LeadBits(u, 3) == u as int - 0xE0
    ensures CheckFirst(u) == 4 ==> LeadBits(u, 4) == u as int - 0xF0
  {
  }

  lemma TailBitsAre(u: Byte)
    requires Tail(u)
    ensures u % 64 == u as int - 0x80
  {
  }

  lemma Unfold(s: seq<Byte>, size: nat)
    requires |s| >= 2
    ensures Accumulated(s, size) == Accumulated(s[..|s| - 1], size) * 64 + s[|s| - 1] % 64
  {
  }

  lemma Unfold2(s: seq<Byte>, size: nat)
    requires |s| == 2
    ensures Accumulated(s, size) == LeadBits(s[0], size) * 64 + s[1] % 64
  {
    assert s[..1] == [s[0]];
  }

  /** Accepting by value is the same as accepting by the byte ranges of the grammar. */
  lemma RangesAreGrammar(s: seq<Byte>)
    requires 2 <= |s| <= 4 && CheckFirst(s[0]) == |s|
    requires forall j :: 1 <= j < |s| ==> Tail(s[j])
    ensures InRange(|s|, Accumulated(s, |s|)) <==> IsChar(s)
    ensures IsChar(s) ==> Accumulated(s, |s|) == Decoding(s)
  {
    hide InRange, Value2, Value3, Value4, Accumulated;
    AccumulatedValue(s);
    if |s| == 2 {
      Ranges2(s[0], s[1]);
    } else if |s| == 3 {
      Ranges3(s[0], s[1], s[2]);
    } else {
      Ranges4(s[0], s[1], s[2], s[3]);
    }
  }

  /** What utf8_check_full goes by: two to four bytes, of which all but the first are continuation bytes, and whose
      value is in range and needs that many bytes. */
  predicate Accepted(s: seq<Byte>) {
    2 <= |s| <= 4 && (forall j :: 1 <= j < |s| ==> Tail(s[j])) && InRange(|s|, Accumulated(s, |s|))
  }

  /** utf8_check_full on the bytes at `i`.  There are `size` bytes, or a terminating NUL stops the loop in time.  With
      a first byte that announces `size` bytes, the outcome is that of the grammar. */
  method CheckFull(s: seq<Byte>, i: nat, size: nat) returns (ok: bool, cp: int)
    requires i < |s|
    requires 2 <= size <= 4 && i + size > |s| ==> i < |s| - 1 && s[|s| - 1] == 0
    ensures ok == (i + size <= |s| && Accepted(s[i..i + size]))
    ensures ok ==> cp == Accumulated(s[i..i + size], size)
    ensures CheckFirst(s[i]) == size ==> ok == (size > 1 && i + size <= |s| && IsChar(s[i..i + size]))
    ensures CheckFirst(s[i]) == size && ok ==> cp == Decoding(s[i..i + size])
  {
    hide Accumulated, Decoding, IsChar, InRange, LeadBits, CheckFirst;
    ok, cp := false, 0;
    FirstAnnounces(s[i]);
    if size < 2 || size > 4 {
      return;
    }
    var value: int := LeadBits(s[i], size);
    var k := 1;
    AccumulatedFirst(s, i, size);
    while k < size
      invariant 1 <= k <= size && i + k <= |s|
      invariant k < size ==> i + k < |s|
      invariant forall j :: i < j < i + k ==> Tail(s[j])
      invariant value == Accumulated(s[i..i + k], size)
    {
      var u := s[i + k];
      if u < 0x80 || u > 0xBF {
        NotAChar(s, i, size, k);
        return;
      }
      AccumulatedNext(s, i, size, k);
      value := value * 64 + u % 64;
      k := k + 1;
    }
    if CheckFirst(s[i]) == size {
      RangesAreGrammar(s[i..i + size]);
    }
    if !InRange(size, value) {
      return;
    }
    ok, cp := true, value;
  }

  lemma FirstAnnounces(u: Byte)
    ensures 0 <= CheckFirst(u) <= 4
  {
  }

  lemma AccumulatedFirst(s: seq<Byte>, i: nat, size: nat)
    requires i < |s|
    ensures Accumulated(s[i..i + 1], size) == LeadBits(s[i], size)
  {
  }

  lemma AccumulatedNext(s: seq<Byte>, i: nat, size: nat, k: nat)
    requires k > 0 && i + k < |s|
    ensures Accumulated(s[i..i + k + 1], size) == Accumulated(s[i..i + k], size) * 64 + s[i + k] % 64
  {
    assert s[i..i + k + 1][..k] == s[i..i + k];
  }

  lemma NotAChar(s: seq<Byte>, i: nat, size: nat, k: nat)
    requires 0 < k < size && i + k < |s| && !Tail(s[i + k])
    ensures i + size <= |s| ==> !Accepted(s[i..i + size])
    ensures i + size <= |s| && CheckFirst(s[i]) == size ==> !IsChar(s[i..i + size])
  {
    hide InRange, Accumulated;
    assert i + size <= |s| ==> s[i..i + size][k] == s[i + k];
  }

  // ---- whole strings

  /** The first byte alone tells how long the character has to be. */
  lemma FirstDecides(s: seq<Byte>)
    requires |s| > 0
    ensures CheckFirst(s[0]) == 0 ==> CharLen(s) == 0
    ensures CheckFirst(s[0]) == 1 ==> CharLen(s) == 1
    ensures CheckFirst(s[0]) > 1 ==>
              CharLen(s) == if CheckFirst(s[0]) <= |s| && IsChar(s[..CheckFirst(s[0])]) then CheckFirst(s[0]) else 0
  {
  }

  /** utf8_check_string */
  method CheckString(s: seq<Byte>) returns (r: bool)
    ensures r <==> IsUtf8(s)
  {
    hide IsChar, CharLen, CheckFirst;
    var i := 0;
    while i < |s|
      invariant i <= |s| && (IsUtf8(s[i..]) <==> IsUtf8(s))
    {
      FirstDecides(s[i..]);
      var count := CheckFirst(s[i]);
      if count == 0 {
        return false;
      } else if count > 1 {
        if i + count > |s| {
          return false;
        }
        var ok, cp := CheckFull(s, i, count);
        assert s[i..][..count] == s[i..i + count];
        if !ok {
          return false;
        }
        i := i + (count - 1);
      }
      assert s[i + 1 - count..][count..] == s[i + 1..];
      i := i + 1;
    }
    r := true;
  }

  /** utf8_iterate on the NUL-terminated string at position `i`: -1 stands for NULL. */
  method Iterate(s: CString, i: nat) returns (next: int, cp: int)
    requires i <= |s| && 0 !in s
    ensures i == |s| ==> next == i
    ensures i < |s| ==> next == if CharLen(s[i..]) == 0 then -1 else i + CharLen(s[i..])
    ensures i < |s| && CharLen(s[i..]) > 0 ==> cp == Decoding(s[i..i + CharLen(s[i..])])
  {
    hide Accumulated;
    cp := 0;
    if i == |s| {
      return i, 0;
    }
    FirstDecides(s[i..]);
    var count := CheckFirst(s[i]);
    if count == 0 {
      return -1, 0;
    }
    if count == 1 {
      cp := s[i];
    } else {
      var ok;
      ok, cp := CheckFull(s + [0], i, count);
      if !ok {
        NulEnds(s, i, count);
        return -1, 0;
      }
      NulEnds(s, i, count);
    }
    next := i + count;
  }

  /** The terminating NUL is never part of a multi-byte character. */
  lemma NulEnds(s: CString, i: nat, count: nat)
    requires i < |s| && count > 1
    ensures i + count <= |s| + 1 && IsChar((s + [0])[i..i + count]) <==>
            i + count <= |s| && IsChar(s[i..][..count])
    ensures i + count <= |s| ==> (s + [0])[i..i + count] == s[i..i + count] == s[i..][..count]
  {
    var t := s + [0];
    if i + count <= |s| {
      assert t[i..i + count] == s[i..i + count] == s[i..][..count];
    } else if i + count == |s| + 1 {
      assert t[i..i + count][count - 1] == 0;
      LastNotNul(t[i..i + count]);
    }
  }

  lemma LastNotNul(c: seq<Byte>)
    requires |c| > 1 && c[|c| - 1] == 0
    ensures !IsChar(c)
  {
  }

  // ---- strings as sequences of code points

  function EncodeAll(cps: seq<int>): seq<Byte>
    requires forall i :: 0 <= i < |cps| ==> Scalar(cps[i])
  {
    if |cps| == 0 then [] else assert Scalar(cps[0]); Encoding(cps[0]) + EncodeAll(cps[1..])
  }

  /** A character at the front is recognized whatever follows. */
  lemma CharInFront(c: seq<Byte>, rest: seq<Byte>)
    requires IsChar(c)
    ensures CharLen(c + rest) == |c| && (c + rest)[..|c|] == c && (c + rest)[|c|..] == rest
  {
    assert (c + rest)[..|c|] == c;
    FirstDecides(c + rest);
    FirstOfChar(c);
  }

  lemma FirstOfChar(c: seq<Byte>)
    requires IsChar(c)
    ensures CheckFirst(c[0]) == |c|
  {
  }

  /** The valid strings are exactly the encodings of sequences of scalar values. */
  lemma {:induction false} EncodeAllIsUtf8(cps: seq<int>)
    requires forall i :: 0 <= i < |cps| ==> Scalar(cps[i])
    ensures IsUtf8(EncodeAll(cps))
  {
    if |cps| > 0 {
      EncodeDecode(cps[0]);
      CharInFront(Encoding(cps[0]), EncodeAll(cps[1..]));
      EncodeAllIsUtf8(cps[1..]);
    }
  }

  lemma {:induction false} Utf8IsEncoded(s: seq<Byte>) returns (cps: seq<int>)
    requires IsUtf8(s)
    ensures (forall i :: 0 <= i < |cps| ==> Scalar(cps[i])) && EncodeAll(cps) == s
    decreases |s|
  {
    hide CharLen, IsChar, Decoding, Encoding;
    if |s| == 0 {
      cps := [];
    } else {
      var n := CharLen(s);
      IsCharPrefix(s);
      DecodeEncode(s[..n]);
      var rest := Utf8IsEncoded(s[n..]);
      cps := [Decoding(s[..n])] + rest;
      assert cps[1..] == rest && s == s[..n] + s[n..];
    }
  }

  lemma IsCharPrefix(a: seq<Byte>)
    requires CharLen(a) > 0
    ensures IsChar(a[..CharLen(a)])
  {
  }

  /** Valid strings can be put together. */
  lemma {:induction false} Utf8Concat(a: seq<Byte>, b: seq<Byte>)
    requires IsUtf8(a) && IsUtf8(b)
    ensures IsUtf8(a + b)
    decreases |a|
  {
    hide IsChar, CharLen;
    if |a| == 0 {
      assert a + b == b;
    } else {
      var n := CharLen(a);
      IsCharPrefix(a);
      Utf8Concat(a[n..], b);
      CharInFront(a[..n], a[n..] + b);
      assert a + b == a[..n] + (a[n..] + b);
    }
  }
}
