/** The input stream of the lexer: one UTF-8 character is buffered, bytes can be pushed back into it,
    and position, line and column are kept. */
module Stream {
  import opened Bytes
  import opened Utf8

  const STATE_OK: int := 0
  const STATE_EOF: int := -1
  const STATE_ERROR: int := -2

  /** The whole characters a byte string starts with. */
  function ValidPrefix(s: seq<Byte>): (r: seq<Byte>)
    ensures r <= s
    decreases |s|
  {
    var n := CharLen(s);
    if n == 0 then [] else
      var r := ValidPrefix(s[n..]);
      assert s == s[..n] + s[n..];
      s[..n] + r
  }

  /** Valid input is all there is to read. */
  lemma {:induction false} ValidPrefixAll(s: seq<Byte>)
    ensures IsUtf8(s) <==> ValidPrefix(s) == s
    decreases |s|
  {
    hide CharLen;
    if |s| > 0 && CharLen(s) > 0 {
      var n := CharLen(s);
      ValidPrefixAll(s[n..]);
      assert s == s[..n] + s[n..];
      if ValidPrefix(s) == s {
        assert ValidPrefix(s)[n..] == ValidPrefix(s[n..]);
      }
    }
  }

  /** What the caller of stream_get sees of a byte, or of the end of the input. */
  function Seen(s: seq<Byte>, bad: bool): int {
    if |s| > 0 then SChar(s[0]) else if bad then STATE_ERROR else STATE_EOF
  }

  function Rest(s: seq<Byte>): seq<Byte> {
    if |s| > 0 then s[1..] else []
  }

  /** utf8_check_first of a character that went through `int`. */
  function StartsChar(c: int): bool
    requires -128 <= c < 128
  {
    CheckFirst(if c < 0 then c + 256 else c) > 0
  }

  class Stream {
    const input: CString
    var next: nat          // how much of the input the buffer has been filled from
    const buffer: array<Byte>
    var bufferPos: nat
    var state: int
    var line: int
    var column: int
    var lastColumn: int
    var position: int
    ghost var filled: nat  // the buffered character ends with a NUL here

    /** The bytes stream_get will deliver. */
    ghost function Remaining(): seq<Byte>
      reads `state, `bufferPos, `filled, `next, buffer
      requires bufferPos <= filled < buffer.Length && next <= |input|
    {
      if state == STATE_OK then buffer[bufferPos..filled] + ValidPrefix(input[next..]) else []
    }

    /** Whether something that is not UTF-8 comes behind them. */
    ghost predicate Bad()
      reads `state, `next
      requires next <= |input|
    {
      state == STATE_ERROR || (state == STATE_OK && ValidPrefix(input[next..]) != input[next..])
    }

    ghost predicate Valid()
      reads `state, `bufferPos, `filled, `next, buffer
    {
      && buffer.Length == 5 && next <= |input| && 0 !in input
      && bufferPos <= filled < 5
      && state in {STATE_OK, STATE_EOF, STATE_ERROR}
      && (state == STATE_OK ==> buffer[filled] == 0 && forall i :: 0 <= i < filled ==> 0 < buffer[i] < 0xFE)
    }

    /** stream_init */
    constructor (input: CString)
      requires 0 !in input
      ensures Valid() && fresh(buffer) && this.input == input
      ensures Remaining() == ValidPrefix(input) && Bad() == !IsUtf8(input)
      ensures line == 1 && column == 0 && position == 0
    {
      this.input := input;
      next, bufferPos, state, line, column, lastColumn, position, filled := 0, 0, STATE_OK, 1, 0, 0, 0, 0;
      buffer := new Byte[5](_ => 0);
      new;
      assert input[0..] == input;
      ValidPrefixAll(input);
    }

    /** The refill of stream_get: buffers the next character of the input, or ends the stream. */
    method Fill()
      requires Valid() && state == STATE_OK && bufferPos == filled
      modifies this`next, this`bufferPos, this`filled, this`state, buffer
      ensures Valid() && Remaining() == old(Remaining()) && Bad() == old(Bad())
      ensures state == STATE_OK ==> bufferPos == 0 < filled
      ensures state != STATE_OK ==> old(Remaining()) == [] && state == (if old(Bad()) then STATE_ERROR else STATE_EOF)
    {
      hide CharLen, IsUtf8, ValidPrefix, IsChar;
      ghost var t := input[next..];
      PrefixStep(t);
      if next == |input| {
        state := STATE_EOF;
        return;
      }
      var c := input[next];
      FirstDecides(t);
      next, buffer[0] := next + 1, c;
      if c < 0x80 {
        PlainLen(t);
        buffer[1] := 0;
        bufferPos, filled := 0, 1;
        assert buffer[0..1] == t[..1] && input[next..] == t[1..];
      } else {
        var count := CheckFirst(c);
        if count == 0 {
          state, bufferPos, filled := STATE_ERROR, 0, 0;
          return;
        }
        LeadLong(c);
        FillLong(count, t);
      }
    }

    /** The character that `t` starts with, if it is a whole one, its first byte being in the buffer. */
    method FillLong(count: nat, ghost t: seq<Byte>)
      requires buffer.Length == 5 && 0 !in input && 0 < next <= |input| && t == input[next - 1..] && state == STATE_OK
      requires buffer[0] == t[0] && CheckFirst(t[0]) == count && 2 <= count <= 4
      modifies this`next, this`bufferPos, this`filled, this`state, buffer
      ensures Valid()
      ensures state == STATE_OK ==>
                bufferPos == 0 < filled && Remaining() == ValidPrefix(t) && (Bad() <==> ValidPrefix(t) != t)
      ensures state != STATE_OK ==> state == STATE_ERROR && ValidPrefix(t) == [] && ValidPrefix(t) != t
    {
      hide CharLen, ValidPrefix, IsChar, CheckFirst, Decoding, Accumulated, Accepted;
      PrefixStep(t);
      FillRest(count, t);
      ghost var b := buffer[..];
      var ok, cp := CheckFull(buffer[..], 0, count);
      ShortIsBad(b, t, count);
      if !ok {
        state, bufferPos, filled := STATE_ERROR, 0, 0;
        return;
      }
      buffer[count] := 0;
      bufferPos, filled := 0, count;
      NoNul(t, count);
      assert buffer[0..count] == t[..count] && input[next..] == t[count..];
    }

    /** The remaining bytes of a multi-byte character; at the end of the input EOF is stored as 0xFF. */
    method FillRest(count: nat, ghost t: seq<Byte>)
      requires buffer.Length == 5 && 2 <= count <= 4 && 0 < next <= |input| && t == input[next - 1..] &&
               buffer[0] == t[0]
      modifies this`next, buffer
      ensures next <= |input| && buffer[0] == t[0]
      ensures forall i :: 0 <= i < count ==> buffer[i] == if i < |t| then t[i] else 0xFF
      ensures count <= |t| ==> next == old(next) - 1 + count
    {
      ghost var start := next - 1;
      var i := 1;
      while i < count
        invariant 1 <= i <= count && next == (if start + i <= |input| then start + i else |input|)
        invariant forall j :: 0 <= j < i ==> buffer[j] == if j < |t| then t[j] else 0xFF
      {
        if next < |input| {
          buffer[i] := input[next];
          next := next + 1;
        } else {
          buffer[i] := 0xFF;
        }
        i := i + 1;
      }
    }

    /** stream_get */
    method Get() returns (c: int)
      requires Valid()
      modifies this, buffer
      ensures Valid() && c == Seen(old(Remaining()), Bad())
      ensures Remaining() == Rest(old(Remaining())) && Bad() == old(Bad())
      ensures old(Remaining()) == [] ==> position == old(position) && line == old(line) && column == old(column)
      ensures old(Remaining()) != [] ==>
                && -128 <= c < 128 && bufferPos > 0 && buffer[bufferPos - 1] == old(Remaining())[0]
                && state == STATE_OK && position == old(position) + 1
                && (if c == 0x0A then line == old(line) + 1 && column == 0 && lastColumn == old(column)
                    else line == old(line) && column == old(column) + (if StartsChar(c) then 1 else 0))
    {
      hide ValidPrefix, CharLen, IsUtf8, Remaining, Bad, StartsChar;
      if state != STATE_OK {
        Ended();
        return state;
      }
      if buffer[bufferPos] == 0 {
        Fill();
        if state != STATE_OK {
          Ended();
          return state;
        }
      }
      c := TakeByte();
      Track(c);
    }

    lemma Ended()
      requires Valid() && state != STATE_OK
      ensures Remaining() == [] && (Bad() <==> state == STATE_ERROR)
    {
      hide ValidPrefix;
    }

    /** The first buffered byte, and the others. */
    lemma SliceFront(i: nat, j: nat, rest: seq<Byte>)
      requires i < j <= buffer.Length
      ensures buffer[i..j] + rest == [buffer[i]] + (buffer[i + 1..j] + rest)
      ensures ([buffer[i]] + (buffer[i + 1..j] + rest))[1..] == buffer[i + 1..j] + rest
    {
    }

    method TakeByte() returns (c: int)
      requires Valid() && state == STATE_OK && bufferPos < filled
      modifies `bufferPos
      ensures Valid() && bufferPos == old(bufferPos) + 1 && |old(Remaining())| > 0 && c == SChar(old(Remaining())[0])
      ensures Remaining() == old(Remaining())[1..] && buffer[bufferPos - 1] == old(Remaining())[0] &&
              Bad() == old(Bad())
      ensures -128 <= c < 128
    {
      hide ValidPrefix;
      c := SChar(buffer[bufferPos]);
      SliceFront(bufferPos, filled, ValidPrefix(input[next..]));
      bufferPos := bufferPos + 1;
    }

    method Track(c: int)
      requires -128 <= c < 128
      modifies `position, `line, `column, `lastColumn
      ensures position == old(position) + 1
      ensures if c == 0x0A then line == old(line) + 1 && column == 0 && lastColumn == old(column)
              else line == old(line) && column == old(column) + (if StartsChar(c) then 1 else 0)
    {
      position := position + 1;
      if c == 0x0A {
        line := line + 1;
        lastColumn := column;
        column := 0;
      } else if StartsChar(c) {
        column := column + 1;
      }
    }

    /** stream_unget; the last character delivered goes back. */
    method Unget(c: int)
      requires Valid()
      requires c != STATE_EOF && c != STATE_ERROR ==>
                 -128 <= c < 128 && bufferPos > 0 && SChar(buffer[bufferPos - 1]) == c && state == STATE_OK
      modifies this`position, this`line, this`column, this`bufferPos
      ensures Valid() && Bad() == old(Bad())
      ensures c == STATE_EOF || c == STATE_ERROR ==>
                Remaining() == old(Remaining()) && position == old(position) && line == old(line) &&
                column == old(column)
      ensures c != STATE_EOF && c != STATE_ERROR ==>
                && Remaining() == [if c < 0 then c + 256 else c] + old(Remaining())
                && position == old(position) - 1
                && (if c == 0x0A then line == old(line) - 1 && column == lastColumn
                    else line == old(line) && column == old(column) - (if StartsChar(c) then 1 else 0))
    {
      hide ValidPrefix, StartsChar;
      if c == STATE_EOF || c == STATE_ERROR {
        return;
      }
      PutByte(c);
      position := position - 1;
      if c == 0x0A {
        line := line - 1;
        column := lastColumn;
      } else if StartsChar(c) {
        column := column - 1;
      }
    }

    method PutByte(c: int)
      requires Valid() && bufferPos > 0 && SChar(buffer[bufferPos - 1]) == c && state == STATE_OK
      modifies `bufferPos
      ensures Valid() && Remaining() == [if c < 0 then c + 256 else c] + old(Remaining())
    {
      hide ValidPrefix;
      ByteBack(c, buffer[bufferPos - 1]);
      SliceFront(bufferPos - 1, filled, ValidPrefix(input[next..]));
      bufferPos := bufferPos - 1;
    }

    lemma ByteBack(c: int, b: Byte)
      requires SChar(b) == c
      ensures b == if c < 0 then c + 256 else c
    {
    }

    /** Pushing back what was just read restores the stream. */
    method GetUnget() returns (c: int)
      requires Valid()
      modifies this, buffer
      ensures Valid() && Remaining() == old(Remaining()) && Bad() == old(Bad())
      ensures position == old(position) && line == old(line) && column == old(column)
    {
      hide ValidPrefix, CharLen, IsUtf8, Remaining;
      FirstNotSentinel();
      c := Get();
      Unget(c);
    }

    /** No byte of a valid character reads as -1 or -2 through signed char. */
    lemma FirstNotSentinel()
      requires Valid()
      ensures Remaining() != [] ==> Seen(Remaining(), Bad()) != STATE_EOF && Seen(Remaining(), Bad()) != STATE_ERROR
    {
      PrefixFirst(input[next..]);
    }
  }

  lemma PrefixStep(t: seq<Byte>)
    ensures |t| == 0 ==> ValidPrefix(t) == []
    ensures |t| > 0 && CharLen(t) == 0 ==> ValidPrefix(t) == [] && ValidPrefix(t) != t
    ensures CharLen(t) > 0 ==> ValidPrefix(t) == t[..CharLen(t)] + ValidPrefix(t[CharLen(t)..])
    ensures CharLen(t) > 0 ==> (ValidPrefix(t) == t <==> ValidPrefix(t[CharLen(t)..]) == t[CharLen(t)..])
  {
    var n := CharLen(t);
    if n > 0 {
      assert t == t[..n] + t[n..];
      assert ValidPrefix(t)[n..] == ValidPrefix(t[n..]);
    }
  }

  lemma PrefixFirst(t: seq<Byte>)
    ensures |ValidPrefix(t)| > 0 ==> ValidPrefix(t)[0] < 0xFE
  {
  }

  lemma PlainLen(t: seq<Byte>)
    requires |t| > 0 && t[0] < 0x80
    ensures CharLen(t) == 1
  {
  }

  lemma LeadLong(c: Byte)
    requires c >= 0x80 && CheckFirst(c) != 0
    ensures 2 <= CheckFirst(c) <= 4
  {
  }

  lemma ShortIsBad(b: seq<Byte>, t: seq<Byte>, count: nat)
    requires |b| == 5 && |t| > 0 && 2 <= count <= 4 && count == CheckFirst(t[0])
    requires forall i :: 0 <= i < count ==> b[i] == if i < |t| then t[i] else 0xFF
    ensures IsChar(b[0..count]) <==> count <= |t| && IsChar(t[..count])
    ensures CharLen(t) == if IsChar(b[0..count]) then count else 0
  {
    FirstDecides(t);
    if count <= |t| {
      assert b[0..count] == t[..count];
    } else {
      assert b[0..count][|t|] == 0xFF;
    }
  }

  lemma NoNul(t: seq<Byte>, count: nat)
    requires count <= |t| && IsChar(t[..count]) && 0 !in t
    ensures forall i :: 0 <= i < count ==> 0 < t[i] < 0xFE
  {
  }
}
