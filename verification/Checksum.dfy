/** The Internet checksum of translated packets (RFC 1071), in IPv4 and TCP headers. */
module Checksum {
  import opened Bytes

  /** The size of the packet buffers. */
  const BUFLEN: nat := 2048

  /** A C int. */
  type Int32 = x: int | -0x8000_0000 <= x < 0x8000_0000

  /** Sum of 16-bit words in network byte order; an odd last byte is padded with zero. */
  function Words(s: seq<Byte>): nat {
    if |s| == 0 then 0
    else if |s| == 1 then s[0] as int * 256
    else s[0] as int * 256 + s[1] + Words(s[2..])
  }

  lemma {:induction false} WordsConcat(a: seq<Byte>, b: seq<Byte>)
    requires |a| % 2 == 0
    ensures Words(a + b) == Words(a) + Words(b)
    decreases |a|
  {
    if |a| == 0 {
      assert a + b == b;
    } else {
      WordsConcat(a[2..], b);
      assert (a + b)[2..] == a[2..] + b;
    }
  }

  lemma {:induction false} WordsBound(s: seq<Byte>)
    ensures 2 * Words(s) <= (|s| + 1) * 65535
    decreases |s|
  {
    if |s| > 1 {
      WordsBound(s[2..]);
    }
  }

  lemma WordsShort(a: Byte, b: Byte)
    ensures Words([a]) == a as int * 256 && Words([a, b]) == a as int * 256 + b
  {
    assert [a, b][2..] == [];
  }

  /** The words up to an even position, and one more. */
  lemma WordsNext(s: seq<Byte>, i: nat)
    requires i < |s| && i % 2 == 0
    ensures i + 1 < |s| ==> Words(s[..i + 2]) == Words(s[..i]) + s[i] as int * 256 + s[i + 1]
    ensures i + 1 == |s| ==> Words(s) == Words(s[..i]) + s[i] as int * 256
  {
    hide Words;
    if i + 1 < |s| {
      WordsConcat(s[..i], [s[i], s[i + 1]]);
      WordsShort(s[i], s[i + 1]);
      assert s[..i] + [s[i], s[i + 1]] == s[..i + 2];
    } else {
      WordsConcat(s[..i], [s[i]]);
      WordsShort(s[i], 0);
      assert s[..i] + [s[i]] == s;
    }
  }

  /** The bytes as one number, most significant first. */
  function Number(s: seq<Byte>): nat {
    if |s| == 0 then 0 else Number(s[..|s| - 1]) * 256 + s[|s| - 1]
  }

  /** Its residue modulo 65535 is that of the sum of its words. */
  lemma {:induction false} WordsNumber(s: seq<Byte>)
    requires |s| % 2 == 0
    ensures Words(s) % 0xFFFF == Number(s) % 0xFFFF
    ensures Words(s) == 0 <==> Number(s) == 0
    decreases |s|
  {
    hide Words, Number;
    if |s| == 0 {
      NoWords();
    } else {
      var n := |s| - 2;
      WordsNumber(s[..n]);
      WordsNext(s, n);
      assert s[..n + 2] == s;
      NumberNext(s);
      SameResidue(Words(s[..n]), Number(s[..n]), s[n] as int * 256 + s[n + 1]);
    }
  }

  lemma NoWords()
    ensures Words([]) == Number([]) == 0
  {
  }

  lemma NumberNext(s: seq<Byte>)
    requires |s| >= 2
    ensures Number(s) == Number(s[..|s| - 2]) * 65536 + s[|s| - 2] as int * 256 + s[|s| - 1]
  {
    var t := s[..|s| - 1];
    assert t[..|t| - 1] == s[..|s| - 2];
  }

  lemma SameResidue(a: nat, b: nat, w: nat)
    requires a % 0xFFFF == b % 0xFFFF
    ensures (a + w) % 0xFFFF == (b * 65536 + w) % 0xFFFF
  {
    var p, q := a / 0xFFFF, b / 0xFFFF;
    assert b * 65536 + w == a + w + 0xFFFF * (q - p + b);
    ModStep(a + w, -(q - p + b));
  }

  // ---- folding

  /** What is left of a sum when its carries have been added in: the residue modulo 65535, a multiple of
      which is 65535 rather than 0, unless the sum itself is 0. */
  function Folded(n: int): (r: int)
    requires n >= -65535
    ensures 0 <= r <= 65535
  {
    if n < 0 then n + 65535 else if n == 0 then 0 else (n - 1) % 65535 + 1
  }

  lemma ModStep(a: int, q: int)
    ensures (a - 65535 * q) % 65535 == a % 65535
  {
    var d, m := a / 65535, a % 65535;
    assert a - 65535 * q == 65535 * (d - q) + m;
  }

  /** All ones are what is left of the multiples of 65535. */
  lemma AllOnes(n: nat)
    ensures Folded(n) == 0xFFFF <==> n % 0xFFFF == 0 && n > 0
  {
    if n > 0 {
      var k := (n - 1) / 65535;
      assert n - 1 == 65535 * k + (n - 1) % 65535;
      ModStep(n, k);
    }
  }

  lemma FoldStep(n: int)
    requires n >= -65535 && n / 65536 != 0
    ensures var n' := n % 65536 + n / 65536;
            n' >= 0 && Folded(n') == Folded(n) && (n > 0 ==> n' < n)
  {
    var q := n / 65536;
    assert n % 65536 == n - 65536 * q;
    ModStep(n - 1, q);
  }

  /** The folding loop of update_checksum: while there is anything above the low half of the sum, it is added to the low
      half. */
  method Fold(sum: Int32) returns (csum: Int32)
    requires sum >= -65535
    ensures csum == Folded(sum)
  {
    csum := sum;
    while csum / 65536 != 0
      invariant -65535 <= csum <= (if sum > 65535 then sum else 65535) && Folded(csum) == Folded(sum)
      decreases csum < 0, csum
    {
      FoldStep(csum);
      csum := csum % 65536 + csum / 65536;
    }
  }

  /** A checksum added to the sum it was made for gives all ones. */
  lemma ComplementFolds(n: nat)
    ensures Folded(n + (0xFFFF - Folded(n))) == 0xFFFF
  {
    if n > 0 {
      var k := (n - 1) / 65535;
      assert n - 1 == 65535 * k + (n - 1) % 65535;
      assert n + (0xFFFF - Folded(n)) - 1 == 65535 * k + 65534;
      ModStep(65535 * k + 65534, k);
    }
  }

  /** What a receiver checks (section 1 of RFC 1071): the 16-bit words of a header or segment, an odd last byte padded
      with zero, add up to all ones when carries are added in.  That is, as a number it is a multiple of 65535, but
      not 0. */
  predicate SumsToOnes(s: seq<Byte>) {
    var n := Number(if |s| % 2 == 0 then s else s + [0]);
    n > 0 && n % 0xFFFF == 0
  }

  lemma SumsToOnesIs(s: seq<Byte>)
    ensures SumsToOnes(s) <==> Folded(Words(s)) == 0xFFFF
  {
    hide Words, Number, Folded;
    AllOnes(Words(s));
    if |s| % 2 == 0 {
      WordsNumber(s);
    } else {
      WordsNumber(s + [0]);
      WordsPadded(s);
    }
  }

  lemma WordsPadded(s: seq<Byte>)
    requires |s| % 2 == 1
    ensures Words(s + [0]) == Words(s)
  {
    hide Words;
    var n := |s| - 1;
    WordsNext(s, n);
    WordsNext(s + [0], n);
    assert (s + [0])[..n] == s[..n] && (s + [0])[..n + 2] == s + [0];
  }

  // ---- update_checksum

  /** The sum of the pseudo header: addresses, protocol, and the length of the segment behind a header of
      20 bytes.  A frame that ends in that header counts a negative length. */
  function Pseudo(s: seq<Byte>, len: int): int
    requires |s| >= 34
  {
    Words(s[26..34]) + s[23] + (len - 34)
  }

  /** How much of the buffer is summed. */
  function Span(len: int): int {
    if len > 20 then len - 34 else len
  }

  function Sum(s: seq<Byte>, start: nat, len: int): int
    requires |s| >= 34 && start + Span(len) <= |s|
  {
    (if len > 20 then Pseudo(s, len) else 0) + (if Span(len) > 0 then Words(s[start..start + Span(len)]) else 0)
  }

  /** The bytes that are summed: in front of the segment stand the twelve bytes of the pseudo header (section 3.1 of
      RFC 793). */
  function Summed(s: seq<Byte>, start: nat, len: nat): seq<Byte>
    requires |s| >= 34 && start + Span(len) <= |s| && (len > 20 ==> 34 <= len < 34 + 65536)
  {
    if len > 20 then s[26..34] + [0, s[23], (len - 34) / 256, (len - 34) % 256] + s[start..start + (len - 34)]
    else s[start..start + len]
  }

  lemma SumIs(s: seq<Byte>, start: nat, len: nat)
    requires |s| >= 34 && start + Span(len) <= |s| && (len > 20 ==> 34 <= len < 34 + 65536)
    ensures Sum(s, start, len) == Words(Summed(s, start, len))
  {
    hide Words;
    NoWords();
    if len > 20 {
      var p := [0, s[23], (len - 34) / 256, (len - 34) % 256];
      FourBytes(p);
      WordsConcat(s[26..34], p);
      WordsConcat(s[26..34] + p, s[start..start + (len - 34)]);
      assert (len - 34) / 256 * 256 + (len - 34) % 256 == len - 34;
      assert len == 34 ==> s[start..start] == [];
    } else if len == 0 {
      assert s[start..start] == [];
    }
  }

  lemma FourBytes(p: seq<Byte>)
    requires |p| == 4
    ensures Words(p) == p[0] as int * 256 + p[1] + (p[2] as int * 256 + p[3])
  {
    assert p == [p[0], p[1]] + [p[2], p[3]];
    WordsConcat([p[0], p[1]], [p[2], p[3]]);
    WordsShort(p[0], p[1]);
    WordsShort(p[2], p[3]);
  }

  predicate Stored(s: seq<Byte>, idx: nat, v: int)
    requires idx + 1 < |s|
  {
    s[idx] as int * 256 + s[idx + 1] == v
  }

  function Cleared(s: seq<Byte>, idx: nat): seq<Byte>
    requires idx + 1 < |s|
  {
    s[idx := 0][idx + 1 := 0]
  }

  /** The four words of the addresses. */
  method SumAddresses(buf: array<Byte>) returns (csum: Int32)
    requires buf.Length >= 34
    ensures csum == Words(buf[26..34]) && csum <= 4 * 65535
  {
    csum := 0;
    ghost var w := buf[26..34];
    assert w[..8] == w;
    var i: nat := 0;
    while i < 8
      invariant i <= 8 && i % 2 == 0 && csum == Words(w[..i]) && csum <= (i / 2) * 65535
    {
      WordsNext(w, i);
      csum := csum + buf[26 + i] as int * 256 + buf[27 + i];
      i := i + 2;
    }
  }

  /** The loop over the data, with an odd last byte padded. */
  method SumData(buf: array<Byte>, start: nat, len: int, base: Int32) returns (csum: Int32)
    requires buf.Length <= BUFLEN && start + len <= buf.Length && -65535 <= base <= 5 * 65535
    ensures csum == base + if len > 0 then Words(buf[start..start + len]) else 0
  {
    csum := base;
    if len <= 0 {
      return;
    }
    ghost var w := buf[start..start + len];
    var i: nat := 0;
    while i < len
      invariant i % 2 == 0 && i <= len + 1
      invariant csum == base + (if i <= len then Words(w[..i]) else Words(w)) && csum <= base + (i / 2) * 65535
      decreases len - i
    {
      WordsNext(w, i);
      assert len == i + 2 ==> w[..len] == w;
      csum := csum + buf[start + i] as int * 256 + (if len == i + 1 then 0 else buf[start + i + 1]);
      i := i + 2;
    }
    assert w[..len] == w;
  }

  /** update_checksum: stores the complement of the folded sum that the buffer has with the field cleared. */
  method UpdateChecksum(buf: array<Byte>, start: nat, idx: nat, len: int)
    requires 34 <= buf.Length <= BUFLEN && idx + 1 < buf.Length && start + Span(len) <= buf.Length && len <= buf.Length
    modifies buf
    ensures forall i :: 0 <= i < buf.Length && i != idx && i != idx + 1 ==> buf[i] == old(buf[i])
    ensures Sum(Cleared(old(buf[..]), idx), start, len) >= -65535
    ensures Stored(buf[..], idx, 0xFFFF - Folded(Sum(Cleared(old(buf[..]), idx), start, len)))
    ensures 0 <= len <= 20 || 34 <= len ==>
              Stored(buf[..], idx, 0xFFFF - Folded(Words(Summed(Cleared(old(buf[..]), idx), start, len))))
  {
    hide Words, Folded, Summed;
    buf[idx], buf[idx + 1] := 0, 0;
    ghost var s := buf[..];
    assert s == Cleared(old(buf[..]), idx);
    var csum: Int32 := 0;
    var n := len;
    if n > 20 {
      csum := SumAddresses(buf);
      assert s[26..34] == buf[26..34];
      n := n - 34;
      csum := csum + buf[23] + n;
    }
    assert n == Span(len);
    csum := SumData(buf, start, n, csum);
    assert n > 0 ==> s[start..start + n] == buf[start..start + n];
    csum := Fold(csum);
    csum := -csum - 1;  // ~csum
    buf[idx] := csum / 256 % 256;
    buf[idx + 1] := csum % 256;
    Complement(csum + 1);
    if 0 <= len <= 20 || 34 <= len {
      SumIs(s, start, len);
    }
  }

  lemma Complement(m: int)
    requires -65535 <= m <= 0
    ensures (m - 1) / 256 % 256 * 256 + (m - 1) % 256 == 0xFFFF + m
  {
  }

  // ---- what a receiver checks

  /** A two-byte field at an even position counts as the word it holds. */
  lemma WordsField(s: seq<Byte>, k: nat)
    requires k % 2 == 0 && k + 1 < |s|
    ensures Words(s) == Words(s[k := 0][k + 1 := 0]) + s[k] as int * 256 + s[k + 1]
  {
    hide Words;
    var z := s[k := 0][k + 1 := 0];
    WordsSplit(s, k);
    WordsSplit(z, k);
    assert z[..k] == s[..k] && z[k + 2..] == s[k + 2..];
  }

  lemma WordsSplit(s: seq<Byte>, k: nat)
    requires k % 2 == 0 && k + 1 < |s|
    ensures Words(s) == Words(s[..k]) + (s[k] as int * 256 + s[k + 1]) + Words(s[k + 2..])
  {
    hide Words;
    WordsNext(s, k);
    WordsConcat(s[..k + 2], s[k + 2..]);
    assert s == s[..k + 2] + s[k + 2..];
  }

  /** Where the field is one of the words summed, the sum over the data with the stored checksum in it
      folds to all ones. */
  lemma StoredFolds(s: seq<Byte>, start: nat, idx: nat, len: int)
    requires |s| >= 34 && start <= idx && (idx - start) % 2 == 0 && idx + 2 <= start + Span(len) <= |s|
    requires len > 20 ==> idx >= 34
    requires Sum(Cleared(s, idx), start, len) >= 0
    requires Stored(s, idx, 0xFFFF - Folded(Sum(Cleared(s, idx), start, len)))
    ensures Sum(s, start, len) >= 0 && Folded(Sum(s, start, len)) == 0xFFFF
  {
    hide Words, Folded;
    var z := Cleared(s, idx);
    var w := s[start..start + Span(len)];
    assert z[start..start + Span(len)] == w[idx - start := 0][idx - start + 1 := 0];
    assert len > 20 ==> z[26..34] == s[26..34] && z[23] == s[23];
    WordsField(w, idx - start);
    ComplementFolds(Sum(z, start, len));
  }

  // ---- translate_headers

  predicate IsTcp(s: seq<Byte>)
    requires |s| > 23
  {
    s[23] == 0x06
  }

  /** UDP, in what is taken for the first fragment. */
  predicate IsUdp(s: seq<Byte>)
    requires |s| > 23
  {
    s[23] == 0x11 && s[21] == 0 && s[20] % 2 == 0
  }

  /** Neither multicast nor broadcast. */
  predicate Unicast(s: seq<Byte>)
    requires |s| > 33
  {
    (s[30] < 224 || s[30] > 239) && s[33] != 255
  }

  /** The bytes translate_headers may change: the addresses, the header checksum, and the checksum of the
      transport protocol. */
  predicate Touched(s: seq<Byte>, i: int)
    requires |s| > 33
  {
    24 <= i < 30 || (30 <= i < 34 && Unicast(s)) || (IsTcp(s) && 50 <= i < 52) || (IsUdp(s) && 40 <= i < 42)
  }

  /** The frame with its addresses replaced. */
  function Readdressed(s: seq<Byte>, source: seq<Byte>, dest: seq<Byte>): seq<Byte>
    requires |s| >= 34 && |source| == |dest| == 4
  {
    s[..26] + source + (if Unicast(s) then dest else s[30..34]) + s[34..]
  }

  method SetAddresses(buf: array<Byte>, source: seq<Byte>, dest: seq<Byte>)
    requires buf.Length >= 34 && |source| == |dest| == 4
    modifies buf
    ensures buf[..] == Readdressed(old(buf[..]), source, dest)
  {
    forall i | 0 <= i < 4 {
      buf[26 + i] := source[i];
    }
    if (buf[30] < 224 || buf[30] > 239) && buf[33] != 255 {
      forall i | 0 <= i < 4 {
        buf[30 + i] := dest[i];
      }
    }
  }

  lemma ReaddressedBytes(s: seq<Byte>, source: seq<Byte>, dest: seq<Byte>)
    requires |s| >= 34 && |source| == |dest| == 4
    ensures var t := Readdressed(s, source, dest);
            |t| == |s| && t[26..30] == source && t[30..34] == (if Unicast(s) then dest else s[30..34]) &&
            t[20] == s[20] && t[21] == s[21] && t[23] == s[23] &&
            forall i :: 0 <= i < |s| && !(26 <= i < 30) && !(30 <= i < 34 && Unicast(s)) ==> t[i] == s[i]
  {
  }

  /** The same, as the receiver sees it. */
  lemma StoredSumsToOnes(s: seq<Byte>, start: nat, idx: nat, len: nat)
    requires |s| >= 34 && start <= idx && (idx - start) % 2 == 0 && idx + 2 <= start + Span(len) <= |s|
    requires len > 20 ==> idx >= 34 && 34 <= len < 34 + 65536
    requires Sum(Cleared(s, idx), start, len) >= 0
    requires Stored(s, idx, 0xFFFF - Folded(Sum(Cleared(s, idx), start, len)))
    ensures SumsToOnes(Summed(s, start, len))
  {
    hide Words, Folded, Cleared, Summed, Sum, SumsToOnes, Stored;
    StoredFolds(s, start, idx, len);
    SumIs(s, start, len);
    SumsToOnesIs(Summed(s, start, len));
  }

  /** The header checksum, once set, is right. */
  method HeaderChecksum(buf: array<Byte>)
    requires 34 <= buf.Length <= BUFLEN
    modifies buf
    ensures forall i :: 0 <= i < buf.Length && i != 24 && i != 25 ==> buf[i] == old(buf[i])
    ensures SumsToOnes(buf[14..34])
  {
    hide Words, Folded, SumsToOnes;
    UpdateChecksum(buf, 14, 24, 20);
    ghost var s := buf[..];
    assert Cleared(s, 24) == Cleared(old(buf[..]), 24);
    StoredSumsToOnes(s, 14, 24, 20);
    assert s[14..34] == buf[14..34];
  }

  /** The TCP checksum, once set, is right for every frame that has the field in it. */
  method TcpChecksum(buf: array<Byte>, len: int)
    requires 54 <= buf.Length <= BUFLEN && len <= buf.Length
    modifies buf
    ensures forall i :: 0 <= i < buf.Length && i != 50 && i != 51 ==> buf[i] == old(buf[i])
    ensures len >= 52 ==>
              SumsToOnes(buf[26..34] + [0, buf[23], (len - 34) / 256, (len - 34) % 256] + buf[34..len])
  {
    hide Words, Folded, SumsToOnes;
    UpdateChecksum(buf, 34, 50, len);
    ghost var s := buf[..];
    if len >= 52 {
      assert Cleared(s, 50) == Cleared(old(buf[..]), 50);
      StoredSumsToOnes(s, 34, 50, len);
      assert s[34..len] == buf[34..len] && s[26..34] == buf[26..34];
    }
  }

  /** translate_headers: new addresses, and checksums that agree with them. */
  method TranslateHeaders(buf: array<Byte>, source: seq<Byte>, dest: seq<Byte>, len: int)
    requires 54 <= buf.Length <= BUFLEN && len <= buf.Length && |source| == |dest| == 4
    modifies buf
    ensures buf[26..30] == source
    ensures buf[30..34] == if old(buf[30]) / 16 == 14 || old(buf[33]) == 255 then old(buf[30..34]) else dest
    ensures forall i :: 0 <= i < buf.Length && !Touched(old(buf[..]), i) ==> buf[i] == old(buf[i])
    ensures forall i :: 0 <= i < buf.Length ==>
              24 <= i < 34 || (old(buf[23]) == 6 && 50 <= i < 52) || (old(buf[23]) == 17 && 40 <= i < 42) ||
              buf[i] == old(buf[i])
    ensures SumsToOnes(buf[14..34])
    ensures old(buf[23]) == 6 && len >= 52 ==>
              SumsToOnes(buf[26..34] + [0, 6, (len - 34) / 256, (len - 34) % 256] + buf[34..len])
    ensures old(buf[23]) == 17 && old(buf[21]) == 0 && old(buf[20]) % 2 == 0 ==> buf[40] == buf[41] == 0
  {
    hide SumsToOnes, Readdressed;
    ghost var s := buf[..];
    ReaddressedBytes(s, source, dest);
    SetAddresses(buf, source, dest);
    ghost var t := buf[..];
    HeaderChecksum(buf);
    label Header:
    ghost var header := buf[14..34];
    if buf[23] == 0x06 {
      TcpChecksum(buf, len);
    } else if buf[23] == 0x11 && buf[21] == 0 && buf[20] % 2 == 0 {
      buf[40] := 0;
      buf[41] := 0;
    }
    assert buf[14..34] == header;
    assert buf[26..30] == t[26..30] && buf[30..34] == t[30..34];
  }

  // ---- fragments

  /** The offset of a fragment, in units of eight bytes (section 3.1 of RFC 791). */
  function FragmentOffset(b20: Byte, b21: Byte): int { b20 % 32 * 256 + b21 }

  /** Where in the frame the checksum of the TCP segment stands that the packet carries a part of: sixteen bytes into
      the segment (section 3.1 of RFC 793), of which earlier fragments have had eight for each unit of the offset.
      In front of the payload, this fragment does not have it. */
  function TcpField(s: seq<Byte>): int
    requires |s| >= 34
  {
    Payload(s) + 16 - 8 * FragmentOffset(s[20], s[21])
  }

  /** Behind the IPv4 header, whose length stands in its first byte, in units of four bytes. */
  function Payload(s: seq<Byte>): int
    requires |s| >= 34
  {
    14 + 4 * (s[14] % 16)
  }

  /** For TCP there is no test for the first fragment, and the header is taken to have twenty bytes.  What is rewritten
      is the checksum exactly if the header is longer than that by twice the offset, and the offset is not beyond the
      field; so with a header of twenty bytes, exactly in the first fragment. */
  lemma TcpFieldExactly(s: seq<Byte>)
    requires |s| >= 34
    ensures var offset := FragmentOffset(s[20], s[21]);
            (TcpField(s) == 50 && TcpField(s) >= Payload(s) <==> s[14] % 16 == 5 + 2 * offset && offset <= 2) &&
            (s[14] % 16 == 5 ==> (TcpField(s) == 50 <==> offset == 0))
  {
  }

  /** A frame of a TCP packet that is not the first fragment, but eight bytes on; nothing else is set. */
  function LaterFragment(): seq<Byte> {
    seq(54, i => if i == 14 then 0x45 else if i == 21 then 1 else if i == 23 then 6 else 0)
  }

  /** There the checksum stands eight bytes before the bytes that are rewritten, which belong to the payload. */
  lemma LaterFragmentRewritten()
    ensures var s := LaterFragment();
            IsTcp(s) && FragmentOffset(s[20], s[21]) == 1 && Payload(s) == 34 && TcpField(s) == 42 && Touched(s, 50)
  {
  }

  /** The test for the first fragment looks at nine of the thirteen bits: it is wrong exactly for offsets
      that are a multiple of 512 other than 0. */
  lemma FirstFragmentTest(b20: Byte, b21: Byte)
    ensures (b21 == 0 && b20 % 2 == 0) && FragmentOffset(b20, b21) != 0
       <==> FragmentOffset(b20, b21) % 512 == 0 && FragmentOffset(b20, b21) > 0
  {
    var k := b20 % 32 / 2;
    assert b20 % 32 == 2 * k + b20 % 2;
    assert FragmentOffset(b20, b21) == 512 * k + b20 % 2 * 256 + b21;
    ModEight(k, b20 % 2 * 256 + b21);
  }

  lemma ModEight(k: int, r: int)
    requires 0 <= r < 512
    ensures (512 * k + r) % 512 == r
  {
  }
}
