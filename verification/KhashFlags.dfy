/** The packed bucket flags of khash.

    Two bits describe a bucket: bit 1 is "empty", bit 0 is "deleted".  Sixteen buckets share a
    32-bit word.  The functions below are the __ac_* macros on one word; `Cells` is the view of a
    whole flag array that the rest of the table works with. */
module KhashFlags {

  datatype Cell = Cell(empty: bool, del: bool) {
    predicate Live() { !empty && !del }
  }

  const EMPTY := Cell(true, false)
  const LIVE := Cell(false, false)
  const DELETED := Cell(false, true)

  /** A word whose sixteen buckets are all empty: what memset(flags, 0xaa, ...) leaves. */
  const ALL_EMPTY: bv32 := 0xaaaa_aaaa

  /** Where the two flags of a bucket stand in its word. */
  function Shift(i: nat): (s: bv5)
    ensures s & 1 == 0
  {
    match i % 16
    case 0 => 0 case 1 => 2 case 2 => 4 case 3 => 6
    case 4 => 8 case 5 => 10 case 6 => 12 case 7 => 14
    case 8 => 16 case 9 => 18 case 10 => 20 case 11 => 22
    case 12 => 24 case 13 => 26 case 14 => 28 case _ => 30
  }

  /** __ac_fsize */
  function FSize(m: nat): nat {
    if m < 16 then 1 else m / 16
  }

  /** The two flag bits at shift `t`. */
  function CellAt(w: bv32, t: bv5): Cell {
    Cell((w >> t) & 2 != 0, (w >> t) & 1 != 0)
  }

  /** __ac_isempty, __ac_isdel and __ac_iseither of bucket `i`, read together. */
  function CellOf(w: bv32, i: nat): Cell { CellAt(w, Shift(i)) }

  function DelBitOn(w: bv32, t: bv5): bv32 { w | (1 << t) }

  function EmptyBitOff(w: bv32, t: bv5): bv32 { w & !(2 << t) }

  function BothBitsOff(w: bv32, t: bv5): bv32 { w & !(3 << t) }

  /** __ac_set_isdel_true */
  function SetIsDelTrue(w: bv32, i: nat): bv32 { DelBitOn(w, Shift(i)) }

  /** __ac_set_isempty_false */
  function SetIsEmptyFalse(w: bv32, i: nat): bv32 { EmptyBitOff(w, Shift(i)) }

  /** __ac_set_isboth_false */
  function SetIsBothFalse(w: bv32, i: nat): bv32 { BothBitsOff(w, Shift(i)) }

  /** The flags of the first `n` buckets. */
  function Cells(words: seq<bv32>, n: nat): (cells: seq<Cell>)
    requires n <= 16 * |words|
    ensures |cells| == n
  {
    seq(n, i requires 0 <= i < n => CellOf(words[i / 16], i))
  }

  // ---- one word

  lemma ShiftInjective(i: nat, j: nat)
    requires i % 16 != j % 16
    ensures Shift(i) != Shift(j)
  {
  }

  /** (The case split makes every shift a constant.) */
  lemma BitsHere(w: bv32, t: bv5)
    requires t & 1 == 0
    ensures CellAt(DelBitOn(w, t), t) == Cell(CellAt(w, t).empty, true)
    ensures CellAt(EmptyBitOff(w, t), t) == Cell(false, CellAt(w, t).del)
    ensures CellAt(BothBitsOff(w, t), t) == LIVE
  {
    if t == 0 {} else if t == 2 {} else if t == 4 {} else if t == 6 {}
    else if t == 8 {} else if t == 10 {} else if t == 12 {} else if t == 14 {}
    else if t == 16 {} else if t == 18 {} else if t == 20 {} else if t == 22 {}
    else if t == 24 {} else if t == 26 {} else if t == 28 {} else if t == 30 {}
  }

  /** Two-bit fields at different shifts do not overlap. */
  lemma FieldsDisjoint(c: bv32, s: bv5, t: bv5)
    requires c <= 3 && s & 1 == 0 && t & 1 == 0 && s != t
    ensures ((c << s) >> t) & 3 == 0
  {
  }

  lemma OrElsewhere(w: bv32, m: bv32, t: bv5)
    requires t & 1 == 0 && (m >> t) & 3 == 0
    ensures CellAt(w | m, t) == CellAt(w, t)
  {
    if t == 0 {} else if t == 2 {} else if t == 4 {} else if t == 6 {}
    else if t == 8 {} else if t == 10 {} else if t == 12 {} else if t == 14 {}
    else if t == 16 {} else if t == 18 {} else if t == 20 {} else if t == 22 {}
    else if t == 24 {} else if t == 26 {} else if t == 28 {} else if t == 30 {}
  }

  lemma AndElsewhere(w: bv32, m: bv32, t: bv5)
    requires t & 1 == 0 && (m >> t) & 3 == 0
    ensures CellAt(w & !m, t) == CellAt(w, t)
  {
    if t == 0 {} else if t == 2 {} else if t == 4 {} else if t == 6 {}
    else if t == 8 {} else if t == 10 {} else if t == 12 {} else if t == 14 {}
    else if t == 16 {} else if t == 18 {} else if t == 20 {} else if t == 22 {}
    else if t == 24 {} else if t == 26 {} else if t == 28 {} else if t == 30 {}
  }

  lemma SetElsewhere(w: bv32, s: bv5, t: bv5)
    requires s & 1 == 0 && t & 1 == 0 && s != t
    ensures CellAt(DelBitOn(w, s), t) == CellAt(w, t)
  {
    FieldsDisjoint(1, s, t);
    OrElsewhere(w, 1 << s, t);
  }

  lemma ClearEmptyElsewhere(w: bv32, s: bv5, t: bv5)
    requires s & 1 == 0 && t & 1 == 0 && s != t
    ensures CellAt(EmptyBitOff(w, s), t) == CellAt(w, t)
  {
    FieldsDisjoint(2, s, t);
    AndElsewhere(w, 2 << s, t);
  }

  lemma ClearBothElsewhere(w: bv32, s: bv5, t: bv5)
    requires s & 1 == 0 && t & 1 == 0 && s != t
    ensures CellAt(BothBitsOff(w, s), t) == CellAt(w, t)
  {
    FieldsDisjoint(3, s, t);
    AndElsewhere(w, 3 << s, t);
  }

  // ---- the whole array

  lemma WriteWord(words: seq<bv32>, n: nat, i: nat, w: bv32, c: Cell)
    requires i < n <= 16 * |words|
    requires CellOf(w, i) == c
    requires forall j: nat {:trigger CellOf(w, j)} ::
               j / 16 == i / 16 && j != i ==> CellOf(w, j) == CellOf(words[i / 16], j)
    ensures Cells(words[i / 16 := w], n) == Cells(words, n)[i := c]
  {
  }

  /** __ac_set_isdel_true changes bucket `i` and no other bucket of the packed array. */
  lemma SetIsDelTrueOnCells(words: seq<bv32>, n: nat, i: nat)
    requires i < n <= 16 * |words|
    ensures Cells(words[i / 16 := SetIsDelTrue(words[i / 16], i)], n)
         == Cells(words, n)[i := Cell(Cells(words, n)[i].empty, true)]
  {
    var w := SetIsDelTrue(words[i / 16], i);
    BitsHere(words[i / 16], Shift(i));
    forall j: nat {:trigger CellOf(w, j)} | j / 16 == i / 16 && j != i
      ensures CellOf(w, j) == CellOf(words[i / 16], j)
    {
      ShiftInjective(i, j);
      SetElsewhere(words[i / 16], Shift(i), Shift(j));
    }
    WriteWord(words, n, i, w, CellOf(w, i));
  }

  /** __ac_set_isempty_false changes bucket `i` and no other bucket of the packed array. */
  lemma SetIsEmptyFalseOnCells(words: seq<bv32>, n: nat, i: nat)
    requires i < n <= 16 * |words|
    ensures Cells(words[i / 16 := SetIsEmptyFalse(words[i / 16], i)], n)
         == Cells(words, n)[i := Cell(false, Cells(words, n)[i].del)]
  {
    var w := SetIsEmptyFalse(words[i / 16], i);
    BitsHere(words[i / 16], Shift(i));
    forall j: nat {:trigger CellOf(w, j)} | j / 16 == i / 16 && j != i
      ensures CellOf(w, j) == CellOf(words[i / 16], j)
    {
      ShiftInjective(i, j);
      ClearEmptyElsewhere(words[i / 16], Shift(i), Shift(j));
    }
    WriteWord(words, n, i, w, CellOf(w, i));
  }

  /** __ac_set_isboth_false changes bucket `i` and no other bucket of the packed array. */
  lemma SetIsBothFalseOnCells(words: seq<bv32>, n: nat, i: nat)
    requires i < n <= 16 * |words|
    ensures Cells(words[i / 16 := SetIsBothFalse(words[i / 16], i)], n)
         == Cells(words, n)[i := LIVE]
  {
    var w := SetIsBothFalse(words[i / 16], i);
    BitsHere(words[i / 16], Shift(i));
    forall j: nat {:trigger CellOf(w, j)} | j / 16 == i / 16 && j != i
      ensures CellOf(w, j) == CellOf(words[i / 16], j)
    {
      ShiftInjective(i, j);
      ClearBothElsewhere(words[i / 16], Shift(i), Shift(j));
    }
    WriteWord(words, n, i, w, CellOf(w, i));
  }

  /** memset(flags, 0xaa, ...) empties every bucket. */
  lemma ClearedCells(words: seq<bv32>, n: nat)
    requires n <= 16 * |words|
    requires forall k :: 0 <= k < |words| ==> words[k] == ALL_EMPTY
    ensures forall i :: 0 <= i < n ==> Cells(words, n)[i] == EMPTY
  {
    forall i: nat | i < n
      ensures CellOf(ALL_EMPTY, i) == EMPTY
    {
      ClearedWord(i);
    }
  }

  lemma ClearedWord(i: nat)
    ensures CellOf(ALL_EMPTY, i) == EMPTY
  {
    var s := Shift(i);
    AllEmptyBits(s);
  }

  lemma AllEmptyBits(s: bv5)
    requires s & 1 == 0
    ensures (ALL_EMPTY >> s) & 2 == 2 && (ALL_EMPTY >> s) & 1 == 0
  {
  }

  // ---- the macros on an array in place

  method ReadCell(flags: array<bv32>, n: nat, i: nat) returns (c: Cell)
    requires i < n <= 16 * flags.Length
    ensures c == Cells(flags[..], n)[i]
  {
    c := CellOf(flags[i / 16], i);
  }

  method MarkDeleted(flags: array<bv32>, n: nat, i: nat)
    requires i < n <= 16 * flags.Length
    modifies flags
    ensures Cells(flags[..], n) == old(Cells(flags[..], n))[i := Cell(old(Cells(flags[..], n))[i].empty, true)]
  {
    SetIsDelTrueOnCells(flags[..], n, i);
    flags[i / 16] := SetIsDelTrue(flags[i / 16], i);
  }

  method MarkOccupied(flags: array<bv32>, n: nat, i: nat)
    requires i < n <= 16 * flags.Length
    modifies flags
    ensures Cells(flags[..], n) == old(Cells(flags[..], n))[i := Cell(false, old(Cells(flags[..], n))[i].del)]
  {
    SetIsEmptyFalseOnCells(flags[..], n, i);
    flags[i / 16] := SetIsEmptyFalse(flags[i / 16], i);
  }

  method MarkLive(flags: array<bv32>, n: nat, i: nat)
    requires i < n <= 16 * flags.Length
    modifies flags
    ensures Cells(flags[..], n) == old(Cells(flags[..], n))[i := LIVE]
  {
    SetIsBothFalseOnCells(flags[..], n, i);
    flags[i / 16] := SetIsBothFalse(flags[i / 16], i);
  }

  method FillEmpty(flags: array<bv32>, n: nat)
    requires n <= 16 * flags.Length
    modifies flags
    ensures forall b :: 0 <= b < n ==> Cells(flags[..], n)[b] == EMPTY
  {
    forall k | 0 <= k < flags.Length {
      flags[k] := ALL_EMPTY;
    }
    ClearedCells(flags[..], n);
  }
}
