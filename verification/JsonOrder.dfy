/** The order in which members are printed. */
module JsonOrder {
  import opened Bytes
  import opened Utf8
  import opened JsonText
  import opened JsonParse
  import opened JsonRoundTrip
  import opened JsonGrammar
  import opened JsonLayout

  /** The byte strings agree up to where the first ends, or has the smaller byte. */
  ghost predicate Precedes(a: CString, b: CString) {
    exists k: nat :: PrecedesAt(a, b, k)
  }

  predicate PrecedesAt(a: CString, b: CString, k: nat) {
    k <= |a| && k < |b| && a[..k] == b[..k] && (k == |a| || a[k] < b[k])
  }

  /** strcmp finds just that. */
  lemma {:induction false} LessExactly(a: CString, b: CString)
    ensures Less(a, b) <==> Precedes(a, b)
    decreases |a|
  {
    if |a| == 0 || |b| == 0 || a[0] != b[0] {
      FirstDiffers(a, b);
    } else {
      LessExactly(a[1..], b[1..]);
      if Less(a[1..], b[1..]) {
        var k: nat :| PrecedesAt(a[1..], b[1..], k);
        assert a[..k + 1] == [a[0]] + a[1..][..k] && b[..k + 1] == [b[0]] + b[1..][..k];
        assert PrecedesAt(a, b, k + 1);
      }
      if Precedes(a, b) {
        var k: nat :| PrecedesAt(a, b, k);
        TailPrecedes(a, b, k);
      }
    }
  }

  lemma FirstDiffers(a: CString, b: CString)
    requires |a| == 0 || |b| == 0 || a[0] != b[0]
    ensures Less(a, b) <==> Precedes(a, b)
  {
    if Less(a, b) {
      assert PrecedesAt(a, b, 0);
    }
    if Precedes(a, b) {
      var k: nat :| PrecedesAt(a, b, k);
      if k > 0 {
        SameStart(a, b, k);
      }
    }
  }

  lemma SameStart(a: CString, b: CString, k: nat)
    requires 0 < k <= |a| && k <= |b| && a[..k] == b[..k]
    ensures a[0] == b[0]
  {
    assert a[..k][0] == a[0] && b[..k][0] == b[0];
  }

  lemma TailPrecedes(a: CString, b: CString, k: nat)
    requires |a| > 0 && |b| > 0 && a[0] == b[0] && PrecedesAt(a, b, k)
    ensures k > 0 && PrecedesAt(a[1..], b[1..], k - 1)
  {
    assert a[1..][..k - 1] == a[..k][1..] && b[1..][..k - 1] == b[..k][1..];
  }

  // ---- printed trees

  /** With JSON_SORT_KEYS, keys ascend in every object; with JSON_PRESERVE_ORDER alone, the serial numbers that keys got
      when they were first set do. */
  ghost predicate Ascending(t: Json, f: Flags) {
    match t
    case Array(ts) => forall i :: 0 <= i < |ts| ==> Ascending(ts[i], f)
    case Object(ms) => KeysAscend(ms, f) && forall i :: 0 <= i < |ms| ==> Ascending(ms[i].value, f)
    case _ => true
  }

  ghost predicate KeysAscend(ms: seq<Member<Json>>, f: Flags) {
    forall i, j :: 0 <= i < j < |ms| ==>
      if f.sortKeys then Precedes(ms[i].key, ms[j].key) else f.preserveOrder ==> ms[i].serial <= ms[j].serial
  }

  /** The same tree but for the order of members. */
  ghost predicate Reorders(a: Json, b: Json)
    decreases a
  {
    match a
    case Array(ts) => b.Array? && |b.items| == |ts| && forall i :: 0 <= i < |ts| ==> Reorders(ts[i], b.items[i])
    case Object(ms) =>
      b.Object? && |b.members| == |ms| && forall i :: 0 <= i < |ms| ==> FromMember(ms[i], b.members)
    case _ => a == b
  }

  /** The member is one of these, but for the order inside its value. */
  ghost predicate FromMember(a: Member<Json>, ms: seq<Member<Json>>)
    decreases a, 1
  {
    exists j :: 0 <= j < |ms| && Comes(a, ms[j])
  }

  ghost predicate Comes(a: Member<Json>, m: Member<Json>)
    decreases a, 0
  {
    a.key == m.key && a.serial == m.serial && Reorders(a.value, m.value)
  }

  lemma {:induction false} ArrangeAscends(t: Json, f: Flags)
    requires WellFormed(t)
    ensures Ascending(Arrange(t, f), f) && Reorders(Arrange(t, f), t)
    decreases t, 0
  {
    hide KeysAscend, Order;
    match t
    case Array(items) => ArrangeAllAscends(items, f);
    case Object(members) => ObjectAscends(members, f);
    case _ =>
  }

  lemma {:induction false} ArrangeAllAscends(ts: seq<Json>, f: Flags)
    requires AllWellFormed(ts)
    ensures forall i :: 0 <= i < |ts| ==> Ascending(ArrangeAll(ts, f)[i], f) && Reorders(ArrangeAll(ts, f)[i], ts[i])
    decreases ts, 1
  {
    hide Ascending, Reorders, Arrange, WellFormed;
    if |ts| > 0 {
      ArrangeAscends(ts[0], f);
      ArrangeAllAscends(ts[1..], f);
      assert forall i :: 0 < i < |ts| ==>
               ts[i] == ts[1..][i - 1] && ArrangeAll(ts, f)[i] == ArrangeAll(ts[1..], f)[i - 1];
    }
  }

  lemma {:induction false} ArrangeMembersAscends(ms: seq<Member<Json>>, f: Flags)
    requires MembersWellFormed(ms)
    ensures forall i :: 0 <= i < |ms| ==>
              Ascending(ArrangeMembers(ms, f)[i].value, f) && Reorders(ArrangeMembers(ms, f)[i].value, ms[i].value)
    decreases ms, 1
  {
    hide Ascending, Reorders, Arrange, WellFormed, Keys;
    if |ms| > 0 {
      ArrangeAscends(ms[0].value, f);
      ArrangeMembersAscends(ms[1..], f);
      assert forall i :: 0 < i < |ms| ==>
        ms[i] == ms[1..][i - 1] && ArrangeMembers(ms, f)[i] == ArrangeMembers(ms[1..], f)[i - 1];
    }
  }

  lemma OrderPermutes(ms: seq<Member<Json>>, f: Flags)
    ensures multiset(Order(ms, f)) == multiset(ms) && |Order(ms, f)| == |ms|
  {
    hide InOrder, Sorted;
    SortedIsSorting(ms, true);
    SortedIsSorting(ms, false);
    assert |multiset(Order(ms, f))| == |multiset(ms)|;
  }

  lemma FromOrder(ms: seq<Member<Json>>, f: Flags, i: nat) returns (j: nat)
    requires i < |Order(ms, f)|
    ensures j < |ms| && ms[j] == Order(ms, f)[i]
  {
    hide Order;
    OrderPermutes(ms, f);
    assert Order(ms, f)[i] in multiset(ms);
    j :| 0 <= j < |ms| && ms[j] == Order(ms, f)[i];
  }

  lemma ObjectAscends(ms: seq<Member<Json>>, f: Flags)
    requires MembersWellFormed(ms)
    ensures Ascending(Arrange(Object(ms), f), f) && Reorders(Arrange(Object(ms), f), Object(ms))
    decreases ms, 2
  {
    hide KeysAscend, Order, MembersWellFormed;
    var arranged := ArrangeMembers(ms, f);
    var os := Order(arranged, f);
    ArrangeMembersAscends(ms, f);
    ArrangeMembersKeeps(ms, f);
    OrderPermutes(arranged, f);
    OrderAscends(arranged, f);
    forall i | 0 <= i < |os|
      ensures Ascending(os[i].value, f) && FromMember(os[i], ms)
    {
      var j := FromOrder(arranged, f, i);
      assert Comes(os[i], ms[j]);
    }
  }

  lemma OrderAscends(ms: seq<Member<Json>>, f: Flags)
    requires MembersWellFormed(ms)
    ensures KeysAscend(Order(ms, f), f)
  {
    hide Sorted, MembersWellFormed, Less, Precedes, Keys;
    var os := Order(ms, f);
    SortedIsSorting(ms, true);
    SortedIsSorting(ms, false);
    SortKeeps(ms, true);
    if f.sortKeys {
      DifferentKeys(os);
      forall i, j | 0 <= i < j < |os|
        ensures Precedes(os[i].key, os[j].key)
      {
        LessTotal(os[i].key, os[j].key);
        LessExactly(os[i].key, os[j].key);
      }
    }
  }

  lemma {:induction false} DifferentKeys(ms: seq<Member<Json>>)
    requires MembersWellFormed(ms)
    ensures Unique(ms)
    decreases |ms|
  {
    hide WellFormed;
    if |ms| > 0 {
      DifferentKeys(ms[1..]);
      assert forall i :: 0 < i < |ms| ==> ms[i] == ms[1..][i - 1];
      assert forall i :: 0 < i < |ms| ==> ms[i].key in Keys(ms[1..]);
    }
  }

  /** The text is that of the members of `t` in order, at every level. */
  ghost predicate InPrintingOrder(text: seq<Byte>, t: Json, f: Flags) {
    exists a :: Reorders(a, t) && Ascending(a, f) && WellFormed(a) && text == Dump(a, f, 0)
  }

  /** The text has the blanks, lines and escapes that the flags ask for, and the members of `t` in order. */
  ghost predicate Printout(text: seq<Byte>, t: Json, f: Flags) {
    exists a, d :: Reorders(a, t) && Ascending(a, f) && Prints(d, a, f, 0) && Correct(d, true) && text == TextOf(d)
  }

  lemma DumpTextOrdered(t: Json, f: Flags)
    requires WellFormed(t)
    ensures InPrintingOrder(DumpText(t, f), t, f)
    ensures GoodKeys(t) ==> Printout(DumpText(t, f), t, f)
  {
    hide Reorders, Ascending, WellFormed, GoodKeys, GoodValue, Prints, Correct, TextOf, Dump, Arrange, ValueOf,
         MeaningOf;
    var a := Arrange(t, f);
    ArrangeKeeps(t, f);
    ArrangeAscends(t, f);
    if GoodKeys(t) {
      GoodMeaning(t);
      GoodMeaning(a);
      var d := DumpPrints(a, f, 0, true);
    }
  }
}
