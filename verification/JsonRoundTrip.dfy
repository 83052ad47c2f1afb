/** Loading what was dumped gives back an equal value, under every mix of dump and load flags. */
module JsonRoundTrip {
  import opened Bytes
  import opened Utf8
  import opened JsonNumber
  import opened JsonText
  import opened JsonParse
  import opened JsonLayout

  // ---- strcmp orders the keys totally

  lemma {:induction false} LessTotal(a: CString, b: CString)
    ensures Less(a, b) || a == b || Less(b, a)
    decreases |a|
  {
    if |a| > 0 && |b| > 0 && a[0] == b[0] {
      LessTotal(a[1..], b[1..]);
      assert a == [a[0]] + a[1..] && b == [b[0]] + b[1..];
    }
  }

  lemma {:induction false} LessTransitive(a: CString, b: CString, c: CString)
    requires Less(a, b) && Less(b, c)
    ensures Less(a, c)
    decreases |a|
  {
    if |a| > 0 && a[0] == b[0] == c[0] {
      LessTransitive(a[1..], b[1..], c[1..]);
    }
  }

  lemma {:induction false} LessIrreflexive(a: CString)
    ensures !Less(a, a)
    decreases |a|
  {
    if |a| > 0 {
      LessIrreflexive(a[1..]);
    }
  }

  /** "Not after" is transitive, for keys and for serials. */
  lemma NotAfterTransitive<V>(a: Member<V>, b: Member<V>, c: Member<V>, byKey: bool)
    requires !Before(b, a, byKey) && !Before(c, b, byKey)
    ensures !Before(c, a, byKey)
  {
    if byKey && Less(c.key, a.key) {
      LessTotal(a.key, b.key);
      if a.key != b.key {
        LessTransitive(c.key, a.key, b.key);
      }
    }
  }

  lemma NotBoth<V>(a: Member<V>, b: Member<V>, byKey: bool)
    requires Before(a, b, byKey)
    ensures !Before(b, a, byKey)
  {
    if byKey && Less(b.key, a.key) {
      LessTransitive(a.key, b.key, a.key);
      LessIrreflexive(a.key);
    }
  }

  // ---- Sorted does what qsort promises

  ghost predicate InOrder<V>(ms: seq<Member<V>>, byKey: bool) {
    forall i, j :: 0 <= i < j < |ms| ==> !Before(ms[j], ms[i], byKey)
  }

  lemma {:induction false} InsertPermutes<V>(m: Member<V>, ms: seq<Member<V>>, byKey: bool)
    ensures multiset(InsertSorted(m, ms, byKey)) == multiset(ms) + multiset{m}
  {
    hide Before;
    if |ms| > 0 && Before(ms[0], m, byKey) {
      InsertPermutes(m, ms[1..], byKey);
      assert ms == [ms[0]] + ms[1..];
    }
  }

  /** A member before all of an ordered rest. */
  lemma ConsInOrder<V>(m: Member<V>, ms: seq<Member<V>>, byKey: bool)
    requires InOrder(ms, byKey) && forall n :: n in multiset(ms) ==> !Before(n, m, byKey)
    ensures InOrder([m] + ms, byKey)
  {
    hide Before;
    assert forall j :: 0 <= j < |ms| ==> ms[j] in multiset(ms);
  }

  lemma {:induction false} InsertInOrder<V>(m: Member<V>, ms: seq<Member<V>>, byKey: bool)
    requires InOrder(ms, byKey)
    ensures InOrder(InsertSorted(m, ms, byKey), byKey)
  {
    hide Before;
    if |ms| == 0 {
    } else if !Before(ms[0], m, byKey) {
      forall n | n in multiset(ms)
        ensures !Before(n, m, byKey)
      {
        if n != ms[0] {
          NotAfterTransitive(m, ms[0], n, byKey);
        }
      }
      ConsInOrder(m, ms, byKey);
    } else {
      InsertInOrder(m, ms[1..], byKey);
      InsertPermutes(m, ms[1..], byKey);
      NotBoth(ms[0], m, byKey);
      assert forall n :: n in multiset(ms[1..]) ==> n in ms[1..];
      ConsInOrder(ms[0], InsertSorted(m, ms[1..], byKey), byKey);
    }
  }

  lemma NothingInOrder<V>(byKey: bool)
    ensures InOrder<V>([], byKey)
  {
  }

  /** A sorted permutation, by key or by serial. */
  lemma {:induction false} SortedIsSorting<V>(ms: seq<Member<V>>, byKey: bool)
    ensures InOrder(Sorted(ms, byKey), byKey)
    ensures multiset(Sorted(ms, byKey)) == multiset(ms)
  {
    hide InOrder, InsertSorted;
    if |ms| == 0 {
      NothingInOrder<V>(byKey);
    } else {
      SortedIsSorting(ms[1..], byKey);
      InsertInOrder(ms[0], Sorted(ms[1..], byKey), byKey);
      InsertPermutes(ms[0], Sorted(ms[1..], byKey), byKey);
      assert ms == [ms[0]] + ms[1..];
    }
  }

  // ---- reordering members changes neither well-formedness nor meaning

  lemma {:induction false} InsertKeeps(m: Member<Json>, ms: seq<Member<Json>>, byKey: bool)
    requires MembersWellFormed([m] + ms)
    ensures MembersWellFormed(InsertSorted(m, ms, byKey))
    ensures Keys(InsertSorted(m, ms, byKey)) == Keys(ms) + {m.key}
    ensures MapOf(InsertSorted(m, ms, byKey)) == MapOf(ms)[m.key := ValueOf(m.value)]
  {
    hide Before, Keys, ValueOf;
    var r := InsertSorted(m, ms, byKey);
    assert ([m] + ms)[1..] == ms;
    KeysTail([m] + ms);
    if |ms| == 0 || !Before(ms[0], m, byKey) {
    } else {
      var s := InsertSorted(m, ms[1..], byKey);
      KeysTail(ms);
      assert ([m] + ms[1..])[1..] == ms[1..];
      InsertKeeps(m, ms[1..], byKey);
      assert r[1..] == s;
      KeysTail(r);
      SwapUpdates(MapOf(ms[1..]), m.key, ValueOf(m.value), ms[0].key, ValueOf(ms[0].value));
    }
  }

  lemma SwapUpdates(a: map<CString, Value>, k: CString, v: Value, l: CString, w: Value)
    requires k != l
    ensures a[k := v][l := w] == a[l := w][k := v]
  {
  }

  lemma {:induction false} SortKeeps(ms: seq<Member<Json>>, byKey: bool)
    requires MembersWellFormed(ms)
    ensures MembersWellFormed(Sorted(ms, byKey))
    ensures Keys(Sorted(ms, byKey)) == Keys(ms) && MapOf(Sorted(ms, byKey)) == MapOf(ms)
  {
    hide Keys, ValueOf;
    if |ms| > 0 {
      var s := Sorted(ms[1..], byKey);
      SortKeeps(ms[1..], byKey);
      assert ([ms[0]] + s)[1..] == s;
      InsertKeeps(ms[0], s, byKey);
      KeysTail(ms);
    }
  }

  lemma {:induction false} ArrangeKeeps(t: Json, f: Flags)
    requires WellFormed(t)
    ensures WellFormed(Arrange(t, f)) && ValueOf(Arrange(t, f)) == ValueOf(t)
    decreases t, 0
  {
    match t
    case Array(items) => ArrangeAllKeeps(items, f);
    case Object(members) =>
      ArrangeMembersKeeps(members, f);
      SortKeeps(ArrangeMembers(members, f), true);
      SortKeeps(ArrangeMembers(members, f), false);
    case _ =>
  }

  lemma {:induction false} ArrangeAllKeeps(ts: seq<Json>, f: Flags)
    requires AllWellFormed(ts)
    ensures AllWellFormed(ArrangeAll(ts, f)) && ValuesOf(ArrangeAll(ts, f)) == ValuesOf(ts)
    decreases ts, 1
  {
    if |ts| > 0 {
      ArrangeKeeps(ts[0], f);
      ArrangeAllKeeps(ts[1..], f);
      assert ArrangeAll(ts, f)[1..] == ArrangeAll(ts[1..], f);
    }
  }

  lemma {:induction false} ArrangeMembersKeeps(ms: seq<Member<Json>>, f: Flags)
    requires MembersWellFormed(ms)
    ensures MembersWellFormed(ArrangeMembers(ms, f)) && MapOf(ArrangeMembers(ms, f)) == MapOf(ms)
    ensures Keys(ArrangeMembers(ms, f)) == Keys(ms)
    decreases ms, 1
  {
    hide Keys;
    if |ms| == 0 {
    } else {
      ArrangeKeeps(ms[0].value, f);
      ArrangeMembersKeeps(ms[1..], f);
      assert ArrangeMembers(ms, f)[1..] == ArrangeMembers(ms[1..], f);
      KeysTail(ms);
      KeysTail(ArrangeMembers(ms, f));
    }
  }

  // ---- valid keys are a matter of meaning

  lemma {:induction false} GoodMeaning(t: Json)
    requires WellFormed(t)
    ensures GoodKeys(t) <==> GoodValue(ValueOf(t))
    decreases t, 0
  {
    hide IsUtf8, RealText;
    match t
    case Array(items) => GoodItemsMeaning(items);
    case Object(members) => GoodMembersMeaning(members);
    case _ =>
  }

  lemma ItemsGood(ts: seq<Json>)
    requires |ts| > 0
    ensures GoodKeys(Array(ts)) <==> GoodKeys(ts[0]) && GoodKeys(Array(ts[1..]))
  {
    assert ts == [ts[0]] + ts[1..];
  }

  lemma ValuesGood(v: Value, vs: seq<Value>)
    ensures GoodValue(VArray([v] + vs)) <==> GoodValue(v) && GoodValue(VArray(vs))
  {
    var ws := [v] + vs;
    assert ws[0] == v && forall i :: 0 <= i < |vs| ==> ws[i + 1] == vs[i];
  }

  lemma {:induction false} GoodItemsMeaning(ts: seq<Json>)
    requires AllWellFormed(ts)
    ensures GoodKeys(Array(ts)) <==> GoodValue(VArray(ValuesOf(ts)))
    decreases ts, 1
  {
    hide GoodKeys, GoodValue, WellFormed;
    if |ts| == 0 {
      NothingGood();
    } else {
      GoodMeaning(ts[0]);
      GoodItemsMeaning(ts[1..]);
      ItemsGood(ts);
      ValuesGood(ValueOf(ts[0]), ValuesOf(ts[1..]));
    }
  }

  lemma NothingGood()
    ensures GoodKeys(Array([])) && GoodValue(VArray([])) && GoodKeys(Object([])) && GoodValue(VObject(map[]))
  {
  }

  lemma MembersGood(ms: seq<Member<Json>>)
    requires |ms| > 0
    ensures GoodKeys(Object(ms)) <==> IsUtf8(ms[0].key) && GoodKeys(ms[0].value) && GoodKeys(Object(ms[1..]))
  {
    hide IsUtf8;
    assert ms == [ms[0]] + ms[1..];
  }

  lemma MapGood(m: map<CString, Value>, k: CString, v: Value)
    requires k !in m
    ensures GoodValue(VObject(m[k := v])) <==> GoodString(k) && GoodValue(v) && GoodValue(VObject(m))
  {
    hide GoodString;
    var w := m[k := v];
    assert w[k] == v && forall l :: l in m ==> l in w && w[l] == m[l];
  }

  lemma {:induction false} GoodMembersMeaning(ms: seq<Member<Json>>)
    requires MembersWellFormed(ms)
    ensures GoodKeys(Object(ms)) <==> GoodValue(VObject(MapOf(ms)))
    decreases ms, 1
  {
    hide GoodKeys, GoodValue, WellFormed, IsUtf8, Keys;
    if |ms| == 0 {
      NothingGood();
    } else {
      GoodMeaning(ms[0].value);
      GoodMembersMeaning(ms[1..]);
      MembersGood(ms);
      MapOfKeys(ms[1..]);
      MapGood(MapOf(ms[1..]), ms[0].key, ValueOf(ms[0].value));
    }
  }

  // ---- the round trip

  /** The text json_dumps produces: members are put in printing order at every level. */
  function DumpText(t: Json, f: Flags): seq<Byte>
    requires WellFormed(t)
  {
    ArrangeKeeps(t, f);
    Dump(Arrange(t, f), f, 0)
  }

  /** Loading the text of a value succeeds and gives an equal value: for arrays and objects whatever
      the load flags, for the other values with JSON_DECODE_ANY (and JSON_ENCODE_ANY when dumping). */
  lemma LoadDump(t: Json, f: Flags, o: Options)
    requires WellFormed(t) && GoodKeys(t)
    requires t.Array? || t.Object? || o.decodeAny
    ensures ParseJson(DumpText(t, f), false, o) == Loaded(ValueOf(t))
  {
    hide Lex, ParseValue, Dump, GoodKeys, WellFormed, ValueOf, GoodValue;
    ArrangeKeeps(t, f);
    GoodMeaning(t);
    GoodMeaning(Arrange(t, f));
    var a, s := Arrange(t, f), DumpText(t, f);
    assert s == s + [];
    ParseDump(a, f, 0, [], false, o);
    FirstToken(a, f);
    LexEnd();
  }

  lemma LexEnd()
    ensures Lex([], false) == Lexed(TEof, [])
  {
  }

  lemma FirstToken(t: Json, f: Flags)
    requires WellFormed(t)
    ensures t.Array? ==> Lex(Dump(t, f, 0), false).token == TPunct(LBRACKET)
    ensures t.Object? ==> Lex(Dump(t, f, 0), false).token == TPunct(LBRACE)
  {
    hide DumpItems, DumpMembers, Indent;
    var s := Dump(t, f, 0);
    if t.Array? || t.Object? {
      assert s == [s[0]] + s[1..];
      LexPunct(s[0], s[1..], false);
    }
  }
}
