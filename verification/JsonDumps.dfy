/** json_dump_callback and json_dumps on value graphs. */
module JsonDumps {
  import opened Bytes
  import opened Utf8
  import opened Stream
  import opened Wrappers
  import opened JsonNumber
  import opened JsonText
  import opened JsonParse
  import opened JsonOrder
  import opened JsonRoundTrip
  import opened JsonValid
  import opened JsonGraph
  import opened PrintString
  import opened Printer
  import JsonString

  /** Members stay in iteration order. */
  const UNSORTED := Flags(0, false, false, false, false)

  /** The tree that a value stands for. */
  ghost function Unfold(nodes: set<Node>, v: Node): Option<Json>
    requires Graph(nodes) && v in nodes
    reads nodes`body
  {
    Tree(nodes, v, {}, UNSORTED)
  }

  // ---- sorting members commutes with unfolding their values

  /** Each member of `zs` is that of `ms`, its value unfolded. */
  ghost predicate Matches(nodes: set<Node>, open: set<Node>, f: Flags, ms: seq<Member<Node>>, zs: seq<Member<Json>>)
    requires Graph(nodes) && Inside(nodes, Values(ms))
    reads nodes`body
  {
    |ms| == |zs| && forall i :: 0 <= i < |ms| ==>
      zs[i].key == ms[i].key && zs[i].serial == ms[i].serial && Tree(nodes, Values(ms)[i], open, f) == Some(zs[i].value)
  }

  lemma MatchesCons(nodes: set<Node>, open: set<Node>, f: Flags, m: Member<Node>, z: Member<Json>,
                    ms: seq<Member<Node>>, zs: seq<Member<Json>>)
    requires Graph(nodes) && Inside(nodes, Values(ms)) && Matches(nodes, open, f, ms, zs) && m.value in nodes
    requires z.key == m.key && z.serial == m.serial && Tree(nodes, m.value, open, f) == Some(z.value)
    ensures Inside(nodes, Values([m] + ms)) && Matches(nodes, open, f, [m] + ms, [z] + zs)
  {
    hide Tree, Graph;
  }

  lemma MatchesSplit(nodes: set<Node>, open: set<Node>, f: Flags, ms: seq<Member<Node>>, zs: seq<Member<Json>>)
    requires Graph(nodes) && Inside(nodes, Values(ms)) && Matches(nodes, open, f, ms, zs) && |ms| > 0
    ensures ms[0].value in nodes && zs[0].key == ms[0].key && zs[0].serial == ms[0].serial
    ensures Tree(nodes, ms[0].value, open, f) == Some(zs[0].value)
    ensures Inside(nodes, Values(ms[1..])) && Matches(nodes, open, f, ms[1..], zs[1..])
    ensures ms == [ms[0]] + ms[1..] && zs == [zs[0]] + zs[1..]
  {
    hide Tree, Graph, Values;
    ValuesTail(ms);
    forall i | 0 <= i < |ms| - 1
      ensures Values(ms[1..])[i] in nodes && Tree(nodes, Values(ms[1..])[i], open, f) == Some(zs[1..][i].value)
    {
      assert Values(ms)[i + 1] in nodes;
    }
  }

  lemma ValuesTail<V>(ms: seq<Member<V>>)
    requires |ms| > 0
    ensures Values(ms[1..]) == Values(ms)[1..] && Values(ms)[0] == ms[0].value
  {
  }

  lemma {:induction false} InsertMatches(nodes: set<Node>, open: set<Node>, f: Flags, m: Member<Node>, z: Member<Json>,
                                         ms: seq<Member<Node>>, zs: seq<Member<Json>>, byKey: bool)
    requires Graph(nodes) && Inside(nodes, Values(ms)) && Matches(nodes, open, f, ms, zs) && m.value in nodes
    requires z.key == m.key && z.serial == m.serial && Tree(nodes, m.value, open, f) == Some(z.value)
    ensures Inside(nodes, Values(InsertSorted(m, ms, byKey)))
    ensures Matches(nodes, open, f, InsertSorted(m, ms, byKey), InsertSorted(z, zs, byKey))
    decreases |ms|
  {
    hide Tree, Graph, Less, Matches;
    MatchesLength(nodes, open, f, ms, zs);
    if |ms| > 0 {
      MatchesSplit(nodes, open, f, ms, zs);
    }
    if |ms| == 0 || !Before(ms[0], m, byKey) {
      MatchesCons(nodes, open, f, m, z, ms, zs);
    } else {
      InsertMatches(nodes, open, f, m, z, ms[1..], zs[1..], byKey);
      MatchesCons(nodes, open, f, ms[0], zs[0], InsertSorted(m, ms[1..], byKey), InsertSorted(z, zs[1..], byKey));
    }
  }

  lemma MatchesLength(nodes: set<Node>, open: set<Node>, f: Flags, ms: seq<Member<Node>>, zs: seq<Member<Json>>)
    requires Graph(nodes) && Inside(nodes, Values(ms)) && Matches(nodes, open, f, ms, zs)
    ensures |ms| == |zs|
  {
  }

  lemma {:induction false} SortMatches(nodes: set<Node>, open: set<Node>, f: Flags, ms: seq<Member<Node>>,
                                       zs: seq<Member<Json>>, byKey: bool)
    requires Graph(nodes) && Inside(nodes, Values(ms)) && Matches(nodes, open, f, ms, zs)
    ensures Inside(nodes, Values(Sorted(ms, byKey))) && Matches(nodes, open, f, Sorted(ms, byKey), Sorted(zs, byKey))
    decreases |ms|
  {
    hide Tree, Graph, Matches, InsertSorted;
    MatchesLength(nodes, open, f, ms, zs);
    if |ms| > 0 {
      MatchesSplit(nodes, open, f, ms, zs);
      SortMatches(nodes, open, f, ms[1..], zs[1..], byKey);
      InsertMatches(nodes, open, f, ms[0], zs[0], Sorted(ms[1..], byKey), Sorted(zs[1..], byKey), byKey);
    } else {
      assert Sorted(ms, byKey) == ms && Sorted(zs, byKey) == zs;
    }
  }

  lemma OrderMatches(nodes: set<Node>, open: set<Node>, f: Flags, ms: seq<Member<Node>>, zs: seq<Member<Json>>)
    requires Graph(nodes) && Inside(nodes, Values(ms)) && Matches(nodes, open, f, ms, zs)
    ensures Inside(nodes, Values(Order(ms, f))) && Matches(nodes, open, f, Order(ms, f), Order(zs, f))
  {
    hide Tree, Graph, Matches, Sorted;
    SortMatches(nodes, open, f, ms, zs, true);
    SortMatches(nodes, open, f, ms, zs, false);
  }

  /** The trees of the values are what makes members match. */
  lemma MatchesTrees(nodes: set<Node>, open: set<Node>, f: Flags, ms: seq<Member<Node>>, zs: seq<Member<Json>>)
    requires Graph(nodes) && Inside(nodes, Values(ms)) && Matches(nodes, open, f, ms, zs)
    ensures TreeAll(nodes, Values(ms), open, f).Some? && Zip(ms, TreeAll(nodes, Values(ms), open, f).value) == zs
  {
    hide Tree, Graph, TreeAll;
    TreeAllAt(nodes, Values(ms), open, f);
  }

  lemma {:induction false} ArrangeAllAt(ts: seq<Json>, f: Flags)
    ensures forall i :: 0 <= i < |ts| ==> ArrangeAll(ts, f)[i] == Arrange(ts[i], f)
    decreases |ts|
  {
    hide Arrange;
    if |ts| > 0 {
      ArrangeAllAt(ts[1..], f);
    }
  }

  lemma {:induction false} ArrangeMembersAt(zs: seq<Member<Json>>, f: Flags)
    ensures forall i :: 0 <= i < |zs| ==>
              ArrangeMembers(zs, f)[i] == Member(zs[i].key, zs[i].serial, Arrange(zs[i].value, f))
    decreases |zs|
  {
    hide Arrange;
    if |zs| > 0 {
      ArrangeMembersAt(zs[1..], f);
    }
  }

  /** The tree in printing order is the unfolded one, put in order. */
  ghost predicate Arranged(a: Option<Json>, t: Option<Json>, f: Flags) {
    (a.Some? <==> t.Some?) && (t.Some? ==> a.value == Arrange(t.value, f))
  }

  lemma {:induction false} TreeArranged(nodes: set<Node>, v: Node, open: set<Node>, f: Flags)
    requires Graph(nodes) && v in nodes
    ensures Arranged(Tree(nodes, v, open, f), Tree(nodes, v, open, UNSORTED), f)
    decreases |nodes - open|
  {
    hide TreeAll, Graph, Kids, Children, Inside, IsUtf8;
    if v.body.Container() && v !in open {
      InsideOf(nodes, v);
      OneFewer(nodes, open, v);
      InsideIs(nodes, Children(v.body));
      forall i | 0 <= i < |Children(v.body)|
        ensures Arranged(Tree(nodes, Children(v.body)[i], open + {v}, f),
                         Tree(nodes, Children(v.body)[i], open + {v}, UNSORTED), f)
      {
        TreeArranged(nodes, Children(v.body)[i], open + {v}, f);
      }
      if v.body.BArray? {
        ArrayArranged(nodes, v, open, f);
      } else {
        ObjectArranged(nodes, v, open, f);
      }
    }
  }

  lemma InsideIs(nodes: set<Node>, vs: seq<Node>)
    requires Inside(nodes, vs)
    ensures forall i :: 0 <= i < |vs| ==> vs[i] in nodes
  {
  }

  /** The children of `v` have been dealt with. */
  ghost predicate ChildrenArranged(nodes: set<Node>, vs: seq<Node>, open: set<Node>, f: Flags)
    requires Graph(nodes) && Inside(nodes, vs)
    reads nodes`body
  {
    forall i :: 0 <= i < |vs| ==> Arranged(Tree(nodes, vs[i], open, f), Tree(nodes, vs[i], open, UNSORTED), f)
  }

  lemma ArrayArranged(nodes: set<Node>, v: Node, open: set<Node>, f: Flags)
    requires Graph(nodes) && v in nodes && v.body.BArray? && v !in open && Inside(nodes, Children(v.body))
    requires ChildrenArranged(nodes, Children(v.body), open + {v}, f)
    ensures Arranged(Tree(nodes, v, open, f), Tree(nodes, v, open, UNSORTED), f)
  {
    hide Tree, TreeAll, Graph;
    var vs := v.body.items;
    TreeOfContainer(nodes, v, open, f);
    TreeOfContainer(nodes, v, open, UNSORTED);
    TreeAllAt(nodes, vs, open + {v}, f);
    TreeAllAt(nodes, vs, open + {v}, UNSORTED);
    var a, t := TreeAll(nodes, vs, open + {v}, f), TreeAll(nodes, vs, open + {v}, UNSORTED);
    if t.Some? {
      ArrangeAllAt(t.value, f);
      assert a.value == ArrangeAll(t.value, f);
    }
  }

  lemma ZipMatches(nodes: set<Node>, ms: seq<Member<Node>>, open: set<Node>, f: Flags, ts: seq<Json>)
    requires Graph(nodes) && Inside(nodes, Values(ms)) && ChildrenArranged(nodes, Values(ms), open, f) && |ts| == |ms|
    requires forall i :: 0 <= i < |ms| ==> Tree(nodes, Values(ms)[i], open, UNSORTED) == Some(ts[i])
    ensures Matches(nodes, open, f, ms, ArrangeMembers(Zip(ms, ts), f))
  {
    hide Tree, Graph, Arrange, ArrangeMembers;
    ArrangeMembersAt(Zip(ms, ts), f);
  }

  lemma ObjectArranged(nodes: set<Node>, v: Node, open: set<Node>, f: Flags)
    requires Graph(nodes) && v in nodes && v.body.BObject? && v !in open && Inside(nodes, Children(v.body))
    requires ChildrenArranged(nodes, Children(v.body), open + {v}, f)
    ensures Arranged(Tree(nodes, v, open, f), Tree(nodes, v, open, UNSORTED), f)
  {
    hide Tree, TreeAll, Graph, Sorted, Matches, ArrangeMembers;
    var ms := v.body.members;
    TreeOfContainer(nodes, v, open, f);
    TreeOfContainer(nodes, v, open, UNSORTED);
    TreeAllAt(nodes, Values(ms), open + {v}, UNSORTED);
    var t := TreeAll(nodes, Values(ms), open + {v}, UNSORTED);
    if t.Some? {
      var zs := Zip(ms, t.value);
      ZipMatches(nodes, ms, open + {v}, f, t.value);
      OrderMatches(nodes, open + {v}, f, ms, ArrangeMembers(zs, f));
      MatchesTrees(nodes, open + {v}, f, Order(ms, f), Order(ArrangeMembers(zs, f), f));
    } else {
      var i :| 0 <= i < |ms| && Tree(nodes, Values(ms)[i], open + {v}, UNSORTED).None?;
      KidsAreChildren(v.body, f);
      TreeAllAt(nodes, Kids(v.body, f), open + {v}, f);
      assert Children(v.body)[i] in Kids(v.body, f);
    }
  }

  // ---- the tree of a sound graph is one that can be printed and loaded

  lemma {:induction false} AllGood(ts: seq<Json>)
    requires forall i :: 0 <= i < |ts| ==> WellFormed(ts[i])
    ensures AllWellFormed(ts)
    decreases |ts|
  {
    hide WellFormed;
    if |ts| > 0 {
      AllGood(ts[1..]);
    }
  }

  lemma {:induction false} MembersSound(zs: seq<Member<Json>>)
    requires forall i :: 0 <= i < |zs| ==> 0 !in zs[i].key && WellFormed(zs[i].value)
    requires forall i, j :: 0 <= i < j < |zs| ==> zs[i].key != zs[j].key
    ensures MembersWellFormed(zs)
    decreases |zs|
  {
    hide WellFormed;
    if |zs| > 0 {
      MembersSound(zs[1..]);
    }
  }

  lemma {:induction false} TreeWellFormed(nodes: set<Node>, v: Node, open: set<Node>)
    requires Graph(nodes) && v in nodes && Tree(nodes, v, open, UNSORTED).Some?
    ensures WellFormed(Tree(nodes, v, open, UNSORTED).value)
    decreases |nodes - open|
  {
    hide TreeAll, Graph, IsUtf8;
    InsideOf(nodes, v);
    if v.body.Container() {
      TreeOfContainer(nodes, v, open, UNSORTED);
      OneFewer(nodes, open, v);
      var vs := Kids(v.body, UNSORTED);
      var ts := TreeAll(nodes, vs, open + {v}, UNSORTED).value;
      TreeAllAt(nodes, vs, open + {v}, UNSORTED);
      forall i | 0 <= i < |vs|
        ensures WellFormed(ts[i])
      {
        TreeWellFormed(nodes, vs[i], open + {v});
      }
      ContainerWellFormed(v, ts);
    }
  }

  lemma ContainerWellFormed(v: Node, ts: seq<Json>)
    requires v.body.Container() && Sound(v.body) && |ts| == |Kids(v.body, UNSORTED)|
    requires forall i :: 0 <= i < |ts| ==> WellFormed(ts[i])
    ensures WellFormed(Rebuild(v.body, ts, UNSORTED))
  {
    hide IsUtf8;
    if v.body.BArray? {
      AllGood(ts);
    } else {
      MembersSound(Zip(v.body.members, ts));
    }
  }

  // ---- invalid keys

  /** All keys are valid in the value and in everything below it. */
  ghost predicate KeysBelow(nodes: set<Node>, v: Node)
    reads nodes`body
  {
    forall p: seq<Node> :: PathFrom(nodes, v, p) ==> OwnKeys(p[|p| - 1].body)
  }

  predicate OwnKeys(b: Body) {
    b.BObject? ==> forall i :: 0 <= i < |b.members| ==> IsUtf8(b.members[i].key)
  }

  lemma KeysBelowStep(nodes: set<Node>, v: Node)
    requires v in nodes && Inside(nodes, Children(v.body))
    ensures KeysBelow(nodes, v) <==>
              OwnKeys(v.body) && forall i :: 0 <= i < |Children(v.body)| ==> KeysBelow(nodes, Children(v.body)[i])
  {
    hide OwnKeys, Children;
    assert PathFrom(nodes, v, [v]);
    if KeysBelow(nodes, v) {
      forall i, p: seq<Node> | 0 <= i < |Children(v.body)| && PathFrom(nodes, Children(v.body)[i], p)
        ensures OwnKeys(p[|p| - 1].body)
      {
        PathCons(nodes, v, p);
        assert ([v] + p)[|p|] == p[|p| - 1];
      }
    } else {
      var p: seq<Node> :| PathFrom(nodes, v, p) && !OwnKeys(p[|p| - 1].body);
      if |p| > 1 {
        PathTail(nodes, p);
        var i :| 0 <= i < |Children(v.body)| && Children(v.body)[i] == p[1];
        assert p[1..][|p| - 2] == p[|p| - 1];
      } else {
        assert p == [v];
      }
    }
  }

  /** The keys of the tree are those met on paths through the graph. */
  lemma {:induction false} TreeKeys(nodes: set<Node>, v: Node, open: set<Node>)
    requires Graph(nodes) && v in nodes && Tree(nodes, v, open, UNSORTED).Some?
    ensures GoodKeys(Tree(nodes, v, open, UNSORTED).value) <==> KeysBelow(nodes, v)
    decreases |nodes - open|
  {
    hide TreeAll, Graph, IsUtf8, KeysBelow, Children, Kids, GoodKeys;
    InsideOf(nodes, v);
    KeysBelowStep(nodes, v);
    if v.body.Container() {
      TreeOfContainer(nodes, v, open, UNSORTED);
      OneFewer(nodes, open, v);
      KidsUnsorted(v.body);
      var vs := Children(v.body);
      var ts := TreeAll(nodes, vs, open + {v}, UNSORTED).value;
      TreeAllAt(nodes, vs, open + {v}, UNSORTED);
      forall i | 0 <= i < |vs|
        ensures GoodKeys(ts[i]) <==> KeysBelow(nodes, vs[i])
      {
        TreeKeys(nodes, vs[i], open + {v});
      }
      ContainerKeys(v.body, ts);
    } else {
      LeafKeys(nodes, v, open);
    }
  }

  lemma KidsUnsorted(b: Body)
    ensures Kids(b, UNSORTED) == Children(b)
  {
  }

  lemma ContainerKeys(b: Body, ts: seq<Json>)
    requires b.Container() && |ts| == |Children(b)|
    ensures GoodKeys(Rebuild(b, ts, UNSORTED)) <==> OwnKeys(b) && forall i :: 0 <= i < |ts| ==> GoodKeys(ts[i])
  {
    hide IsUtf8;
    if b.BObject? {
      var zs := Zip(b.members, ts);
      assert forall i :: 0 <= i < |zs| ==> zs[i].key == b.members[i].key && zs[i].value == ts[i];
    }
  }

  lemma LeafKeys(nodes: set<Node>, v: Node, open: set<Node>)
    requires Graph(nodes) && v in nodes && !v.body.Container() && Tree(nodes, v, open, UNSORTED).Some?
    ensures GoodKeys(Tree(nodes, v, open, UNSORTED).value) && Children(v.body) == [] && OwnKeys(v.body)
  {
    hide TreeAll, Graph, IsUtf8;
  }

  // ---- dumping

  /** json_dump_callback.  Whatever the callback does, no mark is left. */
  method DumpCallback(v: Node, f: Flags, encodeAny: bool, out: Sink, ghost nodes: set<Node>) returns (ok: bool)
    requires Graph(nodes) && v in nodes && Open(nodes) == {}
    modifies out, nodes`visited
    ensures Open(nodes) == {}
    ensures Failing(old(out.failed), out.failed, out.MayFail())
    ensures !out.failed ==> (ok <==> (encodeAny || v.body.Container()) && !BadReachable(nodes, v))
    ensures !out.failed && ok ==>
              Unfold(nodes, v).Some? && WellFormed(Unfold(nodes, v).value) &&
              out.text == old(out.text) + DumpText(Unfold(nodes, v).value, f)
  {
    hide Graph, BadReachable, Tree, WellFormed, Dump, Open;
    TreeExists(nodes, v, f);
    if !encodeAny && !(v.body.BArray? || v.body.BObject?) {
      return false;
    }
    ok := DoDump(v, f, 0, out, nodes);
    if !out.failed && ok {
      TreeArranged(nodes, v, {}, f);
      TreeWellFormed(nodes, v, {});
      ArrangeKeeps(Unfold(nodes, v).value, f);
    }
  }

  /** json_dumps: NULL exactly if a cycle or an invalid string can be reached from the value (or it is no
      container, without JSON_ENCODE_ANY); else the text of its tree. */
  method Dumps(v: Node, f: Flags, encodeAny: bool, ghost nodes: set<Node>) returns (r: Option<seq<Byte>>)
    requires Graph(nodes) && v in nodes && Open(nodes) == {}
    modifies nodes`visited
    ensures Open(nodes) == {}
    ensures r.Some? <==> (encodeAny || v.body.Container()) && !BadReachable(nodes, v)
    ensures r.Some? ==>
              Unfold(nodes, v).Some? && WellFormed(Unfold(nodes, v).value) &&
              r.value == DumpText(Unfold(nodes, v).value, f)
    ensures r.Some? ==> InPrintingOrder(r.value, Unfold(nodes, v).value, f)
    ensures r.Some? && KeysBelow(nodes, v) ==> Printout(r.value, Unfold(nodes, v).value, f)
  {
    hide Graph, BadReachable, Tree, WellFormed, Dump, Open, DumpText, GoodKeys, KeysBelow, InPrintingOrder, Printout;
    var out := new Sink(_ => false);
    var ok := DumpCallback(v, f, encodeAny, out, nodes);
    if ok {
      DumpTextOrdered(Unfold(nodes, v).value, f);
      TreeKeys(nodes, v, {});
    }
    r := if ok then Some(out.text) else None;
  }

  /** Loading what was dumped gives the value that was dumped, if and only if all keys in it are valid. */
  lemma DumpsLoads(nodes: set<Node>, v: Node, f: Flags, o: Options)
    requires Graph(nodes) && v in nodes && !BadReachable(nodes, v)
    requires v.body.Container() || o.decodeAny
    ensures Unfold(nodes, v).Some? && WellFormed(Unfold(nodes, v).value)
    ensures var text := DumpText(Unfold(nodes, v).value, f);
            0 !in text &&
            (ParseJson(ValidPrefix(text), !IsUtf8(text), o) == Loaded(ValueOf(Unfold(nodes, v).value)) <==>
             KeysBelow(nodes, v))
  {
    hide Graph, BadReachable, KeysBelow, ParseJson, ValidPrefix, IsUtf8, DumpText, TreeAll, ValueOf, GoodKeys,
         WellFormed;
    TreeExists(nodes, v, UNSORTED);
    TreeWellFormed(nodes, v, {});
    TreeKeys(nodes, v, {});
    LoadsExactly(Unfold(nodes, v).value, f, o);
  }

  const BAD_KEY: seq<Member<Json>> := [Member([0xFF], 0, Null)]

  lemma BadKeyTree()
    ensures WellFormed(Object(BAD_KEY)) && Arrange(Object(BAD_KEY), UNSORTED) == Object(BAD_KEY)
    ensures !GoodKeys(Object(BAD_KEY))
  {
    assert BAD_KEY[1..] == [] && Keys<Json>([]) == {};
    assert CharLen([0xFF]) == 0;
    assert ArrangeMembers(BAD_KEY[1..], UNSORTED) == [];
  }

  lemma BadKeyText()
    requires WellFormed(Object(BAD_KEY))
    ensures Dump(Object(BAD_KEY), UNSORTED, 0) == [LBRACE, QUOTE, COLON, SPACE] + NULL_TEXT + [RBRACE]
  {
    BadKeyShown();
    assert DumpMembers(BAD_KEY, UNSORTED, 0) == KeyText([0xFF], UNSORTED) + NULL_TEXT + [];
  }

  /** An object with the key 0xFF is printed with success, but its key has lost its closing quote, and the text does
      not load. */
  lemma BadKeyDangles(o: Options)
    ensures WellFormed(Object(BAD_KEY)) &&
            DumpText(Object(BAD_KEY), UNSORTED) == [LBRACE, QUOTE, COLON, SPACE] + NULL_TEXT + [RBRACE]
    ensures ParseJson([LBRACE, QUOTE, COLON, SPACE] + NULL_TEXT + [RBRACE], false, o) == LoadError(TInvalid)
  {
    hide Dump, WellFormed, Arrange, Lex, JsonString.Scan;
    BadKeyTree();
    BadKeyText();
    var t := [QUOTE, COLON, SPACE] + NULL_TEXT + [RBRACE];
    assert [LBRACE, QUOTE, COLON, SPACE] + NULL_TEXT + [RBRACE] == [LBRACE] + t;
    LexPunct(LBRACE, t, false);
    Unclosed(t[1..]);
    UnclosedLiteral(t);
    assert ParseObject(t, false, o) == Failed(TInvalid);
    assert ParseValue(TPunct(LBRACE), t, false, o) == Failed(TInvalid);
  }

  lemma BadKeyShown()
    ensures JsonString.Shown([0xFF], false) == [QUOTE]
  {
    var s: CString := [0xFF];
    assert CharLen(s) == 0;
    assert s[..0] == [];
  }

  /** Without a quote or a backslash, the end of a literal is not found. */
  lemma {:induction false} Unclosed(s: seq<Byte>)
    requires QUOTE !in s && BACKSLASH !in s
    ensures JsonString.Scan(s).None?
    decreases |s|
  {
    if |s| > 0 {
      Unclosed(s[1..]);
    }
  }

  lemma UnclosedLiteral(t: seq<Byte>)
    requires |t| > 0 && t[0] == QUOTE && JsonString.Scan(t[1..]).None?
    ensures Lex(t, false).token == TInvalid
  {
    hide JsonString.Scan, JsonString.Decode, JsonString.WellScanned, LexNumber, LexWord;
    assert SpaceRun(t) == 0 && t[0..] == t;
  }
}
