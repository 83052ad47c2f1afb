/** do_dump: prints a value graph, marking the arrays and objects it is inside of. */
module Printer {
  import opened Bytes
  import opened Utf8
  import opened Wrappers
  import opened JsonNumber
  import opened JsonText
  import opened JsonRoundTrip
  import opened JsonGraph
  import opened PrintString
  import JsonString

  /** dump_indent */
  method DumpIndent(f: Flags, depth: nat, space: bool, out: Sink) returns (ok: bool)
    modifies out
    ensures ok ==> out.text == old(out.text) + Indent(f, depth, space) && out.failed == old(out.failed)
    ensures !ok ==> out.failed && out.MayFail()
  {
    ok := true;
    if f.indent > 0 {
      ok := out.Put([NEWLINE]);
      if !ok {
        return;
      }
      for i := 0 to depth
        invariant out.text == old(out.text) + [NEWLINE] + Spaces(i * f.indent) && out.failed == old(out.failed)
      {
        ok := out.Put(Spaces(f.indent));
        if !ok {
          return;
        }
        MoreSpaces(i, f.indent);
      }
      ok := true;
    } else if space && !f.compact {
      ok := out.Put([SPACE]);
    }
  }

  lemma MoreSpaces(i: nat, n: nat)
    ensures Spaces(i * n) + Spaces(n) == Spaces((i + 1) * n)
  {
    assert (i + 1) * n == i * n + n;
  }

  /** Comma and indentation between two elements, or indentation in front of the closing bracket. */
  function After(last: bool, f: Flags, depth: nat): seq<Byte> {
    if last then Indent(f, depth, false) else [COMMA] + Indent(f, depth + 1, true)
  }

  method DumpAfter(last: bool, f: Flags, depth: nat, out: Sink) returns (ok: bool)
    modifies out
    ensures ok ==> out.text == old(out.text) + After(last, f, depth) && out.failed == old(out.failed)
    ensures !ok ==> out.failed && out.MayFail()
  {
    hide Indent;
    if last {
      ok := DumpIndent(f, depth, false, out);
    } else {
      ok := out.Put([COMMA]);
      if ok {
        ok := DumpIndent(f, depth + 1, true, out);
        assert ok ==> out.text == old(out.text) + ([COMMA] + Indent(f, depth + 1, true));
      }
    }
  }

  // ---- the printed text, element by element

  lemma {:induction false} TailWellFormed(ts: seq<Json>, i: nat)
    requires AllWellFormed(ts) && i <= |ts|
    ensures AllWellFormed(ts[i..]) && (i < |ts| ==> WellFormed(ts[i]))
  {
    if i == 0 {
      assert ts[0..] == ts;
    } else {
      TailWellFormed(ts[1..], i - 1);
      assert ts[1..][i - 1..] == ts[i..];
    }
  }

  lemma ItemsTail(ts: seq<Json>, i: nat, f: Flags, depth: nat)
    requires AllWellFormed(ts) && i < |ts|
    ensures AllWellFormed(ts[i..]) && AllWellFormed(ts[i + 1..]) && WellFormed(ts[i])
    ensures DumpItems(ts[i..], f, depth)
         == Dump(ts[i], f, depth + 1) + After(i == |ts| - 1, f, depth)
          + (if i == |ts| - 1 then [] else DumpItems(ts[i + 1..], f, depth))
  {
    hide Dump, DumpItems, After, WellFormed, AllWellFormed;
    TailWellFormed(ts, i);
    TailWellFormed(ts, i + 1);
    assert ts[i..][1..] == ts[i + 1..];
    ItemsFirst(ts[i..], f, depth);
  }

  lemma ItemsFirst(ts: seq<Json>, f: Flags, depth: nat)
    requires AllWellFormed(ts) && |ts| > 0
    ensures AllWellFormed(ts[1..]) && WellFormed(ts[0])
    ensures DumpItems(ts, f, depth)
         == Dump(ts[0], f, depth + 1) + After(|ts| == 1, f, depth)
           + (if |ts| == 1 then [] else DumpItems(ts[1..], f, depth))
  {
    hide Indent, Dump, WellFormed;
    if |ts| > 1 {
      AfterRegroup(Dump(ts[0], f, depth + 1), Indent(f, depth + 1, true), DumpItems(ts[1..], f, depth));
    }
  }

  lemma AfterRegroup(a: seq<Byte>, w: seq<Byte>, more: seq<Byte>)
    ensures a + ([COMMA] + w + more) == a + ([COMMA] + w) + more
  {
  }

  lemma {:induction false} TailMembers(ms: seq<Member<Json>>, i: nat)
    requires MembersWellFormed(ms) && i <= |ms|
    ensures MembersWellFormed(ms[i..]) && (i < |ms| ==> WellFormed(ms[i].value))
  {
    if i == 0 {
      assert ms[0..] == ms;
    } else {
      TailMembers(ms[1..], i - 1);
      assert ms[1..][i - 1..] == ms[i..];
    }
  }

  lemma MembersTail(ms: seq<Member<Json>>, i: nat, f: Flags, depth: nat)
    requires MembersWellFormed(ms) && i < |ms|
    ensures MembersWellFormed(ms[i..]) && MembersWellFormed(ms[i + 1..])
    ensures WellFormed(ms[i].value)
    ensures DumpMembers(ms[i..], f, depth)
         == KeyText(ms[i].key, f) + Dump(ms[i].value, f, depth + 1) + After(i == |ms| - 1, f, depth)
          + (if i == |ms| - 1 then [] else DumpMembers(ms[i + 1..], f, depth))
  {
    hide Dump, DumpMembers, After, KeyText, WellFormed, MembersWellFormed;
    TailMembers(ms, i);
    TailMembers(ms, i + 1);
    assert ms[i..][1..] == ms[i + 1..];
    MembersFirst(ms[i..], f, depth);
  }

  lemma MembersFirst(ms: seq<Member<Json>>, f: Flags, depth: nat)
    requires MembersWellFormed(ms) && |ms| > 0
    ensures MembersWellFormed(ms[1..]) && WellFormed(ms[0].value)
    ensures DumpMembers(ms, f, depth)
         == KeyText(ms[0].key, f) + Dump(ms[0].value, f, depth + 1) + After(|ms| == 1, f, depth)
          + (if |ms| == 1 then [] else DumpMembers(ms[1..], f, depth))
  {
    hide Indent, Dump, KeyText, WellFormed, Keys;
    if |ms| > 1 {
      AfterRegroup(KeyText(ms[0].key, f) + Dump(ms[0].value, f, depth + 1), Indent(f, depth + 1, true),
                   DumpMembers(ms[1..], f, depth));
    }
  }

  /** With `i` elements printed, the rest is still to come. */
  ghost predicate ItemsLeft(text: seq<Byte>, base: seq<Byte>, ts: seq<Json>, i: nat, f: Flags, depth: nat)
    requires |ts| > 0 && AllWellFormed(ts) && i <= |ts|
  {
    if i == |ts| then text == base + DumpItems(ts, f, depth)
    else TailWellFormed(ts, i); text + DumpItems(ts[i..], f, depth) == base + DumpItems(ts, f, depth)
  }

  lemma ItemsLeftNext(text: seq<Byte>, base: seq<Byte>, ts: seq<Json>, i: nat, f: Flags, depth: nat)
    requires |ts| > 0 && AllWellFormed(ts) && i < |ts| && ItemsLeft(text, base, ts, i, f, depth)
    ensures WellFormed(ts[i])
    ensures ItemsLeft(text + Dump(ts[i], f, depth + 1) + After(i == |ts| - 1, f, depth), base, ts, i + 1, f, depth)
  {
    hide Dump, DumpItems, After, WellFormed, AllWellFormed;
    ItemsTail(ts, i, f, depth);
    var d, a := Dump(ts[i], f, depth + 1), After(i == |ts| - 1, f, depth);
    if i == |ts| - 1 {
      assert text + (d + a + []) == text + d + a;
    } else {
      var more := DumpItems(ts[i + 1..], f, depth);
      assert text + (d + a + more) == (text + d + a) + more;
    }
  }

  lemma ItemsLeftStart(base: seq<Byte>, ts: seq<Json>, f: Flags, depth: nat)
    requires |ts| > 0 && AllWellFormed(ts)
    ensures ItemsLeft(base, base, ts, 0, f, depth)
  {
    assert ts[0..] == ts;
  }

  ghost predicate MembersLeft(text: seq<Byte>, base: seq<Byte>, ms: seq<Member<Json>>, i: nat, f: Flags, depth: nat)
    requires |ms| > 0 && MembersWellFormed(ms) && i <= |ms|
  {
    if i == |ms| then text == base + DumpMembers(ms, f, depth)
    else TailMembers(ms, i); text + DumpMembers(ms[i..], f, depth) == base + DumpMembers(ms, f, depth)
  }

  lemma MembersLeftNext(text: seq<Byte>, base: seq<Byte>, ms: seq<Member<Json>>, i: nat, f: Flags, depth: nat)
    requires |ms| > 0 && MembersWellFormed(ms) && i < |ms| && MembersLeft(text, base, ms, i, f, depth)
    ensures WellFormed(ms[i].value)
    ensures MembersLeft(text + KeyText(ms[i].key, f) + Dump(ms[i].value, f, depth + 1) + After(i == |ms| - 1, f, depth),
                        base, ms, i + 1, f, depth)
  {
    hide Dump, DumpMembers, After, WellFormed, MembersWellFormed, KeyText;
    MembersTail(ms, i, f, depth);
    var k, d, a := KeyText(ms[i].key, f), Dump(ms[i].value, f, depth + 1), After(i == |ms| - 1, f, depth);
    if i == |ms| - 1 {
      assert text + (k + d + a + []) == text + k + d + a;
    } else {
      var more := DumpMembers(ms[i + 1..], f, depth);
      assert text + (k + d + a + more) == (text + k + d + a) + more;
    }
  }

  lemma MembersLeftStart(base: seq<Byte>, ms: seq<Member<Json>>, f: Flags, depth: nat)
    requires |ms| > 0 && MembersWellFormed(ms)
    ensures MembersLeft(base, base, ms, 0, f, depth)
  {
    assert ms[0..] == ms;
  }

  // ---- do_dump

  /** The callback does not recover, and fails only if it is one that can. */
  predicate Failing(before: bool, after: bool, mayFail: bool) {
    (before ==> after) && (after ==> before || mayFail)
  }

  /** Unless the callback failed: a value is printed exactly if it has a tree, and then what has been put behind `base`
      is the text of the tree. */
  ghost predicate Printed(failed: bool, ok: bool, t: Option<Json>, base: seq<Byte>, text: seq<Byte>, f: Flags,
                          depth: nat) {
    failed || ((ok <==> t.Some?) && (ok && WellFormed(t.value) ==> text == base + Dump(t.value, f, depth)))
  }

  /** The same for what is inside an array or object. */
  ghost predicate PrintedInside(failed: bool, ok: bool, b: Body, r: Option<seq<Json>>, base: seq<Byte>, text: seq<Byte>,
                                f: Flags, depth: nat)
    requires b.Container()
  {
    failed || ((ok <==> r.Some?) &&
               (ok && |r.value| == |Kids(b, f)| && WellFormed(Rebuild(b, r.value, f)) ==>
                  text == base + InsideText(b, r.value, f, depth)))
  }

  method Mark(v: Node, ghost nodes: set<Node>)
    requires v in nodes
    modifies v`visited
    ensures Open(nodes) == old(Open(nodes)) + {v}
  {
    v.visited := true;
  }

  method Unmark(v: Node, ghost nodes: set<Node>)
    modifies v`visited
    ensures Open(nodes) == old(Open(nodes)) - {v}
  {
    v.visited := false;
  }

  /** What is printed of an array or object in front of its closing bracket. */
  function InsideText(b: Body, ts: seq<Json>, f: Flags, depth: nat): seq<Byte>
    requires b.Container() && |ts| == |Kids(b, f)| && WellFormed(Rebuild(b, ts, f))
  {
    if b.BArray? then
      [LBRACKET] + if |ts| == 0 then [] else Indent(f, depth + 1, false) + DumpItems(ts, f, depth)
    else
      [LBRACE] + if |ts| == 0 then []
                 else Indent(f, depth + 1, false) + DumpMembers(Zip(Order(b.members, f), ts), f, depth)
  }

  lemma ContainerText(b: Body, f: Flags, depth: nat, ts: seq<Json>)
    requires b.Container() && |ts| == |Kids(b, f)| && WellFormed(Rebuild(b, ts, f))
    ensures Dump(Rebuild(b, ts, f), f, depth) == InsideText(b, ts, f, depth) + [if b.BArray? then RBRACKET else RBRACE]
  {
    hide Indent, DumpItems, DumpMembers, Order;
  }

  /** The inside of a container and its closing bracket. */
  lemma PrintedContainer(nodes: set<Node>, v: Node, open: set<Node>, f: Flags, depth: nat,
                         failed: bool, ok: bool, base: seq<Byte>, text: seq<Byte>)
    requires Graph(nodes) && v in nodes && v.body.Container() && v !in open && Inside(nodes, Kids(v.body, f))
    requires PrintedInside(failed, ok, v.body, TreeAll(nodes, Kids(v.body, f), open + {v}, f), base, text, f, depth)
    ensures !ok ==> Printed(failed, false, Tree(nodes, v, open, f), base, text, f, depth)
    ensures ok ==>
              Printed(failed, true, Tree(nodes, v, open, f), base,
                      text + [if v.body.BArray? then RBRACKET else RBRACE], f, depth)
  {
    hide Kids, TreeAll, Tree, Graph, Dump, WellFormed, InsideText, Rebuild;
    TreeOfContainer(nodes, v, open, f);
    var r := TreeAll(nodes, Kids(v.body, f), open + {v}, f);
    if r.Some? && WellFormed(Rebuild(v.body, r.value, f)) {
      ContainerText(v.body, f, depth, r.value);
    }
  }

  lemma NoTree(nodes: set<Node>, v: Node, open: set<Node>, f: Flags)
    requires Graph(nodes) && v in nodes && v.body.Container() && v in open
    ensures Tree(nodes, v, open, f).None?
  {
    hide TreeAll, Graph;
  }

  /** do_dump: fails exactly when the value leads back to a node that is being printed or to an invalid
      string, and otherwise prints its tree.  The marks are as before, or, after a failure, at most
      fewer. */
  method DoDump(v: Node, f: Flags, depth: nat, out: Sink, ghost nodes: set<Node>) returns (ok: bool)
    requires Graph(nodes) && v in nodes
    modifies out, nodes`visited
    ensures Open(nodes) <= old(Open(nodes)) && (ok ==> Open(nodes) == old(Open(nodes)))
    ensures Failing(old(out.failed), out.failed, out.MayFail())
    ensures Printed(out.failed, ok, Tree(nodes, v, old(Open(nodes)), f), old(out.text), out.text, f, depth)
    decreases |nodes - Open(nodes)|, 1
  {
    hide Tree, Graph, Open, Printed, Sound;
    InsideOf(nodes, v);
    if v.body.Container() {
      ok := DumpContainer(v, f, depth, out, nodes);
    } else {
      TreeOfLeaf(nodes, v, Open(nodes), f);
      ok := DumpLeaf(v.body, f, depth, out);
    }
  }

  /** The value a leaf unfolds to. */
  function Leaf(b: Body): Option<Json>
    requires !b.Container()
  {
    match b
    case BNull => Some(Null)
    case BTrue => Some(True)
    case BFalse => Some(False)
    case BInteger(n) => Some(Integer(n))
    case BReal(text) => Some(Real(text))
    case BString(s) => if IsUtf8(s) then Some(String(s)) else None
  }

  lemma TreeOfLeaf(nodes: set<Node>, v: Node, open: set<Node>, f: Flags)
    requires Graph(nodes) && v in nodes && !v.body.Container()
    ensures Tree(nodes, v, open, f) == Leaf(v.body)
  {
    hide IsUtf8, TreeAll, Kids, Graph;
  }

  method DumpLeaf(b: Body, f: Flags, depth: nat, out: Sink) returns (ok: bool)
    requires !b.Container() && Sound(b)
    modifies out
    ensures Failing(old(out.failed), out.failed, out.MayFail())
    ensures Printed(out.failed, ok, Leaf(b), old(out.text), out.text, f, depth)
  {
    hide IsUtf8, JsonString.Quoted;
    match b
    case BNull => ok := out.Put(NULL_TEXT);
    case BTrue => ok := out.Put(TRUE_TEXT);
    case BFalse => ok := out.Put(FALSE_TEXT);
    case BInteger(n) => ok := out.Put(Decimal(n));
    case BReal(text) => ok := out.Put(text);
    case BString(s) => ok := DumpString(s, f.ascii, out);
  }

  /** An array or object: marked while its inside is printed, and in the end unmarked, which a failure
      on coming back to it does early. */
  method DumpContainer(v: Node, f: Flags, depth: nat, out: Sink, ghost nodes: set<Node>) returns (ok: bool)
    requires Graph(nodes) && v in nodes && v.body.Container()
    modifies out, nodes`visited
    ensures Open(nodes) <= old(Open(nodes)) && (ok ==> Open(nodes) == old(Open(nodes)))
    ensures Failing(old(out.failed), out.failed, out.MayFail())
    ensures Printed(out.failed, ok, Tree(nodes, v, old(Open(nodes)), f), old(out.text), out.text, f, depth)
    decreases |nodes - Open(nodes)|, 0
  {
    hide Kids, TreeAll, Tree, Graph, Printed, PrintedInside, Open, Sink.MayFail;
    InsideOf(nodes, v);
    ghost var open, base := Open(nodes), out.text;
    OpenIs(nodes, v);
    if v.visited {
      NoTree(nodes, v, open, f);
      Refused(Tree(nodes, v, open, f), out.failed, base, out.text, f, depth);
      Unmark(v, nodes);
      return false;
    }
    KidsInside(nodes, v.body, f);
    ok := DumpMarked(v, f, depth, out, nodes);
    PrintedContainer(nodes, v, open, f, depth, out.failed, ok, base, out.text);
    if ok {
      ok := out.Put([if v.body.BArray? then RBRACKET else RBRACE]);
      Overrun(Tree(nodes, v, open, f), ok, base, out.text, f, depth);
    }
  }

  method DumpMarked(v: Node, f: Flags, depth: nat, out: Sink, ghost nodes: set<Node>) returns (ok: bool)
    requires Graph(nodes) && v in nodes && v.body.Container() && Sound(v.body) && Inside(nodes, Kids(v.body, f))
    requires v !in Open(nodes)
    modifies out, nodes`visited
    ensures Open(nodes) <= old(Open(nodes)) && (ok ==> Open(nodes) == old(Open(nodes)))
    ensures Failing(old(out.failed), out.failed, out.MayFail())
    ensures PrintedInside(out.failed, ok, v.body, TreeAll(nodes, Kids(v.body, f), old(Open(nodes)) + {v}, f),
                          old(out.text), out.text, f, depth)
    decreases |nodes - Open(nodes)|, 0, 0
  {
    hide Kids, TreeAll, Graph, PrintedInside, Open, Sound, Inside;
    OneFewer(nodes, Open(nodes), v);
    Mark(v, nodes);
    ok := DumpInside(v.body, f, depth, out, nodes);
    Unmark(v, nodes);
  }

  method DumpInside(b: Body, f: Flags, depth: nat, out: Sink, ghost nodes: set<Node>) returns (ok: bool)
    requires Graph(nodes) && b.Container() && Sound(b) && Inside(nodes, Kids(b, f))
    modifies out, nodes`visited
    ensures Open(nodes) <= old(Open(nodes)) && (ok ==> Open(nodes) == old(Open(nodes)))
    ensures Failing(old(out.failed), out.failed, out.MayFail())
    ensures PrintedInside(out.failed, ok, b, TreeAll(nodes, Kids(b, f), old(Open(nodes)), f), old(out.text), out.text,
                          f, depth)
    decreases |nodes - Open(nodes)|, 3
  {
    hide Kids, TreeAll, Graph, PrintedInside, Open, Sound;
    if b.BArray? {
      ok := DumpArray(b.items, f, depth, out, nodes);
    } else {
      ok := DumpObject(b.members, f, depth, out, nodes);
    }
  }

  lemma OpenIs(nodes: set<Node>, v: Node)
    requires v in nodes
    ensures v in Open(nodes) <==> v.visited
  {
  }

  lemma Refused(t: Option<Json>, failed: bool, base: seq<Byte>, text: seq<Byte>, f: Flags, depth: nat)
    requires t.None?
    ensures Printed(failed, false, t, base, text, f, depth)
  {
  }

  lemma Overrun(t: Option<Json>, ok: bool, base: seq<Byte>, text: seq<Byte>, f: Flags, depth: nat)
    ensures Printed(true, ok, t, base, text, f, depth)
  {
  }

  /** Elements printed so far: the first `i` have trees, and if all have, and well-formed ones, the rest of the
      text is still to come. */
  ghost predicate ItemsSoFar(failed: bool, r: Option<seq<Json>>, vs: seq<Node>, i: nat, nodes: set<Node>,
                             open: set<Node>, base: seq<Byte>, text: seq<Byte>, f: Flags, depth: nat)
    requires Graph(nodes) && Inside(nodes, vs)
    requires i <= |vs| && |vs| > 0 && (r.Some? ==> |r.value| == |vs|)
    reads nodes`body
  {
    failed || ((forall j :: 0 <= j < i ==> Tree(nodes, vs[j], open, f).Some?) &&
               (r.Some? && AllWellFormed(r.value) ==> ItemsLeft(text, base, r.value, i, f, depth)))
  }

  lemma ItemsStart(r: Option<seq<Json>>, vs: seq<Node>, nodes: set<Node>, open: set<Node>,
                   failed: bool, base: seq<Byte>, f: Flags, depth: nat)
    requires Graph(nodes) && Inside(nodes, vs) && |vs| > 0 && (r.Some? ==> |r.value| == |vs|)
    ensures ItemsSoFar(failed, r, vs, 0, nodes, open, base, base, f, depth)
  {
    hide Graph, Tree, ItemsLeft, AllWellFormed;
    if r.Some? && AllWellFormed(r.value) {
      ItemsLeftStart(base, r.value, f, depth);
    }
  }

  /** Another element and what comes behind it have been printed. */
  lemma ItemsNext(r: Option<seq<Json>>, vs: seq<Node>, i: nat, nodes: set<Node>, open: set<Node>,
                  base: seq<Byte>, text: seq<Byte>, text': seq<Byte>, f: Flags, depth: nat)
    requires Graph(nodes) && Inside(nodes, vs) && i < |vs| && r == TreeAll(nodes, vs, open, f)
    requires ItemsSoFar(false, r, vs, i, nodes, open, base, text, f, depth)
    requires Printed(false, true, Tree(nodes, vs[i], open, f), text, text', f, depth + 1)
    ensures ItemsSoFar(false, r, vs, i + 1, nodes, open, base, text' + After(i == |vs| - 1, f, depth), f, depth)
  {
    hide Graph, Tree, TreeAll, ItemsLeft, AllWellFormed, WellFormed, Dump, After;
    TreeAllAt(nodes, vs, open, f);
    if r.Some? && AllWellFormed(r.value) {
      ItemsLeftNext(text, base, r.value, i, f, depth);
    }
  }

  /** An element could not be printed, so the whole has no trees. */
  lemma ItemsStop(r: Option<seq<Json>>, vs: seq<Node>, i: nat, nodes: set<Node>, open: set<Node>, failed: bool,
                  text: seq<Byte>, text': seq<Byte>, f: Flags, depth: nat)
    requires Graph(nodes) && Inside(nodes, vs) && i < |vs| && r == TreeAll(nodes, vs, open, f)
    requires Printed(failed, false, Tree(nodes, vs[i], open, f), text, text', f, depth + 1)
    ensures failed || r.None?
  {
    hide Graph, Tree, TreeAll, WellFormed, Dump;
    TreeAllAt(nodes, vs, open, f);
  }

  lemma ItemsEnd(r: Option<seq<Json>>, vs: seq<Node>, nodes: set<Node>, open: set<Node>,
                 failed: bool, base: seq<Byte>, text: seq<Byte>, f: Flags, depth: nat)
    requires Graph(nodes) && Inside(nodes, vs) && |vs| > 0 && r == TreeAll(nodes, vs, open, f)
    requires ItemsSoFar(failed, r, vs, |vs|, nodes, open, base + [LBRACKET] + Indent(f, depth + 1, false), text, f,
                        depth)
    ensures PrintedInside(failed, true, BArray(vs), r, base, text, f, depth)
  {
    hide Graph, Tree, TreeAll, DumpItems, Indent;
    TreeAllAt(nodes, vs, open, f);
  }

  lemma OverrunInside(b: Body, r: Option<seq<Json>>, ok: bool, base: seq<Byte>, text: seq<Byte>, f: Flags, depth: nat)
    requires b.Container()
    ensures PrintedInside(true, ok, b, r, base, text, f, depth)
  {
  }

  lemma EmptyArray(base: seq<Byte>, failed: bool, r: Option<seq<Json>>, f: Flags, depth: nat)
    requires r == Some([])
    ensures PrintedInside(failed, true, BArray([]), r, base, base + [LBRACKET], f, depth)
  {
  }

  method DumpArray(items: seq<Node>, f: Flags, depth: nat, out: Sink, ghost nodes: set<Node>) returns (ok: bool)
    requires Graph(nodes) && Inside(nodes, Kids(BArray(items), f))
    modifies out, nodes`visited
    ensures Open(nodes) <= old(Open(nodes)) && (ok ==> Open(nodes) == old(Open(nodes)))
    ensures Failing(old(out.failed), out.failed, out.MayFail())
    ensures PrintedInside(out.failed, ok, BArray(items), TreeAll(nodes, Kids(BArray(items), f), old(Open(nodes)), f),
                          old(out.text), out.text, f, depth)
    decreases |nodes - Open(nodes)|, 2
  {
    hide Graph, Indent, After, Tree, TreeAll, Printed, PrintedInside, Open, ItemsSoFar, Sound, Inside, Order;
    hide Sink.MayFail;
    ghost var open, base, b := Open(nodes), out.text, BArray(items);
    ghost var r := TreeAll(nodes, items, open, f);
    var n := |items|;
    ok := out.Put([LBRACKET]);
    OverrunInside(b, r, ok, base, out.text, f, depth);
    if n == 0 {
      NoTrees(nodes, open, f);
      EmptyArray(base, out.failed, r, f, depth);
      return;
    }
    if ok {
      ok := DumpIndent(f, depth + 1, false, out);
      OverrunInside(b, r, ok, base, out.text, f, depth);
    }
    if !ok {
      return;
    }
    ghost var start := out.text;
    ItemsStart(r, items, nodes, open, out.failed, start, f, depth);
    for i := 0 to n
      invariant Open(nodes) == open && Failing(old(out.failed), out.failed, out.MayFail())
      invariant ItemsSoFar(out.failed, r, items, i, nodes, open, start, out.text, f, depth)
    {
      ok := DumpItem(items, i, r, start, f, depth, out, nodes);
      if !ok {
        NotInside(b, r, out.failed, base, out.text, f, depth);
        return;
      }
    }
    ItemsEnd(r, items, nodes, open, out.failed, base, out.text, f, depth);
    ok := true;
  }

  /** One turn of the loop over the elements. */
  method DumpItem(items: seq<Node>, i: nat, ghost r: Option<seq<Json>>, ghost base: seq<Byte>,
                  f: Flags, depth: nat, out: Sink, ghost nodes: set<Node>)
    returns (ok: bool)
    requires Graph(nodes) && Inside(nodes, items) && i < |items| && r == TreeAll(nodes, items, Open(nodes), f)
    requires ItemsSoFar(out.failed, r, items, i, nodes, Open(nodes), base, out.text, f, depth)
    modifies out, nodes`visited
    ensures Open(nodes) <= old(Open(nodes)) && (ok ==> Open(nodes) == old(Open(nodes)))
    ensures Failing(old(out.failed), out.failed, out.MayFail())
    ensures ok ==> ItemsSoFar(out.failed, r, items, i + 1, nodes, Open(nodes), base, out.text, f, depth)
    ensures !ok ==> out.failed || r.None?
    decreases |nodes - Open(nodes)|, 2, 0
  {
    hide Graph, Indent, After, Tree, TreeAll, Printed, Open, ItemsSoFar;
    ghost var open, text := Open(nodes), out.text;
    ok := DoDump(items[i], f, depth + 1, out, nodes);
    if !ok {
      ItemsStop(r, items, i, nodes, open, out.failed, text, out.text, f, depth);
      return;
    }
    ghost var text' := out.text;
    ok := DumpAfter(i == |items| - 1, f, depth, out);
    OverrunItems(r, items, i + 1, nodes, open, base, out.text, f, depth);
    if !out.failed {
      ItemsNext(r, items, i, nodes, open, base, text, text', f, depth);
    }
  }

  lemma NoTrees(nodes: set<Node>, open: set<Node>, f: Flags)
    requires Graph(nodes)
    ensures TreeAll(nodes, [], open, f) == Some([])
  {
  }

  lemma OverrunItems(r: Option<seq<Json>>, vs: seq<Node>, i: nat, nodes: set<Node>, open: set<Node>,
                     base: seq<Byte>, text: seq<Byte>, f: Flags, depth: nat)
    requires Graph(nodes) && Inside(nodes, vs) && i <= |vs| && |vs| > 0 && (r.Some? ==> |r.value| == |vs|)
    ensures ItemsSoFar(true, r, vs, i, nodes, open, base, text, f, depth)
  {
  }

  /** Members printed so far, as ItemsSoFar. */
  ghost predicate MembersSoFar(failed: bool, r: Option<seq<Json>>, ms: seq<Member<Node>>, i: nat, nodes: set<Node>,
                               open: set<Node>, base: seq<Byte>, text: seq<Byte>, f: Flags, depth: nat)
    requires Graph(nodes) && Inside(nodes, Values(ms))
    requires i <= |ms| && |ms| > 0 && (r.Some? ==> |r.value| == |ms|)
    reads nodes`body
  {
    failed || ((forall j :: 0 <= j < i ==> Tree(nodes, Values(ms)[j], open, f).Some?) &&
               (r.Some? && MembersWellFormed(Zip(ms, r.value)) ==>
                MembersLeft(text, base, Zip(ms, r.value), i, f, depth)))
  }

  lemma MembersStart(r: Option<seq<Json>>, ms: seq<Member<Node>>, nodes: set<Node>, open: set<Node>,
                     failed: bool, base: seq<Byte>, f: Flags, depth: nat)
    requires Graph(nodes) && Inside(nodes, Values(ms)) && |ms| > 0 && (r.Some? ==> |r.value| == |ms|)
    ensures MembersSoFar(failed, r, ms, 0, nodes, open, base, base, f, depth)
  {
    hide Graph, Tree, MembersLeft, MembersWellFormed;
    if r.Some? && MembersWellFormed(Zip(ms, r.value)) {
      MembersLeftStart(base, Zip(ms, r.value), f, depth);
    }
  }

  /** Another key, its value, and what comes behind have been printed. */
  lemma MembersNext(r: Option<seq<Json>>, ms: seq<Member<Node>>, i: nat, nodes: set<Node>, open: set<Node>,
                    base: seq<Byte>, text: seq<Byte>, mid: seq<Byte>, text': seq<Byte>, f: Flags, depth: nat)
    requires Graph(nodes) && Inside(nodes, Values(ms)) && i < |ms| && r == TreeAll(nodes, Values(ms), open, f)
    requires MembersSoFar(false, r, ms, i, nodes, open, base, text, f, depth)
    requires mid == text + KeyText(ms[i].key, f)
    requires Printed(false, true, Tree(nodes, Values(ms)[i], open, f), mid, text', f, depth + 1)
    ensures MembersSoFar(false, r, ms, i + 1, nodes, open, base, text' + After(i == |ms| - 1, f, depth), f, depth)
  {
    hide Graph, Tree, TreeAll, MembersLeft, MembersWellFormed, WellFormed, Dump, After, KeyText;
    TreeAllAt(nodes, Values(ms), open, f);
    if r.Some? && MembersWellFormed(Zip(ms, r.value)) {
      MembersLeftNext(text, base, Zip(ms, r.value), i, f, depth);
    }
  }

  lemma MembersEnd(r: Option<seq<Json>>, members: seq<Member<Node>>, nodes: set<Node>, open: set<Node>,
                   failed: bool, base: seq<Byte>, text: seq<Byte>, f: Flags, depth: nat)
    requires var ms := Order(members, f);
             Graph(nodes) && Inside(nodes, Values(ms)) && |ms| > 0 && r == TreeAll(nodes, Values(ms), open, f) &&
             MembersSoFar(failed, r, ms, |ms|, nodes, open, base + [LBRACE] + Indent(f, depth + 1, false), text, f,
                          depth)
    ensures PrintedInside(failed, true, BObject(members), r, base, text, f, depth)
  {
    hide Graph, Tree, TreeAll, DumpMembers, Indent, Order;
    TreeAllAt(nodes, Values(Order(members, f)), open, f);
  }

  lemma EmptyObject(base: seq<Byte>, failed: bool, r: Option<seq<Json>>, members: seq<Member<Node>>, f: Flags,
                    depth: nat)
    requires r == Some([]) && |Order(members, f)| == 0
    ensures PrintedInside(failed, true, BObject(members), r, base, base + [LBRACE], f, depth)
  {
    hide Order;
  }

  lemma OverrunMembers(r: Option<seq<Json>>, ms: seq<Member<Node>>, i: nat, nodes: set<Node>, open: set<Node>,
                       base: seq<Byte>, text: seq<Byte>, f: Flags, depth: nat)
    requires Graph(nodes) && Inside(nodes, Values(ms)) && i <= |ms| && |ms| > 0 && (r.Some? ==> |r.value| == |ms|)
    ensures MembersSoFar(true, r, ms, i, nodes, open, base, text, f, depth)
  {
  }

  /** A key and the separator.  That the key could not be printed is not noticed: the separator comes behind what has
      been written of it. */
  method DumpKey(key: CString, f: Flags, out: Sink) returns (ok: bool)
    requires 0 !in key
    modifies out
    ensures Failing(old(out.failed), out.failed, out.MayFail())
    ensures !ok ==> out.failed
    ensures !out.failed ==> out.text == old(out.text) + KeyText(key, f)
  {
    hide JsonString.Shown, IsUtf8;
    var keyOk := DumpString(key, f.ascii, out);
    ok := out.Put(Separator(f));
  }

  method DumpObject(members: seq<Member<Node>>, f: Flags, depth: nat, out: Sink, ghost nodes: set<Node>)
    returns (ok: bool)
    requires Graph(nodes) && Inside(nodes, Kids(BObject(members), f)) && Sound(BObject(members))
    modifies out, nodes`visited
    ensures Open(nodes) <= old(Open(nodes)) && (ok ==> Open(nodes) == old(Open(nodes)))
    ensures Failing(old(out.failed), out.failed, out.MayFail())
    ensures PrintedInside(out.failed, ok, BObject(members),
                          TreeAll(nodes, Kids(BObject(members), f), old(Open(nodes)), f),
                          old(out.text), out.text, f, depth)
    decreases |nodes - Open(nodes)|, 2
  {
    hide Graph, Indent, After, Tree, TreeAll, Printed, PrintedInside, Open, MembersSoFar, KeyText, Order, Sound, Inside;
    hide Sink.MayFail;
    ghost var open, base, b := Open(nodes), out.text, BObject(members);
    var ms := Order(members, f);
    KeysSound(members, f);
    ghost var r := TreeAll(nodes, Values(ms), open, f);
    var n := |ms|;
    ok := out.Put([LBRACE]);
    OverrunInside(b, r, ok, base, out.text, f, depth);
    if n == 0 {
      NoTrees(nodes, open, f);
      EmptyObject(base, out.failed, r, members, f, depth);
      return;
    }
    if ok {
      ok := DumpIndent(f, depth + 1, false, out);
      OverrunInside(b, r, ok, base, out.text, f, depth);
    }
    if !ok {
      return;
    }
    ghost var start := out.text;
    MembersStart(r, ms, nodes, open, out.failed, start, f, depth);
    for i := 0 to n
      invariant Open(nodes) == open && Failing(old(out.failed), out.failed, out.MayFail())
      invariant MembersSoFar(out.failed, r, ms, i, nodes, open, start, out.text, f, depth)
    {
      ok := DumpMember(ms, i, r, start, f, depth, out, nodes);
      if !ok {
        NotInside(b, r, out.failed, base, out.text, f, depth);
        return;
      }
    }
    MembersEnd(r, members, nodes, open, out.failed, base, out.text, f, depth);
    ok := true;
  }

  lemma KeysSound(members: seq<Member<Node>>, f: Flags)
    requires Sound(BObject(members))
    ensures forall i :: 0 <= i < |Order(members, f)| ==> 0 !in Order(members, f)[i].key
  {
    hide Order;
    OrderSame(members, f);
    forall i | 0 <= i < |Order(members, f)|
      ensures 0 !in Order(members, f)[i].key
    {
      var j := ValuesSame(Order(members, f), members, i);
    }
  }

  lemma NotInside(b: Body, r: Option<seq<Json>>, failed: bool, base: seq<Byte>, text: seq<Byte>, f: Flags, depth: nat)
    requires b.Container() && (failed || r.None?)
    ensures PrintedInside(failed, false, b, r, base, text, f, depth)
  {
  }

  /** One turn of the loop over the members. */
  method DumpMember(ms: seq<Member<Node>>, i: nat, ghost r: Option<seq<Json>>, ghost base: seq<Byte>,
                    f: Flags, depth: nat, out: Sink, ghost nodes: set<Node>)
    returns (ok: bool)
    requires Graph(nodes) && Inside(nodes, Values(ms)) && i < |ms| && 0 !in ms[i].key
    requires r == TreeAll(nodes, Values(ms), Open(nodes), f)
    requires MembersSoFar(out.failed, r, ms, i, nodes, Open(nodes), base, out.text, f, depth)
    modifies out, nodes`visited
    ensures Open(nodes) <= old(Open(nodes)) && (ok ==> Open(nodes) == old(Open(nodes)))
    ensures Failing(old(out.failed), out.failed, out.MayFail())
    ensures ok ==> MembersSoFar(out.failed, r, ms, i + 1, nodes, Open(nodes), base, out.text, f, depth)
    ensures !ok ==> out.failed || r.None?
    decreases |nodes - Open(nodes)|, 2, 0
  {
    hide Graph, Indent, After, Tree, TreeAll, Printed, Open, MembersSoFar, KeyText;
    ghost var open, text := Open(nodes), out.text;
    ok := DumpKey(ms[i].key, f, out);
    if !ok {
      return;
    }
    assert ms[i].value == Values(ms)[i];
    ghost var mid := out.text;
    ok := DoDump(ms[i].value, f, depth + 1, out, nodes);
    if !ok {
      ItemsStop(r, Values(ms), i, nodes, open, out.failed, mid, out.text, f, depth);
      return;
    }
    ghost var text' := out.text;
    ok := DumpAfter(i == |ms| - 1, f, depth, out);
    OverrunMembers(r, ms, i + 1, nodes, open, base, out.text, f, depth);
    if !out.failed {
      MembersNext(r, ms, i, nodes, open, base, text, mid, text', f, depth);
    }
  }
}
