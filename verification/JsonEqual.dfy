/** json_equal and json_deep_copy on value graphs. */
module JsonEqual {
  import opened Bytes
  import opened Utf8
  import opened Wrappers
  import opened JsonText
  import opened JsonParse
  import opened JsonGraph
  import opened JsonDumps

  /** What a value means; only a value that leads into no cycle means anything. */
  ghost predicate Means(nodes: set<Node>, v: Node, val: Value)
    reads nodes`body
    decreases val
  {
    v in nodes &&
    match val
    case VNull => v.body.BNull?
    case VTrue => v.body.BTrue?
    case VFalse => v.body.BFalse?
    case VInteger(n) => v.body == BInteger(n)
    case VReal(text) => v.body == BReal(text)
    case VString(s) => v.body == BString(s)
    case VArray(items) =>
      v.body.BArray? && |v.body.items| == |items| &&
      forall i :: 0 <= i < |items| ==> Means(nodes, v.body.items[i], items[i])
    case VObject(members) =>
      v.body.BObject? && Unique(v.body.members) && Keys(v.body.members) == members.Keys &&
      forall i :: 0 <= i < |v.body.members| ==>
        v.body.members[i].key in members && Means(nodes, v.body.members[i].value, members[v.body.members[i].key])
  }

  /** Null, true and false are single objects. */
  ghost predicate Singletons(nodes: set<Node>)
    reads nodes`body
  {
    forall a, b :: a in nodes && b in nodes && a.body == b.body ==>
      (a.body.BNull? || a.body.BTrue? || a.body.BFalse? ==> a == b)
  }

  // ---- facts about meanings

  /** The value that stands for a member of the object. */
  lemma MemberAt(nodes: set<Node>, v: Node, members: map<CString, Value>, i: nat)
    requires Means(nodes, v, VObject(members)) && i < |v.body.members|
    ensures v.body.members[i].key in members && members[v.body.members[i].key] < VObject(members)
    ensures Means(nodes, v.body.members[i].value, members[v.body.members[i].key])
  {
  }

  lemma MemberOf(nodes: set<Node>, v: Node, members: map<CString, Value>, k: CString) returns (i: nat)
    requires Means(nodes, v, VObject(members)) && k in members
    ensures i < |v.body.members| && v.body.members[i].key == k
  {
    assert k in Keys(v.body.members);
    i :| 0 <= i < |v.body.members| && v.body.members[i].key == k;
  }

  /** A value means at most one thing. */
  lemma {:induction false} MeansOne(nodes: set<Node>, v: Node, a: Value, b: Value)
    requires Means(nodes, v, a) && Means(nodes, v, b)
    ensures a == b
    decreases a
  {
    match a
    case VArray(items) =>
      forall i | 0 <= i < |items|
        ensures items[i] == b.items[i]
      {
        MeansOne(nodes, v.body.items[i], items[i], b.items[i]);
      }
    case VObject(members) =>
      forall k | k in members
        ensures members[k] == b.members[k]
      {
        var i := MemberOf(nodes, v, members, k);
        MemberAt(nodes, v, members, i);
        MemberAt(nodes, v, b.members, i);
        MeansOne(nodes, v.body.members[i].value, members[k], b.members[k]);
      }
      assert members == b.members;
    case _ =>
  }

  /** What a child means is part of what the value means. */
  lemma ChildMeans(nodes: set<Node>, v: Node, val: Value, c: Node) returns (w: Value)
    requires Means(nodes, v, val) && c in Children(v.body)
    ensures Means(nodes, c, w) && w < val
  {
    var i :| 0 <= i < |Children(v.body)| && Children(v.body)[i] == c;
    match val
    case VArray(items) => w := items[i];
    case VObject(members) =>
      MemberAt(nodes, v, members, i);
      w := members[v.body.members[i].key];
    case _ =>
  }

  /** Along a path, meanings get smaller, so a value that means something leads into no cycle. */
  lemma {:induction false} MeansNoCycle(nodes: set<Node>, v: Node, val: Value, p: seq<Node>) returns (w: Value)
    requires Means(nodes, v, val) && PathFrom(nodes, v, p) && |p| > 1
    ensures Means(nodes, p[|p| - 1], w) && w < val
    ensures p[|p| - 1] != v
    decreases |p|
  {
    hide Means, Children;
    w := ChildMeans(nodes, v, val, p[1]);
    if |p| > 2 {
      PathTail(nodes, p);
      w := MeansNoCycle(nodes, p[1], w, p[1..]);
    }
    if p[|p| - 1] == v {
      MeansOne(nodes, v, w, val);
    }
  }

  // ---- a value means something exactly if it leads into no cycle

  /** A path from `v` that comes back to a node it has been through. */
  ghost predicate IntoCycle(nodes: set<Node>, v: Node)
    reads nodes`body
  {
    exists p :: PathFrom(nodes, v, p) && Returns(p, {})
  }

  /** The last node of a path is one of `open`, or has been on the path before. */
  ghost predicate Returns(p: seq<Node>, open: set<Node>)
    requires |p| > 0
  {
    p[|p| - 1] in open || p[|p| - 1] in p[..|p| - 1]
  }

  lemma {:induction false} MeansNoReturn(nodes: set<Node>, v: Node, val: Value, p: seq<Node>)
    requires Means(nodes, v, val) && PathFrom(nodes, v, p)
    ensures !Returns(p, {})
    decreases |p|
  {
    hide Means, Children;
    if |p| > 1 {
      var w := ChildMeans(nodes, v, val, p[1]);
      PathTail(nodes, p);
      MeansNoReturn(nodes, p[1], w, p[1..]);
      var u := MeansNoCycle(nodes, v, val, p);
      assert p[..|p| - 1] == [v] + p[1..][..|p| - 2];
    }
  }

  ghost predicate Meaningful(nodes: set<Node>, v: Node)
    reads nodes`body
  {
    exists val :: Means(nodes, v, val)
  }

  /** What each of several values means. */
  lemma {:induction false} Meanings(nodes: set<Node>, vs: seq<Node>) returns (ws: seq<Value>)
    requires forall i :: 0 <= i < |vs| ==> Meaningful(nodes, vs[i])
    ensures |ws| == |vs| && forall i :: 0 <= i < |vs| ==> Means(nodes, vs[i], ws[i])
  {
    hide Means;
    if |vs| == 0 {
      ws := [];
    } else {
      var n := |vs| - 1;
      ws := Meanings(nodes, vs[..n]);
      var w :| Means(nodes, vs[n], w);
      ws := ws + [w];
    }
  }

  /** The map with the given values. */
  lemma {:induction false} MapWith(ms: seq<Member<Node>>, ws: seq<Value>) returns (m: map<CString, Value>)
    requires Unique(ms) && |ws| == |ms|
    ensures m.Keys == Keys(ms) && forall i :: 0 <= i < |ms| ==> ms[i].key in m && m[ms[i].key] == ws[i]
    decreases |ms|
  {
    hide Keys;
    if |ms| == 0 {
      NoKeys(ms);
      m := map[];
    } else {
      UniqueTail(ms);
      var rest := MapWith(ms[1..], ws[1..]);
      m := rest[ms[0].key := ws[0]];
      forall i | 0 <= i < |ms|
        ensures ms[i].key in m && m[ms[i].key] == ws[i]
      {
        assert i > 0 ==> ms[1..][i - 1] == ms[i];
      }
    }
  }

  /** A container means something if all its children do. */
  lemma ContainerMeans(nodes: set<Node>, v: Node)
    requires v in nodes && Sound(v.body) && v.body.Container()
    requires forall i :: 0 <= i < |Children(v.body)| ==> Meaningful(nodes, Children(v.body)[i])
    ensures Meaningful(nodes, v)
  {
    hide Keys, Meaningful;
    var ws := Meanings(nodes, Children(v.body));
    if v.body.BArray? {
      MeansIsMeaningful(nodes, v, VArray(ws));
    } else {
      var m := MapWith(v.body.members, ws);
      MembersMean(nodes, v, ws, m);
      MeansIsMeaningful(nodes, v, VObject(m));
    }
  }

  lemma MeansIsMeaningful(nodes: set<Node>, v: Node, val: Value)
    requires Means(nodes, v, val)
    ensures Meaningful(nodes, v)
  {
  }

  lemma MembersMean(nodes: set<Node>, v: Node, ws: seq<Value>, m: map<CString, Value>)
    requires v in nodes && v.body.BObject? && Unique(v.body.members) && |ws| == |v.body.members|
    requires forall i :: 0 <= i < |ws| ==> Means(nodes, Values(v.body.members)[i], ws[i])
    requires m.Keys == Keys(v.body.members)
    requires forall i :: 0 <= i < |ws| ==> v.body.members[i].key in m && m[v.body.members[i].key] == ws[i]
    ensures Means(nodes, v, VObject(m))
  {
    hide Keys;
    forall i | 0 <= i < |ws|
      ensures Means(nodes, v.body.members[i].value, m[v.body.members[i].key])
    {
      assert Values(v.body.members)[i] == v.body.members[i].value;
    }
  }

  /** Where no path comes back, there is a meaning. */
  lemma {:induction false} NoReturnMeans(nodes: set<Node>, v: Node, open: set<Node>)
    requires Graph(nodes) && v in nodes
    requires forall p :: PathFrom(nodes, v, p) ==> !Returns(p, open)
    ensures Meaningful(nodes, v)
    decreases |nodes - open|
  {
    hide Graph, Children, Means, Sound, Returns;
    InsideOf(nodes, v);
    if v.body.Container() {
      NotOpen(nodes, v, open);
      OneFewer(nodes, open, v);
      var vs := Children(v.body);
      forall i | 0 <= i < |vs|
        ensures Meaningful(nodes, vs[i])
      {
        ChildNoReturn(nodes, v, vs[i], open);
        NoReturnMeans(nodes, vs[i], open + {v});
      }
      ContainerMeans(nodes, v);
    } else {
      LeafMeans(nodes, v);
    }
  }

  lemma NotOpen(nodes: set<Node>, v: Node, open: set<Node>)
    requires v in nodes && forall p :: PathFrom(nodes, v, p) ==> !Returns(p, open)
    ensures v !in open
  {
    assert PathFrom(nodes, v, [v]);
  }

  lemma ChildNoReturn(nodes: set<Node>, v: Node, c: Node, open: set<Node>)
    requires v in nodes && c in Children(v.body)
    requires forall p :: PathFrom(nodes, v, p) ==> !Returns(p, open)
    ensures forall q :: PathFrom(nodes, c, q) ==> !Returns(q, open + {v})
  {
    hide Children;
    forall q | PathFrom(nodes, c, q)
      ensures !Returns(q, open + {v})
    {
      PathCons(nodes, v, q);
      var p := [v] + q;
      assert !Returns(p, open);
      assert p[..|p| - 1] == [v] + q[..|q| - 1];
    }
  }

  lemma LeafMeans(nodes: set<Node>, v: Node)
    requires v in nodes && !v.body.Container()
    ensures Meaningful(nodes, v)
  {
    var val :=
      match v.body
      case BNull => VNull
      case BTrue => VTrue
      case BFalse => VFalse
      case BInteger(n) => VInteger(n)
      case BReal(text) => VReal(text)
      case BString(s) => VString(s)
      case _ => VNull;
    assert Means(nodes, v, val);
  }

  /** A value means something exactly if it leads into no cycle; sharing does no harm. */
  lemma MeansExactly(nodes: set<Node>, v: Node)
    requires Graph(nodes) && v in nodes
    ensures Meaningful(nodes, v) <==> !IntoCycle(nodes, v)
  {
    hide Graph, Returns, Path, Inside, Children;
    if Meaningful(nodes, v) {
      var val :| Means(nodes, v, val);
      forall p | PathFrom(nodes, v, p)
        ensures !Returns(p, {})
      {
        MeansNoReturn(nodes, v, val, p);
      }
    } else if !IntoCycle(nodes, v) {
      NoReturnMeans(nodes, v, {});
    }
  }

  /** What the printer takes for the tree of a value is what the value means. */
  lemma {:induction false} TreeMeans(nodes: set<Node>, v: Node, open: set<Node>)
    requires Graph(nodes) && v in nodes && Tree(nodes, v, open, UNSORTED).Some?
    ensures Means(nodes, v, ValueOf(Tree(nodes, v, open, UNSORTED).value))
    decreases |nodes - open|
  {
    hide TreeAll, Graph, Tree, Means, ValueOf, Sound, Rebuild, Kids;
    InsideOf(nodes, v);
    if v.body.Container() {
      TreeNotOpen(nodes, v, open);
      TreeOfContainer(nodes, v, open, UNSORTED);
      OneFewer(nodes, open, v);
      var vs := Kids(v.body, UNSORTED);
      var ts := TreeAll(nodes, vs, open + {v}, UNSORTED).value;
      TreeAllAt(nodes, vs, open + {v}, UNSORTED);
      forall i | 0 <= i < |vs|
        ensures Means(nodes, vs[i], ValueOf(ts[i]))
      {
        TreeMeans(nodes, vs[i], open + {v});
      }
      RebuildMeans(nodes, v, ts);
    } else {
      LeafTreeMeans(nodes, v, open);
    }
  }

  lemma LeafTreeMeans(nodes: set<Node>, v: Node, open: set<Node>)
    requires Graph(nodes) && v in nodes && !v.body.Container() && Tree(nodes, v, open, UNSORTED).Some?
    ensures Means(nodes, v, ValueOf(Tree(nodes, v, open, UNSORTED).value))
  {
    hide TreeAll, Graph, Sound, IsUtf8;
  }

  lemma TreeNotOpen(nodes: set<Node>, v: Node, open: set<Node>)
    requires Graph(nodes) && v in nodes && v.body.Container() && Tree(nodes, v, open, UNSORTED).Some?
    ensures v !in open
  {
    hide TreeAll, Graph;
  }

  lemma {:induction false} ValuesOfAt(ts: seq<Json>)
    ensures |ValuesOf(ts)| == |ts| && forall i :: 0 <= i < |ts| ==> ValuesOf(ts)[i] == ValueOf(ts[i])
    decreases |ts|
  {
    hide ValueOf;
    if |ts| > 0 {
      ValuesOfAt(ts[1..]);
    }
  }

  lemma MapOfAt(zs: seq<Member<Json>>)
    requires Unique(zs)
    ensures MapOf(zs).Keys == Keys(zs)
    ensures forall i :: 0 <= i < |zs| ==> zs[i].key in MapOf(zs) && MapOf(zs)[zs[i].key] == ValueOf(zs[i].value)
  {
    hide ValueOf, MapOf, Keys;
    MapOfKeys(zs);
    forall i | 0 <= i < |zs|
      ensures zs[i].key in MapOf(zs) && MapOf(zs)[zs[i].key] == ValueOf(zs[i].value)
    {
      MapOfAtIndex(zs, i);
    }
  }

  lemma {:induction false} MapOfAtIndex(zs: seq<Member<Json>>, i: nat)
    requires Unique(zs) && i < |zs|
    ensures zs[i].key in MapOf(zs) && MapOf(zs)[zs[i].key] == ValueOf(zs[i].value)
    decreases i
  {
    hide ValueOf;
    if i > 0 {
      MapOfAtIndex(zs[1..], i - 1);
    }
  }

  lemma RebuildMeans(nodes: set<Node>, v: Node, ts: seq<Json>)
    requires v in nodes && v.body.Container() && Sound(v.body) && |ts| == |Kids(v.body, UNSORTED)|
    requires forall i :: 0 <= i < |ts| ==> Means(nodes, Kids(v.body, UNSORTED)[i], ValueOf(ts[i]))
    ensures Means(nodes, v, ValueOf(Rebuild(v.body, ts, UNSORTED)))
  {
    hide ValueOf;
    if v.body.BArray? {
      ValuesOfAt(ts);
      assert Array(ts).items == ts;
      ArrayMeans(nodes, v, ts);
    } else {
      ObjectMeans(nodes, v, ts);
    }
  }

  lemma ArrayMeans(nodes: set<Node>, v: Node, ts: seq<Json>)
    requires v in nodes && v.body.BArray? && |ts| == |v.body.items|
    requires forall i :: 0 <= i < |ts| ==> Means(nodes, v.body.items[i], ValueOf(ts[i]))
    ensures Means(nodes, v, ValueOf(Array(ts)))
  {
    ValuesOfAt(ts);
  }

  lemma ObjectMeans(nodes: set<Node>, v: Node, ts: seq<Json>)
    requires v in nodes && v.body.BObject? && Sound(v.body) && |ts| == |v.body.members|
    requires forall i :: 0 <= i < |ts| ==> Means(nodes, Values(v.body.members)[i], ValueOf(ts[i]))
    ensures Means(nodes, v, ValueOf(Object(Zip(v.body.members, ts))))
  {
    hide Keys, MapOf;
    var zs := Zip(v.body.members, ts);
    ZipKeys(v.body.members, ts);
    MapOfAt(zs);
    forall i | 0 <= i < |ts|
      ensures v.body.members[i].key in MapOf(zs)
      ensures Means(nodes, v.body.members[i].value, MapOf(zs)[v.body.members[i].key])
    {
      assert Values(v.body.members)[i] == v.body.members[i].value;
      assert zs[i].key in MapOf(zs);
    }
  }

  lemma ZipKeys(ms: seq<Member<Node>>, ts: seq<Json>)
    requires Unique(ms) && |ts| == |ms|
    ensures Unique(Zip(ms, ts)) && Keys(Zip(ms, ts)) == Keys(ms)
  {
    var zs := Zip(ms, ts);
    assert forall i :: 0 <= i < |ms| ==> zs[i].key == ms[i].key;
  }

  // ---- json_equal

  /** Different keys: as many of them as members. */
  lemma {:induction false} UniqueSize<V>(ms: seq<Member<V>>)
    requires Unique(ms)
    ensures |Keys(ms)| == |ms|
    decreases |ms|
  {
    hide Keys, Unique;
    if |ms| == 0 {
      NoKeys(ms);
    } else {
      UniqueTail(ms);
      UniqueSize(ms[1..]);
    }
  }

  lemma NoKeys<V>(ms: seq<Member<V>>)
    requires |ms| == 0
    ensures Keys(ms) == {}
  {
  }

  lemma UniqueTail<V>(ms: seq<Member<V>>)
    requires Unique(ms) && |ms| > 0
    ensures Unique(ms[1..]) && ms[0].key !in Keys(ms[1..])
    ensures Keys(ms) == Keys(ms[1..]) + {ms[0].key}
  {
    KeysTail(ms);
  }

  lemma NotFound<V>(ms: seq<Member<V>>, key: CString)
    requires Find(ms, key) == |ms|
    ensures key !in Keys(ms)
  {
  }

  lemma MapSize(m: map<CString, Value>)
    ensures |m| == |m.Keys|
  {
  }

  lemma SubsetSameSize<T>(a: set<T>, b: set<T>)
    requires a <= b && |a| == |b|
    ensures a == b
  {
    assert b == a + (b - a);
    assert |b - a| == 0;
  }

  /** Equal sizes and every member of one in the other: that is equality. */
  lemma IncludedIsEqual(a: map<CString, Value>, b: map<CString, Value>)
    requires |a| == |b| && forall k :: k in a ==> k in b && a[k] == b[k]
    ensures a == b
  {
    MapSize(a);
    MapSize(b);
    SubsetSameSize(a.Keys, b.Keys);
  }

  predicate SameType(a: Body, b: Body) {
    || (a.BNull? && b.BNull?) || (a.BTrue? && b.BTrue?) || (a.BFalse? && b.BFalse?)
    || (a.BInteger? && b.BInteger?) || (a.BReal? && b.BReal?) || (a.BString? && b.BString?)
    || (a.BArray? && b.BArray?) || (a.BObject? && b.BObject?)
  }

  /** json_equal decides whether two values mean the same. */
  method Equal(a: Node, b: Node, ghost nodes: set<Node>, ghost va: Value, ghost vb: Value) returns (r: bool)
    requires Singletons(nodes) && Means(nodes, a, va) && Means(nodes, b, vb)
    ensures r <==> va == vb
    decreases va, 1
  {
    if !SameType(a.body, b.body) {
      return false;
    }
    if a == b {
      MeansOne(nodes, a, va, vb);
      return true;
    }
    match a.body
    case BObject(_) => r := ObjectEqual(a, b, nodes, va, vb);
    case BArray(_) => r := ArrayEqual(a, b, nodes, va, vb);
    case BString(s) => r := s == b.body.s;
    case BInteger(n) => r := n == b.body.n;
    case BReal(text) => r := text == b.body.text;
    case _ => r := false;
  }

  method ArrayEqual(a: Node, b: Node, ghost nodes: set<Node>, ghost va: Value, ghost vb: Value) returns (r: bool)
    requires Singletons(nodes) && Means(nodes, a, va) && Means(nodes, b, vb) && a.body.BArray? && b.body.BArray?
    ensures r <==> va == vb
    decreases va, 0
  {
    hide Singletons;
    var size := |a.body.items|;
    if size != |b.body.items| {
      return false;
    }
    for i := 0 to size
      invariant forall j :: 0 <= j < i ==> va.items[j] == vb.items[j]
    {
      var e := Equal(a.body.items[i], b.body.items[i], nodes, va.items[i], vb.items[i]);
      if !e {
        return false;
      }
    }
    r := true;
  }

  method ObjectEqual(a: Node, b: Node, ghost nodes: set<Node>, ghost va: Value, ghost vb: Value) returns (r: bool)
    requires Singletons(nodes) && Means(nodes, a, va) && Means(nodes, b, vb) && a.body.BObject? && b.body.BObject?
    ensures r <==> va == vb
    decreases va, 0
  {
    hide Singletons, Means, Unique, Keys;
    ghost var ma := ObjectOf(nodes, a, va);
    ghost var mb := ObjectOf(nodes, b, vb);
    var ms := a.body.members;
    if |ms| != |b.body.members| {
      return false;
    }
    for i := 0 to |ms|
      invariant forall j :: 0 <= j < i ==> ms[j].key in ma && ms[j].key in mb && ma[ms[j].key] == mb[ms[j].key]
    {
      MemberAt(nodes, a, ma, i);
      var j := Find(b.body.members, ms[i].key);
      if j == |b.body.members| {
        NotFound(b.body.members, ms[i].key);
        return false;
      }
      MemberAt(nodes, b, mb, j);
      var e := Equal(ms[i].value, b.body.members[j].value, nodes, ma[ms[i].key], mb[ms[i].key]);
      if !e {
        return false;
      }
    }
    forall k | k in ma
      ensures k in mb && ma[k] == mb[k]
    {
      var i := MemberOf(nodes, a, ma, k);
    }
    IncludedIsEqual(ma, mb);
    r := true;
  }

  /** The members an object means, as many as it has. */
  lemma ObjectOf(nodes: set<Node>, v: Node, val: Value) returns (m: map<CString, Value>)
    requires Means(nodes, v, val) && v.body.BObject?
    ensures val == VObject(m) && Keys(v.body.members) == m.Keys && |m| == |v.body.members|
  {
    m := val.members;
    UniqueSize(v.body.members);
    MapSize(m);
  }

  // ---- json_deep_copy

  predicate Simple(b: Body) { b.BNull? || b.BTrue? || b.BFalse? }

  /** What is in the new values is new, or one of the simple values. */
  ghost predicate Apart(nodes: set<Node>, made: set<Node>)
    reads nodes`body, made`body
  {
    forall n :: n in made ==>
      !Simple(n.body) && forall i :: 0 <= i < |Children(n.body)| ==> OwnPart(nodes, made, Children(n.body)[i])
  }

  ghost predicate OwnPart(nodes: set<Node>, made: set<Node>, c: Node)
    reads nodes`body
  {
    c in made || (c in nodes && Simple(c.body))
  }

  lemma {:induction false} MeansMore(nodes: set<Node>, more: set<Node>, v: Node, val: Value)
    requires Means(nodes, v, val) && nodes <= more
    ensures Means(more, v, val)
    decreases val
  {
    match val
    case VArray(items) =>
      forall i | 0 <= i < |items|
        ensures Means(more, v.body.items[i], items[i])
      {
        MeansMore(nodes, more, v.body.items[i], items[i]);
      }
    case VObject(members) =>
      forall i | 0 <= i < |v.body.members|
        ensures Means(more, v.body.members[i].value, members[v.body.members[i].key])
      {
        MemberAt(nodes, v, members, i);
        MeansMore(nodes, more, v.body.members[i].value, members[v.body.members[i].key]);
      }
    case _ =>
  }

  /** A deep copy means the same, and shares nothing but simple values with anything there was before. */
  method DeepCopy(v: Node, ghost nodes: set<Node>, ghost val: Value) returns (c: Node, ghost made: set<Node>)
    requires Means(nodes, v, val)
    ensures fresh(made) && Means(nodes + made, c, val)
    ensures OwnPart(nodes, made, c) && Apart(nodes, made)
    decreases val, 1
  {
    match v.body
    case BObject(_) => c, made := CopyObject(v, nodes, val);
    case BArray(_) => c, made := CopyArray(v, nodes, val);
    case BNull => c, made := v, {};
    case BTrue => c, made := v, {};
    case BFalse => c, made := v, {};
    case _ =>
      c := new Node(v.body);
      made := {c};
  }

  /** The copies made so far. */
  ghost predicate Copies(nodes: set<Node>, made: set<Node>, copies: seq<Node>, vals: seq<Value>)
    reads nodes`body, made`body
  {
    |copies| == |vals| &&
    forall j :: 0 <= j < |copies| ==> Means(nodes + made, copies[j], vals[j]) && OwnPart(nodes, made, copies[j])
  }

  /** One more copy, with the values made for it. */
  lemma CopiesNext(nodes: set<Node>, made: set<Node>, more: set<Node>, copies: seq<Node>, vals: seq<Value>, k: Node,
                   val: Value)
    requires Copies(nodes, made, copies, vals) && Apart(nodes, made)
    requires Means(nodes + more, k, val) && OwnPart(nodes, more, k) && Apart(nodes, more)
    ensures Copies(nodes, made + more, copies + [k], vals + [val]) && Apart(nodes, made + more)
  {
    hide Means, Children;
    forall j | 0 <= j < |copies|
      ensures Means(nodes + (made + more), copies[j], vals[j])
    {
      MeansMore(nodes + made, nodes + (made + more), copies[j], vals[j]);
    }
    MeansMore(nodes + more, nodes + (made + more), k, val);
  }

  /** The new container itself joins what was made. */
  lemma CopiesIn(nodes: set<Node>, made: set<Node>, copies: seq<Node>, vals: seq<Value>, c: Node)
    requires Copies(nodes, made, copies, vals) && Apart(nodes, made) && Children(c.body) == copies && c.body.Container()
    ensures Apart(nodes, made + {c})
    ensures forall j :: 0 <= j < |copies| ==> Means(nodes + (made + {c}), copies[j], vals[j])
  {
    hide Means, Children;
    forall j | 0 <= j < |copies|
      ensures Means(nodes + (made + {c}), copies[j], vals[j])
    {
      MeansMore(nodes + made, nodes + (made + {c}), copies[j], vals[j]);
    }
  }

  /** json_array_deep_copy */
  method CopyArray(v: Node, ghost nodes: set<Node>, ghost val: Value) returns (c: Node, ghost made: set<Node>)
    requires Means(nodes, v, val) && v.body.BArray?
    ensures fresh(made) && Means(nodes + made, c, val)
    ensures OwnPart(nodes, made, c) && Apart(nodes, made)
    decreases val, 0
  {
    hide Copies, Apart, OwnPart, Means;
    c := new Node(BArray([]));
    made := {};
    var items := v.body.items;
    ArrayIs(nodes, v, val);
    NoCopies(nodes);
    for i := 0 to |items|
      invariant fresh(c) && fresh(made) && c !in made && v.body == BArray(items)
      invariant c.body.BArray? && |c.body.items| == i
      invariant Copies(nodes, made, c.body.items, val.items[..i]) && Apart(nodes, made)
    {
      ArrayIs(nodes, v, val);
      var k, more := DeepCopy(items[i], nodes, val.items[i]);
      CopiesNext(nodes, made, more, c.body.items, val.items[..i], k, val.items[i]);
      assert val.items[..i + 1] == val.items[..i] + [val.items[i]];
      c.body := BArray(c.body.items + [k]);
      made := made + more;
    }
    assert val.items[..|items|] == val.items;
    CopiesIn(nodes, made, c.body.items, val.items, c);
    made := made + {c};
    ArrayCopied(nodes, made, c, val);
  }

  lemma ArrayIs(nodes: set<Node>, v: Node, val: Value)
    requires Means(nodes, v, val) && v.body.BArray?
    ensures val.VArray? && |val.items| == |v.body.items|
    ensures forall i :: 0 <= i < |val.items| ==> val.items[i] < val && Means(nodes, v.body.items[i], val.items[i])
  {
  }

  lemma NoCopies(nodes: set<Node>)
    ensures Copies(nodes, {}, [], []) && Apart(nodes, {})
  {
  }

  lemma ArrayCopied(nodes: set<Node>, made: set<Node>, c: Node, val: Value)
    requires c in made && c.body.BArray? && val.VArray? && |val.items| == |c.body.items|
    requires forall j :: 0 <= j < |val.items| ==> Means(nodes + made, c.body.items[j], val.items[j])
    ensures Means(nodes + made, c, val) && OwnPart(nodes, made, c)
  {
  }

  /** What the members of an object mean, one by one. */
  ghost function MemberValues(ms: seq<Member<Node>>, m: map<CString, Value>): (r: seq<Value>)
    requires forall i :: 0 <= i < |ms| ==> ms[i].key in m
    ensures |r| == |ms|
  {
    seq(|ms|, i requires 0 <= i < |ms| => m[ms[i].key])
  }

  /** json_object_deep_copy: the keys are put in iteration order, and get their serial numbers in it. */
  method CopyObject(v: Node, ghost nodes: set<Node>, ghost val: Value) returns (c: Node, ghost made: set<Node>)
    requires Means(nodes, v, val) && v.body.BObject?
    ensures fresh(made) && Means(nodes + made, c, val)
    ensures OwnPart(nodes, made, c) && Apart(nodes, made)
    decreases val, 0
  {
    hide Copies, Apart, OwnPart, Means, Unique, Keys, SameKeys, Values;
    c := new Node(BObject([]));
    made := {};
    var ms := v.body.members;
    ghost var m := ObjectOf(nodes, v, val);
    AllMembers(nodes, v, m);
    ghost var vals := MemberValues(ms, m);
    NoCopies(nodes);
    NoKeysYet(ms);
    for i := 0 to |ms|
      invariant fresh(c) && fresh(made) && c !in made && v.body == BObject(ms) && Means(nodes, v, val)
      invariant c.body.BObject? && SameKeys(c.body.members, ms[..i])
      invariant Copies(nodes, made, Values(c.body.members), vals[..i]) && Apart(nodes, made)
    {
      MemberAt(nodes, v, m, i);
      var k, more := DeepCopy(ms[i].value, nodes, m[ms[i].key]);
      MemberCopied(nodes, made, more, c.body.members, Member(ms[i].key, i, k), ms, i, vals);
      c.body := BObject(c.body.members + [Member(ms[i].key, i, k)]);
      made := made + more;
    }
    assert vals[..|ms|] == vals && ms[..|ms|] == ms;
    ChildrenAre(c.body);
    SameCount(c.body.members, ms);
    CopiesIn(nodes, made, Values(c.body.members), vals, c);
    made := made + {c};
    ObjectCopied(nodes, v, made, c, m);
  }

  lemma AllMembers(nodes: set<Node>, v: Node, m: map<CString, Value>)
    requires Means(nodes, v, VObject(m))
    ensures forall i :: 0 <= i < |v.body.members| ==> v.body.members[i].key in m
  {
  }

  ghost predicate SameKeys<V, W>(a: seq<Member<V>>, b: seq<Member<W>>) {
    |a| == |b| && forall i :: 0 <= i < |a| ==> a[i].key == b[i].key
  }

  lemma NoKeysYet(ms: seq<Member<Node>>)
    ensures SameKeys<Node, Node>([], ms[..0]) && Values<Node>([]) == []
  {
  }

  /** Another member of the copy. */
  lemma MemberCopied(nodes: set<Node>, made: set<Node>, more: set<Node>, a: seq<Member<Node>>, m: Member<Node>,
                     ms: seq<Member<Node>>, i: nat, vals: seq<Value>)
    requires i < |ms| == |vals| && SameKeys(a, ms[..i]) && m.key == ms[i].key
    requires Copies(nodes, made, Values(a), vals[..i]) && Apart(nodes, made)
    requires Means(nodes + more, m.value, vals[i]) && OwnPart(nodes, more, m.value) && Apart(nodes, more)
    ensures Copies(nodes, made + more, Values(a + [m]), vals[..i + 1]) && Apart(nodes, made + more)
    ensures SameKeys(a + [m], ms[..i + 1])
  {
    hide Copies, Apart, OwnPart, Means, SameKeys;
    CopiesNext(nodes, made, more, Values(a), vals[..i], m.value, vals[i]);
    AppendMember(a, m, ms, i);
    assert vals[..i + 1] == vals[..i] + [vals[i]];
  }

  lemma SameCount(a: seq<Member<Node>>, b: seq<Member<Node>>)
    requires SameKeys(a, b)
    ensures |a| == |b|
  {
  }

  lemma ChildrenAre(b: Body)
    requires b.BObject?
    ensures Children(b) == Values(b.members)
  {
  }

  lemma AppendMember(a: seq<Member<Node>>, m: Member<Node>, ms: seq<Member<Node>>, i: nat)
    requires i < |ms| && SameKeys(a, ms[..i]) && m.key == ms[i].key
    ensures SameKeys(a + [m], ms[..i + 1]) && Values(a + [m]) == Values(a) + [m.value]
  {
  }

  lemma ObjectCopied(nodes: set<Node>, v: Node, made: set<Node>, c: Node, m: map<CString, Value>)
    requires Means(nodes, v, VObject(m)) && c in made && c.body.BObject? && SameKeys(c.body.members, v.body.members)
    requires forall i :: 0 <= i < |v.body.members| ==> v.body.members[i].key in m
    requires forall j :: 0 <= j < |v.body.members| ==>
               Means(nodes + made, Values(c.body.members)[j], MemberValues(v.body.members, m)[j])
    ensures Means(nodes + made, c, VObject(m)) && OwnPart(nodes, made, c)
  {
    var cs, ms := c.body.members, v.body.members;
    assert Keys(cs) == Keys(ms) by {
      assert forall i :: 0 <= i < |ms| ==> cs[i].key == ms[i].key;
    }
    forall i | 0 <= i < |cs|
      ensures cs[i].key in m && Means(nodes + made, cs[i].value, m[cs[i].key])
    {
      assert Values(cs)[i] == cs[i].value;
    }
  }

  /** Whatever can be reached from a copy is new or simple: no array, object or string is shared. */
  lemma {:induction false} SharesNothing(nodes: set<Node>, made: set<Node>, c: Node, p: seq<Node>)
    requires Apart(nodes, made) && OwnPart(nodes, made, c) && PathFrom(nodes + made, c, p)
    ensures OwnPart(nodes, made, p[|p| - 1])
    decreases |p|
  {
    hide Children, OwnPart;
    if |p| > 1 {
      OwnHasParts(nodes, made, c, p[1]);
      PathTail(nodes + made, p);
      SharesNothing(nodes, made, p[1], p[1..]);
    }
  }

  lemma OwnHasParts(nodes: set<Node>, made: set<Node>, c: Node, d: Node)
    requires Apart(nodes, made) && OwnPart(nodes, made, c) && d in Children(c.body)
    ensures OwnPart(nodes, made, d)
  {
  }

  /** A copy does not double the simple values, so it can be compared with json_equal, which finds it
      equal: both mean the same. */
  lemma CopySingletons(nodes: set<Node>, made: set<Node>)
    requires Singletons(nodes) && Apart(nodes, made)
    ensures Singletons(nodes + made)
  {
    forall a, b | a in nodes + made && b in nodes + made && a.body == b.body && Simple(a.body)
      ensures a == b
    {
      assert a !in made && b !in made;
    }
  }

  /** json_equal of a value and its deep copy. */
  method CopyAndCompare(v: Node, ghost nodes: set<Node>, ghost val: Value) returns (c: Node, r: bool)
    requires Singletons(nodes) && Means(nodes, v, val)
    ensures r
  {
    hide Singletons, Means, Apart, OwnPart;
    ghost var made;
    c, made := DeepCopy(v, nodes, val);
    CopySingletons(nodes, made);
    MeansMore(nodes, nodes + made, v, val);
    r := Equal(v, c, nodes + made, val, val);
  }
}
