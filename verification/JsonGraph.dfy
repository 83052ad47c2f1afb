/** JSON values as the printer finds them: a graph, which may share nodes and have cycles. */
module JsonGraph {
  import opened Bytes
  import opened Utf8
  import opened Wrappers
  import opened JsonNumber
  import opened JsonText
  import opened JsonRoundTrip

  /** json_t with the visited flag of arrays and objects. */
  class Node {
    var body: Body
    var visited: bool

    constructor (body: Body)
      ensures this.body == body && !visited
    {
      this.body, visited := body, false;
    }
  }

  /** The members of an object stand in iteration order of its table. */
  datatype Body =
    | BNull | BTrue | BFalse
    | BInteger(n: int)
    | BReal(text: seq<Byte>)
    | BString(s: CString)
    | BArray(items: seq<Node>)
    | BObject(members: seq<Member<Node>>)
  {
    predicate Container() { BArray? || BObject? }
  }

  function Values<V>(ms: seq<Member<V>>): (r: seq<V>)
    ensures |r| == |ms|
  {
    seq(|ms|, i requires 0 <= i < |ms| => ms[i].value)
  }

  /** The values inside a value, in the order they are printed in. */
  function Kids(b: Body, f: Flags): seq<Node> {
    match b
    case BArray(items) => items
    case BObject(members) => Values(Order(members, f))
    case _ => []
  }

  function Children(b: Body): seq<Node> {
    match b
    case BArray(items) => items
    case BObject(members) => Values(members)
    case _ => []
  }

  /** What every value keeps: 64-bit integers, texts of reals, C strings, and each key once. */
  ghost predicate Sound(b: Body) {
    match b
    case BInteger(n) => INT_MIN <= n <= INT_MAX
    case BReal(text) => RealText(text)
    case BString(s) => 0 !in s
    case BObject(members) =>
      && (forall i :: 0 <= i < |members| ==> 0 !in members[i].key)
      && (forall i, j :: 0 <= i < j < |members| ==> members[i].key != members[j].key)
    case _ => true
  }

  ghost predicate Graph(nodes: set<Node>)
    reads nodes`body
  {
    forall n :: n in nodes ==> Sound(n.body) && Inside(nodes, Children(n.body))
  }

  ghost predicate Inside(nodes: set<Node>, vs: seq<Node>) {
    forall i :: 0 <= i < |vs| ==> vs[i] in nodes
  }

  ghost function Open(nodes: set<Node>): set<Node>
    reads nodes`visited
  {
    set n | n in nodes && n.visited
  }

  // ---- printing order reorders

  lemma OrderSame<V>(ms: seq<Member<V>>, f: Flags)
    ensures multiset(Order(ms, f)) == multiset(ms)
  {
    hide InOrder;
    SortedIsSorting(ms, true);
    SortedIsSorting(ms, false);
  }

  lemma ValuesSame<V>(a: seq<Member<V>>, b: seq<Member<V>>, i: nat) returns (j: nat)
    requires multiset(a) == multiset(b) && i < |a|
    ensures j < |b| && b[j] == a[i]
  {
    assert a[i] in multiset(b);
    j :| 0 <= j < |b| && b[j] == a[i];
  }

  /** Kids and children are the same nodes. */
  lemma KidsAreChildren(b: Body, f: Flags)
    ensures forall i :: 0 <= i < |Kids(b, f)| ==> Kids(b, f)[i] in Children(b)
    ensures forall i :: 0 <= i < |Children(b)| ==> Children(b)[i] in Kids(b, f)
  {
    if b.BObject? {
      hide Order;
      var ms, os := b.members, Order(b.members, f);
      OrderSame(ms, f);
      forall i | 0 <= i < |ms|
        ensures Values(ms)[i] in Values(os)
      {
        var j := ValuesSame(ms, os, i);
        assert Values(os)[j] == ms[i].value;
      }
      forall i | 0 <= i < |os|
        ensures Values(os)[i] in Values(ms)
      {
        var j := ValuesSame(os, ms, i);
        assert Values(ms)[j] == os[i].value;
      }
    }
  }

  lemma KidsInside(nodes: set<Node>, b: Body, f: Flags)
    requires Inside(nodes, Children(b))
    ensures Inside(nodes, Kids(b, f))
  {
    hide Kids, Children;
    KidsAreChildren(b, f);
  }

  // ---- the tree that a value unfolds to

  lemma OneFewer(nodes: set<Node>, open: set<Node>, v: Node)
    requires v in nodes && v !in open
    ensures |nodes - (open + {v})| < |nodes - open|
  {
    assert nodes - (open + {v}) == (nodes - open) - {v};
  }

  /** The tree below `v`, its members in printing order, met while the nodes of `open` are being printed;
      none if that leads back to one of those, or to a string that is not UTF-8. */
  ghost function Tree(nodes: set<Node>, v: Node, open: set<Node>, f: Flags): Option<Json>
    requires Graph(nodes) && v in nodes
    reads nodes`body
    decreases |nodes - open|, 0
  {
    match v.body
    case BNull => Some(Null)
    case BTrue => Some(True)
    case BFalse => Some(False)
    case BInteger(n) => Some(Integer(n))
    case BReal(text) => Some(Real(text))
    case BString(s) => if IsUtf8(s) then Some(String(s)) else None
    case _ =>
      if v in open then None
      else
        KidsInside(nodes, v.body, f);
        OneFewer(nodes, open, v);
        match TreeAll(nodes, Kids(v.body, f), open + {v}, f)
        case None => None
        case Some(ts) => Some(Rebuild(v.body, ts, f))
  }

  /** The trees of several values. */
  ghost function TreeAll(nodes: set<Node>, vs: seq<Node>, open: set<Node>, f: Flags): (r: Option<seq<Json>>)
    requires Graph(nodes) && Inside(nodes, vs)
    reads nodes`body
    ensures r.Some? ==> |r.value| == |vs|
    decreases |nodes - open|, 1 + |vs|
  {
    if |vs| == 0 then Some([])
    else
      match Tree(nodes, vs[0], open, f)
      case None => None
      case Some(t) =>
        match TreeAll(nodes, vs[1..], open, f)
        case None => None
        case Some(ts) => Some([t] + ts)
  }

  /** An array or object of the given trees. */
  function Rebuild(b: Body, ts: seq<Json>, f: Flags): Json
    requires b.Container()
  {
    if b.BArray? then Array(ts) else Object(Zip(Order(b.members, f), ts))
  }

  function Zip(ms: seq<Member<Node>>, ts: seq<Json>): (r: seq<Member<Json>>)
    ensures |ts| == |ms| ==> |r| == |ms| && forall i :: 0 <= i < |r| ==> r[i] == Member(ms[i].key, ms[i].serial, ts[i])
  {
    if |ms| == |ts| then seq(|ms|, i requires 0 <= i < |ms| => Member(ms[i].key, ms[i].serial, ts[i])) else []
  }

  lemma {:induction false} TreeAllAt(nodes: set<Node>, vs: seq<Node>, open: set<Node>, f: Flags)
    requires Graph(nodes) && Inside(nodes, vs)
    ensures TreeAll(nodes, vs, open, f).Some? <==> forall i :: 0 <= i < |vs| ==> Tree(nodes, vs[i], open, f).Some?
    ensures TreeAll(nodes, vs, open, f).Some? ==>
              forall i :: 0 <= i < |vs| ==> TreeAll(nodes, vs, open, f).value[i] == Tree(nodes, vs[i], open, f).value
    decreases |vs|
  {
    hide Tree, Graph;
    if |vs| > 0 {
      TreeAllAt(nodes, vs[1..], open, f);
      assert vs == [vs[0]] + vs[1..];
    }
  }

  /** What a container unfolds to. */
  lemma TreeOfContainer(nodes: set<Node>, v: Node, open: set<Node>, f: Flags)
    requires Graph(nodes) && v in nodes && v.body.Container() && v !in open
    ensures Inside(nodes, Kids(v.body, f))
    ensures Tree(nodes, v, open, f).Some? <==> TreeAll(nodes, Kids(v.body, f), open + {v}, f).Some?
    ensures Tree(nodes, v, open, f).Some? ==>
              Tree(nodes, v, open, f).value == Rebuild(v.body, TreeAll(nodes, Kids(v.body, f), open + {v}, f).value, f)
  {
    hide Kids, Order, Graph, TreeAll;
    InsideOf(nodes, v);
    KidsInside(nodes, v.body, f);
  }

  lemma InsideOf(nodes: set<Node>, v: Node)
    requires Graph(nodes) && v in nodes
    ensures Inside(nodes, Children(v.body)) && Sound(v.body)
  {
  }

  // ---- cycles

  /** Each node is inside the one before it. */
  ghost predicate Path(p: seq<Node>)
    reads (set n | n in p)`body
  {
    forall i :: 0 <= i < |p| - 1 ==> p[i + 1] in Children(p[i].body)
  }

  /** A path that ends in a node it has already been through, or in a string that is not UTF-8. */
  ghost predicate BadPath(p: seq<Node>)
    reads (set n | n in p)`body
  {
    && |p| > 0 && Path(p)
    && (p[|p| - 1] in p[..|p| - 1] || (p[|p| - 1].body.BString? && !IsUtf8(p[|p| - 1].body.s)))
  }

  /** A path through `nodes` from `v`. */
  ghost predicate PathFrom(nodes: set<Node>, v: Node, older p: seq<Node>)
    reads nodes`body
  {
    |p| > 0 && p[0] == v && Inside(nodes, p) && Path(p)
  }

  /** `v` leads into a cycle or to an invalid string. */
  ghost predicate BadReachable(nodes: set<Node>, v: Node)
    reads nodes`body
  {
    exists p :: PathFrom(nodes, v, p) && BadPath(p)
  }

  /** The last node of a path is one of `open`, or has been on the path before, or is an invalid string. */
  ghost predicate Stuck(p: seq<Node>, open: set<Node>)
    requires |p| > 0
    reads (set n | n in p)`body
  {
    var last := p[|p| - 1];
    last in open || last in p[..|p| - 1] || (last.body.BString? && !IsUtf8(last.body.s))
  }

  /** Where there is no tree, there is a path into a cycle or to an invalid string. */
  lemma {:induction false} NoTreePath(nodes: set<Node>, v: Node, open: set<Node>, f: Flags) returns (p: seq<Node>)
    requires Graph(nodes) && v in nodes && Tree(nodes, v, open, f).None?
    ensures PathFrom(nodes, v, p) && Stuck(p, open)
    decreases |nodes - open|
  {
    hide Kids, IsUtf8, TreeAll, Graph;
    if v.body.BString? || v in open {
      p := [v];
    } else {
      TreeOfContainer(nodes, v, open, f);
      TreeAllAt(nodes, Kids(v.body, f), open + {v}, f);
      var i :| 0 <= i < |Kids(v.body, f)| && Tree(nodes, Kids(v.body, f)[i], open + {v}, f).None?;
      OneFewer(nodes, open, v);
      var q := NoTreePath(nodes, Kids(v.body, f)[i], open + {v}, f);
      KidsAreChildren(v.body, f);
      p := [v] + q;
      PathCons(nodes, v, q);
      StuckCons(v, q, open);
    }
  }

  lemma PathCons(nodes: set<Node>, v: Node, q: seq<Node>)
    requires v in nodes && |q| > 0 && PathFrom(nodes, q[0], q) && q[0] in Children(v.body)
    ensures PathFrom(nodes, v, [v] + q)
  {
    hide Children;
  }

  lemma StuckCons(v: Node, q: seq<Node>, open: set<Node>)
    requires |q| > 0 && Stuck(q, open + {v})
    ensures Stuck([v] + q, open)
  {
    hide IsUtf8;
    var p := [v] + q;
    assert p[..|p| - 1] == [v] + q[..|q| - 1];
  }

  /** Where there is a tree, no path gets stuck. */
  lemma {:induction false} TreeNotStuck(nodes: set<Node>, v: Node, open: set<Node>, f: Flags, p: seq<Node>)
    requires Graph(nodes) && v in nodes && Tree(nodes, v, open, f).Some?
    requires PathFrom(nodes, v, p)
    requires forall n :: n in open ==> n in nodes && n.body.Container()
    ensures !Stuck(p, open)
    decreases |p|
  {
    hide Kids, Children, IsUtf8, TreeAll, Graph;
    if |p| == 1 {
      LeafNotStuck(nodes, v, open, f);
      assert p == [v];
    } else {
      ChildMeansContainer(v.body, p[1]);
      TreeOfContainer(nodes, v, open, f);
      TreeAllAt(nodes, Kids(v.body, f), open + {v}, f);
      KidsAreChildren(v.body, f);
      assert p[1] in Kids(v.body, f);
      PathTail(nodes, p);
      TreeNotStuck(nodes, p[1], open + {v}, f, p[1..]);
      assert p == [v] + p[1..];
      StuckTail(v, p[1..], open);
    }
  }

  lemma LeafNotStuck(nodes: set<Node>, v: Node, open: set<Node>, f: Flags)
    requires Graph(nodes) && v in nodes && Tree(nodes, v, open, f).Some?
    requires forall n :: n in open ==> n in nodes && n.body.Container()
    ensures v !in open && (v.body.BString? ==> IsUtf8(v.body.s))
  {
    hide IsUtf8, TreeAll;
  }

  lemma ChildMeansContainer(b: Body, c: Node)
    requires c in Children(b)
    ensures b.Container()
  {
  }

  lemma PathTail(nodes: set<Node>, p: seq<Node>)
    requires |p| > 1 && PathFrom(nodes, p[0], p)
    ensures p[1] in nodes && PathFrom(nodes, p[1], p[1..])
  {
    hide Children;
    assert forall i :: 0 <= i < |p| - 1 ==> p[1..][i] == p[i + 1];
  }

  lemma StuckTail(v: Node, q: seq<Node>, open: set<Node>)
    requires |q| > 0 && !Stuck(q, open + {v})
    ensures !Stuck([v] + q, open)
  {
    hide IsUtf8;
    var p := [v] + q;
    assert p[..|p| - 1] == [v] + q[..|q| - 1];
  }

  /** A value unfolds to a tree exactly when it leads neither into a cycle nor to an invalid string;
      sharing does no harm. */
  lemma TreeExists(nodes: set<Node>, v: Node, f: Flags)
    requires Graph(nodes) && v in nodes
    ensures Tree(nodes, v, {}, f).Some? <==> !BadReachable(nodes, v)
  {
    hide Tree, Graph, Children, IsUtf8, Path, Inside;
    if Tree(nodes, v, {}, f).None? {
      var p := NoTreePath(nodes, v, {}, f);
      assert BadPath(p);
    } else if BadReachable(nodes, v) {
      var p :| PathFrom(nodes, v, p) && BadPath(p);
      TreeNotStuck(nodes, v, {}, f, p);
      assert false;
    }
  }
}
