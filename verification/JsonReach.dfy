/** What can be reached from the references that callers hold: it is live, and what is live and cannot be reached
    hangs on a cycle. */
module JsonReach {
  import opened Wrappers
  import opened JsonStore

  /** A chain from a reference some caller holds. */
  ghost predicate ReachableBy(h: Heap, held: multiset<nat>, id: nat, p: seq<nat>) {
    |p| > 0 && p[0] in held && p[|p| - 1] == id && Chain(h, p)
  }

  ghost predicate Reachable(h: Heap, held: multiset<nat>, id: nat) {
    exists p :: ReachableBy(h, held, id, p)
  }

  /** A cycle that nobody can get at. */
  ghost predicate DeadCycle(h: Heap, held: multiset<nat>, p: seq<nat>) {
    Cycle(h, p) && !Reachable(h, held, p[0])
  }

  /** Each cycle can be reached from the references held. */
  ghost predicate CyclesInReach(h: Heap, held: multiset<nat>) {
    forall p :: Cycle(h, p) ==> Reachable(h, held, p[0])
  }

  // ---- what is reachable is live

  lemma EdgeLive(h: Heap, held: multiset<nat>, a: nat, b: nat)
    requires Balanced(h, held) && Edge(h, a, b)
    ensures Live(h, b)
  {
    hide Total, Refs, Inside;
    InTotal(h, a, b);
    assert Count(h, b) == held[b] + Total(h)[b];
  }

  lemma {:induction false} ReachableLive(h: Heap, held: multiset<nat>, id: nat, p: seq<nat>)
    requires Balanced(h, held) && ReachableBy(h, held, id, p)
    ensures Live(h, id)
    decreases |p|
  {
    hide Balanced, Edge;
    if |p| == 1 {
      HeldIsLive(h, held, id);
    } else {
      EdgeLive(h, held, p[|p| - 2], id);
    }
  }

  // ---- what is live and not reachable hangs on a dead cycle

  lemma {:induction false} Holder(h: Heap, x: nat) returns (a: nat)
    requires x in Total(h)
    ensures Edge(h, a, x)
  {
    hide Refs, Inside;
    if x in Slot(h[0]) {
      a := 0;
    } else {
      var b := Holder(h[1..], x);
      a := b + 1;
    }
  }

  lemma ReachableStep(h: Heap, held: multiset<nat>, a: nat, b: nat)
    requires Reachable(h, held, a) && Edge(h, a, b)
    ensures Reachable(h, held, b)
  {
    hide Edge;
    var p :| ReachableBy(h, held, a, p);
    assert ReachableBy(h, held, b, p + [b]);
  }

  lemma HeldReachable(h: Heap, held: multiset<nat>, id: nat)
    requires id in held
    ensures Reachable(h, held, id)
  {
    assert ReachableBy(h, held, id, [id]);
  }

  ghost function Unseen(h: Heap, p: seq<nat>): set<nat> {
    set id: nat | id < |h| && id !in p
  }

  lemma UnseenLess(h: Heap, q: nat, p: seq<nat>)
    requires q < |h| && q !in p
    ensures |Unseen(h, [q] + p)| < |Unseen(h, p)|
  {
    assert Unseen(h, [q] + p) == Unseen(h, p) - {q};
  }

  /** Going from holder to holder, among values that cannot be reached, leads round a cycle. */
  lemma {:induction false} FindDeadCycle(h: Heap, held: multiset<nat>, p: seq<nat>) returns (c: seq<nat>)
    requires Balanced(h, held) && |p| > 0 && Chain(h, p) && Live(h, p[0]) && !Reachable(h, held, p[0])
    ensures DeadCycle(h, held, c)
    decreases |Unseen(h, p)|
  {
    hide Edge, Reachable, Unseen, Total;
    var q := HolderOf(h, held, p[0]);
    if Reachable(h, held, q) {
      ReachableStep(h, held, q, p[0]);
    }
    if q in p {
      var k :| 0 <= k < |p| && p[k] == q;
      c := [q] + p[..k + 1];
    } else {
      EdgeFromLive(h, q, p[0]);
      UnseenLess(h, q, p);
      c := FindDeadCycle(h, held, [q] + p);
    }
  }

  lemma EdgeFromLive(h: Heap, a: nat, b: nat)
    requires Edge(h, a, b)
    ensures Live(h, a)
  {
  }

  /** A live value that no caller holds is in a live container. */
  lemma HolderOf(h: Heap, held: multiset<nat>, id: nat) returns (a: nat)
    requires Balanced(h, held) && Live(h, id) && !Reachable(h, held, id)
    ensures Edge(h, a, id)
  {
    hide Edge, Reachable, Total;
    if id in held {
      HeldReachable(h, held, id);
    }
    assert Count(h, id) == held[id] + Total(h)[id];
    a := Holder(h, id);
  }

  lemma DeadCycleLive(h: Heap, held: multiset<nat>, p: seq<nat>)
    requires DeadCycle(h, held, p)
    ensures Live(h, p[0])
  {
    assert Edge(h, p[0], p[1]);
  }

  /** Exactly the reachable values are live, if and only if there is no cycle that nobody can get at. */
  lemma LeaksAreCycles(h: Heap, held: multiset<nat>)
    requires Balanced(h, held)
    ensures (forall id: nat :: Live(h, id) <==> Reachable(h, held, id)) <==> (forall p :: !DeadCycle(h, held, p))
  {
    hide Balanced, DeadCycle, ReachableBy, Live, Chain;
    forall id: nat | Reachable(h, held, id)
      ensures Live(h, id)
    {
      var p :| ReachableBy(h, held, id, p);
      ReachableLive(h, held, id, p);
    }
    if forall id: nat :: Live(h, id) <==> Reachable(h, held, id) {
      forall p
        ensures !DeadCycle(h, held, p)
      {
        if DeadCycle(h, held, p) {
          DeadCycleLive(h, held, p);
          DeadCycleUnreachable(h, held, p);
        }
      }
    } else {
      var id: nat :| Live(h, id) && !Reachable(h, held, id);
      OneChain(h, id);
      var c := FindDeadCycle(h, held, [id]);
    }
  }

  lemma DeadCycleUnreachable(h: Heap, held: multiset<nat>, p: seq<nat>)
    requires DeadCycle(h, held, p)
    ensures |p| > 0 && !Reachable(h, held, p[0])
  {
  }

  lemma OneChain(h: Heap, id: nat)
    ensures Chain(h, [id])
  {
  }

  // ---- values are freed

  lemma EdgeKept(h: Heap, h': Heap, a: nat, b: nat)
    requires Shrunk(h, h')
    ensures Edge(h', a, b) ==> Edge(h, a, b)
    ensures Edge(h, a, b) && Live(h', a) ==> Edge(h', a, b)
  {
    hide Refs, Inside;
  }

  lemma CycleBefore(h: Heap, h': Heap, p: seq<nat>)
    requires Shrunk(h, h') && Cycle(h', p)
    ensures Cycle(h, p)
  {
    hide Edge, Shrunk;
    forall i | 0 <= i < |p| - 1
      ensures Edge(h, p[i], p[i + 1])
    {
      EdgeKept(h, h', p[i], p[i + 1]);
    }
  }

  /** A chain of the old heap from a reference that is still held is one of the new heap. */
  lemma {:induction false} StillReachable(h: Heap, h': Heap, held: multiset<nat>, id: nat, p: seq<nat>)
    requires Shrunk(h, h') && Balanced(h', held) && ReachableBy(h, held, id, p)
    ensures ReachableBy(h', held, id, p)
    decreases |p|
  {
    hide Edge, Shrunk, Balanced;
    if |p| > 1 {
      var q, a := p[..|p| - 1], p[|p| - 2];
      assert ReachableBy(h, held, a, q);
      StillReachable(h, h', held, a, q);
      ReachableLive(h', held, a, q);
      EdgeKept(h, h', a, id);
      assert forall i :: 0 <= i < |q| ==> q[i] == p[i];
    }
  }

  lemma ShrunkReachable(h: Heap, h': Heap, held: multiset<nat>, id: nat)
    requires Shrunk(h, h') && Balanced(h', held)
    ensures Reachable(h, held, id) ==> Reachable(h', held, id)
  {
    hide Shrunk, Balanced, ReachableBy;
    if Reachable(h, held, id) {
      var p :| ReachableBy(h, held, id, p);
      StillReachable(h, h', held, id, p);
    }
  }

  lemma {:induction false} ReachableBefore(h: Heap, h': Heap, held: multiset<nat>, id: nat)
    requires Shrunk(h, h') && Reachable(h', held, id)
    ensures Reachable(h, held, id)
  {
    hide Edge, Shrunk;
    var p :| ReachableBy(h', held, id, p);
    forall i | 0 <= i < |p| - 1
      ensures Edge(h, p[i], p[i + 1])
    {
      EdgeKept(h, h', p[i], p[i + 1]);
    }
    assert ReachableBy(h, held, id, p);
  }

  lemma SameReach(h: Heap, h': Heap, held: multiset<nat>, id: nat)
    requires Shrunk(h, h') && Balanced(h', held)
    ensures Reachable(h', held, id) <==> Reachable(h, held, id)
  {
    hide Shrunk, Balanced, Reachable;
    ShrunkReachable(h, h', held, id);
    if Reachable(h', held, id) {
      ReachableBefore(h, h', held, id);
    }
  }

  /** Where every cycle can be reached, what is live after values were freed is what could be reached before. */
  lemma LiveWasReachable(h: Heap, h': Heap, held: multiset<nat>, id: nat)
    requires Shrunk(h, h') && Balanced(h', held) && CyclesInReach(h, held)
    ensures Live(h', id) <==> Reachable(h, held, id)
  {
    hide Shrunk, Balanced, Reachable, Live, Chain;
    forall p
      ensures !DeadCycle(h', held, p)
    {
      if Cycle(h', p) {
        CycleBefore(h, h', p);
        SameReach(h, h', held, p[0]);
      }
    }
    LeaksAreCycles(h', held);
    SameReach(h, h', held, id);
  }

  // ---- a container that changes

  function WithContent(h: Heap, id: nat, c: Content): Heap
    requires Live(h, id)
  {
    h[id := Some(Cell(h[id].value.refcount, c))]
  }

  /** A value that can be reached can be reached without passing through it. */
  lemma {:induction false} FirstVisit(h: Heap, held: multiset<nat>, id: nat, p: seq<nat>) returns (q: seq<nat>)
    requires ReachableBy(h, held, id, p)
    ensures ReachableBy(h, held, id, q) && id !in q[..|q| - 1]
    decreases |p|
  {
    hide Edge;
    if id in p[..|p| - 1] {
      var i :| 0 <= i < |p| - 1 && p[i] == id;
      q := FirstVisit(h, held, id, p[..i + 1]);
    } else {
      q := p;
    }
  }

  /** So it does not matter what it holds itself. */
  lemma ReachableAnyway(h: Heap, held: multiset<nat>, id: nat, c: Content)
    requires Live(h, id)
    ensures Reachable(WithContent(h, id, c), held, id) <==> Reachable(h, held, id)
  {
    hide ReachableBy, Inside, Refs;
    var h' := WithContent(h, id, c);
    if Reachable(h, held, id) {
      var p :| ReachableBy(h, held, id, p);
      var q := FirstVisit(h, held, id, p);
      SameRoute(h, h', held, id, q);
    }
    if Reachable(h', held, id) {
      var p :| ReachableBy(h', held, id, p);
      var q := FirstVisit(h', held, id, p);
      SameRoute(h', h, held, id, q);
    }
  }

  lemma SameRoute(h: Heap, h': Heap, held: multiset<nat>, id: nat, q: seq<nat>)
    requires |h'| == |h| && (forall x: nat :: x < |h| && x != id ==> h'[x] == h[x])
    requires ReachableBy(h, held, id, q) && id !in q[..|q| - 1]
    ensures ReachableBy(h', held, id, q)
  {
    hide Refs, Inside;
    forall i | 0 <= i < |q| - 1
      ensures Edge(h', q[i], q[i + 1])
    {
      assert q[i] in q[..|q| - 1];
      assert Edge(h, q[i], q[i + 1]);
    }
  }

  /** A container changes and values are freed: if it can be reached from what is still held, it is not one of
      them. */
  lemma ContainerLives(h: Heap, h': Heap, held: multiset<nat>, id: nat, c: Content)
    requires Live(h, id) && Shrunk(WithContent(h, id, c), h') && Balanced(h', held) && Reachable(h, held, id)
    ensures Live(h', id) && Reachable(h', held, id)
  {
    hide Shrunk, Balanced, Reachable, ReachableBy, WithContent;
    ReachableAnyway(h, held, id, c);
    ShrunkReachable(WithContent(h, id, c), h', held, id);
    IfReachable(h', held, id);
  }

  lemma IfReachable(h: Heap, held: multiset<nat>, id: nat)
    requires Balanced(h, held) && Reachable(h, held, id)
    ensures Live(h, id)
  {
    hide Balanced, ReachableBy;
    var p :| ReachableBy(h, held, id, p);
    ReachableLive(h, held, id, p);
  }

  /** Where no cycle is left that nobody can get at, it is live exactly if it can be reached. */
  lemma ContainerLivesExactly(h: Heap, h': Heap, held: multiset<nat>, id: nat, c: Content)
    requires Live(h, id) && Shrunk(WithContent(h, id, c), h') && Balanced(h', held)
    requires forall p :: !DeadCycle(h', held, p)
    ensures Live(h', id) <==> Reachable(h, held, id)
  {
    hide Shrunk, Balanced, Reachable, WithContent, DeadCycle, Live;
    LeaksAreCycles(h', held);
    ReachableAnyway(h, held, id, c);
    ShrunkReachable(WithContent(h, id, c), h', held, id);
    if Reachable(h', held, id) {
      ReachableBefore(WithContent(h, id, c), h', held, id);
    }
    assert Live(h', id) <==> Reachable(h', held, id);
  }
}
