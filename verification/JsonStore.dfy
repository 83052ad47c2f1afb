/** Reference counts: who owns a JSON value, and when it is freed. */
module JsonStore {
  import opened Bytes
  import opened Wrappers
  import opened JsonText

  /** A json_t pointer.  The three simple values are static and not counted. */
  datatype Val = NullVal | TrueVal | FalseVal | Ptr(id: nat)

  datatype Content =
    | Text(s: CString)
    | Number(n: int)
    | Items(items: seq<Val>)
    | Table(serial: nat, members: seq<Member<Val>>)

  /** An allocated value.  It is live while its count is positive; while it is being deleted the count is 0. */
  datatype Cell = Cell(refcount: nat, content: Content)

  /** All values ever allocated; those that have been freed are gone. */
  type Heap = seq<Option<Cell>>

  predicate Live(h: Heap, id: nat) { id < |h| && h[id].Some? && h[id].value.refcount > 0 }

  predicate Dying(h: Heap, id: nat) { id < |h| && h[id].Some? && h[id].value.refcount == 0 }

  predicate NoneDying(h: Heap) {
    forall id :: 0 <= id < |h| && h[id].Some? ==> h[id].value.refcount > 0
  }

  function Count(h: Heap, id: nat): nat {
    if id < |h| && h[id].Some? then h[id].value.refcount else 0
  }

  // ---- references

  function One(v: Val): multiset<nat> {
    if v.Ptr? then multiset{v.id} else multiset{}
  }

  function Refs(vs: seq<Val>): multiset<nat> {
    if |vs| == 0 then multiset{} else One(vs[0]) + Refs(vs[1..])
  }

  /** The values in a container. */
  function Inside(c: Content): seq<Val> {
    match c
    case Items(items) => items
    case Table(_, members) => seq(|members|, i requires 0 <= i < |members| => members[i].value)
    case _ => []
  }

  /** The references a live value holds.  Those of a value that is being deleted are already with the
      code that deletes it. */
  function Slot(o: Option<Cell>): multiset<nat> {
    if o.Some? && o.value.refcount > 0 then Refs(Inside(o.value.content)) else multiset{}
  }

  function Total(h: Heap): multiset<nat> {
    if |h| == 0 then multiset{} else Slot(h[0]) + Total(h[1..])
  }

  function Lives(h: Heap): nat {
    if |h| == 0 then 0 else (if Live(h, 0) then 1 else 0) + Lives(h[1..])
  }

  /** Conservation: each count is the number of references that callers hold and live containers
      hold together. */
  ghost predicate Balanced(h: Heap, held: multiset<nat>) {
    forall id: nat :: Count(h, id) == held[id] + Total(h)[id]
  }

  lemma {:induction false} TotalUpdate(h: Heap, i: nat, o: Option<Cell>)
    requires i < |h|
    ensures forall x :: Total(h[i := o])[x] + Slot(h[i])[x] == Total(h)[x] + Slot(o)[x]
  {
    hide Slot;
    if i == 0 {
      assert h[i := o][1..] == h[1..];
    } else {
      TotalUpdate(h[1..], i - 1, o);
      assert h[i := o][1..] == h[1..][i - 1 := o];
    }
  }

  lemma {:induction false} TotalAppend(h: Heap, o: Option<Cell>)
    ensures Total(h + [o]) == Total(h) + Slot(o)
  {
    hide Slot;
    if |h| == 0 {
      assert (h + [o])[1..] == [];
      assert h + [o] == [o];
    } else {
      TotalAppend(h[1..], o);
      assert (h + [o])[1..] == h[1..] + [o];
    }
  }

  lemma {:induction false} LivesUpdate(h: Heap, i: nat, o: Option<Cell>)
    requires i < |h|
    ensures Lives(h[i := o]) + (if Live(h, i) then 1 else 0)
         == Lives(h) + (if o.Some? && o.value.refcount > 0 then 1 else 0)
  {
    if i == 0 {
      assert h[i := o][1..] == h[1..];
    } else {
      LivesUpdate(h[1..], i - 1, o);
      assert h[i := o][1..] == h[1..][i - 1 := o];
    }
  }

  /** Values have at most been freed or lost counts: what is still live is as it was, and what was being
      deleted still is. */
  ghost predicate Shrunk(h: Heap, h': Heap) {
    && |h'| == |h|
    && (forall id: nat :: Live(h', id) ==> Live(h, id) && h'[id].value.content == h[id].value.content)
    && (forall id: nat :: id < |h| && !Live(h, id) ==> h'[id] == h[id])
    && (forall id: nat :: Dying(h', id) ==> Dying(h, id))
  }

  lemma ShrunkTwice(a: Heap, b: Heap, c: Heap)
    requires Shrunk(a, b) && Shrunk(b, c)
    ensures Shrunk(a, c)
  {
  }

  // ---- cycles

  /** The live value `a` holds a reference to `b`. */
  ghost predicate Edge(h: Heap, a: nat, b: nat) {
    Live(h, a) && b in Refs(Inside(h[a].value.content))
  }

  ghost predicate Chain(h: Heap, p: seq<nat>) {
    forall i :: 0 <= i < |p| - 1 ==> Edge(h, p[i], p[i + 1])
  }

  ghost predicate Cycle(h: Heap, p: seq<nat>) {
    |p| > 1 && p[0] == p[|p| - 1] && Chain(h, p)
  }

  /** Values that hold each other in a circle are never freed. */
  ghost predicate CyclesKept(h: Heap, h': Heap) {
    forall p :: Cycle(h, p) ==> Cycle(h', p)
  }

  lemma CyclesKeptSame(h: Heap)
    ensures CyclesKept(h, h)
  {
  }

  lemma CyclesKeptTwice(a: Heap, b: Heap, c: Heap)
    requires CyclesKept(a, b) && CyclesKept(b, c)
    ensures CyclesKept(a, c)
  {
    hide Cycle;
  }

  /** A reference in a live value is one of the total. */
  lemma {:induction false} InTotal(h: Heap, id: nat, x: nat)
    requires Edge(h, id, x)
    ensures x in Total(h)
  {
    hide Refs, Inside;
    if id > 0 {
      InTotal(h[1..], id - 1, x);
    }
  }

  /** A value on a cycle that a caller holds, too, has two references at least. */
  lemma OnCycle(h: Heap, held: multiset<nat>, p: seq<nat>, i: nat)
    requires Balanced(h, held) && Cycle(h, p) && i < |p| - 1 && p[i] in held
    ensures Count(h, p[i]) > 1
  {
    hide Edge, Total;
    var a := p[if i == 0 then |p| - 2 else i - 1];
    assert Edge(h, a, p[i]);
    InTotal(h, a, p[i]);
    assert Count(h, p[i]) == held[p[i]] + Total(h)[p[i]];
  }

  /** A cell that is on no cycle changes. */
  lemma CyclesElsewhere(h: Heap, id: nat, o: Option<Cell>)
    requires id < |h| && forall p, i :: Cycle(h, p) && 0 <= i < |p| - 1 ==> p[i] != id
    ensures CyclesKept(h, h[id := o])
  {
    hide Refs, Inside, Cycle;
    forall p | Cycle(h, p)
      ensures Cycle(h[id := o], p)
    {
      CycleElsewhere(h, id, o, p);
    }
  }

  lemma CycleElsewhere(h: Heap, id: nat, o: Option<Cell>, p: seq<nat>)
    requires id < |h| && Cycle(h, p) && forall i :: 0 <= i < |p| - 1 ==> p[i] != id
    ensures Cycle(h[id := o], p)
  {
    hide Refs, Inside;
    forall i | 0 <= i < |p| - 1
      ensures Edge(h[id := o], p[i], p[i + 1])
    {
      assert Edge(h, p[i], p[i + 1]);
    }
  }

  /** A live value keeps its content, and stays live. */
  lemma CyclesSameContent(h: Heap, id: nat, n: nat)
    requires Live(h, id) && n > 0
    ensures CyclesKept(h, h[id := Some(Cell(n, h[id].value.content))])
  {
    hide Refs, Inside;
    var h' := h[id := Some(Cell(n, h[id].value.content))];
    forall p | Cycle(h, p)
      ensures Cycle(h', p)
    {
      forall i | 0 <= i < |p| - 1
        ensures Edge(h', p[i], p[i + 1])
      {
        assert Edge(h, p[i], p[i + 1]);
      }
    }
  }

  lemma LastOffCycles(h: Heap, held: multiset<nat>, id: nat, o: Option<Cell>)
    requires Balanced(h, held) && id in held && Count(h, id) == 1
    ensures CyclesKept(h, h[id := o])
  {
    hide Balanced, Cycle;
    forall p, i | Cycle(h, p) && 0 <= i < |p| - 1
      ensures p[i] != id
    {
      if p[i] == id {
        OnCycle(h, held, p, i);
      }
    }
    CyclesElsewhere(h, id, o);
  }

  lemma DyingOffCycles(h: Heap, id: nat, o: Option<Cell>)
    requires Dying(h, id)
    ensures CyclesKept(h, h[id := o])
  {
    hide Refs, Inside;
    forall p, i | Cycle(h, p) && 0 <= i < |p| - 1
      ensures p[i] != id
    {
      assert Edge(h, p[i], p[i + 1]);
    }
    CyclesElsewhere(h, id, o);
  }

  // ---- single steps on the heap

  /** Somebody else still refers to the value. */
  lemma DropOne(h: Heap, held: multiset<nat>, id: nat, c: Content)
    requires Balanced(h, held) && id in held && Live(h, id) && h[id].value.refcount > 1
    requires c == h[id].value.content
    ensures Balanced(h[id := Some(Cell(h[id].value.refcount - 1, c))], held - multiset{id})
    ensures Shrunk(h, h[id := Some(Cell(h[id].value.refcount - 1, c))])
    ensures Lives(h[id := Some(Cell(h[id].value.refcount - 1, c))]) == Lives(h)
    ensures CyclesKept(h, h[id := Some(Cell(h[id].value.refcount - 1, c))])
  {
    hide Total, Lives, Refs, Inside, CyclesKept;
    CyclesSameContent(h, id, h[id].value.refcount - 1);
    var o := Some(Cell(h[id].value.refcount - 1, c));
    TotalUpdate(h, id, o);
    LivesUpdate(h, id, o);
    BalancedUpdate(h, held, held - multiset{id}, id, o);
  }

  /** One cell changed, and the books with it. */
  lemma BalancedUpdate(h: Heap, held: multiset<nat>, held': multiset<nat>, id: nat, o: Option<Cell>)
    requires id < |h| && Balanced(h, held)
    requires var r := if o.Some? then o.value.refcount else 0;
             held'[id] + Slot(o)[id] + Count(h, id) == held[id] + Slot(h[id])[id] + r
    requires forall x: nat :: x != id ==> held'[x] + Slot(o)[x] == held[x] + Slot(h[id])[x]
    ensures Balanced(h[id := o], held')
  {
    hide Total, Slot;
    TotalUpdate(h, id, o);
    var h' := h[id := o];
    forall x: nat
      ensures Count(h', x) == held'[x] + Total(h')[x]
    {
      assert Count(h, x) == held[x] + Total(h)[x];
    }
  }

  /** The last reference goes: the references inside pass to the deleting code. */
  lemma DropLast(h: Heap, held: multiset<nat>, id: nat, c: Content)
    requires Balanced(h, held) && id in held && Live(h, id) && h[id].value == Cell(1, c)
    ensures Balanced(h[id := Some(Cell(0, c))], held - multiset{id} + Refs(Inside(c)))
    ensures Lives(h[id := Some(Cell(0, c))]) < Lives(h)
    ensures CyclesKept(h, h[id := Some(Cell(0, c))])
  {
    hide Total, Lives, Refs, Inside, CyclesKept;
    LastOffCycles(h, held, id, Some(Cell(0, c)));
    LivesUpdate(h, id, Some(Cell(0, c)));
    BalancedUpdate(h, held, held - multiset{id} + Refs(Inside(c)), id, Some(Cell(0, c)));
  }

  /** The memory of a deleted value is given back. */
  lemma Free(h: Heap, held: multiset<nat>, id: nat)
    requires Balanced(h, held) && Dying(h, id)
    ensures Balanced(h[id := None], held) && Lives(h[id := None]) == Lives(h)
    ensures CyclesKept(h, h[id := None])
  {
    hide Total, Lives, Refs, Inside, CyclesKept;
    DyingOffCycles(h, id, None);
    LivesUpdate(h, id, None);
    BalancedUpdate(h, held, held, id, None);
  }

  lemma HeldIsLive(h: Heap, held: multiset<nat>, id: nat)
    requires Balanced(h, held) && id in held
    ensures Live(h, id)
  {
    assert Count(h, id) >= held[id];
  }

  lemma FreeShrinks(h: Heap, id: nat)
    requires Live(h, id) || Dying(h, id)
    ensures Shrunk(h[id := None], h[id := None])
    ensures Live(h, id) ==> Shrunk(h, h[id := None])
  {
  }

  lemma ShrunkFree(h: Heap, h': Heap, id: nat)
    requires Dying(h, id) && Shrunk(h, h')
    ensures Dying(h', id) && h'[id] == h[id] && Shrunk(h[id := None], h'[id := None])
  {
    var a, b := h[id := None], h'[id := None];
    assert h'[id] == h[id];
    assert forall x: nat :: x < |a| && x != id ==> a[x] == h[x] && b[x] == h'[x];
    assert forall x: nat :: (Live(b, x) ==> Live(h', x)) && (Dying(b, x) ==> Dying(h', x) && x != id);
    assert forall x: nat :: x < |a| && !Live(a, x) && x != id ==> !Live(h, x);
  }

  lemma OverwriteTwice(h: Heap, id: nat, a: Option<Cell>, b: Option<Cell>)
    requires id < |h|
    ensures h[id := a][id := b] == h[id := b]
  {
  }

  /** The values, and the references that callers hold. */
  class Store {
    var heap: Heap
    ghost var held: multiset<nat>

    constructor ()
      ensures Valid() && heap == [] && held == multiset{}
    {
      heap, held := [], multiset{};
    }

    /** Counts agree, and no deletion is going on. */
    ghost predicate Valid()
      reads this
    {
      Balanced(heap, held) && NoneDying(heap)
    }

    /** json_incref */
    method Incref(v: Val)
      requires Balanced(heap, held) && (v.Ptr? ==> Live(heap, v.id))
      modifies this
      ensures Balanced(heap, held) && held == old(held) + One(v)
      ensures v.Ptr? ==> heap == old(heap)[v.id := Some(Cell(Count(old(heap), v.id) + 1,
                                                             old(heap)[v.id].value.content))]
      ensures !v.Ptr? ==> heap == old(heap)
    {
      hide Balanced;
      if v.Ptr? {
        var cell := heap[v.id].value;
        Grow(heap, held, v.id);
        heap := heap[v.id := Some(Cell(cell.refcount + 1, cell.content))];
        held := held + multiset{v.id};
      }
    }

    /** json_decref */
    method Decref(v: Val)
      requires Balanced(heap, held) && One(v) <= held
      modifies this
      ensures Balanced(heap, held) && held == old(held) - One(v)
      ensures Shrunk(old(heap), heap) && CyclesKept(old(heap), heap) && Lives(heap) <= Lives(old(heap))
      decreases Lives(heap), 0
    {
      hide Balanced, Lives, Refs, Inside, Shrunk, CyclesKept;
      if v.Ptr? {
        HeldIsLive(heap, held, v.id);
        var cell := heap[v.id].value;
        if cell.refcount > 1 {
          DropOne(heap, held, v.id, cell.content);
          heap := heap[v.id := Some(Cell(cell.refcount - 1, cell.content))];
          held := held - multiset{v.id};
        } else {
          DropLast(heap, held, v.id, cell.content);
          OverwriteTwice(heap, v.id, Some(Cell(0, cell.content)), None);
          FreeShrinks(heap, v.id);
          heap := heap[v.id := Some(Cell(0, cell.content))];
          held := held - multiset{v.id} + Refs(Inside(cell.content));
          Delete(v.id);
          ShrunkTwice(old(heap), old(heap)[v.id := None], heap);
          CyclesKeptTwice(old(heap), old(heap)[v.id := Some(Cell(0, cell.content))], heap);
        }
      } else {
        ShrunkSame(heap);
        CyclesKeptSame(heap);
      }
    }

    /** json_delete: drops what is inside, and gives the memory back.  The array or table is read while
        other values are deleted; nothing can change it then. */
    method Delete(id: nat)
      requires Balanced(heap, held) && Dying(heap, id)
      requires Refs(Inside(heap[id].value.content)) <= held
      modifies this
      ensures Balanced(heap, held) && held == old(held) - old(Refs(Inside(heap[id].value.content)))
      ensures Shrunk(old(heap)[id := None], heap) && CyclesKept(old(heap), heap) && Lives(heap) <= Lives(old(heap))
      decreases Lives(heap), 1
    {
      hide Balanced, Lives, Refs, Inside, Shrunk, CyclesKept;
      var vs := Inside(heap[id].value.content);
      ShrunkSame(heap);
      CyclesKeptSame(heap);
      for i := 0 to |vs|
        invariant Balanced(heap, held) && Shrunk(old(heap), heap) && Lives(heap) <= Lives(old(heap))
        invariant CyclesKept(old(heap), heap)
        invariant Refs(vs[i..]) <= held && held - Refs(vs[i..]) == old(held) - Refs(vs)
      {
        RefsStep(vs, i);
        ghost var h := heap;
        Decref(vs[i]);
        ShrunkTwice(old(heap), h, heap);
        CyclesKeptTwice(old(heap), h, heap);
      }
      RefsEnd(vs);
      ShrunkFree(old(heap), heap, id);
      Free(heap, held, id);
      CyclesKeptTwice(old(heap), heap, heap[id := None]);
      heap := heap[id := None];
    }
  }

  lemma ShrunkSame(h: Heap)
    ensures Shrunk(h, h)
  {
  }

  lemma Grow(h: Heap, held: multiset<nat>, id: nat)
    requires Balanced(h, held) && Live(h, id)
    ensures Balanced(h[id := Some(Cell(h[id].value.refcount + 1, h[id].value.content))], held + multiset{id})
  {
    hide Total, Lives, Refs, Inside;
    BalancedUpdate(h, held, held + multiset{id}, id, Some(Cell(h[id].value.refcount + 1, h[id].value.content)));
  }

  lemma RefsStep(vs: seq<Val>, i: nat)
    requires i < |vs|
    ensures Refs(vs[i..]) == One(vs[i]) + Refs(vs[i + 1..])
  {
    assert vs[i..][1..] == vs[i + 1..];
  }

  lemma RefsEnd(vs: seq<Val>)
    ensures Refs(vs[|vs|..]) == multiset{} && vs[0..] == vs
  {
  }
}
