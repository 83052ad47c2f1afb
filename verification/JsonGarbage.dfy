/** What reference counting frees, and what it leaks. */
module JsonGarbage {
  import opened Wrappers
  import opened JsonStore
  import opened JsonReach
  import opened JsonOwnership

  lemma DeadCyclesAfter(h: Heap, h': Heap, held: multiset<nat>)
    requires Shrunk(h, h') && CyclesKept(h, h') && Balanced(h', held)
    ensures CyclesInReach(h, held) <==> forall p :: !DeadCycle(h', held, p)
  {
    hide Shrunk, Balanced, Reachable, Chain;
    forall p
      ensures DeadCycle(h', held, p) <==> Cycle(h, p) && !Reachable(h, held, p[0])
    {
      if Cycle(h', p) {
        CycleBefore(h, h', p);
      }
      if Cycle(h, p) {
        SameReach(h, h', held, p[0]);
      }
    }
  }

  /** Dropping references frees exactly what can no longer be reached, if and only if every cycle there was can
      still be reached. */
  lemma FreedExactly(h: Heap, h': Heap, held: multiset<nat>)
    requires Shrunk(h, h') && CyclesKept(h, h') && Balanced(h', held)
    ensures (forall id: nat :: Live(h', id) <==> Reachable(h, held, id)) <==> CyclesInReach(h, held)
  {
    hide Shrunk, Balanced, Reachable, CyclesKept, DeadCycle, CyclesInReach, Live;
    LeaksAreCycles(h', held);
    DeadCyclesAfter(h, h', held);
    forall id: nat
      ensures Reachable(h', held, id) <==> Reachable(h, held, id)
    {
      SameReach(h, h', held, id);
    }
  }

  /** json_decref of any value. */
  method DropExactly(st: Store, v: Val)
    requires st.Valid() && One(v) <= st.held
    modifies st
    ensures st.Valid() && st.held == old(st.held) - One(v)
    ensures (forall id: nat :: Live(st.heap, id) <==> Reachable(old(st.heap), st.held, id))
       <==> CyclesInReach(old(st.heap), st.held)
  {
    hide Balanced, Shrunk, Reachable, Live, CyclesKept, CyclesInReach;
    Drop(st, v);
    FreedExactly(old(st.heap), st.heap, st.held);
  }

  /** The value leads into no cycle. */
  ghost predicate OffCycles(h: Heap, v: Val) {
    v.Ptr? ==> forall p :: Cycle(h, p) ==> !Reachable(h, multiset{v.id}, p[0])
  }

  /** With nothing leaked before, and no cycle below the value, all cycles stay in reach. */
  lemma StillInReach(h: Heap, held: multiset<nat>, v: Val)
    requires (forall p :: !DeadCycle(h, held, p)) && OffCycles(h, v)
    ensures CyclesInReach(h, held - One(v))
  {
    hide Chain, ReachableBy;
    forall p | Cycle(h, p)
      ensures Reachable(h, held - One(v), p[0])
    {
      assert !DeadCycle(h, held, p);
      RootOf(h, held, v, p[0]);
    }
  }

  lemma RootOf(h: Heap, held: multiset<nat>, v: Val, id: nat)
    requires Reachable(h, held, id)
    ensures Reachable(h, held - One(v), id) || (v.Ptr? && Reachable(h, multiset{v.id}, id))
  {
    hide Chain;
    var p :| ReachableBy(h, held, id, p);
    if p[0] in held - One(v) {
      assert ReachableBy(h, held - One(v), id, p);
    } else {
      assert v.Ptr? && ReachableBy(h, multiset{v.id}, id, p);
    }
  }

  /** json_decref of a value that leads into no cycle, with nothing leaked before: afterwards exactly what can be
      reached from the references still held is live. */
  method DropAcyclic(st: Store, v: Val)
    requires st.Valid() && One(v) <= st.held && OffCycles(st.heap, v)
    requires forall p :: !DeadCycle(st.heap, st.held, p)
    modifies st
    ensures st.Valid() && st.held == old(st.held) - One(v)
    ensures forall id: nat :: Live(st.heap, id) <==> Reachable(old(st.heap), st.held, id)
  {
    hide Balanced, OffCycles, Shrunk, Reachable, Live, CyclesInReach, DeadCycle;
    StillInReach(st.heap, st.held, v);
    DropExactly(st, v);
  }

  /** Two arrays that hold each other outlive all references to them. */
  lemma CyclesLeak()
    ensures var h := [Some(Cell(1, Items([Ptr(1)]))), Some(Cell(1, Items([Ptr(0)])))];
            Balanced(h, multiset{}) && Live(h, 0) && !Reachable(h, multiset{}, 0)
  {
    var h: Heap := [Some(Cell(1, Items([Ptr(1)]))), Some(Cell(1, Items([Ptr(0)])))];
    RefsOne(Ptr(0));
    RefsOne(Ptr(1));
    assert h[1..] == [h[1]] && h[1..][1..] == [];
    assert Total(h[1..]) == Slot(h[1]) + Total([]);
    assert Total(h) == Slot(h[0]) + Total(h[1..]);
  }
}
