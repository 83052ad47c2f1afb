/** The store of counted values, between calls, and arrays in it: every call keeps the books balanced, frees
    nothing that is still referred to, and changes the one array it is about. */
module JsonOwnership {
  import opened Bytes
  import opened Wrappers
  import opened JsonText
  import opened JsonStore
  import opened JsonReach

  /** A json_t * argument, which may be NULL. */
  type Pointer = Option<Val>

  predicate IsLive(h: Heap, p: Pointer) {
    p.Some? && p.value.Ptr? && Live(h, p.value.id)
  }

  /** json_is_array, json_is_object */
  predicate IsArray(h: Heap, p: Pointer) {
    IsLive(h, p) && h[p.value.id].value.content.Items?
  }

  predicate IsObject(h: Heap, p: Pointer) {
    IsLive(h, p) && h[p.value.id].value.content.Table?
  }

  /** A pointer a caller may pass: NULL, a simple value, or a value that has not been freed. */
  predicate Usable(h: Heap, p: Pointer) {
    p.Some? && p.value.Ptr? ==> Live(h, p.value.id)
  }

  /** The caller owns the reference it passes. */
  ghost predicate Owned(held: multiset<nat>, p: Pointer) {
    p.Some? ==> One(p.value) <= held
  }

  function Given(p: Pointer): multiset<nat> {
    if p.Some? then One(p.value) else multiset{}
  }

  function Elements(h: Heap, p: Pointer): seq<Val>
    requires IsArray(h, p)
  {
    h[p.value.id].value.content.items
  }

  function Members(h: Heap, p: Pointer): seq<Member<Val>>
    requires IsObject(h, p)
  {
    h[p.value.id].value.content.members
  }

  function Serial(h: Heap, p: Pointer): nat
    requires IsObject(h, p)
  {
    h[p.value.id].value.content.serial
  }

  /** The container holds `c` now; apart from that, values have at most been freed. */
  ghost predicate Changed(h: Heap, h': Heap, p: Pointer, c: Content) {
    IsLive(h, p) && Shrunk(WithContent(h, p.value.id, c), h') && Live(h', p.value.id) &&
    h'[p.value.id].value.content == c
  }

  // ---- counting references in sequences

  lemma {:induction false} RefsConcat(a: seq<Val>, b: seq<Val>)
    ensures Refs(a + b) == Refs(a) + Refs(b)
  {
    hide One;
    if |a| == 0 {
      assert a + b == b;
    } else {
      RefsConcat(a[1..], b);
      assert (a + b)[1..] == a[1..] + b;
    }
  }

  lemma RefsOne(v: Val)
    ensures Refs([v]) == One(v)
  {
    assert Refs([v][1..]) == multiset{};
  }

  lemma RefsPut(vs: seq<Val>, i: nat, v: Val)
    requires i <= |vs|
    ensures Refs(vs[..i] + [v] + vs[i..]) == Refs(vs) + One(v)
  {
    hide Refs;
    RefsConcat(vs[..i], [v]);
    RefsConcat(vs[..i] + [v], vs[i..]);
    RefsConcat(vs[..i], vs[i..]);
    RefsOne(v);
    assert vs == vs[..i] + vs[i..];
  }

  lemma RefsTake(vs: seq<Val>, i: nat)
    requires i < |vs|
    ensures Refs(vs[..i] + vs[i + 1..]) + One(vs[i]) == Refs(vs)
  {
    hide Refs;
    RefsPut(vs[..i] + vs[i + 1..], i, vs[i]);
    var us := vs[..i] + vs[i + 1..];
    assert us[..i] == vs[..i] && us[i..] == vs[i + 1..];
    assert vs == vs[..i] + [vs[i]] + vs[i + 1..];
  }

  lemma RefsSet(vs: seq<Val>, i: nat, v: Val)
    requires i < |vs|
    ensures Refs(vs[i := v]) + One(vs[i]) == Refs(vs) + One(v)
  {
    hide Refs;
    RefsTake(vs, i);
    RefsTake(vs[i := v], i);
    assert vs[i := v][..i] == vs[..i] && vs[i := v][i + 1..] == vs[i + 1..];
  }

  /** References move between the caller's hands and a container, and none is lost. */
  ghost predicate Moved(held: multiset<nat>, before: seq<Val>, held': multiset<nat>, after: seq<Val>) {
    forall x: nat :: held'[x] + Refs(after)[x] == held[x] + Refs(before)[x]
  }

  /** References `a` come out of the caller's hands and into a container, references `b` the other way. */
  lemma Books(held: multiset<nat>, a: multiset<nat>, b: multiset<nat>, before: multiset<nat>, after: multiset<nat>)
    requires a <= held && after + b == before + a
    ensures forall x: nat :: (held - a + b)[x] + after[x] == held[x] + before[x]
  {
    forall x: nat
      ensures (held - a + b)[x] + after[x] == held[x] + before[x]
    {
      assert (after + b)[x] == (before + a)[x];
    }
  }

  // ---- steps

  /** The content of a live value changes, and references move between it and the caller's hands. */
  method SetContent(st: Store, id: nat, c: Content, ghost held: multiset<nat>)
    requires st.Valid() && Live(st.heap, id)
    requires Moved(st.held, Inside(st.heap[id].value.content), held, Inside(c))
    modifies st
    ensures st.Valid() && st.held == held && st.heap == WithContent(old(st.heap), id, c)
  {
    hide Balanced, Refs, Inside;
    var o := Some(Cell(st.heap[id].value.refcount, c));
    BalancedUpdate(st.heap, st.held, held, id, o);
    st.heap := st.heap[id := o];
    st.held := held;
  }

  /** json_decref between calls. */
  method Drop(st: Store, v: Val)
    requires st.Valid() && One(v) <= st.held
    modifies st
    ensures st.Valid() && st.held == old(st.held) - One(v)
    ensures Shrunk(old(st.heap), st.heap) && CyclesKept(old(st.heap), st.heap)
  {
    hide Balanced, CyclesKept;
    st.Decref(v);
    NoneDyingShrunk(old(st.heap), st.heap);
  }

  lemma NoneDyingShrunk(h: Heap, h': Heap)
    requires NoneDying(h) && Shrunk(h, h')
    ensures NoneDying(h')
  {
    forall id | 0 <= id < |h'| && h'[id].Some?
      ensures h'[id].value.refcount > 0
    {
      assert Dying(h', id) ==> Dying(h, id);
    }
  }

  /** json_decref of an argument that may be NULL. */
  method DropPointer(st: Store, p: Pointer)
    requires st.Valid() && Owned(st.held, p)
    modifies st
    ensures st.Valid() && st.held == old(st.held) - Given(p) && Shrunk(old(st.heap), st.heap)
  {
    hide Balanced, Shrunk;
    ShrunkSame(st.heap);
    if p.Some? {
      Drop(st, p.value);
    }
  }

  /** Between the change of a container and the end of the call, values may be freed, but not the
      container, which can be reached from what the caller holds. */
  lemma StillChanged(h: Heap, h1: Heap, h2: Heap, held: multiset<nat>, p: Pointer, c: Content)
    requires IsLive(h, p) && h1 == WithContent(h, p.value.id, c) && Shrunk(h1, h2)
    requires Balanced(h2, held) && Reachable(h, held, p.value.id)
    ensures Changed(h, h2, p, c)
  {
    hide Balanced, Reachable;
    ContainerLives(h, h2, held, p.value.id, c);
  }

  lemma JustChanged(h: Heap, p: Pointer, c: Content)
    requires IsLive(h, p)
    ensures Changed(h, WithContent(h, p.value.id, c), p, c)
  {
    ShrunkSame(WithContent(h, p.value.id, c));
  }

  /** A container gets content `c`, in which `value` stands where `was` stood; that is dropped.  The
      original drops it first: nothing reads the container in between. */
  method Replace(st: Store, json: Pointer, c: Content, value: Val, was: Val)
    requires st.Valid() && IsLive(st.heap, json) && One(value) <= st.held
    requires Reachable(st.heap, st.held - One(value), json.value.id)
    requires Moved(st.held, Inside(st.heap[json.value.id].value.content), st.held - One(value) + One(was), Inside(c))
    modifies st
    ensures st.Valid() && st.held == old(st.held) - One(value)
    ensures Changed(old(st.heap), st.heap, json, c)
  {
    hide Balanced, Shrunk, Refs, Inside, Moved, Reachable;
    SetContent(st, json.value.id, c, st.held - One(value) + One(was));
    ghost var h1 := st.heap;
    Drop(st, was);
    assert st.held == old(st.held) - One(value);
    StillChanged(old(st.heap), h1, st.heap, st.held, json, c);
  }

  // ---- arrays

  /** json_array_append_new */
  method ArrayAppendNew(st: Store, json: Pointer, value: Pointer) returns (r: int)
    requires st.Valid() && Usable(st.heap, json) && Owned(st.held, value)
    modifies st
    ensures st.Valid() && st.held == old(st.held) - Given(value)
    ensures r == if value.Some? && IsArray(old(st.heap), json) && json != value then 0 else -1
    ensures r == 0 ==> Changed(old(st.heap), st.heap, json, Items(Elements(old(st.heap), json) + [value.value]))
    ensures r == -1 ==> Shrunk(old(st.heap), st.heap)
  {
    hide Balanced, Shrunk, Refs;
    ShrunkSame(st.heap);
    if value.None? {
      return -1;
    }
    if !IsArray(st.heap, json) || json == value {
      DropPointer(st, value);
      return -1;
    }
    var id, vs := json.value.id, Elements(st.heap, json);
    RefsConcat(vs, [value.value]);
    RefsOne(value.value);
    JustChanged(st.heap, json, Items(vs + [value.value]));
    SetContent(st, id, Items(vs + [value.value]), st.held - One(value.value));
    r := 0;
  }

  /** json_array_insert_new */
  method ArrayInsertNew(st: Store, json: Pointer, index: nat, value: Pointer) returns (r: int)
    requires st.Valid() && Usable(st.heap, json) && Owned(st.held, value)
    modifies st
    ensures st.Valid() && st.held == old(st.held) - Given(value)
    ensures r == if value.Some? && IsArray(old(st.heap), json) && json != value &&
                    index <= |Elements(old(st.heap), json)|
                 then 0 else -1
    ensures r == 0 ==>
              var vs := Elements(old(st.heap), json);
              Changed(old(st.heap), st.heap, json, Items(vs[..index] + [value.value] + vs[index..]))
    ensures r == -1 ==> Shrunk(old(st.heap), st.heap)
  {
    hide Balanced, Shrunk, Refs;
    ShrunkSame(st.heap);
    if value.None? {
      return -1;
    }
    if !IsArray(st.heap, json) || json == value || index > |Elements(st.heap, json)| {
      DropPointer(st, value);
      return -1;
    }
    var id, vs := json.value.id, Elements(st.heap, json);
    RefsPut(vs, index, value.value);
    JustChanged(st.heap, json, Items(vs[..index] + [value.value] + vs[index..]));
    SetContent(st, id, Items(vs[..index] + [value.value] + vs[index..]), st.held - One(value.value));
    r := 0;
  }

  predicate HasIndex(h: Heap, json: Pointer, index: nat) {
    IsArray(h, json) && index < |Elements(h, json)|
  }

  /** json_array_set_new.  The array may be one that the caller has only borrowed: it must be possible to reach it
      from what the caller still holds when the value is given away. */
  method ArraySetNew(st: Store, json: Pointer, index: nat, value: Pointer) returns (r: int)
    requires st.Valid() && Owned(st.held, value) && Usable(st.heap, json)
    requires value.Some? && HasIndex(st.heap, json, index) && json != value ==>
               Reachable(st.heap, st.held - Given(value), json.value.id)
    modifies st
    ensures st.Valid() && st.held == old(st.held) - Given(value)
    ensures r == if value.Some? && HasIndex(old(st.heap), json, index) && json != value then 0 else -1
    ensures r == 0 ==>
              Changed(old(st.heap), st.heap, json, Items(Elements(old(st.heap), json)[index := value.value]))
    ensures r == -1 ==> Shrunk(old(st.heap), st.heap)
  {
    hide Balanced, Shrunk, Refs, Reachable;
    ShrunkSame(st.heap);
    if value.None? {
      return -1;
    }
    if !IsArray(st.heap, json) || json == value || index >= |Elements(st.heap, json)| {
      DropPointer(st, value);
      return -1;
    }
    var vs := Elements(st.heap, json);
    RefsSet(vs, index, value.value);
    Books(st.held, One(value.value), One(vs[index]), Refs(vs), Refs(vs[index := value.value]));
    Replace(st, json, Items(vs[index := value.value]), value.value, vs[index]);
    r := 0;
  }

  /** json_array_remove */
  method ArrayRemove(st: Store, json: Pointer, index: nat) returns (r: int)
    requires st.Valid() && Usable(st.heap, json)
    requires HasIndex(st.heap, json, index) ==> Reachable(st.heap, st.held, json.value.id)
    modifies st
    ensures st.Valid() && st.held == old(st.held)
    ensures r == if HasIndex(old(st.heap), json, index) then 0 else -1
    ensures r == 0 ==>
              var vs := Elements(old(st.heap), json);
              Changed(old(st.heap), st.heap, json, Items(vs[..index] + vs[index + 1..]))
    ensures r == -1 ==> st.heap == old(st.heap)
  {
    hide Balanced, Shrunk, Refs, Reachable;
    if !IsArray(st.heap, json) || index >= |Elements(st.heap, json)| {
      return -1;
    }
    var id, vs := json.value.id, Elements(st.heap, json);
    RefsTake(vs, index);
    SetContent(st, id, Items(vs[..index] + vs[index + 1..]), st.held + One(vs[index]));
    ghost var h1 := st.heap;
    Drop(st, vs[index]);
    assert st.held == old(st.held);
    StillChanged(old(st.heap), h1, st.heap, st.held, json, Items(vs[..index] + vs[index + 1..]));
    r := 0;
  }

  /** Drops a run of references. */
  method DropAll(st: Store, vs: seq<Val>)
    requires st.Valid() && Refs(vs) <= st.held
    modifies st
    ensures st.Valid() && st.held == old(st.held) - Refs(vs) && Shrunk(old(st.heap), st.heap)
  {
    hide Balanced, Shrunk, Refs;
    RefsEnd(vs);
    ShrunkSame(st.heap);
    for i := 0 to |vs|
      invariant st.Valid() && Shrunk(old(st.heap), st.heap)
      invariant Refs(vs[i..]) <= st.held && st.held - Refs(vs[i..]) == old(st.held) - Refs(vs)
    {
      RefsStep(vs, i);
      ghost var h := st.heap;
      Drop(st, vs[i]);
      ShrunkTwice(old(st.heap), h, st.heap);
    }
  }

  /** json_array_clear */
  method ArrayClear(st: Store, json: Pointer) returns (r: int)
    requires st.Valid() && Usable(st.heap, json)
    requires IsArray(st.heap, json) ==> Reachable(st.heap, st.held, json.value.id)
    modifies st
    ensures st.Valid() && st.held == old(st.held)
    ensures r == if IsArray(old(st.heap), json) then 0 else -1
    ensures r == 0 ==> Changed(old(st.heap), st.heap, json, Items([]))
    ensures r == -1 ==> st.heap == old(st.heap)
  {
    hide Balanced, Shrunk, Reachable;
    if !IsArray(st.heap, json) {
      return -1;
    }
    var id, vs := json.value.id, Elements(st.heap, json);
    SetContent(st, id, Items([]), st.held + Refs(vs));
    ghost var h1 := st.heap;
    DropAll(st, vs);
    assert st.held == old(st.held);
    StillChanged(old(st.heap), h1, st.heap, st.held, json, Items([]));
    r := 0;
  }

  /** Only counts have changed. */
  ghost predicate Recounted(h: Heap, h': Heap) {
    |h'| == |h| && forall id: nat :: id < |h| ==>
      if Live(h, id) then Live(h', id) && h'[id].value.content == h[id].value.content else h'[id] == h[id]
  }

  /** json_incref of a run of values. */
  method KeepAll(st: Store, vs: seq<Val>)
    requires st.Valid() && forall i :: 0 <= i < |vs| && vs[i].Ptr? ==> Live(st.heap, vs[i].id)
    modifies st
    ensures st.Valid() && st.held == old(st.held) + Refs(vs) && Recounted(old(st.heap), st.heap)
  {
    hide Balanced, Refs;
    RefsStart(vs);
    for i := 0 to |vs|
      invariant st.Valid() && Recounted(old(st.heap), st.heap) && st.held == old(st.held) + Refs(vs[..i])
    {
      RefsSoFar(vs, i);
      ghost var h := st.heap;
      st.Incref(vs[i]);
      if vs[i].Ptr? {
        RecountOne(h, vs[i].id);
      }
    }
    assert vs[..|vs|] == vs;
  }

  lemma RecountOne(h: Heap, id: nat)
    requires Live(h, id) && NoneDying(h)
    ensures var h' := h[id := Some(Cell(Count(h, id) + 1, h[id].value.content))];
            Recounted(h, h') && NoneDying(h')
  {
  }

  lemma RefsStart(vs: seq<Val>)
    ensures Refs(vs[..0]) == multiset{}
  {
  }

  lemma RefsSoFar(vs: seq<Val>, i: nat)
    requires i < |vs|
    ensures Refs(vs[..i + 1]) == Refs(vs[..i]) + One(vs[i])
  {
    RefsConcat(vs[..i], [vs[i]]);
    RefsOne(vs[i]);
    assert vs[..i + 1] == vs[..i] + [vs[i]];
  }

  /** What is in a live container is live. */
  lemma InsideIsLive(h: Heap, held: multiset<nat>, id: nat)
    requires Balanced(h, held) && Live(h, id)
    ensures forall i :: 0 <= i < |Inside(h[id].value.content)| && Inside(h[id].value.content)[i].Ptr? ==>
              Live(h, Inside(h[id].value.content)[i].id)
  {
    hide Inside, Refs, Total;
    var vs := Inside(h[id].value.content);
    forall i | 0 <= i < |vs| && vs[i].Ptr?
      ensures Live(h, vs[i].id)
    {
      InRefs(vs, i);
      InTotal(h, id, vs[i].id);
      assert Count(h, vs[i].id) == held[vs[i].id] + Total(h)[vs[i].id];
    }
  }

  lemma {:induction false} InRefs(vs: seq<Val>, i: nat)
    requires i < |vs| && vs[i].Ptr?
    ensures vs[i].id in Refs(vs)
  {
    if i > 0 {
      InRefs(vs[1..], i - 1);
    }
  }


  /** json_array_extend; the two arrays may be one. */
  method ArrayExtend(st: Store, json: Pointer, other: Pointer) returns (r: int)
    requires st.Valid() && Usable(st.heap, json) && Usable(st.heap, other)
    modifies st
    ensures st.Valid() && st.held == old(st.held)
    ensures r == if IsArray(old(st.heap), json) && IsArray(old(st.heap), other) then 0 else -1
    ensures r == 0 ==>
              Changed(old(st.heap), st.heap, json, Items(Elements(old(st.heap), json) + Elements(old(st.heap), other)))
    ensures r == 0 ==> forall id: nat :: Live(old(st.heap), id) ==> Live(st.heap, id)
    ensures r == -1 ==> st.heap == old(st.heap)
  {
    hide Balanced, Refs, Recounted, Shrunk;
    if !IsArray(st.heap, json) || !IsArray(st.heap, other) {
      return -1;
    }
    var id, vs, us := json.value.id, Elements(st.heap, json), Elements(st.heap, other);
    InsideIsLive(st.heap, st.held, other.value.id);
    assert us == Inside(st.heap[other.value.id].value.content);
    KeepAll(st, us);
    RefsConcat(vs, us);
    ghost var h1 := st.heap;
    RecountedLive(old(st.heap), h1, id);
    SetContent(st, id, Items(vs + us), st.held - Refs(us));
    RecountedChanged(old(st.heap), h1, json, Items(vs + us));
    r := 0;
  }

  lemma RecountedLive(h: Heap, h1: Heap, id: nat)
    requires Recounted(h, h1) && Live(h, id)
    ensures Live(h1, id) && h1[id].value.content == h[id].value.content
  {
  }

  lemma RecountedChanged(h: Heap, h1: Heap, p: Pointer, c: Content)
    requires Recounted(h, h1) && IsLive(h, p) && Live(h1, p.value.id)
    ensures Changed(h, WithContent(h1, p.value.id, c), p, c)
    ensures forall id: nat :: Live(h, id) ==> Live(WithContent(h1, p.value.id, c), id)
  {
  }

  // ---- creation

  /** json_array, json_object, json_string_nocheck, json_integer: a new value with one reference. */
  method New(st: Store, c: Content) returns (v: Val)
    requires st.Valid() && Inside(c) == []
    modifies st
    ensures st.Valid() && v == Ptr(|old(st.heap)|) && st.held == old(st.held) + One(v)
    ensures st.heap == old(st.heap) + [Some(Cell(1, c))]
  {
    hide Balanced, Refs, Inside;
    NewBalanced(st.heap, st.held, c);
    v := Ptr(|st.heap|);
    st.heap := st.heap + [Some(Cell(1, c))];
    st.held := st.held + multiset{v.id};
  }

  lemma NewBalanced(h: Heap, held: multiset<nat>, c: Content)
    requires Balanced(h, held) && Inside(c) == []
    ensures Balanced(h + [Some(Cell(1, c))], held + multiset{|h|})
  {
    hide Total, Inside;
    var h' := h + [Some(Cell(1, c))];
    TotalAppend(h, Some(Cell(1, c)));
    assert Count(h, |h|) == 0;
    forall x: nat
      ensures Count(h', x) == (held + multiset{|h|})[x] + Total(h')[x]
    {
      assert Count(h, x) == held[x] + Total(h)[x];
    }
  }
}
