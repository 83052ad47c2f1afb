/** Objects on the store of counted values: setting, deleting, clearing and updating members, with the books
    kept balanced, and what that means for the map an object stands for. */
module JsonObjects {
  import opened Bytes
  import opened Wrappers
  import opened JsonText
  import opened JsonStore
  import opened JsonReach
  import opened JsonOwnership

  /** The members after hashtable_set: a key keeps its serial number. */
  function Put(ms: seq<Member<Val>>, key: CString, serial: nat, v: Val): seq<Member<Val>> {
    var i := Find(ms, key);
    if i < |ms| then ms[i := ms[i].(value := v)] else ms + [Member(key, serial, v)]
  }

  function Without(ms: seq<Member<Val>>, i: nat): seq<Member<Val>>
    requires i < |ms|
  {
    ms[..i] + ms[i + 1..]
  }

  function Vals(ms: seq<Member<Val>>): seq<Val> {
    Inside(Table(0, ms))
  }

  lemma ValsPut(ms: seq<Member<Val>>, i: nat, m: Member<Val>)
    requires i < |ms|
    ensures Vals(ms[i := m]) == Vals(ms)[i := m.value]
    ensures Vals(Without(ms, i)) == Vals(ms)[..i] + Vals(ms)[i + 1..]
  {
  }

  lemma ValsAppend(ms: seq<Member<Val>>, m: Member<Val>)
    ensures Vals(ms + [m]) == Vals(ms) + [m.value]
  {
  }

  /** What the arguments of json_object_set_new_nocheck must be for the object to be touched. */
  predicate Settable(h: Heap, json: Pointer, key: Option<CString>, value: Pointer) {
    value.Some? && key.Some? && IsObject(h, json) && json != value
  }

  /** json_object_set_new_nocheck.  The key that is already there keeps its place and serial; the object's
      serial counter goes up all the same.  The object may be one that the caller has only borrowed. */
  method ObjectSetNew(st: Store, json: Pointer, key: Option<CString>, value: Pointer) returns (r: int)
    requires st.Valid() && Owned(st.held, value) && Usable(st.heap, json)
    requires Settable(st.heap, json, key, value) ==> Reachable(st.heap, st.held - Given(value), json.value.id)
    modifies st
    ensures st.Valid() && st.held == old(st.held) - Given(value)
    ensures r == if Settable(old(st.heap), json, key, value) then 0 else -1
    ensures r == 0 ==>
              Changed(old(st.heap), st.heap, json,
                      Table(Serial(old(st.heap), json) + 1,
                            Put(Members(old(st.heap), json), key.value, Serial(old(st.heap), json), value.value)))
    ensures r == -1 ==> Shrunk(old(st.heap), st.heap)
  {
    hide Balanced, Shrunk, Refs, Inside, Moved, Reachable, Put, Changed;
    ShrunkSame(st.heap);
    if value.None? {
      return -1;
    }
    if key.None? || !IsObject(st.heap, json) || json == value {
      DropPointer(st, value);
      return -1;
    }
    SetMember(st, json, key.value, value.value);
    r := 0;
  }

  /** hashtable_set, with the object's next serial number. */
  method SetMember(st: Store, json: Pointer, key: CString, value: Val)
    requires st.Valid() && IsObject(st.heap, json) && One(value) <= st.held
    requires Reachable(st.heap, st.held - One(value), json.value.id)
    modifies st
    ensures st.Valid() && st.held == old(st.held) - One(value)
    ensures Changed(old(st.heap), st.heap, json,
                    Table(Serial(old(st.heap), json) + 1,
                          Put(Members(old(st.heap), json), key, Serial(old(st.heap), json), value)))
  {
    hide Balanced, Shrunk, Refs, Inside, Moved, Reachable, Changed;
    var id, ms, serial := json.value.id, Members(st.heap, json), Serial(st.heap, json);
    var i := Find(ms, key);
    SameVals(serial, ms);
    if i < |ms| {
      var ms' := ms[i := ms[i].(value := value)];
      SameVals(serial + 1, ms');
      ReplaceBooks(ms, i, value, st.held);
      Replace(st, json, Table(serial + 1, ms'), value, ms[i].value);
    } else {
      var ms' := ms + [Member(key, serial, value)];
      SameVals(serial + 1, ms');
      AppendBooks(ms, Member(key, serial, value), st.held);
      JustChanged(st.heap, json, Table(serial + 1, ms'));
      SetContent(st, id, Table(serial + 1, ms'), st.held - One(value));
    }
  }

  lemma SameVals(serial: nat, ms: seq<Member<Val>>)
    ensures Inside(Table(serial, ms)) == Vals(ms)
  {
  }

  lemma ReplaceBooks(ms: seq<Member<Val>>, i: nat, v: Val, held: multiset<nat>)
    requires i < |ms| && One(v) <= held
    ensures Moved(held, Vals(ms), held - One(v) + One(ms[i].value), Vals(ms[i := ms[i].(value := v)]))
  {
    hide Refs, Inside;
    ValsPut(ms, i, ms[i].(value := v));
    ValueAt(ms, i);
    RefsSet(Vals(ms), i, v);
    Books(held, One(v), One(ms[i].value), Refs(Vals(ms)), Refs(Vals(ms)[i := v]));
  }

  lemma ValueAt(ms: seq<Member<Val>>, i: nat)
    requires i < |ms|
    ensures |Vals(ms)| == |ms| && Vals(ms)[i] == ms[i].value
  {
  }

  lemma AppendBooks(ms: seq<Member<Val>>, m: Member<Val>, held: multiset<nat>)
    requires One(m.value) <= held
    ensures Moved(held, Vals(ms), held - One(m.value), Vals(ms + [m]))
  {
    hide Refs, Inside;
    ValsAppend(ms, m);
    RefsConcat(Vals(ms), [m.value]);
    RefsOne(m.value);
  }

  lemma TakeBooks(ms: seq<Member<Val>>, i: nat, held: multiset<nat>)
    requires i < |ms|
    ensures Moved(held, Vals(ms), held + One(ms[i].value), Vals(Without(ms, i)))
  {
    hide Refs, Inside;
    ValsPut(ms, i, ms[i]);
    ValueAt(ms, i);
    RefsTake(Vals(ms), i);
  }

  predicate HasKey(h: Heap, json: Pointer, key: CString) {
    IsObject(h, json) && Find(Members(h, json), key) < |Members(h, json)|
  }

  /** json_object_del */
  method ObjectDel(st: Store, json: Pointer, key: CString) returns (r: int)
    requires st.Valid() && Usable(st.heap, json)
    requires HasKey(st.heap, json, key) ==> Reachable(st.heap, st.held, json.value.id)
    modifies st
    ensures st.Valid() && st.held == old(st.held)
    ensures r == if HasKey(old(st.heap), json, key) then 0 else -1
    ensures r == 0 ==>
              var ms := Members(old(st.heap), json);
              Changed(old(st.heap), st.heap, json, Table(Serial(old(st.heap), json), Without(ms, Find(ms, key))))
    ensures r == -1 ==> st.heap == old(st.heap)
  {
    hide Balanced, Shrunk, Refs, Inside, Moved, Reachable;
    if !IsObject(st.heap, json) || Find(Members(st.heap, json), key) == |Members(st.heap, json)| {
      return -1;
    }
    var id, ms, serial := json.value.id, Members(st.heap, json), Serial(st.heap, json);
    var i := Find(ms, key);
    SameVals(serial, ms);
    SameVals(serial, Without(ms, i));
    TakeBooks(ms, i, st.held);
    SetContent(st, id, Table(serial, Without(ms, i)), st.held + One(ms[i].value));
    ghost var h1 := st.heap;
    Drop(st, ms[i].value);
    assert st.held == old(st.held);
    StillChanged(old(st.heap), h1, st.heap, st.held, json, Table(serial, Without(ms, i)));
    r := 0;
  }

  /** json_object_clear */
  method ObjectClear(st: Store, json: Pointer) returns (r: int)
    requires st.Valid() && Usable(st.heap, json)
    requires IsObject(st.heap, json) ==> Reachable(st.heap, st.held, json.value.id)
    modifies st
    ensures st.Valid() && st.held == old(st.held)
    ensures r == if IsObject(old(st.heap), json) then 0 else -1
    ensures r == 0 ==> Changed(old(st.heap), st.heap, json, Table(0, []))
    ensures r == -1 ==> st.heap == old(st.heap)
  {
    hide Balanced, Shrunk, Reachable;
    if !IsObject(st.heap, json) {
      return -1;
    }
    var id := json.value.id;
    var vs := Inside(st.heap[id].value.content);
    SetContent(st, id, Table(0, []), st.held + Refs(vs));
    ghost var h1 := st.heap;
    DropAll(st, vs);
    assert st.held == old(st.held);
    StillChanged(old(st.heap), h1, st.heap, st.held, json, Table(0, []));
    r := 0;
  }

  /** json_object_set_nocheck: the caller keeps its reference to the value. */
  method ObjectSet(st: Store, json: Pointer, key: Option<CString>, value: Pointer) returns (r: int)
    requires st.Valid() && Usable(st.heap, json) && Usable(st.heap, value)
    requires Settable(st.heap, json, key, value) ==> Reachable(st.heap, st.held, json.value.id)
    modifies st
    ensures st.Valid() && st.held == old(st.held)
    ensures r == if Settable(old(st.heap), json, key, value) then 0 else -1
    ensures r == 0 ==>
              Changed(old(st.heap), st.heap, json,
                      Table(Serial(old(st.heap), json) + 1,
                            Put(Members(old(st.heap), json), key.value, Serial(old(st.heap), json), value.value)))
    ensures r == -1 ==> Shrunk(old(st.heap), st.heap)
  {
    hide Balanced, Refs, Recounted, Changed, Shrunk, Put, IsObject, Usable, IsLive, Members, Serial, Reachable,
         Settable;
    ghost var h, held := st.heap, st.held;
    KeepPointer(st, value);
    ghost var h1 := st.heap;
    assert st.held - Given(value) == held;
    NotLiveThen(h, h1, json);
    SettableThen(h, h1, held, json, key, value);
    r := ObjectSetNew(st, json, key, value);
    if r == 0 {
      SetThen(h, h1, st.heap, json, key, value);
    } else {
      RecountedShrunk(h, h1, st.heap);
    }
  }

  /** json_incref of an argument that may be NULL. */
  method KeepPointer(st: Store, p: Pointer)
    requires st.Valid() && Usable(st.heap, p)
    modifies st
    ensures st.Valid() && st.held == old(st.held) + Given(p) && Recounted(old(st.heap), st.heap)
  {
    hide Balanced, Refs, Recounted;
    SameCounts(st.heap);
    if p.Some? {
      KeepAll(st, [p.value]);
      RefsOne(p.value);
    }
  }

  lemma SetThen(h: Heap, h1: Heap, h2: Heap, json: Pointer, key: Option<CString>, value: Pointer)
    requires Recounted(h, h1) && Settable(h1, json, key, value) && Settable(h, json, key, value)
    requires Changed(h1, h2, json,
                     Table(Serial(h1, json) + 1, Put(Members(h1, json), key.value, Serial(h1, json), value.value)))
    ensures Changed(h, h2, json, Table(Serial(h, json) + 1,
                                       Put(Members(h, json), key.value, Serial(h, json), value.value)))
  {
    hide Recounted, Changed, Put;
    NotLiveThen(h, h1, json);
    RecountedThen(h, h1, h2, json,
                  Table(Serial(h, json) + 1, Put(Members(h, json), key.value, Serial(h, json), value.value)));
  }

  /** Counting a reference more changes nothing about what can be reached. */
  lemma SettableThen(h: Heap, h1: Heap, held: multiset<nat>, json: Pointer, key: Option<CString>, value: Pointer)
    requires Recounted(h, h1) && Usable(h, json)
    requires Settable(h, json, key, value) ==> Reachable(h, held, json.value.id)
    ensures Settable(h1, json, key, value) <==> Settable(h, json, key, value)
    ensures Settable(h1, json, key, value) ==> Reachable(h1, held, json.value.id)
  {
    hide Reachable, Recounted;
    NotLiveThen(h, h1, json);
    if Settable(h, json, key, value) {
      RecountedReach(h, h1, held, json.value.id);
    }
  }

  lemma RecountedReach(h: Heap, h1: Heap, held: multiset<nat>, id: nat)
    requires Recounted(h, h1) && Reachable(h, held, id)
    ensures Reachable(h1, held, id)
  {
    hide Refs, Inside;
    var p :| ReachableBy(h, held, id, p);
    forall i | 0 <= i < |p| - 1
      ensures Edge(h1, p[i], p[i + 1])
    {
      assert Edge(h, p[i], p[i + 1]);
    }
    assert ReachableBy(h1, held, id, p);
  }

  lemma SameCounts(h: Heap)
    ensures Recounted(h, h)
  {
  }

  lemma NotLiveThen(h: Heap, h1: Heap, p: Pointer)
    requires Recounted(h, h1) && Usable(h, p)
    ensures Usable(h1, p) && (IsObject(h1, p) <==> IsObject(h, p))
    ensures IsObject(h, p) ==> IsLive(h, p) && Members(h1, p) == Members(h, p) && Serial(h1, p) == Serial(h, p)
  {
  }

  lemma RecountedThen(h: Heap, h1: Heap, h2: Heap, p: Pointer, c: Content)
    requires Recounted(h, h1) && IsLive(h, p) && Changed(h1, h2, p, c)
    ensures Changed(h, h2, p, c)
  {
    RecountedShrunk(WithContent(h, p.value.id, c), WithContent(h1, p.value.id, c), h2);
  }

  lemma RecountedShrunk(h: Heap, h1: Heap, h2: Heap)
    requires Recounted(h, h1) && Shrunk(h1, h2)
    ensures Shrunk(h, h2)
  {
  }

  // ---- json_object_update

  /** The members after the first `n` of `us` have been set. */
  function Updated(ms: seq<Member<Val>>, serial: nat, us: seq<Member<Val>>, n: nat): seq<Member<Val>>
    requires n <= |us|
  {
    if n == 0 then ms else Put(Updated(ms, serial, us, n - 1), us[n - 1].key, serial + n - 1, us[n - 1].value)
  }

  /** The position of the first member whose value is the object that is updated, or the length. */
  function FirstSelf(us: seq<Member<Val>>, v: Val): (n: nat)
    ensures n <= |us| && (n < |us| ==> us[n].value == v)
    ensures forall i :: 0 <= i < n ==> us[i].value != v
  {
    if |us| == 0 || us[0].value == v then 0 else 1 + FirstSelf(us[1..], v)
  }

  lemma FirstSelfAt(us: seq<Member<Val>>, v: Val, i: nat)
    requires i <= |us| && (forall j :: 0 <= j < i ==> us[j].value != v) && (i == |us| || us[i].value == v)
    ensures FirstSelf(us, v) == i
  {
    var n := FirstSelf(us, v);
  }

  /** The heap when the first `n` members have been set and nothing has been freed yet. */
  ghost function AfterSetting(h: Heap, json: Pointer, other: Pointer, n: nat): Heap
    requires IsObject(h, json) && IsObject(h, other) && n <= |Members(h, other)|
  {
    WithContent(h, json.value.id,
                Table(Serial(h, json) + n, Updated(Members(h, json), Serial(h, json), Members(h, other), n)))
  }

  /** The other object can be reached at each of the first `n` turns of the loop, and after them. */
  ghost predicate OutlivesTurns(h: Heap, held: multiset<nat>, json: Pointer, other: Pointer, n: nat)
    requires IsObject(h, json) && IsObject(h, other) && n <= |Members(h, other)|
  {
    forall m :: 0 <= m <= n ==> Reachable(AfterSetting(h, json, other, m), held, other.value.id)
  }

  /** The other object is not freed by what is set. */
  ghost predicate Outlives(h: Heap, held: multiset<nat>, json: Pointer, other: Pointer)
    requires IsObject(h, json) && IsObject(h, other)
  {
    OutlivesTurns(h, held, json, other, FirstSelf(Members(h, other), json.value))
  }

  /** What is set leaves no cycle that nobody can get at. */
  ghost predicate CyclesStayInReach(h: Heap, held: multiset<nat>, json: Pointer, other: Pointer)
    requires IsObject(h, json) && IsObject(h, other)
  {
    forall n :: 0 <= n <= FirstSelf(Members(h, other), json.value) ==>
      CyclesInReach(AfterSetting(h, json, other, n), held)
  }

  /** The object with the first `n` members of the other one set. */
  ghost predicate UpdatedBy(h: Heap, h': Heap, json: Pointer, other: Pointer, n: nat)
    requires IsObject(h, json) && IsObject(h, other) && n <= |Members(h, other)|
  {
    Changed(h, h', json, Table(Serial(h, json) + n, Updated(Members(h, json), Serial(h, json), Members(h, other), n)))
  }

  /** The other object was freed when the first `n` members had been set. */
  ghost predicate FreedAt(h: Heap, h': Heap, json: Pointer, other: Pointer, n: nat)
    requires IsObject(h, json) && IsObject(h, other)
  {
    0 < n <= FirstSelf(Members(h, other), json.value) && UpdatedBy(h, h', json, other, n) && !Live(h', other.value.id)
  }

  /** json_object_update: sets the members of another object, and stops with an error at one that is the object
      itself.  Both objects may be borrowed.  When what is set frees the other object, the model stops and says so,
      where the loop of the original goes on with the iterator of a freed table.  That never happens to an object
      that outlives the update, and always to one that does not, if no cycle gets out of reach. */
  method ObjectUpdate(st: Store, json: Pointer, other: Pointer) returns (r: int, dangling: bool)
    requires st.Valid() && Usable(st.heap, json) && Usable(st.heap, other)
    requires IsObject(st.heap, json) && IsObject(st.heap, other) ==> Reachable(st.heap, st.held, json.value.id)
    requires json == other && IsObject(st.heap, json) ==> Unique(Members(st.heap, json))
    modifies st
    ensures st.Valid() && st.held == old(st.held)
    ensures IsObject(old(st.heap), json) && IsObject(old(st.heap), other) && !dangling ==>
              var n := FirstSelf(Members(old(st.heap), other), json.value);
              r == (if n == |Members(old(st.heap), other)| then 0 else -1) &&
              UpdatedBy(old(st.heap), st.heap, json, other, n)
    ensures IsObject(old(st.heap), json) && IsObject(old(st.heap), other) && dangling ==>
              exists n :: FreedAt(old(st.heap), st.heap, json, other, n)
    ensures IsObject(old(st.heap), json) && IsObject(old(st.heap), other) && dangling ==>
              !Outlives(old(st.heap), st.held, json, other)
    ensures IsObject(old(st.heap), json) && IsObject(old(st.heap), other) &&
            CyclesStayInReach(old(st.heap), st.held, json, other) ==>
              (dangling <==> !Outlives(old(st.heap), st.held, json, other))
    ensures !(IsObject(old(st.heap), json) && IsObject(old(st.heap), other)) ==>
              r == -1 && !dangling && st.heap == old(st.heap)
  {
    hide Balanced, Changed, Shrunk, Updated, Unique, IsObject, FirstSelf, Usable, Reachable, Settable, Live;
    hide Outlives, OutlivesTurns, CyclesStayInReach, UpdatedBy, FreedAt;
    if !IsObject(st.heap, json) || !IsObject(st.heap, other) {
      return -1, false;
    }
    ghost var h, held, ms, serial := st.heap, st.held, Members(st.heap, json), Serial(st.heap, json);
    var us := Members(st.heap, other);
    UpdateStart(h, held, json, other, ms, serial, us);
    for i := 0 to |us|
      invariant st.Valid() && st.held == held && Usable(st.heap, json)
      invariant UpdatedSoFar(h, st.heap, json, other, ms, serial, us, i)
      invariant CyclesStayInReach(h, held, json, other) ==> OutlivesTurns(h, held, json, other, i)
    {
      ghost var h1 := st.heap;
      UpdateValue(h, h1, held, json, other, ms, serial, us, i);
      r := ObjectSet(st, json, Some(us[i].key), Some(us[i].value));
      if r != 0 {
        UpdateStops(h, h1, st.heap, held, json, other, ms, serial, us, i);
        UpdateOver(h, st.heap, held, json, other, i);
        return -1, false;
      }
      UpdateTurn(h, h1, st.heap, json, other, ms, serial, us, i);
      if !Usable(st.heap, other) {
        OtherGone(h, st.heap, held, json, other, i + 1);
        return -1, true;
      }
      UpdateNext(h, h1, st.heap, json, other, ms, serial, us, i);
      OtherReached(h, st.heap, held, json, other, i + 1);
    }
    UpdateEnds(h, st.heap, json, other, ms, serial, us);
    UpdateOver(h, st.heap, held, json, other, |us|);
    return 0, false;
  }

  /** The first `i` members are set, and the members of the other object are still those they were. */
  ghost predicate UpdatedSoFar(h: Heap, h': Heap, json: Pointer, other: Pointer, ms: seq<Member<Val>>, serial: nat,
                               us: seq<Member<Val>>, i: nat)
    requires i <= |us|
  {
    && json.Some? && (forall j :: 0 <= j < i ==> us[j].value != json.value)
    && Changed(h, h', json, Table(serial + i, Updated(ms, serial, us, i)))
    && IsObject(h', other) && Members(h', other) == us && (json == other ==> Unique(us))
  }

  lemma UpdateStart(h: Heap, held: multiset<nat>, json: Pointer, other: Pointer, ms: seq<Member<Val>>, serial: nat,
                    us: seq<Member<Val>>)
    requires IsObject(h, json) && IsObject(h, other) && ms == Members(h, json) && serial == Serial(h, json)
    requires us == Members(h, other) && (json == other ==> Unique(us)) && Balanced(h, held)
    ensures UpdatedSoFar(h, h, json, other, ms, serial, us, 0) && IsLive(h, json)
    ensures CyclesStayInReach(h, held, json, other) ==> OutlivesTurns(h, held, json, other, 0)
  {
    hide Balanced, Reachable, CyclesInReach, Shrunk, FirstSelf;
    assert WithContent(h, json.value.id, Table(serial, ms)) == h;
    ShrunkSame(h);
    assert AfterSetting(h, json, other, 0) == h;
    if CyclesStayInReach(h, held, json, other) {
      assert CyclesInReach(AfterSetting(h, json, other, 0), held);
      LiveWasReachable(h, h, held, other.value.id);
    }
  }

  /** The next value is live, and the object is still one. */
  lemma UpdateValue(h: Heap, h1: Heap, held: multiset<nat>, json: Pointer, other: Pointer, ms: seq<Member<Val>>,
                    serial: nat, us: seq<Member<Val>>, i: nat)
    requires Balanced(h1, held) && i < |us| && UpdatedSoFar(h, h1, json, other, ms, serial, us, i)
    requires IsLive(h, json) && Reachable(h, held, json.value.id)
    ensures Usable(h1, Some(us[i].value)) && IsObject(h1, json) && IsLive(h1, json) &&
            Reachable(h1, held, json.value.id)
    ensures Members(h1, json) == Updated(ms, serial, us, i) && Serial(h1, json) == serial + i
    ensures Settable(h1, json, Some(us[i].key), Some(us[i].value)) <==> json != Some(us[i].value)
  {
    hide Balanced, Inside, Updated, Shrunk, Unique, Reachable;
    ContainerLives(h, h1, held, json.value.id, Table(serial + i, Updated(ms, serial, us, i)));
    InsideIsLive(h1, held, other.value.id);
    SameVals(Serial(h1, other), us);
    ValueAt(us, i);
  }

  lemma UpdateStops(h: Heap, h1: Heap, h2: Heap, held: multiset<nat>, json: Pointer, other: Pointer,
                    ms: seq<Member<Val>>, serial: nat, us: seq<Member<Val>>, i: nat)
    requires i < |us| && UpdatedSoFar(h, h1, json, other, ms, serial, us, i) && Shrunk(h1, h2) && Balanced(h2, held)
    requires json == Some(us[i].value) && IsLive(h1, json) && Reachable(h1, held, json.value.id)
    ensures FirstSelf(us, json.value) == i
    ensures Changed(h, h2, json, Table(serial + i, Updated(ms, serial, us, i)))
  {
    hide Updated, FirstSelf, Shrunk, Reachable, Balanced;
    FirstSelfAt(us, json.value, i);
    ShrunkReachable(h1, h2, held, json.value.id);
    IfReachable(h2, held, json.value.id);
    ChangedShrunk(h, h1, h2, json, Table(serial + i, Updated(ms, serial, us, i)));
  }

  lemma ChangedShrunk(h: Heap, h1: Heap, h2: Heap, p: Pointer, c: Content)
    requires Changed(h, h1, p, c) && Shrunk(h1, h2) && Usable(h2, p)
    ensures Changed(h, h2, p, c)
  {
    ShrunkTwice(WithContent(h, p.value.id, c), h1, h2);
  }

  lemma ChangedTwice(h: Heap, h1: Heap, h2: Heap, p: Pointer, c: Content, d: Content)
    requires Changed(h, h1, p, c) && Changed(h1, h2, p, d)
    ensures Changed(h, h2, p, d)
  {
    ShrunkContent(h, h1, p.value.id, c, d);
    ShrunkTwice(WithContent(h, p.value.id, d), WithContent(h1, p.value.id, d), h2);
  }

  lemma ShrunkContent(h: Heap, h1: Heap, id: nat, c: Content, d: Content)
    requires Live(h, id) && Live(h1, id) && Shrunk(WithContent(h, id, c), h1)
    ensures Shrunk(WithContent(h, id, d), WithContent(h1, id, d))
  {
    var a, a', b := WithContent(h, id, c), WithContent(h, id, d), WithContent(h1, id, d);
    assert forall x: nat :: x < |h| && x != id ==> a[x] == a'[x] == h[x] && b[x] == h1[x];
    assert forall x: nat :: Live(b, x) <==> Live(h1, x);
    assert forall x: nat :: Dying(b, x) ==> x != id && Dying(h1, x);
  }

  /** Another live value is as it was. */
  lemma OtherKept(h1: Heap, h2: Heap, p: Pointer, other: Pointer, c: Content)
    requires Changed(h1, h2, p, c) && IsObject(h1, other) && Usable(h2, other) && other != p
    ensures IsObject(h2, other) && Members(h2, other) == Members(h1, other)
  {
  }

  /** Setting a key to the value it has changes no member. */
  lemma {:induction false} PutSame(ms: seq<Member<Val>>, i: nat, serial: nat)
    requires Unique(ms) && i < |ms|
    ensures Put(ms, ms[i].key, serial, ms[i].value) == ms
  {
    var j := Find(ms, ms[i].key);
    assert j == i;
  }

  lemma {:induction false} UpdatedSame(ms: seq<Member<Val>>, serial: nat, n: nat)
    requires Unique(ms) && n <= |ms|
    ensures Updated(ms, serial, ms, n) == ms
  {
    hide Put;
    if n > 0 {
      UpdatedSame(ms, serial, n - 1);
      PutSame(ms, n - 1, serial + n - 1);
    }
  }

  /** One more member is set. */
  lemma UpdateTurn(h: Heap, h1: Heap, h2: Heap, json: Pointer, other: Pointer, ms: seq<Member<Val>>, serial: nat,
                   us: seq<Member<Val>>, i: nat)
    requires i < |us| && UpdatedSoFar(h, h1, json, other, ms, serial, us, i)
    requires json != Some(us[i].value) && IsObject(h1, json) && IsObject(h, json) && IsObject(h, other)
    requires ms == Members(h, json) && serial == Serial(h, json) && us == Members(h, other)
    requires Changed(h1, h2, json,
                     Table(Serial(h1, json) + 1, Put(Members(h1, json), us[i].key, Serial(h1, json), us[i].value)))
    ensures UpdatedBy(h, h2, json, other, i + 1) && Usable(h2, json)
    ensures i < FirstSelf(us, json.value)
  {
    hide Put, Shrunk, Unique, FirstSelf, Updated;
    var c, d := Table(serial + i, Updated(ms, serial, us, i)), Table(serial + i + 1, Updated(ms, serial, us, i + 1));
    UpdatedOne(ms, serial, us, i);
    ChangedTwice(h, h1, h2, json, c, d);
    assert FirstSelf(us, json.value) >= i;
    assert FirstSelf(us, json.value) != i;
  }

  /** With the other object still there, the loop goes on. */
  lemma UpdateNext(h: Heap, h1: Heap, h2: Heap, json: Pointer, other: Pointer, ms: seq<Member<Val>>, serial: nat,
                   us: seq<Member<Val>>, i: nat)
    requires i < |us| && UpdatedSoFar(h, h1, json, other, ms, serial, us, i)
    requires json != Some(us[i].value) && IsObject(h1, json) && IsObject(h, json) && IsObject(h, other)
    requires ms == Members(h, json) && serial == Serial(h, json) && us == Members(h, other)
    requires Changed(h1, h2, json,
                     Table(Serial(h1, json) + 1, Put(Members(h1, json), us[i].key, Serial(h1, json), us[i].value)))
    requires UpdatedBy(h, h2, json, other, i + 1) && Usable(h2, other)
    ensures UpdatedSoFar(h, h2, json, other, ms, serial, us, i + 1)
  {
    hide Put, Shrunk, Unique, Updated;
    UpdatedOne(ms, serial, us, i);
    if json == other {
      PutSame(us, i, serial + i);
    } else {
      OtherKept(h1, h2, json, other, Table(serial + i + 1, Updated(ms, serial, us, i + 1)));
    }
  }

  lemma UpdatedOne(ms: seq<Member<Val>>, serial: nat, us: seq<Member<Val>>, i: nat)
    requires i < |us|
    ensures Updated(ms, serial, us, i + 1) == Put(Updated(ms, serial, us, i), us[i].key, serial + i, us[i].value)
  {
  }

  /** The other object has been freed: nobody could reach it any more. */
  lemma OtherGone(h: Heap, h': Heap, held: multiset<nat>, json: Pointer, other: Pointer, n: nat)
    requires IsObject(h, json) && IsObject(h, other) && Balanced(h', held) && !Usable(h', other)
    requires 0 < n <= FirstSelf(Members(h, other), json.value) && UpdatedBy(h, h', json, other, n)
    ensures FreedAt(h, h', json, other, n) && !Outlives(h, held, json, other)
  {
    hide Shrunk, Balanced, Reachable, Updated, FirstSelf;
    var h0 := AfterSetting(h, json, other, n);
    ShrunkReachable(h0, h', held, other.value.id);
    if Reachable(h0, held, other.value.id) {
      IfReachable(h', held, other.value.id);
    }
  }

  /** It has not been freed: if every cycle can be reached, so can it. */
  lemma OtherReached(h: Heap, h': Heap, held: multiset<nat>, json: Pointer, other: Pointer, n: nat)
    requires IsObject(h, json) && IsObject(h, other) && Balanced(h', held) && Usable(h', other)
    requires 0 < n <= FirstSelf(Members(h, other), json.value) && UpdatedBy(h, h', json, other, n)
    requires CyclesStayInReach(h, held, json, other) ==> OutlivesTurns(h, held, json, other, n - 1)
    ensures CyclesStayInReach(h, held, json, other) ==> OutlivesTurns(h, held, json, other, n)
  {
    hide Shrunk, Balanced, Reachable, Updated, FirstSelf, CyclesInReach;
    if CyclesStayInReach(h, held, json, other) {
      LiveWasReachable(AfterSetting(h, json, other, n), h', held, other.value.id);
    }
  }

  /** The whole update is over. */
  lemma UpdateOver(h: Heap, h': Heap, held: multiset<nat>, json: Pointer, other: Pointer, n: nat)
    requires IsObject(h, json) && IsObject(h, other) && n == FirstSelf(Members(h, other), json.value)
    requires CyclesStayInReach(h, held, json, other) ==> OutlivesTurns(h, held, json, other, n)
    requires Changed(h, h', json, Table(Serial(h, json) + n,
                                        Updated(Members(h, json), Serial(h, json), Members(h, other), n)))
    ensures UpdatedBy(h, h', json, other, n)
    ensures CyclesStayInReach(h, held, json, other) ==> Outlives(h, held, json, other)
  {
    hide Changed, Updated, FirstSelf, OutlivesTurns, CyclesStayInReach;
  }

  /** At each turn, with no cycle left that nobody can get at, the other object is there exactly if it can be
      reached. */
  lemma OtherLivesExactly(h: Heap, h': Heap, held: multiset<nat>, json: Pointer, other: Pointer, n: nat)
    requires IsObject(h, json) && IsObject(h, other) && n <= |Members(h, other)|
    requires Balanced(h', held) && Shrunk(AfterSetting(h, json, other, n), h')
    requires forall p :: !DeadCycle(h', held, p)
    ensures Live(h', other.value.id) <==> Reachable(AfterSetting(h, json, other, n), held, other.value.id)
  {
    hide Shrunk, Balanced, Reachable, DeadCycle, AfterSetting, Live;
    LeaksAreCycles(h', held);
    SameReach(AfterSetting(h, json, other, n), h', held, other.value.id);
  }

  lemma UpdateEnds(h: Heap, h': Heap, json: Pointer, other: Pointer, ms: seq<Member<Val>>, serial: nat,
                   us: seq<Member<Val>>)
    requires UpdatedSoFar(h, h', json, other, ms, serial, us, |us|)
    ensures FirstSelf(us, json.value) == |us|
    ensures Changed(h, h', json, Table(serial + |us|, Updated(ms, serial, us, |us|)))
  {
    hide Updated, FirstSelf, Shrunk;
    FirstSelfAt(us, json.value, |us|);
  }

  // ---- when the other object outlives an update

  /** The members that setting the keys of `us` does not replace. */
  function Untouched(ms: seq<Member<Val>>, us: seq<Member<Val>>): seq<Member<Val>> {
    if |ms| == 0 then []
    else (if Find(us, ms[0].key) < |us| then [] else [ms[0]]) + Untouched(ms[1..], us)
  }

  lemma {:induction false} UntouchedAt(ms: seq<Member<Val>>, us: seq<Member<Val>>, i: nat) returns (j: nat)
    requires i < |Untouched(ms, us)|
    ensures j < |ms| && ms[j] == Untouched(ms, us)[i] && Find(us, ms[j].key) == |us|
  {
    if Find(us, ms[0].key) == |us| && i == 0 {
      j := 0;
    } else {
      var k := UntouchedAt(ms[1..], us, if Find(us, ms[0].key) == |us| then i - 1 else i);
      j := k + 1;
    }
  }

  /** Such a member is still there. */
  lemma {:induction false} UntouchedStays(ms: seq<Member<Val>>, serial: nat, us: seq<Member<Val>>, n: nat, j: nat)
    returns (k: nat)
    requires n <= |us| && j < |ms| && Find(us, ms[j].key) == |us|
    ensures k < |Updated(ms, serial, us, n)| && Updated(ms, serial, us, n)[k] == ms[j]
    decreases n
  {
    hide Put, Find;
    if n == 0 {
      k := j;
    } else {
      k := UntouchedStays(ms, serial, us, n - 1, j);
      PutElsewhere(Updated(ms, serial, us, n - 1), us[n - 1].key, serial + n - 1, us[n - 1].value, k);
      NotAmong(us, ms[j].key, n - 1);
    }
  }

  lemma PutElsewhere(ms: seq<Member<Val>>, key: CString, serial: nat, v: Val, k: nat)
    requires k < |ms|
    ensures k < |Put(ms, key, serial, v)| && (ms[k].key != key ==> Put(ms, key, serial, v)[k] == ms[k])
  {
  }

  lemma NotAmong(us: seq<Member<Val>>, key: CString, i: nat)
    requires Find(us, key) == |us| && i < |us|
    ensures us[i].key != key
  {
  }

  lemma {:induction false} RefIndex(vs: seq<Val>, x: nat) returns (i: nat)
    requires x in Refs(vs)
    ensures i < |vs| && vs[i] == Ptr(x)
  {
    if x in One(vs[0]) {
      i := 0;
    } else {
      var k := RefIndex(vs[1..], x);
      i := k + 1;
    }
  }

  lemma InMembers(serial: nat, ms: seq<Member<Val>>, x: nat) returns (i: nat)
    requires x in Refs(Inside(Table(serial, ms)))
    ensures i < |ms| && ms[i].value == Ptr(x)
  {
    hide Refs, Inside;
    i := RefIndex(Inside(Table(serial, ms)), x);
    SameVals(serial, ms);
    ValueIn(ms, i);
  }

  lemma ValueIn(ms: seq<Member<Val>>, i: nat)
    requires i < |Vals(ms)|
    ensures i < |ms| && Vals(ms)[i] == ms[i].value
  {
  }

  lemma MemberRef(serial: nat, ms: seq<Member<Val>>, i: nat, x: nat)
    requires i < |ms| && ms[i].value == Ptr(x)
    ensures x in Refs(Inside(Table(serial, ms)))
  {
    hide Refs, Inside;
    SameVals(serial, ms);
    ValueAt(ms, i);
    InRefs(Vals(ms), i);
  }

  lemma UntouchedRefs(ms: seq<Member<Val>>, serial: nat, us: seq<Member<Val>>, n: nat, x: nat)
    requires n <= |us| && x in Refs(Inside(Table(serial, Untouched(ms, us))))
    ensures x in Refs(Inside(Table(serial + n, Updated(ms, serial, us, n))))
  {
    hide Refs, Inside, Untouched, Updated;
    var i := InMembers(serial, Untouched(ms, us), x);
    var j := UntouchedAt(ms, us, i);
    var k := UntouchedStays(ms, serial, us, n, j);
    MemberRef(serial + n, Updated(ms, serial, us, n), k, x);
  }

  /** It does if it can be reached otherwise than through a member that is replaced: a caller that holds it
      itself need not worry. */
  lemma OutlivesIf(h: Heap, held: multiset<nat>, json: Pointer, other: Pointer)
    requires IsObject(h, json) && IsObject(h, other)
    requires Reachable(WithContent(h, json.value.id,
                                   Table(Serial(h, json), Untouched(Members(h, json), Members(h, other)))),
                       held, other.value.id)
    ensures Outlives(h, held, json, other)
  {
    hide Untouched, Updated, Inside, Refs, Members, Serial, Chain;
    var id, ms, us, serial := json.value.id, Members(h, json), Members(h, other), Serial(h, json);
    var h0 := WithContent(h, id, Table(serial, Untouched(ms, us)));
    var p :| ReachableBy(h0, held, other.value.id, p);
    forall n | 0 <= n <= |us|
      ensures Reachable(AfterSetting(h, json, other, n), held, other.value.id)
    {
      UntouchedRoute(h, json, other, n, p);
      assert ReachableBy(AfterSetting(h, json, other, n), held, other.value.id, p);
    }
  }

  lemma UntouchedRoute(h: Heap, json: Pointer, other: Pointer, n: nat, p: seq<nat>)
    requires IsObject(h, json) && IsObject(h, other) && n <= |Members(h, other)|
    requires Chain(WithContent(h, json.value.id,
                               Table(Serial(h, json), Untouched(Members(h, json), Members(h, other)))), p)
    ensures Chain(AfterSetting(h, json, other, n), p)
  {
    hide Untouched, Updated, Inside, Refs;
    var id, ms, us, serial := json.value.id, Members(h, json), Members(h, other), Serial(h, json);
    var h0 := WithContent(h, id, Table(serial, Untouched(ms, us)));
    forall i | 0 <= i < |p| - 1
      ensures Edge(AfterSetting(h, json, other, n), p[i], p[i + 1])
    {
      assert Edge(h0, p[i], p[i + 1]);
      if p[i] == id {
        UntouchedRefs(ms, serial, us, n, p[i + 1]);
      }
    }
  }

  /** {"a": {"a": true}} updated with its own member: setting the key frees the object that is walked. */
  lemma UpdateFromInside(a: CString)
    ensures var inner := Table(1, [Member(a, 0, TrueVal)]);
            var h := [Some(Cell(1, Table(1, [Member(a, 0, Ptr(1))]))), Some(Cell(1, inner))];
            var json, other := Some(Ptr(0)), Some(Ptr(1));
            Balanced(h, multiset{0}) && IsObject(h, json) && IsObject(h, other) &&
            Reachable(h, multiset{0}, 0) && Reachable(h, multiset{0}, 1) &&
            CyclesStayInReach(h, multiset{0}, json, other) && !Outlives(h, multiset{0}, json, other)
  {
    hide Balanced, Reachable, CyclesStayInReach, Outlives;
    NestedBooks(a);
    NestedReach(a);
    NestedSet(a);
    NestedFreed(a);
    NestedCycles(a);
  }

  ghost function Nested(a: CString, serial: nat, v: Val): Heap {
    [Some(Cell(1, Table(serial, [Member(a, 0, v)]))), Some(Cell(1, Table(1, [Member(a, 0, TrueVal)])))]
  }

  lemma InsideOne(serial: nat, a: CString, n: nat, v: Val)
    ensures Inside(Table(serial, [Member(a, n, v)])) == [v] && Refs(Inside(Table(serial, [Member(a, n, v)]))) == One(v)
  {
    assert Inside(Table(serial, [Member(a, n, v)])) == [v];
    RefsOne(v);
  }

  lemma NestedBooks(a: CString)
    ensures Balanced(Nested(a, 1, Ptr(1)), multiset{0})
  {
    hide Inside, Refs;
    var h := Nested(a, 1, Ptr(1));
    InsideOne(1, a, 0, Ptr(1));
    InsideOne(1, a, 0, TrueVal);
    assert h[1..] == [h[1]] && h[1..][1..] == [];
    assert Total(h[1..]) == Slot(h[1]) + Total([]);
    assert Total(h) == Slot(h[0]) + Total(h[1..]);
  }

  lemma NestedReach(a: CString)
    ensures Reachable(Nested(a, 1, Ptr(1)), multiset{0}, 0) && Reachable(Nested(a, 1, Ptr(1)), multiset{0}, 1)
  {
    hide Inside, Refs;
    var h := Nested(a, 1, Ptr(1));
    InsideOne(1, a, 0, Ptr(1));
    HeldReachable(h, multiset{0}, 0);
    assert Edge(h, 0, 1);
    ReachableStep(h, multiset{0}, 0, 1);
  }

  lemma NestedEdges(a: CString, serial: nat, v: Val, x: nat, y: nat)
    requires Edge(Nested(a, serial, v), x, y)
    ensures x == 0 && v == Ptr(y)
  {
    hide Inside, Refs;
    InsideOne(serial, a, 0, v);
    InsideOne(1, a, 0, TrueVal);
  }

  /** Its heap before and after the one turn of the loop. */
  lemma NestedSet(a: CString)
    ensures var h, json, other := Nested(a, 1, Ptr(1)), Some(Ptr(0)), Some(Ptr(1));
            FirstSelf(Members(h, other), Ptr(0)) == 1 &&
            AfterSetting(h, json, other, 0) == h && AfterSetting(h, json, other, 1) == Nested(a, 2, TrueVal)
  {
    var h := Nested(a, 1, Ptr(1));
    var ms, us := Members(h, Some(Ptr(0))), Members(h, Some(Ptr(1)));
    FirstSelfAt(us, Ptr(0), 1);
    assert Updated(ms, 1, us, 1) == Put(ms, a, 1, TrueVal) == us;
  }

  lemma NestedFreed(a: CString)
    ensures var h, json, other := Nested(a, 1, Ptr(1)), Some(Ptr(0)), Some(Ptr(1));
            !Outlives(h, multiset{0}, json, other)
  {
    hide Nested, Edge, AfterSetting;
    NestedSet(a);
    var h' := Nested(a, 2, TrueVal);
    if Reachable(h', multiset{0}, 1) {
      var p :| ReachableBy(h', multiset{0}, 1, p);
      assert Edge(h', p[|p| - 2], p[|p| - 1]);
      NestedEdges(a, 2, TrueVal, p[|p| - 2], p[|p| - 1]);
    }
  }

  lemma NestedCycles(a: CString)
    ensures var h, json, other := Nested(a, 1, Ptr(1)), Some(Ptr(0)), Some(Ptr(1));
            CyclesStayInReach(h, multiset{0}, json, other)
  {
    hide AfterSetting, CyclesInReach, FirstSelf;
    NestedSet(a);
    NestedAcyclic(a, 1, Ptr(1));
    NestedAcyclic(a, 2, TrueVal);
  }

  lemma NestedAcyclic(a: CString, serial: nat, v: Val)
    requires v == Ptr(1) || v == TrueVal
    ensures CyclesInReach(Nested(a, serial, v), multiset{0})
  {
    hide Nested, Edge, Reachable;
    forall p
      ensures !Cycle(Nested(a, serial, v), p)
    {
      if Cycle(Nested(a, serial, v), p) {
        NestedEdges(a, serial, v, p[0], p[1]);
        NestedEdges(a, serial, v, p[|p| - 2], p[|p| - 1]);
      }
    }
  }

  // ---- what the members stand for

  function AsMap(ms: seq<Member<Val>>): map<CString, Val> {
    if |ms| == 0 then map[] else AsMap(ms[..|ms| - 1])[ms[|ms| - 1].key := ms[|ms| - 1].value]
  }

  lemma {:induction false} AsMapAt(ms: seq<Member<Val>>)
    requires Unique(ms)
    ensures AsMap(ms).Keys == Keys(ms)
    ensures forall i :: 0 <= i < |ms| ==> ms[i].key in AsMap(ms) && AsMap(ms)[ms[i].key] == ms[i].value
  {
    hide Keys;
    if |ms| == 0 {
      KeysLast(ms);
    } else {
      var n := |ms| - 1;
      AsMapAt(ms[..n]);
      KeysLast(ms);
      forall i | 0 <= i < |ms|
        ensures ms[i].key in AsMap(ms) && AsMap(ms)[ms[i].key] == ms[i].value
      {
        assert i < n ==> ms[..n][i] == ms[i];
      }
    }
  }

  lemma KeysLast(ms: seq<Member<Val>>)
    ensures |ms| == 0 ==> Keys(ms) == {}
    ensures |ms| > 0 ==> Keys(ms) == Keys(ms[..|ms| - 1]) + {ms[|ms| - 1].key}
  {
    if |ms| > 0 {
      var n := |ms| - 1;
      assert forall i :: 0 <= i < n ==> ms[..n][i] == ms[i];
      assert ms[n].key in Keys(ms);
    }
  }

  /** What was there keeps its place and serial number; a new key stands at the end, with the number given. */
  lemma PutKeepsPlaces(ms: seq<Member<Val>>, key: CString, serial: nat, v: Val)
    ensures var r := Put(ms, key, serial, v);
            |r| == |ms| + (if key in Keys(ms) then 0 else 1) &&
            (forall i :: 0 <= i < |ms| ==> r[i].key == ms[i].key && r[i].serial == ms[i].serial) &&
            (key !in Keys(ms) ==> r[|ms|] == Member(key, serial, v))
  {
  }

  /** Setting a key updates the map, and keys stay unique. */
  lemma PutIsUpdate(ms: seq<Member<Val>>, key: CString, serial: nat, v: Val)
    requires Unique(ms)
    ensures Unique(Put(ms, key, serial, v)) && AsMap(Put(ms, key, serial, v)) == AsMap(ms)[key := v]
  {
    hide AsMap, Keys;
    var ms' := Put(ms, key, serial, v);
    AsMapAt(ms);
    AsMapAt(ms');
    PutKeys(ms, key, serial, v);
    forall k | k in AsMap(ms')
      ensures AsMap(ms')[k] == AsMap(ms)[key := v][k]
    {
      var i := KeyIndex(ms', k);
    }
  }

  lemma KeyIndex(ms: seq<Member<Val>>, k: CString) returns (i: nat)
    requires k in Keys(ms)
    ensures i < |ms| && ms[i].key == k
  {
    i :| 0 <= i < |ms| && ms[i].key == k;
  }

  lemma PutKeys(ms: seq<Member<Val>>, key: CString, serial: nat, v: Val)
    ensures Keys(Put(ms, key, serial, v)) == Keys(ms) + {key}
  {
    var i := Find(ms, key);
    var ms' := Put(ms, key, serial, v);
    if i < |ms| {
      assert forall j :: 0 <= j < |ms| ==> ms'[j].key == ms[j].key;
      assert ms[i].key == key;
    } else {
      assert ms' == ms + [Member(key, serial, v)];
      assert ms'[|ms|].key == key;
      assert forall j :: 0 <= j < |ms| ==> ms'[j] == ms[j];
    }
  }

  lemma WithoutKeys(ms: seq<Member<Val>>, i: nat)
    requires Unique(ms) && i < |ms|
    ensures Unique(Without(ms, i)) && Keys(Without(ms, i)) == Keys(ms) - {ms[i].key}
  {
    var ms' := Without(ms, i);
    assert forall j :: 0 <= j < |ms'| ==> ms'[j] == if j < i then ms[j] else ms[j + 1];
    forall k | k in Keys(ms) && k != ms[i].key
      ensures k in Keys(ms')
    {
      var j := KeyIndex(ms, k);
      assert ms'[if j < i then j else j - 1].key == k;
    }
  }

  /** Deleting a key removes it from the map. */
  lemma WithoutIsRemoval(ms: seq<Member<Val>>, i: nat)
    requires Unique(ms) && i < |ms|
    ensures Unique(Without(ms, i)) && AsMap(Without(ms, i)) == AsMap(ms) - {ms[i].key}
  {
    hide AsMap, Keys, Unique, Without;
    var ms' := Without(ms, i);
    WithoutKeys(ms, i);
    AsMapAt(ms);
    AsMapAt(ms');
    forall k | k in AsMap(ms')
      ensures AsMap(ms')[k] == AsMap(ms)[k]
    {
      var j := KeyIndex(ms', k);
      WithoutAt(ms, i, j);
    }
  }

  lemma WithoutAt(ms: seq<Member<Val>>, i: nat, j: nat)
    requires i < |ms| && j < |Without(ms, i)|
    ensures exists k :: 0 <= k < |ms| && ms[k] == Without(ms, i)[j]
  {
    assert Without(ms, i)[j] == ms[if j < i then j else j + 1];
  }

  /** Updating takes the members of the other object over, key by key. */
  lemma {:induction false} UpdateIsUnion(ms: seq<Member<Val>>, serial: nat, us: seq<Member<Val>>, n: nat)
    requires Unique(ms) && n <= |us|
    ensures Unique(Updated(ms, serial, us, n)) && AsMap(Updated(ms, serial, us, n)) == AsMap(ms) + AsMap(us[..n])
    decreases n
  {
    hide Put, Unique, AsMap;
    if n == 0 {
      NoneAsMap(us);
    } else {
      UpdateIsUnion(ms, serial, us, n - 1);
      PutIsUpdate(Updated(ms, serial, us, n - 1), us[n - 1].key, serial + n - 1, us[n - 1].value);
      MoreAsMap(us, n);
      UnionUpdate(AsMap(ms), AsMap(us[..n - 1]), us[n - 1].key, us[n - 1].value);
    }
  }

  lemma NoneAsMap(us: seq<Member<Val>>)
    ensures AsMap(us[..0]) == map[]
  {
  }

  lemma MoreAsMap(us: seq<Member<Val>>, n: nat)
    requires 0 < n <= |us|
    ensures AsMap(us[..n]) == AsMap(us[..n - 1])[us[n - 1].key := us[n - 1].value]
  {
    assert us[..n][..n - 1] == us[..n - 1];
  }

  lemma UnionUpdate(a: map<CString, Val>, b: map<CString, Val>, k: CString, v: Val)
    ensures (a + b)[k := v] == a + b[k := v]
  {
  }
}
