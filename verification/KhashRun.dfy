/** Whole runs of a khash table, and walks over its buckets. */
module KhashRun {
  import opened KhashFlags
  import opened KhashModel
  import opened Khash

  // ---- runs

  datatype Op<K, V> = Store(key: K, value: V) | Remove(key: K) | Wipe | ResizeTo(request: nat)

  function Effect<K, V>(m: map<K, V>, op: Op<K, V>): map<K, V> {
    match op
    case Store(key, value) => m[key := value]
    case Remove(key) => m - {key}
    case Wipe => map[]
    case ResizeTo(_) => m
  }

  function Outcome<K, V>(m: map<K, V>, ops: seq<Op<K, V>>): map<K, V> {
    if |ops| == 0 then m else Effect(Outcome(m, ops[..|ops| - 1]), ops[|ops| - 1])
  }

  /** kh_put and the assignment of the value, kh_get and kh_del, kh_clear, or kh_resize. */
  method Perform<K(!new, ==, 0), V(0)>(t: Table<K, V>, op: Op<K, V>)
    requires t.Valid() && t.nBuckets <= MAX_GROW
    modifies t, t.flags, t.keys, t.vals
    ensures t.Valid() && t.contents == Effect(old(t.contents), op)
    ensures fresh(t.flags) || t.flags == old(t.flags)
    ensures fresh(t.keys) || t.keys == old(t.keys)
    ensures fresh(t.vals) || t.vals == old(t.vals)
  {
    hide Sound, Cells, Holds;
    match op
    case Store(key, value) =>
      var x, ret := t.Put(key);
      t.SetValue(x, value);
      StoredOver(old(t.contents), key, t.contents[key], value);
    case Remove(key) =>
      var x := t.Get(key);
      t.Del(x);
      NothingRemoved(old(t.contents), key);
    case Wipe => t.Clear();
    case ResizeTo(request) => t.Resize(request);
  }

  lemma StoredOver<K, V>(m: map<K, V>, key: K, was: V, value: V)
    ensures m[key := was][key := value] == m[key := value]
  {
  }

  lemma NothingRemoved<K, V>(m: map<K, V>, key: K)
    ensures key !in m ==> m - {key} == m
  {
  }

  /** In every run the table stands for the finite map that the operations make, and kh_get looks
      things up in that map; the run stops only before a table of more than MAX_GROW buckets. */
  method PerformAll<K(!new, ==, 0), V(0)>(t: Table<K, V>, ops: seq<Op<K, V>>, probe: K)
    returns (done: nat, found: bool, x: nat)
    requires t.Valid()
    modifies t, t.flags, t.keys, t.vals
    ensures t.Valid() && done <= |ops| && (done < |ops| ==> t.nBuckets > MAX_GROW)
    ensures t.contents == Outcome(old(t.contents), ops[..done])
    ensures found <==> probe in Outcome(old(t.contents), ops[..done])
    ensures found ==> x < t.nBuckets && t.keys[x] == probe && t.vals[x] == Outcome(old(t.contents), ops[..done])[probe]
  {
    hide Sound, Cells, Holds;
    done := 0;
    while done < |ops| && t.nBuckets <= MAX_GROW
      invariant t.Valid() && done <= |ops|
      invariant fresh(t.flags) || t.flags == old(t.flags)
      invariant fresh(t.keys) || t.keys == old(t.keys)
      invariant fresh(t.vals) || t.vals == old(t.vals)
      invariant t.contents == Outcome(old(t.contents), ops[..done])
    {
      Perform(t, ops[done]);
      assert ops[..done + 1][..done] == ops[..done];
      done := done + 1;
    }
    x := t.Get(probe);
    found := x < t.nBuckets;
  }

  // ---- walks

  /** The keys of the live buckets from `from` on. */
  function Walk<K>(cells: seq<Cell>, keys: seq<K>, from: nat): seq<K>
    requires |keys| == |cells|
    decreases |cells| - from
  {
    if from >= |cells| then []
    else (if cells[from].Live() then [keys[from]] else []) + Walk(cells, keys, from + 1)
  }

  ghost predicate Distinct<K>(s: seq<K>) {
    forall i, j :: 0 <= i < j < |s| ==> s[i] != s[j]
  }

  /** Each live bucket has a key of its own. */
  ghost predicate OwnBuckets<K, V>(cells: seq<Cell>, keys: seq<K>, at: map<K, nat>, m: map<K, V>)
    requires |keys| == |cells|
  {
    && (forall b :: 0 <= b < |cells| && cells[b].Live() ==> keys[b] in m && keys[b] in at && at[keys[b]] == b)
    && (forall k :: k in m ==> k in at && at[k] < |cells| && cells[at[k]].Live() && keys[at[k]] == k)
  }

  lemma {:induction false} WalkFrom<K, V>(cells: seq<Cell>, keys: seq<K>, at: map<K, nat>, m: map<K, V>, from: nat)
    requires |keys| == |cells| && OwnBuckets(cells, keys, at, m) && from <= |cells|
    ensures Distinct(Walk(cells, keys, from))
    ensures forall k :: k in Walk(cells, keys, from) <==> k in m && at[k] >= from
    decreases |cells| - from
  {
    hide Distinct, OwnBuckets, Walk;
    WalkOne(cells, keys, from);
    if from == |cells| {
      NoneDistinct<K>();
      OwnInside(cells, keys, at, m);
    } else {
      WalkFrom(cells, keys, at, m, from + 1);
      OwnAt(cells, keys, at, m, from);
      ConsDistinct(keys[from], Walk(cells, keys, from + 1));
    }
  }

  lemma WalkOne<K>(cells: seq<Cell>, keys: seq<K>, from: nat)
    requires |keys| == |cells| && from <= |cells|
    ensures from == |cells| ==> Walk(cells, keys, from) == []
    ensures from < |cells| ==>
              Walk(cells, keys, from) == if cells[from].Live() then [keys[from]] + Walk(cells, keys, from + 1)
                                         else Walk(cells, keys, from + 1)
  {
  }

  lemma OwnInside<K, V>(cells: seq<Cell>, keys: seq<K>, at: map<K, nat>, m: map<K, V>)
    requires |keys| == |cells| && OwnBuckets(cells, keys, at, m)
    ensures forall k :: k in m ==> k in at && at[k] < |cells|
  {
  }

  lemma OwnAt<K, V>(cells: seq<Cell>, keys: seq<K>, at: map<K, nat>, m: map<K, V>, b: nat)
    requires |keys| == |cells| && OwnBuckets(cells, keys, at, m) && b < |cells|
    ensures forall k :: k in m ==> k in at && (at[k] == b <==> cells[b].Live() && keys[b] == k)
    ensures cells[b].Live() ==> keys[b] in m
  {
  }

  lemma NoneDistinct<K>()
    ensures Distinct<K>([])
  {
  }

  lemma ConsDistinct<K>(x: K, s: seq<K>)
    requires Distinct(s)
    ensures x !in s ==> Distinct([x] + s)
    ensures forall k :: k in [x] + s <==> k == x || k in s
  {
  }

  /** A walk over all buckets meets every key of the map once. */
  lemma WalkMeetsAll<K(!new, 0), V(0)>(t: Table<K, V>)
    requires t.Valid()
    ensures Distinct(Walk(t.Buckets(), t.keys[..], 0))
    ensures forall k :: k in Walk(t.Buckets(), t.keys[..], 0) <==> k in t.contents
  {
    hide Sound, Cells;
    Owned(t);
    WalkFrom(t.Buckets(), t.keys[..], t.at, t.contents, 0);
  }

  lemma Owned<K(!new, 0), V(0)>(t: Table<K, V>)
    requires t.Valid()
    ensures OwnBuckets(t.Buckets(), t.keys[..], t.at, t.contents)
  {
    hide Sound, Cells, Holds, OwnBuckets;
    t.Facts();
    HoldsOwns(t.hash, t.Buckets(), t.keys[..], t.vals[..], t.at, t.contents);
  }

  lemma HoldsOwns<K(!new), V>(hash: K -> nat, cells: seq<Cell>, keys: seq<K>, vals: seq<V>, at: map<K, nat>,
                                     m: map<K, V>)
    requires Holds(hash, cells, keys, vals, at, m) && |keys| == |cells|
    ensures OwnBuckets(cells, keys, at, m)
  {
    hide Reachable;
    assert forall k :: k in m ==> k in at.Keys;
  }

  /** Advances an iterator to the next live bucket, or to kh_end. */
  method Advance<K(!new, ==, 0), V(0)>(t: Table<K, V>, it: nat) returns (r: nat)
    requires t.Valid() && it <= t.nBuckets
    ensures it <= r <= t.nBuckets
    ensures Walk(t.Buckets(), t.keys[..], it)
         == if r < t.nBuckets then [t.keys[r]] + Walk(t.Buckets(), t.keys[..], r + 1) else []
    ensures r < t.nBuckets ==> t.keys[r] in t.contents && t.contents[t.keys[r]] == t.vals[r]
  {
    hide Sound, Cells, Holds;
    r := it;
    while r < t.nBuckets
      invariant it <= r <= t.nBuckets
      invariant Walk(t.Buckets(), t.keys[..], it) == Walk(t.Buckets(), t.keys[..], r)
    {
      var live := t.Exist(r);
      if live {
        return;
      }
      r := r + 1;
    }
  }
}
