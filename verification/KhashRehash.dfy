/** The kick-out rehash of kh_resize as a sequence of single writes to one pair of key and value
    arrays, described by the old flags, the new flags and the entry in hand. */
module KhashRehash {
  import opened KhashFlags
  import opened KhashProbe
  import opened KhashModel

  /** Every live bucket of the old flags holds a key of `m` with its value. */
  ghost predicate OldPart<K(!new), V>(old': seq<Cell>, keys: seq<K>, vals: seq<V>, oldAt: map<K, nat>, m: map<K, V>) {
    && |old'| <= |keys| == |vals|
    && (forall k :: k in oldAt ==> k in m && OldHolds(old', keys, vals, k, oldAt[k], m[k]))
    && (forall b :: 0 <= b < |old'| && old'[b].Live() ==> keys[b] in oldAt && oldAt[keys[b]] == b)
  }

  ghost predicate OldHolds<K, V>(old': seq<Cell>, keys: seq<K>, vals: seq<V>, k: K, b: nat, v: V)
    requires |old'| <= |keys| == |vals|
  {
    b < |old'| && old'[b].Live() && keys[b] == k && vals[b] == v
  }

  /** Every occupied bucket of the new flags holds a key of `m` with its value, where a search for
      it gets to; the new flags know no tombstones. */
  ghost predicate NewPart<K(!new), V>(hash: K -> nat, new': seq<Cell>, keys: seq<K>, vals: seq<V>,
                                      newAt: map<K, nat>, m: map<K, V>)
  {
    && |new'| <= |keys| == |vals|
    && (forall k :: k in newAt ==> k in m && HoldsKey(hash, new', keys, vals, k, newAt[k], m[k]))
    && (forall b :: 0 <= b < |new'| && new'[b].Live() ==> keys[b] in newAt && newAt[keys[b]] == b)
    && (forall b :: 0 <= b < |new'| ==> new'[b] == EMPTY || new'[b] == LIVE)
    && Count(new', true) == |newAt|
  }

  ghost predicate Partition<K>(a: set<K>, b: set<K>, c: set<K>, whole: set<K>) {
    a !! b !! c && a + b + c == whole
  }

  /** Old-live, new-occupied and in-hand keys partition the keys of `m`. */
  ghost predicate Rehashing<K(!new), V>(hash: K -> nat, old': seq<Cell>, new': seq<Cell>, keys: seq<K>, vals: seq<V>,
                                        oldAt: map<K, nat>, newAt: map<K, nat>, hand: set<K>, m: map<K, V>)
  {
    && OldPart(old', keys, vals, oldAt, m)
    && NewPart(hash, new', keys, vals, newAt, m)
    && Partition(oldAt.Keys, newAt.Keys, hand, m.Keys)
  }

  /** No slot is both new-occupied and old-live. */
  lemma SlotsDisjoint<K(!new), V>(hash: K -> nat, old': seq<Cell>, new': seq<Cell>, keys: seq<K>, vals: seq<V>,
                                  oldAt: map<K, nat>, newAt: map<K, nat>, hand: set<K>, m: map<K, V>, b: nat)
    requires Rehashing(hash, old', new', keys, vals, oldAt, newAt, hand, m)
    requires b < |old'| && b < |new'|
    ensures !(old'[b].Live() && !new'[b].empty)
  {
    assert new'[b] == EMPTY || new'[b] == LIVE;
  }

  lemma Begin<K(!new), V>(hash: K -> nat, cells: seq<Cell>, new': seq<Cell>, keys: seq<K>, vals: seq<V>,
                          at: map<K, nat>, m: map<K, V>)
    requires Holds(hash, cells, keys, vals, at, m)
    requires |cells| <= |keys| && |new'| <= |keys| && |vals| == |keys|
    requires forall b :: 0 <= b < |new'| ==> new'[b] == EMPTY
    ensures Rehashing(hash, cells, new', keys, vals, at, map[], {}, m)
  {
    CountZero(new', true);
    forall k | k in at
      ensures OldHolds(cells, keys, vals, k, at[k], m[k])
    {
      assert HoldsKey(hash, cells, keys, vals, k, at[k], m[k]);
    }
  }

  // ---- one step on each part

  lemma OldRemove<K(!new), V>(old': seq<Cell>, keys: seq<K>, vals: seq<V>, oldAt: map<K, nat>, m: map<K, V>, j: nat)
    requires OldPart(old', keys, vals, oldAt, m)
    requires j < |old'| && old'[j].Live()
    ensures keys[j] in oldAt && keys[j] in m && vals[j] == m[keys[j]]
    ensures OldPart(old'[j := DELETED], keys, vals, oldAt - {keys[j]}, m)
  {
    assert OldHolds(old', keys, vals, keys[j], oldAt[keys[j]], m[keys[j]]);
    forall k | k in oldAt && k != keys[j]
      ensures OldHolds(old'[j := DELETED], keys, vals, k, oldAt[k], m[k])
    {
      assert OldHolds(old', keys, vals, k, oldAt[k], m[k]);
    }
  }

  lemma OldWrite<K(!new), V>(old': seq<Cell>, keys: seq<K>, vals: seq<V>, oldAt: map<K, nat>, m: map<K, V>,
                             i: nat, key: K, val: V)
    requires OldPart(old', keys, vals, oldAt, m)
    requires i < |keys| && (i < |old'| ==> !old'[i].Live())
    ensures OldPart(old', keys[i := key], vals[i := val], oldAt, m)
  {
    forall k | k in oldAt
      ensures OldHolds(old', keys[i := key], vals[i := val], k, oldAt[k], m[k])
    {
      assert OldHolds(old', keys, vals, k, oldAt[k], m[k]);
    }
  }

  lemma NewPlace<K(!new), V>(hash: K -> nat, new': seq<Cell>, keys: seq<K>, vals: seq<V>,
                             newAt: map<K, nat>, m: map<K, V>, i: nat, key: K)
    requires NewPart(hash, new', keys, vals, newAt, m)
    requires key in m && key !in newAt
    requires i < |new'| && new'[i].empty && Reachable(new', hash(key), i)
    ensures NewPart(hash, new'[i := LIVE], keys[i := key], vals[i := m[key]], newAt[key := i], m)
  {
    hide Count, HoldsKey, Reachable;
    var keys', vals', new'' := keys[i := key], vals[i := m[key]], new'[i := LIVE];
    CountUpdate(new', i, LIVE, true);
    SizeAfterAdd(newAt, key, i);
    NewHolds(hash, new', keys, vals, i, key, m[key]);
    forall k | k in newAt
      ensures HoldsKey(hash, new'', keys', vals', k, newAt[k], m[k])
    {
      StillHolds(hash, new', keys, vals, i, key, m[key], k, newAt[k], m[k]);
    }
  }

  lemma NewHolds<K, V>(hash: K -> nat, cells: seq<Cell>, keys: seq<K>, vals: seq<V>, i: nat, key: K, val: V)
    requires |cells| <= |keys| == |vals| && i < |cells| && Reachable(cells, hash(key), i)
    ensures HoldsKey(hash, cells[i := LIVE], keys[i := key], vals[i := val], key, i, val)
  {
    hide Reachable;
    ReachableMonotone(cells, cells[i := LIVE], hash(key), i);
  }

  lemma StillHolds<K, V>(hash: K -> nat, cells: seq<Cell>, keys: seq<K>, vals: seq<V>, i: nat, key: K, val: V,
                         k: K, b: nat, v: V)
    requires |cells| <= |keys| == |vals| && i < |cells| && cells[i].empty && HoldsKey(hash, cells, keys, vals, k, b, v)
    ensures HoldsKey(hash, cells[i := LIVE], keys[i := key], vals[i := val], k, b, v)
  {
    hide Reachable;
    ReachableMonotone(cells, cells[i := LIVE], hash(k), b);
  }

  lemma PartitionTake<K>(a: set<K>, b: set<K>, k: K, whole: set<K>)
    requires Partition(a, b, {}, whole) && k in a
    ensures Partition(a - {k}, b, {k}, whole)
  {
  }

  lemma PartitionPlace<K>(a: set<K>, b: set<K>, k: K, whole: set<K>)
    requires Partition(a, b, {k}, whole)
    ensures k in whole && k !in b
    ensures Partition(a, b + {k}, {}, whole)
  {
    assert k in a + b + {k};
  }

  lemma KeysAfterAdd<K, X>(a: map<K, X>, k: K, x: X)
    ensures a[k := x].Keys == a.Keys + {k}
  {
  }

  lemma KeysAfterRemove<K, X>(a: map<K, X>, k: K)
    ensures (a - {k}).Keys == a.Keys - {k}
  {
  }

  // ---- the steps of the rehash

  /** The outer loop takes the next live entry in hand and marks its old bucket deleted. */
  lemma TakeUp<K(!new), V>(hash: K -> nat, old': seq<Cell>, new': seq<Cell>, keys: seq<K>, vals: seq<V>,
                           oldAt: map<K, nat>, newAt: map<K, nat>, m: map<K, V>, j: nat)
    requires Rehashing(hash, old', new', keys, vals, oldAt, newAt, {}, m)
    requires j < |old'| && old'[j].Live()
    ensures keys[j] in oldAt && keys[j] in m && vals[j] == m[keys[j]]
    ensures Rehashing(hash, old'[j := DELETED], new', keys, vals, oldAt - {keys[j]}, newAt, {keys[j]}, m)
  {
    OldRemove(old', keys, vals, oldAt, m, j);
    PartitionTake(oldAt.Keys, newAt.Keys, keys[j], m.Keys);
    KeysAfterRemove(oldAt, keys[j]);
  }

  /** Kick-out: the bucket is old-live, and its entry is in hand next. */
  lemma KickOut<K(!new), V>(hash: K -> nat, old': seq<Cell>, new': seq<Cell>, keys: seq<K>, vals: seq<V>,
                            oldAt: map<K, nat>, newAt: map<K, nat>, key: K, m: map<K, V>, i: nat)
    requires Rehashing(hash, old', new', keys, vals, oldAt, newAt, {key}, m)
    requires i < |new'| && new'[i].empty && Reachable(new', hash(key), i)
    requires i < |old'| && old'[i].Live()
    ensures key in m && keys[i] in oldAt && keys[i] in m && vals[i] == m[keys[i]]
    ensures Rehashing(hash, old'[i := DELETED], new'[i := LIVE], keys[i := key], vals[i := m[key]],
                      oldAt - {keys[i]}, newAt[key := i], {keys[i]}, m)
  {
    PartitionPlace(oldAt.Keys, newAt.Keys, key, m.Keys);
    NewPlace(hash, new', keys, vals, newAt, m, i, key);
    KeysAfterAdd(newAt, key, i);
    OldRemove(old', keys, vals, oldAt, m, i);
    OldWrite(old'[i := DELETED], keys, vals, oldAt - {keys[i]}, m, i, key, m[key]);
    PartitionTake(oldAt.Keys, newAt[key := i].Keys, keys[i], m.Keys);
    KeysAfterRemove(oldAt, keys[i]);
  }

  /** The last placement of a chain: the bucket is free in the old table too. */
  lemma Settle<K(!new), V>(hash: K -> nat, old': seq<Cell>, new': seq<Cell>, keys: seq<K>, vals: seq<V>,
                           oldAt: map<K, nat>, newAt: map<K, nat>, key: K, m: map<K, V>, i: nat)
    requires Rehashing(hash, old', new', keys, vals, oldAt, newAt, {key}, m)
    requires i < |new'| && new'[i].empty && Reachable(new', hash(key), i)
    requires i < |old'| ==> !old'[i].Live()
    ensures key in m
    ensures Rehashing(hash, old', new'[i := LIVE], keys[i := key], vals[i := m[key]],
                      oldAt, newAt[key := i], {}, m)
  {
    PartitionPlace(oldAt.Keys, newAt.Keys, key, m.Keys);
    NewPlace(hash, new', keys, vals, newAt, m, i, key);
    KeysAfterAdd(newAt, key, i);
    OldWrite(old', keys, vals, oldAt, m, i, key, m[key]);
  }

  /** With no old-live bucket left and nothing in hand, the new flags hold exactly the old map, and
      n_occupied equals size. */
  lemma Finish<K(!new), V>(hash: K -> nat, old': seq<Cell>, new': seq<Cell>, keys: seq<K>, vals: seq<V>,
                           oldAt: map<K, nat>, newAt: map<K, nat>, m: map<K, V>)
    requires Rehashing(hash, old', new', keys, vals, oldAt, newAt, {}, m)
    requires forall b :: 0 <= b < |old'| ==> !old'[b].Live()
    ensures Holds(hash, new', keys, vals, newAt, m)
    ensures Count(new', true) == Count(new', false) == |m|
  {
    assert forall k :: k in oldAt ==> !OldHolds(old', keys, vals, k, oldAt[k], m[k]);
    assert newAt.Keys == m.Keys;
    assert |newAt| == |newAt.Keys| == |m.Keys| == |m|;
    SizeIsCardinality(hash, new', keys, vals, newAt, m);
  }

  /** While an entry is in hand the new table is not full. */
  lemma RoomLeft<K(!new), V>(hash: K -> nat, old': seq<Cell>, new': seq<Cell>, keys: seq<K>, vals: seq<V>,
                             oldAt: map<K, nat>, newAt: map<K, nat>, key: K, m: map<K, V>)
    requires Rehashing(hash, old', new', keys, vals, oldAt, newAt, {key}, m)
    ensures Count(new', true) < |m|
  {
    SubsetSize'(newAt.Keys, m.Keys - {key});
    assert |m.Keys - {key}| == |m| - 1;
  }

  lemma SubsetSize'<K>(s: set<K>, t: set<K>)
    requires s <= t
    ensures |s| <= |t|
  {
    assert s + (t - s) == t;
  }

  /** krealloc: only the buckets in use matter. */
  lemma Realloc<K(!new), V>(hash: K -> nat, cells: seq<Cell>, keys: seq<K>, vals: seq<V>, keys': seq<K>, vals': seq<V>,
                            at: map<K, nat>, m: map<K, V>)
    requires Holds(hash, cells, keys, vals, at, m)
    requires |cells| <= |keys'| && |cells| <= |vals'|
    requires forall b :: 0 <= b < |cells| ==> keys'[b] == keys[b] && vals'[b] == vals[b]
    ensures Holds(hash, cells, keys', vals', at, m)
  {
    forall k | k in at
      ensures HoldsKey(hash, cells, keys', vals', k, at[k], m[k])
    {
      assert HoldsKey(hash, cells, keys, vals, k, at[k], m[k]);
    }
  }
}
