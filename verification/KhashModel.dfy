/** What the buckets of a khash table mean: the invariant that ties flags, keys and values to a
    finite map, and its behaviour under every single write of the table code. */
module KhashModel {
  import opened KhashFlags
  import opened KhashProbe

  // ---- counting buckets

  predicate Counts(c: Cell, tombstones: bool) {
    !c.empty && (tombstones || !c.del)
  }

  /** Live buckets (h->size), or with `tombstones` all non-empty buckets (h->n_occupied). */
  function Count(cells: seq<Cell>, tombstones: bool): nat {
    if |cells| == 0 then 0 else
    Count(cells[..|cells| - 1], tombstones) + (if Counts(cells[|cells| - 1], tombstones) then 1 else 0)
  }

  lemma {:induction false} CountUpdate(cells: seq<Cell>, i: nat, c: Cell, tombstones: bool)
    requires i < |cells|
    ensures Count(cells[i := c], tombstones) + (if Counts(cells[i], tombstones) then 1 else 0)
         == Count(cells, tombstones) + (if Counts(c, tombstones) then 1 else 0)
  {
    var last := |cells| - 1;
    if i == last {
      assert cells[i := c][..last] == cells[..last];
    } else {
      assert cells[i := c][..last] == cells[..last][i := c];
      CountUpdate(cells[..last], i, c, tombstones);
    }
  }

  lemma CountBounds(cells: seq<Cell>)
    ensures Count(cells, false) <= Count(cells, true) <= |cells|
  {
  }

  lemma CountZero(cells: seq<Cell>, tombstones: bool)
    requires forall b :: 0 <= b < |cells| ==> !Counts(cells[b], tombstones)
    ensures Count(cells, tombstones) == 0
  {
    if |cells| > 0 {
      CountZero(cells[..|cells| - 1], tombstones);
    }
  }

  /** Tombstones and live buckets cannot fill a table whose n_occupied is below its capacity. */
  lemma {:induction false} EmptyBucket(cells: seq<Cell>) returns (b: nat)
    requires Count(cells, true) < |cells|
    ensures b < |cells| && cells[b].empty
  {
    var last := |cells| - 1;
    if cells[last].empty {
      b := last;
    } else {
      b := EmptyBucket(cells[..last]);
    }
  }

  /** With as many live as non-empty buckets, there is no tombstone. */
  lemma NoTombstones(cells: seq<Cell>, b: nat)
    requires Count(cells, false) == Count(cells, true) && b < |cells|
    ensures !cells[b].empty ==> cells[b].Live()
  {
    if !cells[b].empty && cells[b].del {
      CountUpdate(cells, b, LIVE, false);
      CountUpdate(cells, b, LIVE, true);
      CountBounds(cells[b := LIVE]);
    }
  }

  // ---- probe paths

  /** The first `s` buckets on the probe sequence of hash `h` are non-empty. */
  ghost predicate Path(cells: seq<Cell>, h: nat, s: nat) {
    |cells| > 0 && forall t {:trigger Probe(h, t, |cells|)} :: 0 <= t < s ==> !cells[Probe(h, t, |cells|)].empty
  }

  /** A search for hash `h` gets as far as bucket `b`. */
  ghost predicate Reachable(cells: seq<Cell>, h: nat, b: nat) {
    exists s: nat :: Path(cells, h, s) && Probe(h, s, |cells|) == b
  }

  /** Filling buckets never hides a key. */
  lemma ReachableMonotone(cells: seq<Cell>, cells': seq<Cell>, h: nat, b: nat)
    requires |cells'| == |cells|
    requires forall i :: 0 <= i < |cells| && cells'[i].empty ==> cells[i].empty
    requires Reachable(cells, h, b)
    ensures Reachable(cells', h, b)
  {
    var s: nat :| Path(cells, h, s) && Probe(h, s, |cells|) == b;
    assert Path(cells', h, s);
  }

  /** A run of non-empty buckets along a probe sequence is shorter than the table, as long as one
      bucket is empty; so the probe never comes back to its start. */
  lemma PathShort(cells: seq<Cell>, h: nat, s: nat, k: nat)
    requires |cells| == Pow2(k) && Path(cells, h, s) && Count(cells, true) < |cells|
    ensures s < |cells|
    ensures s > 0 ==> Probe(h, s, |cells|) != Probe(h, 0, |cells|)
  {
    var b := EmptyBucket(cells);
    var j := ProbeCovers(h, b, k);
    assert j >= s;
    if s > 0 {
      ProbeInjective(h, 0, s, k);
    }
  }

  /** One turn of a probe loop that found bucket `Probe(h, s, n)` occupied. */
  lemma PathNext(cells: seq<Cell>, h: nat, s: nat, k: nat)
    requires |cells| == Pow2(k) && Path(cells, h, s) && Count(cells, true) < |cells|
    requires !cells[Probe(h, s, |cells|)].empty
    ensures Path(cells, h, s + 1) && s + 1 < |cells|
    ensures Probe(h, s + 1, |cells|) == (Probe(h, s, |cells|) + (s + 1)) % |cells|
    ensures Probe(h, s + 1, |cells|) != Probe(h, 0, |cells|)
  {
    ProbeStep(h, s, |cells|);
    assert Path(cells, h, s + 1);
    PathShort(cells, h, s + 1, k);
  }

  // ---- the table invariant

  /** The live buckets hold the map `m`, each key once, in bucket `at[key]`, where a search for the
      key gets to. */
  ghost predicate Holds<K(!new), V>(hash: K -> nat, cells: seq<Cell>, keys: seq<K>, vals: seq<V>,
                                    at: map<K, nat>, m: map<K, V>)
  {
    && |cells| <= |keys| && |cells| <= |vals|
    && at.Keys == m.Keys
    && (forall k :: k in at ==> HoldsKey(hash, cells, keys, vals, k, at[k], m[k]))
    && (forall b :: 0 <= b < |cells| && cells[b].Live() ==> keys[b] in at && at[keys[b]] == b)
  }

  ghost predicate HoldsKey<K, V>(hash: K -> nat, cells: seq<Cell>, keys: seq<K>, vals: seq<V>, k: K, b: nat, v: V)
    requires |cells| <= |keys| && |cells| <= |vals|
  {
    b < |cells| && cells[b].Live() && keys[b] == k && vals[b] == v && Reachable(cells, hash(k), b)
  }

  /** Every bucket a search has left behind: neither empty nor the key. */
  ghost predicate Passed<K>(cells: seq<Cell>, keys: seq<K>, key: K, h: nat, s: nat)
    requires |cells| <= |keys|
  {
    && Path(cells, h, s)
    && forall t {:trigger Probe(h, t, |cells|)} :: 0 <= t < s ==>
         var b := Probe(h, t, |cells|); cells[b].del || keys[b] != key
  }

  lemma PassedNext<K>(cells: seq<Cell>, keys: seq<K>, key: K, h: nat, s: nat, k: nat)
    requires |cells| == Pow2(k) && |cells| <= |keys|
    requires Passed(cells, keys, key, h, s) && Count(cells, true) < |cells|
    requires var b := Probe(h, s, |cells|); !cells[b].empty && (cells[b].del || keys[b] != key)
    ensures Passed(cells, keys, key, h, s + 1) && s + 1 < |cells|
    ensures Probe(h, s + 1, |cells|) == (Probe(h, s, |cells|) + (s + 1)) % |cells|
    ensures Probe(h, s + 1, |cells|) != Probe(h, 0, |cells|)
  {
    PathNext(cells, h, s, k);
  }

  /** A search that ends on an empty bucket has shown the key absent. */
  lemma SearchMiss<K(!new), V>(hash: K -> nat, cells: seq<Cell>, keys: seq<K>, vals: seq<V>,
                               at: map<K, nat>, m: map<K, V>, key: K, s: nat)
    requires Holds(hash, cells, keys, vals, at, m)
    requires Passed(cells, keys, key, hash(key), s) && cells[Probe(hash(key), s, |cells|)].empty
    ensures key !in m
  {
  }

  // ---- single writes

  /** kh_put on an absent key: any bucket that is not live and that the search got to will do, a
      tombstone as well as the final empty bucket. */
  lemma InsertAt<K(!new), V>(hash: K -> nat, cells: seq<Cell>, keys: seq<K>, vals: seq<V>,
                             at: map<K, nat>, m: map<K, V>, key: K, x: nat)
    requires Holds(hash, cells, keys, vals, at, m)
    requires key !in m && x < |cells| && !cells[x].Live() && Reachable(cells, hash(key), x)
    ensures Holds(hash, cells[x := LIVE], keys[x := key], vals, at[key := x], m[key := vals[x]])
  {
    var cells', keys' := cells[x := LIVE], keys[x := key];
    ReachableMonotone(cells, cells', hash(key), x);
    forall k | k in at
      ensures k != key && HoldsKey(hash, cells', keys', vals, k, at[k], m[k])
    {
      assert HoldsKey(hash, cells, keys, vals, k, at[k], m[k]);
      ReachableMonotone(cells, cells', hash(k), at[k]);
    }
  }

  /** kh_del leaves a tombstone, so no other key gets out of reach. */
  lemma DeleteAt<K(!new), V>(hash: K -> nat, cells: seq<Cell>, keys: seq<K>, vals: seq<V>,
                             at: map<K, nat>, m: map<K, V>, x: nat)
    requires Holds(hash, cells, keys, vals, at, m)
    requires x < |cells| && cells[x].Live()
    ensures keys[x] in m
    ensures Holds(hash, cells[x := DELETED], keys, vals, at - {keys[x]}, m - {keys[x]})
  {
    var cells' := cells[x := DELETED];
    forall k | k in at && k != keys[x]
      ensures HoldsKey(hash, cells', keys, vals, k, at[k], m[k])
    {
      assert HoldsKey(hash, cells, keys, vals, k, at[k], m[k]);
      ReachableMonotone(cells, cells', hash(k), at[k]);
    }
  }

  /** Assigning to kh_value of a live bucket. */
  lemma StoreAt<K(!new), V>(hash: K -> nat, cells: seq<Cell>, keys: seq<K>, vals: seq<V>,
                            at: map<K, nat>, m: map<K, V>, x: nat, v: V)
    requires Holds(hash, cells, keys, vals, at, m)
    requires x < |cells| && cells[x].Live()
    ensures keys[x] in m
    ensures Holds(hash, cells, keys, vals[x := v], at, m[keys[x] := v])
  {
    var vals' := vals[x := v];
    var m' := m[keys[x] := v];
    assert at.Keys == m'.Keys;
    forall k | k in at
      ensures HoldsKey(hash, cells, keys, vals', k, at[k], m'[k])
    {
      assert HoldsKey(hash, cells, keys, vals, k, at[k], m[k]);
    }
  }

  /** h->size is the number of keys. */
  lemma {:induction false} SizeIsCardinality<K(!new), V>(hash: K -> nat, cells: seq<Cell>, keys: seq<K>, vals: seq<V>,
                                                        at: map<K, nat>, m: map<K, V>)
    requires Holds(hash, cells, keys, vals, at, m)
    ensures Count(cells, false) == |m|
    decreases |m|
  {
    hide Count, Reachable;
    if m == map[] {
      CountZero(cells, false);
    } else {
      var k :| k in m;
      assert HoldsKey(hash, cells, keys, vals, k, at[k], m[k]);
      DeleteAt(hash, cells, keys, vals, at, m, at[k]);
      CountUpdate(cells, at[k], DELETED, false);
      assert m.Keys == (m - {k}).Keys + {k};
      SizeIsCardinality(hash, cells[at[k] := DELETED], keys, vals, at - {k}, m - {k});
    }
  }

  // ---- the counters

  /** Flags, keys and values hold `m`; the capacity is 2^log, or 0 before the first insertion;
      h->size counts the keys, h->n_occupied the non-empty buckets, within h->upper_bound. */
  ghost predicate Sound<K(!new), V>(hash: K -> nat, cells: seq<Cell>, keys: seq<K>, vals: seq<V>,
                                    at: map<K, nat>, m: map<K, V>,
                                    size: nat, nOccupied: nat, upperBound: nat, log: nat)
  {
    && |cells| == |keys| == |vals|
    && Holds(hash, cells, keys, vals, at, m)
    && (|cells| == 0 ==> upperBound == 0 && m == map[])
    && (|cells| != 0 ==> 2 <= log && |cells| == Pow2(log) && upperBound == UpperBound(|cells|))
    && size == |m| && nOccupied == Count(cells, true) && nOccupied <= upperBound
  }

  /** A table in use has an empty bucket, and at most n_occupied keys. */
  lemma SoundFacts<K(!new), V>(hash: K -> nat, cells: seq<Cell>, keys: seq<K>, vals: seq<V>,
                               at: map<K, nat>, m: map<K, V>,
                               size: nat, nOccupied: nat, upperBound: nat, log: nat)
    requires Sound(hash, cells, keys, vals, at, m, size, nOccupied, upperBound, log)
    ensures |cells| != 0 ==>
              Count(cells, true) < |cells| && 2 <= log && |cells| == Pow2(log) && upperBound == UpperBound(|cells|)
    ensures size <= nOccupied
  {
    SizeIsCardinality(hash, cells, keys, vals, at, m);
    CountBounds(cells);
    if |cells| != 0 {
      Pow2AtLeastFour(log);
      UpperBoundFacts(|cells|);
    }
  }

  lemma LiveEntry<K(!new), V>(hash: K -> nat, cells: seq<Cell>, keys: seq<K>, vals: seq<V>,
                              at: map<K, nat>, m: map<K, V>, b: nat)
    requires Holds(hash, cells, keys, vals, at, m)
    requires b < |cells| && cells[b].Live()
    ensures keys[b] in m && m[keys[b]] == vals[b] && at[keys[b]] == b
  {
    assert HoldsKey(hash, cells, keys, vals, keys[b], at[keys[b]], m[keys[b]]);
  }

  lemma SoundDelete<K(!new), V>(hash: K -> nat, cells: seq<Cell>, keys: seq<K>, vals: seq<V>,
                                at: map<K, nat>, m: map<K, V>,
                                size: nat, nOccupied: nat, upperBound: nat, log: nat, x: nat)
    requires Sound(hash, cells, keys, vals, at, m, size, nOccupied, upperBound, log)
    requires x < |cells| && cells[x].Live()
    ensures size > 0
    ensures Sound(hash, cells[x := DELETED], keys, vals, at - {keys[x]}, m - {keys[x]},
                  size - 1, nOccupied, upperBound, log)
  {
    hide Holds, Count;
    DeleteAt(hash, cells, keys, vals, at, m, x);
    CountUpdate(cells, x, DELETED, true);
    SizeAfterRemove(m, keys[x]);
  }

  lemma SoundStore<K(!new), V>(hash: K -> nat, cells: seq<Cell>, keys: seq<K>, vals: seq<V>,
                               at: map<K, nat>, m: map<K, V>,
                               size: nat, nOccupied: nat, upperBound: nat, log: nat, x: nat, v: V)
    requires Sound(hash, cells, keys, vals, at, m, size, nOccupied, upperBound, log)
    requires x < |cells| && cells[x].Live()
    ensures keys[x] in m
    ensures Sound(hash, cells, keys, vals[x := v], at, m[keys[x] := v], size, nOccupied, upperBound, log)
  {
    hide Holds, Count;
    StoreAt(hash, cells, keys, vals, at, m, x, v);
    SizeAfterUpdate(m, keys[x], v);
  }

  /** What stands in the value array at a bucket that is not live does not matter. */
  lemma SoundDead<K(!new), V>(hash: K -> nat, cells: seq<Cell>, keys: seq<K>, vals: seq<V>,
                              at: map<K, nat>, m: map<K, V>,
                              size: nat, nOccupied: nat, upperBound: nat, log: nat, x: nat, v: V)
    requires Sound(hash, cells, keys, vals, at, m, size, nOccupied, upperBound, log)
    requires x < |cells| && !cells[x].Live()
    ensures Sound(hash, cells, keys, vals[x := v], at, m, size, nOccupied, upperBound, log)
  {
    hide Count, Reachable;
  }

  lemma SoundClear<K(!new), V>(hash: K -> nat, cells: seq<Cell>, cells': seq<Cell>, keys: seq<K>, vals: seq<V>,
                               at: map<K, nat>, m: map<K, V>,
                               size: nat, nOccupied: nat, upperBound: nat, log: nat)
    requires Sound(hash, cells, keys, vals, at, m, size, nOccupied, upperBound, log)
    requires |cells'| == |cells| && forall b :: 0 <= b < |cells'| ==> cells'[b] == EMPTY
    ensures Sound(hash, cells', keys, vals, map[], map[], 0, 0, upperBound, log)
  {
    CountZero(cells', true);
  }

  /** kh_put on an absent key, into the empty bucket that ends the search or a tombstone before it. */
  lemma SoundInsert<K(!new), V>(hash: K -> nat, cells: seq<Cell>, keys: seq<K>, vals: seq<V>,
                                at: map<K, nat>, m: map<K, V>,
                                size: nat, nOccupied: nat, upperBound: nat, log: nat, key: K, x: nat)
    requires Sound(hash, cells, keys, vals, at, m, size, nOccupied, upperBound, log)
    requires key !in m && x < |cells| && !cells[x].Live() && Reachable(cells, hash(key), x)
    requires cells[x].empty ==> nOccupied < upperBound
    ensures Sound(hash, cells[x := LIVE], keys[x := key], vals, at[key := x], m[key := vals[x]],
                  size + 1, if cells[x].empty then nOccupied + 1 else nOccupied, upperBound, log)
  {
    hide Holds, Count;
    InsertAt(hash, cells, keys, vals, at, m, key, x);
    CountUpdate(cells, x, LIVE, true);
    SizeAfterAdd(m, key, vals[x]);
  }

  /** kh_resize: the rehashed buckets hold the same map, and no tombstone is left. */
  lemma SoundRehash<K(!new), V>(hash: K -> nat, cells: seq<Cell>, keys: seq<K>, vals: seq<V>,
                                at: map<K, nat>, m: map<K, V>, log: nat)
    requires |cells| == |keys| == |vals| == Pow2(log) && 2 <= log
    requires Holds(hash, cells, keys, vals, at, m)
    requires Count(cells, true) == |m| <= UpperBound(Pow2(log))
    ensures Sound(hash, cells, keys, vals, at, m, |m|, |m|, UpperBound(Pow2(log)), log)
  {
    Pow2AtLeastFour(log);
  }

  lemma SizeAfterRemove<K, X>(a: map<K, X>, k: K)
    requires k in a
    ensures |a - {k}| == |a| - 1
  {
    assert a.Keys == (a - {k}).Keys + {k};
  }

  lemma SizeAfterUpdate<K, X>(a: map<K, X>, k: K, x: X)
    requires k in a
    ensures |a[k := x]| == |a|
  {
    assert a[k := x].Keys == a.Keys;
  }

  /** A new key makes a map larger by one. */
  lemma SizeAfterAdd<K, X>(a: map<K, X>, k: K, x: X)
    ensures k !in a ==> |a[k := x]| == |a| + 1
  {
    assert a[k := x].Keys == a.Keys + {k};
  }
}
