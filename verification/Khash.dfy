/** khash: an open-addressing hash table with power-of-two capacity, triangular probing and
    tombstones, kept in packed flags and two parallel arrays that are rehashed in place. */
module Khash {
  import opened KhashFlags
  import opened KhashProbe
  import opened KhashModel
  import opened KhashRehash

  /** The largest capacity from which the table may still double within 32 bits. */
  const MAX_GROW: nat := 0x4000_0000

  // ---- the probe loops over a flag array

  /** The inner loop of the rehash: on along the probe sequence while the bucket is not empty. */
  method FindEmpty(flags: array<bv32>, n: nat, h: nat, ghost log: nat) returns (i: nat)
    requires n == Pow2(log) && n <= 16 * flags.Length
    requires Count(Cells(flags[..], n), true) < n
    ensures i < n && Cells(flags[..], n)[i].empty
    ensures Reachable(Cells(flags[..], n), h, i)
  {
    hide Path, Count, Cells, Pow2;
    ghost var cells := Cells(flags[..], n);
    var step := 0;
    i := h % n;
    assert Path(cells, h, 0) by { PassedNone(cells, cells, EMPTY, h); }
    var c := ReadCell(flags, n, i);
    while !c.empty
      invariant i == Probe(h, step, n) && Path(cells, h, step) && c == cells[i]
      decreases n - step
    {
      PathNext(cells, h, step, log);
      step := step + 1;
      i := (i + step) % n;
      c := ReadCell(flags, n, i);
    }
  }

  /** The search loop of kh_get: stops at an empty bucket or at the key.  `steps` counts the moves. */
  method Search<K(!new, ==)>(flags: array<bv32>, n: nat, keys: array<K>, key: K, h: nat, ghost log: nat)
    returns (i: nat, c: Cell, ghost steps: nat)
    requires n == Pow2(log) && n <= 16 * flags.Length && n <= keys.Length
    requires Count(Cells(flags[..], n), true) < n
    ensures i == Probe(h, steps, n) && c == Cells(flags[..], n)[i]
    ensures Passed(Cells(flags[..], n), keys[..], key, h, steps)
    ensures c.empty || (!c.del && keys[i] == key)
  {
    hide Passed, Path, Probe, Count, Cells, Pow2;
    ghost var cells, ks := Cells(flags[..], n), keys[..];
    var step := 0;
    i := h % n;
    PassedNone(cells, ks, key, h);
    var last := i;
    c := ReadCell(flags, n, i);
    while !c.empty && (c.del || keys[i] != key)
      invariant i == Probe(h, step, n) && c == cells[i]
      invariant Passed(cells, ks, key, h, step)
      decreases n - step
    {
      PassedNext(cells, ks, key, h, step, log);
      step := step + 1;
      i := (i + step) % n;
      assert i != last;  // the exit for a complete turn is never taken
      if i == last { break; }
      c := ReadCell(flags, n, i);
    }
    steps := step;
  }

  /** The search loop of kh_put: as in kh_get, and `site` is the last tombstone passed, or `n`. */
  method SearchSite<K(!new, ==)>(flags: array<bv32>, n: nat, keys: array<K>, key: K, h: nat, ghost log: nat)
    returns (i: nat, c: Cell, site: nat, ghost steps: nat)
    requires n == Pow2(log) && n <= 16 * flags.Length && n <= keys.Length
    requires Count(Cells(flags[..], n), true) < n
    ensures i == Probe(h, steps, n) && c == Cells(flags[..], n)[i]
    ensures Passed(Cells(flags[..], n), keys[..], key, h, steps)
    ensures c.empty || (!c.del && keys[i] == key)
    ensures site != n ==> site < n && Tombstone(Cells(flags[..], n), h, site)
  {
    hide Passed, Path, Probe, Tombstone, Count, Cells, Pow2;
    ghost var cells, ks := Cells(flags[..], n), keys[..];
    var step := 0;
    site, i := n, h % n;
    PassedNone(cells, ks, key, h);
    var last := i;
    c := ReadCell(flags, n, i);
    while !c.empty && (c.del || keys[i] != key)
      invariant i == Probe(h, step, n) && c == cells[i]
      invariant Passed(cells, ks, key, h, step)
      invariant site != n ==> site < n && Tombstone(cells, h, site)
      decreases n - step
    {
      PassedNext(cells, ks, key, h, step, log);
      if c.del {
        TombstoneAt(cells, ks, key, h, step);
        site := i;
      }
      step := step + 1;
      i := (i + step) % n;
      assert i != last;  // the exit for a complete turn is never taken
      if i == last { break; }
      c := ReadCell(flags, n, i);
    }
    steps := step;
  }

  ghost predicate Tombstone(cells: seq<Cell>, h: nat, b: nat) {
    b < |cells| && cells[b].del && !cells[b].empty && Reachable(cells, h, b)
  }

  lemma TombstoneAt<K>(cells: seq<Cell>, keys: seq<K>, key: K, h: nat, s: nat)
    requires |cells| <= |keys| && Passed(cells, keys, key, h, s)
    requires var b := Probe(h, s, |cells|); cells[b].del && !cells[b].empty
    ensures Tombstone(cells, h, Probe(h, s, |cells|))
  {
  }

  /** The bucket kh_put chooses: that of the key if it is present, otherwise the last tombstone on
      the way to the final empty bucket `end`, otherwise `end` itself. */
  method FindSlot<K(!new, ==)>(flags: array<bv32>, n: nat, keys: array<K>, key: K, h: nat, ghost log: nat)
    returns (x: nat, ghost end: nat, ghost steps: nat)
    requires n == Pow2(log) && n <= 16 * flags.Length && n <= keys.Length
    requires Count(Cells(flags[..], n), true) < n
    ensures end == Probe(h, steps, n) && Passed(Cells(flags[..], n), keys[..], key, h, steps)
    ensures x < n && Reachable(Cells(flags[..], n), h, x)
    ensures if Cells(flags[..], n)[x].Live() then keys[x] == key
            else Cells(flags[..], n)[end].empty && (Cells(flags[..], n)[x].empty ==> x == end)
  {
    hide Passed, Probe, Count, Cells, Pow2;
    var i, c, site;
    i, c, site, steps := SearchSite(flags, n, keys, key, h, log);
    x := if c.empty && site != n then site else i;
    end := i;
    ReachedAt(Cells(flags[..], n), keys[..], key, h, steps);
  }

  lemma PassedNone<K>(cells: seq<Cell>, keys: seq<K>, key: K, h: nat)
    requires 0 < |cells| <= |keys|
    ensures Passed(cells, keys, key, h, 0) && Probe(h, 0, |cells|) == h % |cells|
  {
  }

  lemma ReachedAt<K>(cells: seq<Cell>, keys: seq<K>, key: K, h: nat, s: nat)
    requires |cells| <= |keys| && Passed(cells, keys, key, h, s)
    ensures |cells| > 0 && Reachable(cells, h, Probe(h, s, |cells|))
  {
  }

  /** The arrays of a table under rehash are different objects, large enough for the old capacity
      `n` and the new capacity `newN`. */
  ghost predicate Arrays<K, V>(flags: array<bv32>, n: nat, newFlags: array<bv32>, newN: nat, keys: array<K>,
                               vals: array<V>) {
    && n <= 16 * flags.Length && newN <= 16 * newFlags.Length
    && n <= keys.Length && newN <= keys.Length && keys.Length == vals.Length
    && flags != newFlags && (keys as object) != vals
    && (flags as object) != keys && (flags as object) != vals
    && (newFlags as object) != keys && (newFlags as object) != vals
  }

  /** Bucket `i` of the new table takes the entry in hand.  An entry displaced from there, still
      live in the old table, is in hand next; otherwise the chain is `done`. */
  method PlaceAt<K(!new), V>(hash: K -> nat, flags: array<bv32>, n: nat, newFlags: array<bv32>, newN: nat,
                                keys: array<K>, vals: array<V>, key0: K, val0: V, i: nat,
                                ghost oldAt0: map<K, nat>, ghost newAt0: map<K, nat>, ghost m: map<K, V>)
    returns (key: K, val: V, done: bool, ghost oldAt: map<K, nat>, ghost newAt: map<K, nat>)
    requires Arrays(flags, n, newFlags, newN, keys, vals)
    requires Rehashing(hash, Cells(flags[..], n), Cells(newFlags[..], newN), keys[..], vals[..], oldAt0, newAt0,
                       {key0}, m)
    requires key0 in m && val0 == m[key0]
    requires i < newN && Cells(newFlags[..], newN)[i] == EMPTY && Reachable(Cells(newFlags[..], newN), hash(key0), i)
    modifies flags, newFlags, keys, vals
    ensures Rehashing(hash, Cells(flags[..], n), Cells(newFlags[..], newN), keys[..], vals[..], oldAt, newAt,
                      if done then {} else {key}, m)
    ensures forall b :: 0 <= b < n && Cells(flags[..], n)[b].Live() ==> old(Cells(flags[..], n))[b].Live()
    ensures !done ==> key in m && val == m[key] && |oldAt| < |oldAt0|
  {
    hide Rehashing, Cells, Reachable;
    key, val, oldAt, newAt := key0, val0, oldAt0, newAt0[key0 := i];
    ghost var cells, newCells, ks, vs := Cells(flags[..], n), Cells(newFlags[..], newN), keys[..], vals[..];
    MarkOccupied(newFlags, newN, i);
    done := true;
    if i < n {
      var c := ReadCell(flags, n, i);
      done := !c.Live();
    }
    if !done {
      KickOut(hash, cells, newCells, ks, vs, oldAt0, newAt0, key0, m, i);
      SizeAfterRemove(oldAt0, ks[i]);
      oldAt := oldAt0 - {ks[i]};
      keys[i], key := key, keys[i];
      vals[i], val := val, vals[i];
      MarkDeleted(flags, n, i);
    } else {
      Settle(hash, cells, newCells, ks, vs, oldAt0, newAt0, key0, m, i);
      keys[i] := key;
      vals[i] := val;
    }
    assert keys[..] == ks[i := key0];
    assert vals[..] == vs[i := val0];
  }

  /** The kick-out loop: places (key0, val0) and every entry it displaces.  `flags` and `n` are the
      old flags and capacity, `newFlags` and `newN` the new ones. */
  method PlaceChain<K(!new), V>(hash: K -> nat, flags: array<bv32>, n: nat, newFlags: array<bv32>, newN: nat,
                                      keys: array<K>, vals: array<V>, key0: K, val0: V,
                                      ghost log: nat, ghost oldAt0: map<K, nat>, ghost newAt0: map<K, nat>,
                                      ghost m: map<K, V>)
    returns (ghost oldAt: map<K, nat>, ghost newAt: map<K, nat>)
    requires newN == Pow2(log) && |m| <= newN && Arrays(flags, n, newFlags, newN, keys, vals)
    requires Rehashing(hash, Cells(flags[..], n), Cells(newFlags[..], newN), keys[..], vals[..], oldAt0, newAt0,
                       {key0}, m)
    requires key0 in m && val0 == m[key0]
    modifies flags, newFlags, keys, vals
    ensures Rehashing(hash, Cells(flags[..], n), Cells(newFlags[..], newN), keys[..], vals[..], oldAt, newAt, {}, m)
    ensures forall b :: 0 <= b < n && Cells(flags[..], n)[b].Live() ==> old(Cells(flags[..], n))[b].Live()
  {
    var key, val, done := key0, val0, false;
    oldAt, newAt := oldAt0, newAt0;
    while !done
      invariant Rehashing(hash, Cells(flags[..], n), Cells(newFlags[..], newN), keys[..], vals[..], oldAt, newAt,
                          if done then {} else {key}, m)
      invariant !done ==> key in m && val == m[key]
      invariant forall b :: 0 <= b < n && Cells(flags[..], n)[b].Live() ==> old(Cells(flags[..], n))[b].Live()
      decreases !done, |oldAt|
    {
      RoomLeft(hash, Cells(flags[..], n), Cells(newFlags[..], newN), keys[..], vals[..], oldAt, newAt, key, m);
      var i := FindEmpty(newFlags, newN, hash(key), log);
      EmptyIsEmpty(hash, Cells(newFlags[..], newN), keys[..], vals[..], newAt, m, i);
      key, val, done, oldAt, newAt := PlaceAt(hash, flags, n, newFlags, newN, keys, vals, key, val, i, oldAt, newAt, m);
    }
  }

  /** The outer loop of the rehash: afterwards the new flags hold the whole map. */
  method RehashAll<K(!new), V>(hash: K -> nat, flags: array<bv32>, n: nat, newFlags: array<bv32>, newN: nat,
                               keys: array<K>, vals: array<V>,
                               ghost log: nat, ghost at: map<K, nat>, ghost m: map<K, V>)
    returns (ghost newAt: map<K, nat>)
    requires newN == Pow2(log) && |m| <= newN && Arrays(flags, n, newFlags, newN, keys, vals)
    requires Holds(hash, Cells(flags[..], n), keys[..], vals[..], at, m)
    requires forall b :: 0 <= b < newN ==> Cells(newFlags[..], newN)[b] == EMPTY
    modifies flags, newFlags, keys, vals
    ensures Holds(hash, Cells(newFlags[..], newN), keys[..], vals[..], newAt, m)
    ensures Count(Cells(newFlags[..], newN), true) == |m|
  {
    hide Rehashing, Holds, Count, Cells;
    Begin(hash, Cells(flags[..], n), Cells(newFlags[..], newN), keys[..], vals[..], at, m);
    ghost var oldAt := at;
    newAt := map[];
    for j := 0 to n
      invariant Rehashing(hash, Cells(flags[..], n), Cells(newFlags[..], newN), keys[..], vals[..], oldAt, newAt, {}, m)
      invariant forall b :: 0 <= b < j ==> !Cells(flags[..], n)[b].Live()
    {
      var c := ReadCell(flags, n, j);
      if c.Live() {
        ghost var ks, vs := keys[..], vals[..];
        TakeUp(hash, Cells(flags[..], n), Cells(newFlags[..], newN), ks, vs, oldAt, newAt, m, j);
        MarkDeleted(flags, n, j);
        assert keys[..] == ks && vals[..] == vs;
        oldAt, newAt := PlaceChain(hash, flags, n, newFlags, newN, keys, vals, keys[j], vals[j],
                                   log, oldAt - {ks[j]}, newAt, m);
      }
    }
    Finish(hash, Cells(flags[..], n), Cells(newFlags[..], newN), keys[..], vals[..], oldAt, newAt, m);
  }

  /** krealloc: the entries that fit are kept. */
  method Resized<T(0)>(a: array<T>, n: nat) returns (b: array<T>)
    ensures fresh(b) && b.Length == n
    ensures forall k :: 0 <= k < n && k < a.Length ==> b[k] == a[k]
  {
    b := new T[n];
    forall k | 0 <= k < n && k < a.Length {
      b[k] := a[k];
    }
  }

  /** Either request of kh_put has room for one more key than there are. */
  lemma RoomFor(n: nat, size: nat, log: nat)
    requires if n == 0 then size == 0 else 2 <= log && n == Pow2(log) && size <= UpperBound(n)
    ensures n > 2 * size ==> Pow2(LogCapacity(n - 1, 2)) == n && size < UpperBound(n)
    ensures n != 0 && n <= 2 * size ==> Pow2(LogCapacity(n + 1, 2)) == 2 * n && size < UpperBound(2 * n)
    ensures n == 0 ==> Pow2(LogCapacity(n + 1, 2)) == 4 && 0 < UpperBound(4)
  {
    hide Pow2, LogCapacity, UpperBound;
    if n == 0 {
      FirstCapacity();
    } else {
      NextCapacity(log);
      Pow2AtLeastFour(log);
      Doubling(log + 1);
      UpperBoundFacts(n);
    }
  }

  lemma FirstCapacity()
    ensures Pow2(LogCapacity(1, 2)) == 4 && 0 < UpperBound(4)
  {
    SmallPowers();
  }

  lemma EmptyIsEmpty<K(!new), V>(hash: K -> nat, new': seq<Cell>, keys: seq<K>, vals: seq<V>,
                                 newAt: map<K, nat>, m: map<K, V>, i: nat)
    requires NewPart(hash, new', keys, vals, newAt, m) && i < |new'| && new'[i].empty
    ensures new'[i] == EMPTY
  {
  }

  // ---- the table

  class Table<K(!new, ==, 0), V(0)> {
    const hash: K -> nat
    var nBuckets: nat
    var size: nat
    var nOccupied: nat
    var upperBound: nat
    var flags: array<bv32>  // a null pointer in the original is an array of length 0 here
    var keys: array<K>
    var vals: array<V>

    ghost var contents: map<K, V>  // the map the table stands for
    ghost var at: map<K, nat>      // the bucket of each key
    ghost var log: nat             // nBuckets == 2^log

    ghost function Buckets(): seq<Cell>
      reads this, flags
      requires nBuckets <= 16 * flags.Length
    {
      Cells(flags[..], nBuckets)
    }

    ghost predicate Valid()
      reads this, flags, keys, vals
    {
      && nBuckets <= 16 * flags.Length && keys.Length == vals.Length == nBuckets
      && (flags as object) != keys && (flags as object) != vals && (keys as object) != vals
      && Sound(hash, Buckets(), keys[..], vals[..], at, contents, size, nOccupied, upperBound, log)
    }

    /** kh_init */
    constructor (hash: K -> nat)
      ensures Valid() && fresh(flags) && fresh(keys) && fresh(vals)
      ensures this.hash == hash && contents == map[] && nBuckets == 0
    {
      this.hash := hash;
      nBuckets, size, nOccupied, upperBound := 0, 0, 0, 0;
      flags, keys, vals := new bv32[0], new K[0], new V[0];
      contents, at, log := map[], map[], 0;
    }

    lemma Counters()
      requires Valid()
      ensures nBuckets != 0 ==> 2 <= log && nBuckets == Pow2(log) && upperBound == UpperBound(nBuckets)
      ensures nBuckets == 0 ==> size == 0 && upperBound == 0
      ensures size == |contents| && size <= nOccupied <= upperBound
    {
      hide Sound, Cells, Holds, Count;
      Facts();
    }

    lemma Facts()
      requires Valid()
      ensures nBuckets != 0 ==> Count(Buckets(), true) < nBuckets && 2 <= log && nBuckets == Pow2(log) &&
                                upperBound == UpperBound(nBuckets)
      ensures nBuckets == 0 ==> contents == map[] && upperBound == 0
      ensures size == |contents| && size <= nOccupied <= upperBound
      ensures Holds(hash, Buckets(), keys[..], vals[..], at, contents)
      ensures forall b :: 0 <= b < nBuckets && Buckets()[b].Live() ==>
                keys[b] in contents && contents[keys[b]] == vals[b] && at[keys[b]] == b
    {
      SoundFacts(hash, Buckets(), keys[..], vals[..], at, contents, size, nOccupied, upperBound, log);
      forall b | 0 <= b < nBuckets && Buckets()[b].Live()
        ensures keys[b] in contents && contents[keys[b]] == vals[b] && at[keys[b]] == b
      {
        LiveEntry(hash, Buckets(), keys[..], vals[..], at, contents, b);
      }
    }

    /** kh_exist */
    method Exist(x: nat) returns (r: bool)
      requires Valid() && x < nBuckets
      ensures r == Buckets()[x].Live()
      ensures r ==> keys[x] in contents && contents[keys[x]] == vals[x]
    {
      hide Sound, Cells;
      Facts();
      var c := ReadCell(flags, nBuckets, x);
      r := c.Live();
    }

    /** kh_get: the bucket of `key`, or n_buckets when the map does not have it. */
    method Get(key: K) returns (r: nat)
      requires Valid()
      ensures r <= nBuckets
      ensures key in contents <==> r < nBuckets
      ensures r < nBuckets ==> Buckets()[r].Live() && keys[r] == key && vals[r] == contents[key]
    {
      hide Sound, Cells, Passed, Holds;
      Facts();
      if nBuckets == 0 {
        return 0;
      }
      var i, c;
      ghost var steps;
      i, c, steps := Search(flags, nBuckets, keys, key, hash(key), log);
      if c.empty {
        SearchMiss(hash, Buckets(), keys[..], vals[..], at, contents, key, steps);
        r := nBuckets;
      } else {
        r := i;
      }
    }

    /** kh_resize: unless the request is too small for the keys, the capacity becomes the next
        power of two, all tombstones go, and the map stays. */
    method Resize(request: nat)
      requires Valid()
      modifies this, flags, keys, vals
      ensures Valid() && contents == old(contents)
      ensures fresh(flags) || flags == old(flags)
      ensures fresh(keys) || keys == old(keys)
      ensures fresh(vals) || vals == old(vals)
      ensures var n := Pow2(LogCapacity(request, 2));
              if old(size) >= UpperBound(n) then unchanged(this)
              else nBuckets == n && nOccupied == size && log == LogCapacity(request, 2)
    {
      hide Sound, Cells, Holds, Count;
      Facts();
      ghost var newLog := LogCapacity(request, 2);
      var newN := Pow2(LogCapacity(request, 2));
      if size >= UpperBound(newN) {
        return;
      }
      Rehash(newN, newLog);
    }

    method Rehash(newN: nat, ghost newLog: nat)
      requires Valid() && 2 <= newLog && newN == Pow2(newLog) && size < UpperBound(newN)
      modifies this, flags, keys, vals
      ensures Valid() && contents == old(contents)
      ensures fresh(flags)
      ensures fresh(keys) || keys == old(keys)
      ensures fresh(vals) || vals == old(vals)
      ensures nBuckets == newN && nOccupied == size && log == newLog
    {
      hide Sound, Cells, Holds, Count;
      var newFlags, ks, vs;
      ghost var newAt;
      newFlags, ks, vs, newAt := Move(newN, newLog);
      if nBuckets > newN {  // shrink
        ghost var bigKs, bigVs := ks[..], vs[..];
        ks := Resized(ks, newN);
        vs := Resized(vs, newN);
        Realloc(hash, Cells(newFlags[..], newN), bigKs, bigVs, ks[..], vs[..], newAt, contents);
      }
      SoundRehash(hash, Cells(newFlags[..], newN), ks[..], vs[..], newAt, contents, newLog);
      Install(newFlags, ks, vs, newN, newAt, newLog);
    }

    /** Grows the arrays if need be and moves every entry to its new bucket. */
    method Move(newN: nat, ghost newLog: nat)
      returns (newFlags: array<bv32>, ks: array<K>, vs: array<V>, ghost newAt: map<K, nat>)
      requires Valid() && 2 <= newLog && newN == Pow2(newLog) && size < UpperBound(newN)
      modifies flags, keys, vals
      ensures fresh(newFlags) && newN <= 16 * newFlags.Length
      ensures (fresh(ks) && fresh(vs)) || (ks == keys && vs == vals)
      ensures (ks as object) != vs && (ks as object) != newFlags && (vs as object) != newFlags
      ensures ks.Length == vs.Length == if nBuckets < newN then newN else nBuckets
      ensures Holds(hash, Cells(newFlags[..], newN), ks[..], vs[..], newAt, contents)
      ensures Count(Cells(newFlags[..], newN), true) == |contents| == size < UpperBound(newN)
    {
      hide Sound, Cells, Holds, Count;
      Facts();
      WordsCover(newLog);
      Pow2AtLeastFour(newLog);
      UpperBoundFacts(newN);
      newFlags := new bv32[FSize(newN)];
      FillEmpty(newFlags, newN);
      ks, vs := keys, vals;
      if nBuckets < newN {  // expand
        ks := Resized(keys, newN);
        vs := Resized(vals, newN);
        Realloc(hash, Buckets(), keys[..], vals[..], ks[..], vs[..], at, contents);
      }
      newAt := RehashAll(hash, flags, nBuckets, newFlags, newN, ks, vs, newLog, at, contents);
    }

    method Install(newFlags: array<bv32>, ks: array<K>, vs: array<V>, newN: nat, ghost newAt: map<K, nat>,
                   ghost newLog: nat)
      requires newN <= 16 * newFlags.Length && ks.Length == vs.Length == newN
      requires (newFlags as object) != ks && (newFlags as object) != vs && (ks as object) != vs
      requires Sound(hash, Cells(newFlags[..], newN), ks[..], vs[..], newAt, contents, size, size, UpperBound(newN),
                     newLog)
      modifies this
      ensures Valid() && contents == old(contents) && size == old(size)
      ensures flags == newFlags && keys == ks && vals == vs && nBuckets == newN && nOccupied == size && log == newLog
    {
      hide Sound, Cells;
      flags, keys, vals := newFlags, ks, vs;
      nBuckets, nOccupied, upperBound := newN, size, UpperBound(newN);
      at, log := newAt, newLog;
    }

    /** kh_put, first part: a table whose n_occupied has reached upper_bound gives up its tombstones
        or doubles. */
    method MakeRoom()
      requires Valid() && nBuckets <= MAX_GROW
      modifies this, flags, keys, vals
      ensures Valid() && contents == old(contents) && nOccupied < upperBound && nBuckets <= 2 * MAX_GROW
      ensures fresh(flags) || flags == old(flags)
      ensures fresh(keys) || keys == old(keys)
      ensures fresh(vals) || vals == old(vals)
      ensures nBuckets == if old(nOccupied < upperBound) || old(nBuckets > 2 * size) then old(nBuckets)
                          else if old(nBuckets) == 0 then 4 else 2 * old(nBuckets)
      ensures nOccupied == if old(nOccupied < upperBound) then old(nOccupied) else |contents|
    {
      hide Valid, Pow2, LogCapacity, UpperBound;
      Counters();
      if nOccupied >= upperBound {
        RoomFor(nBuckets, size, log);
        if nBuckets > 2 * size {
          Resize(nBuckets - 1);
        } else {
          Resize(nBuckets + 1);
        }
        Counters();
      }
    }

    /** kh_put: `ret` is 0 if the key was there, 1 if its bucket was empty, 2 if it held a tombstone.
        A new key has no value of its own yet: it finds whatever vals[x] was. */
    method Put(key: K) returns (x: nat, ret: int)
      requires Valid() && nBuckets <= MAX_GROW
      modifies this, flags, keys, vals
      ensures Valid() && nBuckets <= 2 * MAX_GROW
      ensures fresh(flags) || flags == old(flags)
      ensures fresh(keys) || keys == old(keys)
      ensures fresh(vals) || vals == old(vals)
      ensures x < nBuckets && Buckets()[x].Live() && keys[x] == key
      ensures if key in old(contents) then ret == 0 && contents == old(contents)
              else ret in {1, 2} && contents == old(contents)[key := vals[x]]
      ensures nBuckets == old(nBuckets) || (old(nBuckets) == 0 && nBuckets == 4) ||
              (nBuckets == 2 * old(nBuckets) && old(nBuckets) <= 2 * |old(contents)|)
      ensures nOccupied == if old(nOccupied < upperBound) then old(nOccupied) + (if ret == 1 then 1 else 0)
                           else |contents|
      ensures !old(nOccupied < upperBound) ==> ret != 2
    {
      hide Sound, Cells, Holds, Count;
      Facts();
      MakeRoom();
      x, ret := Choose(key);
    }

    /** The search of kh_put, and what it does with the bucket it finds; without tombstones none is reused. */
    method Choose(key: K) returns (x: nat, ret: int)
      requires Valid() && nOccupied < upperBound
      modifies this`size, this`nOccupied, this`contents, this`at, flags, keys
      ensures Valid() && x < nBuckets && Buckets()[x].Live() && keys[x] == key
      ensures if key in old(contents) then ret == 0 && contents == old(contents)
              else ret in {1, 2} && contents == old(contents)[key := vals[x]] && |contents| == |old(contents)| + 1
      ensures nOccupied == old(nOccupied) + (if ret == 1 then 1 else 0)
      ensures old(nOccupied) == |old(contents)| ==> ret != 2
    {
      hide Sound, Cells, Holds, Count, Passed;
      Facts();
      ghost var end, steps;
      x, end, steps := FindSlot(flags, nBuckets, keys, key, hash(key), log);
      var c := ReadCell(flags, nBuckets, x);
      NoneToReuse(x);
      if c.empty || c.del {
        SearchMiss(hash, Buckets(), keys[..], vals[..], at, contents, key, steps);
        SizeAfterAdd(contents, key, vals[x]);
        Insert(x, key);
        ret := if c.empty then 1 else 2;
      } else {
        ret := 0;
      }
    }

    lemma NoneToReuse(x: nat)
      requires Valid() && x < nBuckets
      ensures nOccupied == |contents| && !Buckets()[x].empty ==> Buckets()[x].Live()
    {
      hide Cells, Holds, Count;
      Facts();
      SizeIsCardinality(hash, Buckets(), keys[..], vals[..], at, contents);
      if nOccupied == |contents| {
        NoTombstones(Buckets(), x);
      }
    }

    /** kh_put, last part: the bucket was empty (n_occupied grows) or held a tombstone. */
    method Insert(x: nat, key: K)
      requires Valid() && x < nBuckets && !Buckets()[x].Live() && key !in contents
      requires Reachable(Buckets(), hash(key), x) && nOccupied < upperBound
      modifies this`size, this`nOccupied, this`contents, this`at, flags, keys
      ensures Valid() && Buckets()[x].Live() && keys[x] == key
      ensures contents == old(contents)[key := vals[x]] && size == old(size) + 1
      ensures nOccupied == if old(Buckets())[x].empty then old(nOccupied) + 1 else old(nOccupied)
    {
      hide Sound, Cells, Reachable;
      ghost var cells, ks, vs := Buckets(), keys[..], vals[..];
      SoundInsert(hash, cells, ks, vs, at, contents, size, nOccupied, upperBound, log, key, x);
      var c := ReadCell(flags, nBuckets, x);
      MarkLive(flags, nBuckets, x);
      keys[x] := key;
      size, nOccupied := size + 1, if c.empty then nOccupied + 1 else nOccupied;
      at, contents := at[key := x], contents[key := vs[x]];
      assert keys[..] == ks[x := key] && vals[..] == vs && Buckets() == cells[x := LIVE];
    }

    /** kh_del */
    method Del(x: nat)
      requires Valid() && x <= nBuckets
      modifies this, flags
      ensures Valid() && unchanged(`flags, `keys, `vals, `nBuckets, `nOccupied, `upperBound)
      ensures contents == if x < nBuckets && old(Buckets())[x].Live() then old(contents) - {keys[x]} else old(contents)
    {
      hide Sound, Cells;
      if x != nBuckets {
        var c := ReadCell(flags, nBuckets, x);
        if c.Live() {
          DelLive(x);
        }
      }
    }

    method DelLive(x: nat)
      requires Valid() && x < nBuckets && Buckets()[x].Live()
      modifies this, flags
      ensures Valid() && unchanged(`flags, `keys, `vals, `nBuckets, `nOccupied, `upperBound)
      ensures contents == old(contents) - {keys[x]}
    {
      hide Sound, Cells;
      ghost var cells, ks, vs := Buckets(), keys[..], vals[..];
      ghost var at', contents' := at - {ks[x]}, contents - {ks[x]};
      SoundDelete(hash, cells, ks, vs, at, contents, size, nOccupied, upperBound, log, x);
      MarkDeleted(flags, nBuckets, x);
      at, contents, size := at', contents', size - 1;
      assert keys[..] == ks && vals[..] == vs && Buckets() == cells[x := DELETED];
    }

    /** kh_clear */
    method Clear()
      requires Valid()
      modifies this, flags
      ensures Valid() && contents == map[] && unchanged(`flags, `keys, `vals, `nBuckets, `upperBound)
    {
      hide Sound, Cells;
      ghost var cells, ks, vs := Buckets(), keys[..], vals[..];
      FillEmpty(flags, nBuckets);
      ghost var cells' := Buckets();
      SoundClear(hash, cells, cells', ks, vs, at, contents, size, nOccupied, upperBound, log);
      size, nOccupied := 0, 0;
      at, contents := map[], map[];
      assert keys[..] == ks && vals[..] == vs && Buckets() == cells';
    }

    /** Assigning to kh_value of a live bucket. */
    method SetValue(x: nat, v: V)
      requires Valid() && x < nBuckets && Buckets()[x].Live()
      modifies this, vals
      ensures Valid() && unchanged(`flags, `keys, `vals, `nBuckets, `nOccupied, `upperBound, `size)
      ensures keys[x] in old(contents) && contents == old(contents)[keys[x] := v]
    {
      hide Sound, Cells;
      ghost var vs := vals[..];
      SoundStore(hash, Buckets(), keys[..], vs, at, contents, size, nOccupied, upperBound, log, x, v);
      contents := contents[keys[x] := v];
      vals[x] := v;
      assert vals[..] == vs[x := v];
    }

    /** Assigning to kh_value of a bucket that is not live. */
    method SetDeadValue(x: nat, v: V)
      requires Valid() && x < nBuckets && !Buckets()[x].Live()
      modifies vals
      ensures Valid()
    {
      hide Sound, Cells;
      ghost var vs := vals[..];
      SoundDead(hash, Buckets(), keys[..], vs, at, contents, size, nOccupied, upperBound, log, x, v);
      vals[x] := v;
      assert vals[..] == vs[x := v];
    }
  }
}
