/** jansson's hashtable: string keys, chained buckets that are stretches of one circular list. */
module HashTable {
  import opened Wrappers
  import opened Bytes
  import opened HashList
  import opened HashSegments

  /** hash_str, in 64-bit arithmetic; bytes are read through signed char. */
  function HashStr(key: CString): nat {
    if |key| == 0 then 5381
    else (33 * HashStr(key[..|key| - 1]) + SChar(key[|key| - 1])) % 0x1_0000_0000_0000_0000
  }

  method ComputeHash(key: CString) returns (hash: nat)
    ensures hash == HashStr(key)
  {
    hash := 5381;
    for i := 0 to |key|
      invariant hash == HashStr(key[..i])
    {
      assert key[..i + 1][..i] == key[..i];
      hash := (33 * hash + SChar(key[i])) % 0x1_0000_0000_0000_0000;
    }
    assert key[..|key|] == key;
  }

  const PRIMES: seq<nat> := [
    5, 13, 23, 53, 97, 193, 389, 769, 1543, 3079, 6151, 12289, 24593,
    49157, 98317, 196613, 393241, 786433, 1572869, 3145739, 6291469,
    12582917, 25165843, 50331653, 100663319, 201326611, 402653189,
    805306457, 1610612741
  ]

  lemma PrimesPositive(i: nat)
    requires i < 29
    ensures PRIMES[i] > 0
  {
  }

  // ---- keys and values of the pairs

  /** Each pair carries the hash of its key, and `nodeOf` finds it by key. */
  ghost predicate Keyed<V>(nodes: seq<Node<V>>, nodeOf: map<CString, Node<V>>) {
    && (forall n :: n in nodes ==> n.hash == HashStr(n.key) && n.key in nodeOf && nodeOf[n.key] == n)
    && (forall k :: k in nodeOf ==> nodeOf[k] in nodes && nodeOf[k].key == k)
  }

  ghost predicate Valued<V>(nodes: seq<Node<V>>, contents: map<CString, V>)
    reads nodes`value
  {
    forall n :: n in nodes ==> n.key in contents && contents[n.key] == n.value
  }

  /** Only the last pair of a bucket is its record's last node. */
  lemma LastOfBucket<V>(head: Node<V>, nodes: seq<Node<V>>, s: Seg)
    requires Distinct(head, nodes) && s.lo < s.hi <= |nodes|
    ensures forall j :: s.lo <= j < s.hi && nodes[j] == nodes[s.hi - 1] ==> j == s.hi - 1
  {
  }

  /** hashtable_find_pair: walks the bucket from first to last. */
  method FindPair<V>(head: Node<V>, bucket: Bucket<V>, key: CString, hash: nat,
                     ghost nodes: seq<Node<V>>, ghost s: Seg)
    returns (pair: Node?<V>, ghost p: nat)
    requires Ring(head, nodes) && Distinct(head, nodes)
    requires s.lo <= s.hi <= |nodes| && bucket == BucketAt(head, nodes, s)
    requires forall n :: n in nodes ==> n.hash == HashStr(n.key)
    requires hash == HashStr(key)
    ensures pair == null ==> forall j :: s.lo <= j < s.hi ==> nodes[j].key != key
    ensures pair != null ==> s.Has(p) && pair == nodes[p] && pair.key == key
  {
    hide Ring, Distinct, HashStr;
    p := s.lo;
    if s.lo < s.hi {
      HeadApart(head, nodes, s);
      LastOfBucket(head, nodes, s);
    }
    if bucket.first == head && bucket.first == bucket.last {
      return null, p;
    }
    var list := bucket.first;
    while true
      invariant s.Has(p) && list == nodes[p]
      invariant forall j :: s.lo <= j < p ==> nodes[j].key != key
      decreases s.hi - p
    {
      if list.hash == hash && list.key == key {
        return list, p;
      }
      if list == bucket.last {
        return null, p;
      }
      Neighbours(head, nodes, p);
      list := list.next;
      p := p + 1;
    }
  }

  /** insert_to_bucket, on the list and the bucket records. */
  method InsertToBucket<V>(head: Node<V>, buckets: array<Bucket<V>>, b: nat, node: Node<V>,
                           ghost nodes: seq<Node<V>>, ghost segs: seq<Seg>)
    requires Ring(head, nodes) && Distinct(head, nodes)
    requires Segments(nodes, buckets.Length, segs) && Recorded(head, nodes, segs, buckets[..])
    requires node != head && node !in nodes && buckets.Length > 0 && b == BucketIndex(node, buckets.Length)
    modifies node`prev, node`next, head`prev, head`next, nodes`prev, nodes`next, buckets
    ensures InsertPos(nodes, segs[b]) <= |nodes|
    ensures Ring(head, Inserted(nodes, InsertPos(nodes, segs[b]), node))
    ensures Distinct(head, Inserted(nodes, InsertPos(nodes, segs[b]), node))
    ensures Segments(Inserted(nodes, InsertPos(nodes, segs[b]), node), buckets.Length, SegsAfterInsert(nodes, segs, b))
    ensures Recorded(head, Inserted(nodes, InsertPos(nodes, segs[b]), node), SegsAfterInsert(nodes, segs, b),
                     buckets[..])
  {
    hide Ring, Distinct, Inserted, SegsAfterInsert, BucketIndex;
    ghost var p := InsertPos(nodes, segs[b]);
    ghost var bs := buckets[..];
    SegmentsInsert(nodes, buckets.Length, segs, node);
    RecordedInsert(head, nodes, buckets.Length, segs, bs, node);
    DistinctInsert(head, nodes, p, node);
    HeadApart(head, nodes, segs[b]);
    if buckets[b].first == head && buckets[b].first == buckets[b].last {
      ListInsert(head, nodes, p, head, node);
      buckets[b] := Bucket(node, node);
    } else {
      ListInsert(head, nodes, p, buckets[b].first, node);
      buckets[b] := Bucket(node, buckets[b].last);
    }
    assert buckets[..] == bs[b := Bucket(node, if segs[b].lo < segs[b].hi then bs[b].last else node)];
  }

  lemma DistinctInsert<V>(head: Node<V>, nodes: seq<Node<V>>, p: nat, node: Node<V>)
    requires Distinct(head, nodes) && p <= |nodes| && node != head && node !in nodes
    ensures Distinct(head, Inserted(nodes, p, node))
  {
  }

  lemma HeadApart<V>(head: Node<V>, nodes: seq<Node<V>>, s: Seg)
    requires Distinct(head, nodes) && s.lo <= s.hi <= |nodes|
    ensures s.lo < s.hi ==>
              BucketAt(head, nodes, s).first != head && At(head, nodes, s.lo) == BucketAt(head, nodes, s).first
    ensures At(head, nodes, |nodes|) == head
  {
  }

  // ---- rehashing

  /** From position `k` on, the next pointers still lead along the old list to the head. */
  ghost predicate Chain<V>(head: Node<V>, nodes: seq<Node<V>>, k: nat)
    reads nodes`next
  {
    forall i :: k <= i < |nodes| ==> nodes[i].next == At(head, nodes, i + 1)
  }

  /** The same pairs in possibly another order. */
  ghost predicate SamePairs<V>(a: seq<Node<V>>, b: seq<Node<V>>) {
    |a| == |b| && (forall n :: n in a ==> n in b) && (forall n :: n in b ==> n in a)
  }

  /** hashtable_do_rehash's loop: takes the pairs off the old chain one by one, though every insertion
      rewrites links, and leaves them all in the new buckets. */
  method RehashNodes<V>(head: Node<V>, buckets: array<Bucket<V>>, ghost nodes0: seq<Node<V>>)
    returns (ghost nodes: seq<Node<V>>, ghost segs: seq<Seg>)
    requires Ring(head, nodes0) && Distinct(head, nodes0) && buckets.Length > 0
    requires forall b :: 0 <= b < buckets.Length ==> buckets[b] == Bucket(head, head)
    modifies head`prev, head`next, nodes0`prev, nodes0`next, buckets
    ensures Ring(head, nodes) && Distinct(head, nodes) && SamePairs(nodes, nodes0)
    ensures Segments(nodes, buckets.Length, segs) && Recorded(head, nodes, segs, buckets[..])
  {
    hide Segments, Recorded;
    nodes, segs := [], seq(buckets.Length, _ => Seg(0, 0));
    SegmentsEmpty(head, buckets.Length, segs, buckets[..]);
    FirstOf(head, nodes0);
    var list := head.next;
    head.next, head.prev := head, head;
    ghost var k := 0;
    while list != head
      invariant k <= |nodes0| && list == At(head, nodes0, k) && Chain(head, nodes0, k)
      invariant Ring(head, nodes) && Distinct(head, nodes)
      invariant SamePairs(nodes, nodes0[..k])
      invariant Segments(nodes, buckets.Length, segs) && Recorded(head, nodes, segs, buckets[..])
      decreases |nodes0| - k
    {
      var next := list.next;
      var index := list.hash % buckets.Length;
      nodes, segs, k := RehashOne(head, buckets, index, list, nodes0, k, nodes, segs);
      list := next;
    }
  }

  lemma FirstOf<V>(head: Node<V>, nodes: seq<Node<V>>)
    requires Ring(head, nodes)
    ensures head.next == At(head, nodes, 0) && Chain(head, nodes, 0)
  {
    assert At(head, nodes, -1) == head;
    forall i | 0 <= i < |nodes|
      ensures nodes[i].next == At(head, nodes, i + 1)
    {
      Neighbours(head, nodes, i);
    }
  }

  method RehashOne<V>(head: Node<V>, buckets: array<Bucket<V>>, index: nat, list: Node<V>,
                      ghost nodes0: seq<Node<V>>, ghost k: nat, ghost nodes: seq<Node<V>>, ghost segs: seq<Seg>)
    returns (ghost nodes': seq<Node<V>>, ghost segs': seq<Seg>, ghost k': nat)
    requires Distinct(head, nodes0) && buckets.Length > 0
    requires k < |nodes0| && list == nodes0[k] && Chain(head, nodes0, k)
    requires Ring(head, nodes) && Distinct(head, nodes) && SamePairs(nodes, nodes0[..k])
    requires Segments(nodes, buckets.Length, segs) && Recorded(head, nodes, segs, buckets[..])
    requires index == BucketIndex(list, buckets.Length)
    modifies head`prev, head`next, nodes0`prev, nodes0`next, buckets
    ensures k' == k + 1 && Chain(head, nodes0, k')
    ensures Ring(head, nodes') && Distinct(head, nodes') && SamePairs(nodes', nodes0[..k'])
    ensures Segments(nodes', buckets.Length, segs') && Recorded(head, nodes', segs', buckets[..])
  {
    hide Segments, Recorded, BucketIndex, Ring, SegsAfterInsert, Distinct, SamePairs, Inserted;
    Apart(head, nodes0, k, nodes);
    SegmentsLength(nodes, buckets.Length, segs);
    ghost var p := InsertPos(nodes, segs[index]);
    assert list in nodes0;
    assert forall i :: 0 <= i < |nodes| ==> nodes[i] in nodes0;
    InsertToBucket(head, buckets, index, list, nodes, segs);
    nodes', segs', k' := Inserted(nodes, p, list), SegsAfterInsert(nodes, segs, index), k + 1;
    SamePairsInsert(nodes, nodes0, k, p);
  }

  lemma Apart<V>(head: Node<V>, nodes0: seq<Node<V>>, k: nat, nodes: seq<Node<V>>)
    requires Distinct(head, nodes0) && k < |nodes0| && SamePairs(nodes, nodes0[..k])
    ensures forall n :: n in nodes ==> n in nodes0
    ensures forall i :: k <= i < |nodes0| ==> nodes0[i] !in nodes && nodes0[i] != head
    ensures forall i :: k < i < |nodes0| ==> nodes0[i] != nodes0[k]
  {
  }

  lemma SegmentsLength<V>(nodes: seq<Node<V>>, nb: nat, segs: seq<Seg>)
    requires Segments(nodes, nb, segs)
    ensures |segs| == nb
    ensures forall b :: 0 <= b < nb ==> InsertPos(nodes, segs[b]) <= |nodes| && segs[b].lo <= segs[b].hi <= |nodes|
  {
  }

  lemma SamePairsInsert<V>(nodes: seq<Node<V>>, nodes0: seq<Node<V>>, k: nat, p: nat)
    requires k < |nodes0| && p <= |nodes| && SamePairs(nodes, nodes0[..k])
    ensures SamePairs(Inserted(nodes, p, nodes0[k]), nodes0[..k + 1])
  {
    assert nodes0[..k + 1] == nodes0[..k] + [nodes0[k]];
    assert nodes == nodes[..p] + nodes[p..];
  }

  // ---- what is stored, under permutation, insertion and removal

  lemma DataSamePairs<V>(nodes: seq<Node<V>>, nodes': seq<Node<V>>, nodeOf: map<CString, Node<V>>,
                         contents: map<CString, V>)
    requires SamePairs(nodes', nodes) && Keyed(nodes, nodeOf) && Valued(nodes, contents)
    ensures Keyed(nodes', nodeOf) && Valued(nodes', contents) && |nodes'| == |nodes|
  {
  }

  lemma InsertedMembers<T>(s: seq<T>, p: nat, x: T)
    requires p <= |s|
    ensures x in Inserted(s, p, x)
    ensures forall y :: y in Inserted(s, p, x) ==> y == x || y in s
    ensures forall y :: y in s ==> y in Inserted(s, p, x)
  {
    assert s == s[..p] + s[p..];
  }

  lemma DataInserted<V>(nodes: seq<Node<V>>, nodeOf: map<CString, Node<V>>, contents: map<CString, V>, p: nat,
                        pair: Node<V>)
    requires Keyed(nodes, nodeOf) && Valued(nodes, contents) && contents.Keys == nodeOf.Keys
    requires p <= |nodes| && pair.key !in contents && pair.hash == HashStr(pair.key)
    ensures Keyed(Inserted(nodes, p, pair), nodeOf[pair.key := pair])
    ensures Valued(Inserted(nodes, p, pair), contents[pair.key := pair.value])
    ensures contents[pair.key := pair.value].Keys == nodeOf[pair.key := pair].Keys
  {
    InsertedMembers(nodes, p, pair);
  }

  lemma KeyAbsent<K, X>(m: map<K, X>, k: K)
    requires k !in m
    ensures m - {k} == m
  {
  }

  lemma RemovedMembers<T>(s: seq<T>, p: nat)
    requires p < |s|
    ensures forall y :: y in Removed(s, p) ==> y in s
    ensures forall y :: y in s && y != s[p] ==> y in Removed(s, p)
  {
    assert s == s[..p] + [s[p]] + s[p + 1..];
  }

  lemma DistinctRemove<V>(head: Node<V>, nodes: seq<Node<V>>, p: nat)
    requires Distinct(head, nodes) && p < |nodes|
    ensures Distinct(head, Removed(nodes, p)) && nodes[p] !in Removed(nodes, p)
  {
  }

  lemma DataRemoved<V>(head: Node<V>, nodes: seq<Node<V>>, nodeOf: map<CString, Node<V>>, contents: map<CString, V>,
                       p: nat)
    requires Distinct(head, nodes)
    requires Keyed(nodes, nodeOf) && Valued(nodes, contents) && contents.Keys == nodeOf.Keys && p < |nodes|
    ensures Keyed(Removed(nodes, p), nodeOf - {nodes[p].key})
    ensures Valued(Removed(nodes, p), contents - {nodes[p].key})
    ensures (contents - {nodes[p].key}).Keys == (nodeOf - {nodes[p].key}).Keys
  {
    hide Distinct, Removed;
    RemovedMembers(nodes, p);
    DistinctRemove(head, nodes, p);
  }

  /** The tests on the pair and the bucket record tell where in its bucket the pair stands. */
  lemma RemovedBucket<V>(head: Node<V>, nodes: seq<Node<V>>, s: Seg, p: nat)
    requires Ring(head, nodes) && Distinct(head, nodes) && s.Has(p) && s.hi <= |nodes|
    ensures nodes[p].next != null && nodes[p].prev != null
    ensures BucketAfterRemove(head, nodes, s, p) ==
              var b := BucketAt(head, nodes, s);
              var n := nodes[p];
              if n == b.first && n == b.last then Bucket(head, head)
              else if n == b.first then Bucket(n.next, b.last)
              else if n == b.last then Bucket(b.first, n.prev)
              else b
  {
    hide Ring;
    Neighbours(head, nodes, p - 1);
    Neighbours(head, nodes, p);
  }

  lemma AtNode<V>(head: Node<V>, nodes: seq<Node<V>>, p: nat)
    requires p < |nodes|
    ensures At(head, nodes, p) == nodes[p]
  {
  }

  ghost function KeySet<V>(nodes: seq<Node<V>>, n: nat): set<CString>
    requires n <= |nodes|
  {
    set i | 0 <= i < n :: nodes[i].key
  }

  lemma {:induction false} KeySetSize<V>(nodes: seq<Node<V>>, n: nat)
    requires n <= |nodes|
    requires forall i, j :: 0 <= i < j < |nodes| ==> nodes[i].key != nodes[j].key
    ensures |KeySet(nodes, n)| == n
  {
    if n > 0 {
      KeySetSize(nodes, n - 1);
      assert KeySet(nodes, n) == KeySet(nodes, n - 1) + {nodes[n - 1].key};
    }
  }

  // ---- the table

  class Hashtable<V> {
    var size: nat
    var numBuckets: nat  // an index into PRIMES
    var buckets: array<Bucket<V>>
    const list: Node<V>  // the list head

    ghost var nodes: seq<Node<V>>               // the pairs in list order
    ghost var segs: seq<Seg>                    // the stretch of each bucket
    ghost var nodeOf: map<CString, Node<V>>     // the pair of each key
    ghost var contents: map<CString, V>         // the map the table stands for

    /** The shape of the list and of the buckets. */
    ghost predicate Shape()
      reads `nodes, `segs, `buckets, list`next, list`prev, nodes`next, nodes`prev, buckets
    {
      && Ring(list, nodes) && Distinct(list, nodes)
      && Segments(nodes, buckets.Length, segs) && Recorded(list, nodes, segs, buckets[..])
    }

    /** What is stored, and the counters. */
    ghost predicate Data()
      reads `nodes, `nodeOf, `contents, `size, `numBuckets, `buckets, nodes`value
    {
      && Keyed(nodes, nodeOf) && Valued(nodes, contents) && contents.Keys == nodeOf.Keys
      && size == |nodes| && numBuckets < 29 && buckets.Length == PRIMES[numBuckets]
    }

    ghost predicate Valid()
      reads this, list, nodes, buckets
    {
      Shape() && Data()
    }

    /** hashtable_init */
    constructor (anyValue: V)
      ensures Valid() && contents == map[] && numBuckets == 0
      ensures fresh(list) && fresh(buckets) && nodes == []
    {
      size, numBuckets := 0, 0;
      var head := new Node<V>([], 0, 0, anyValue);
      head.next, head.prev := head, head;
      list := head;
      buckets := new Bucket<V>[5](_ => Bucket(head, head));
      nodes, segs, nodeOf, contents := [], seq(5, _ => Seg(0, 0)), map[], map[];
      new;
      SegmentsEmpty(list, 5, segs, buckets[..]);
    }

    /** hashtable_get */
    method Get(key: CString) returns (r: Option<V>)
      requires Valid()
      ensures r == if key in contents then Some(contents[key]) else None
    {
      ghost var p;
      var pair;
      pair, p := Find(key, HashStr(key));
      r := if pair == null then None else Some(pair.value);
    }

    /** The pair of `key`, looked for in the bucket of its hash. */
    method Find(key: CString, hash: nat) returns (pair: Node?<V>, ghost p: nat)
      requires Valid() && hash == HashStr(key)
      ensures pair == null <==> key !in contents
      ensures pair != null ==> key in nodeOf && pair == nodeOf[key] && pair.value == contents[key]
      ensures buckets.Length > 0 && |segs| == buckets.Length
      ensures pair != null ==> p < |nodes| && pair == nodes[p] && segs[hash % buckets.Length].Has(p)
    {
      hide Ring, Distinct, Recorded;
      SegmentsLength(nodes, buckets.Length, segs);
      RecordedIs(list, nodes, segs, buckets[..]);
      var index := hash % buckets.Length;
      pair, p := FindPair(list, buckets[index], key, hash, nodes, segs[index]);
      if pair == null {
        NotElsewhere(key, index);
      }
    }

    /** hashtable_do_rehash: one step up in the table of primes; same map, same pairs. */
    method DoRehash()
      requires Valid() && numBuckets < 28
      modifies this, list`prev, list`next, nodes`prev, nodes`next
      ensures Valid() && contents == old(contents) && size == old(size) && numBuckets == old(numBuckets) + 1
      ensures fresh(buckets) && SamePairs(nodes, old(nodes)) && nodeOf == old(nodeOf)
    {
      hide Ring, Distinct, Segments, Recorded, SamePairs, Keyed, Valued;
      var more := EmptyBuckets(numBuckets + 1);
      ghost var nodes', segs' := RehashNodes(list, more, nodes);
      Install(more, nodes', segs');
    }

    method EmptyBuckets(i: nat) returns (more: array<Bucket<V>>)
      requires i < 29
      ensures fresh(more) && more.Length == PRIMES[i] > 0
      ensures forall b :: 0 <= b < more.Length ==> more[b] == Bucket(list, list)
    {
      PrimesPositive(i);
      var head := list;
      more := new Bucket<V>[PRIMES[i]](_ => Bucket(head, head));
    }

    method Install(more: array<Bucket<V>>, ghost nodes': seq<Node<V>>, ghost segs': seq<Seg>)
      requires Ring(list, nodes') && Distinct(list, nodes') && SamePairs(nodes', nodes)
      requires Segments(nodes', more.Length, segs') && Recorded(list, nodes', segs', more[..])
      requires Data() && numBuckets < 28 && more.Length == PRIMES[numBuckets + 1]
      modifies `numBuckets, `buckets, `nodes, `segs
      ensures Valid() && buckets == more && nodes == nodes' && numBuckets == old(numBuckets) + 1
    {
      hide Ring, Distinct, Segments, Recorded, Keyed, Valued;
      DataSamePairs(nodes, nodes', nodeOf, contents);
      numBuckets := numBuckets + 1;
      buckets, nodes, segs := more, nodes', segs';
    }

    /** hashtable_set: a new key gets a pair of its own with the serial number, an old one keeps its pair and
        gets the new value.  `released` are the values given to json_decref. */
    method Set(key: CString, serial: nat, value: V) returns (released: seq<V>)
      requires Valid() && (numBuckets < 28 || size < PRIMES[28])
      modifies this, list, buckets, nodes
      ensures Valid() && contents == old(contents)[key := value]
      ensures released == if key in old(contents) then [old(contents)[key]] else []
      ensures key in nodeOf && nodeOf == old(nodeOf)[key := nodeOf[key]]
      ensures if key in old(contents) then key in old(nodeOf) && nodeOf[key] == old(nodeOf[key])
              else fresh(nodeOf[key]) && nodeOf[key].serial == serial
      ensures fresh(buckets) || buckets == old(buckets)
      ensures forall n :: n in nodes ==> n in old(nodes) || fresh(n)
    {
      hide Ring, Distinct, Segments, Recorded, Keyed, Valued;
      if size >= PRIMES[numBuckets] {
        DoRehash();
      }
      assert forall i :: 0 <= i < |nodes| ==> nodes[i] in old(nodes);
      var hash := ComputeHash(key);
      ghost var p;
      var pair;
      pair, p := Find(key, hash);
      if pair != null {
        released := [pair.value];
        assert pair in old(nodes);
        SetOld(key, pair, value);
      } else {
        released := [];
        InsertNew(key, hash, serial, value);
      }
    }

    method SetOld(key: CString, pair: Node<V>, value: V)
      requires Valid() && key in nodeOf && pair == nodeOf[key]
      modifies this`contents, pair`value
      ensures Valid() && contents == old(contents)[key := value]
    {
      hide Ring, Distinct, Segments, Recorded;
      contents := contents[key := value];
      pair.value := value;
    }

    method InsertNew(key: CString, hash: nat, serial: nat, value: V)
      requires Valid() && key !in contents && hash == HashStr(key)
      modifies this, list, buckets, nodes
      ensures Valid() && contents == old(contents)[key := value] && size == old(size) + 1
      ensures key in nodeOf && nodeOf == old(nodeOf)[key := nodeOf[key]]
      ensures fresh(nodeOf[key]) && nodeOf[key].serial == serial
      ensures buckets == old(buckets)
      ensures forall n :: n in nodes ==> n in old(nodes) || fresh(n)
    {
      hide Shape, Data, Inserted;
      var pair := new Node(key, hash, serial, value);
      ghost var before := nodes;
      BeforeInsert(pair);
      ghost var p := Attach(pair);
      InsertedMembers(before, p, pair);
      AddData(pair, before, p);
    }

    lemma BeforeInsert(pair: Node<V>)
      requires Data()
      ensures buckets.Length > 0 && Keyed(nodes, nodeOf) && Valued(nodes, contents) && contents.Keys == nodeOf.Keys
      ensures size == |nodes| && numBuckets < 29 && buckets.Length == PRIMES[numBuckets]
    {
      PrimesPositive(numBuckets);
    }

    method AddData(pair: Node<V>, ghost before: seq<Node<V>>, ghost p: nat)
      requires p <= |before| && nodes == Inserted(before, p, pair)
      requires Keyed(before, nodeOf) && Valued(before, contents) && contents.Keys == nodeOf.Keys
      requires size == |before| && numBuckets < 29 && buckets.Length == PRIMES[numBuckets]
      requires pair.key !in contents && pair.hash == HashStr(pair.key)
      modifies `nodeOf, `contents, `size
      ensures Data() && contents == old(contents)[pair.key := pair.value] && size == old(size) + 1
      ensures nodeOf == old(nodeOf)[pair.key := pair]
    {
      hide Keyed, Valued, Inserted;
      DataInserted(before, nodeOf, contents, p, pair);
      nodeOf, contents := nodeOf[pair.key := pair], contents[pair.key := pair.value];
      size := size + 1;
    }

    method Attach(pair: Node<V>) returns (ghost p: nat)
      requires Shape() && pair != list && pair !in nodes && buckets.Length > 0
      modifies this`nodes, this`segs, buckets, list`prev, list`next, nodes`prev, nodes`next, pair`prev, pair`next
      ensures Shape() && p <= |old(nodes)| && nodes == Inserted(old(nodes), p, pair)
    {
      hide Ring, Distinct, Segments, Recorded, SegsAfterInsert, Inserted;
      SegmentsLength(nodes, buckets.Length, segs);
      var index := pair.hash % buckets.Length;
      p := InsertPos(nodes, segs[index]);
      InsertToBucket(list, buckets, index, pair, nodes, segs);
      nodes, segs := Inserted(nodes, p, pair), SegsAfterInsert(nodes, segs, index);
    }

    /** hashtable_del: 0 on success, -1 if the key was not found. */
    method Del(key: CString) returns (r: int, released: seq<V>)
      requires Valid()
      modifies this, list, buckets, nodes
      ensures Valid() && contents == old(contents) - {key} && nodeOf == old(nodeOf) - {key} && buckets == old(buckets)
      ensures if key in old(contents) then r == 0 && released == [old(contents)[key]] else r == -1 && released == []
      ensures forall n :: n in nodes ==> n in old(nodes)
    {
      hide Shape, Data, Removed, Keyed, Valued, HashStr;
      var hash := ComputeHash(key);
      ghost var p;
      var pair;
      pair, p := Find(key, hash);
      if pair == null {
        KeyAbsent(contents, key);
        KeysAgree();
        KeyAbsent(nodeOf, key);
        return -1, [];
      }
      released := [pair.value];
      ghost var before := nodes;
      BeforeInsert(pair);
      Detach(pair, hash % buckets.Length, p);
      RemovedMembers(before, p);
      DropData(pair, before, p);
      r := 0;
    }

    lemma KeysAgree()
      requires Data()
      ensures forall k :: k in nodeOf <==> k in contents
    {
      assert forall k :: k in nodeOf <==> k in nodeOf.Keys;
    }

    method Detach(pair: Node<V>, index: nat, ghost p: nat)
      requires Shape() && index < buckets.Length && |segs| == buckets.Length && segs[index].Has(p)
      requires p < |nodes| && pair == nodes[p]
      modifies this`nodes, this`segs, buckets, list`prev, list`next, nodes`prev, nodes`next
      ensures Shape() && nodes == Removed(old(nodes), p) && Distinct(list, old(nodes))
    {
      hide Ring, Distinct, Segments, Recorded, Removed, SegsAfterRemove, BucketAfterRemove, BucketAt;
      SegmentsLength(nodes, buckets.Length, segs);
      RecordedIs(list, nodes, segs, buckets[..]);
      SegmentsRemove(nodes, buckets.Length, segs, index, p);
      RecordedRemove(list, nodes, buckets.Length, segs, buckets[..], index, p);
      RemovedBucket(list, nodes, segs[index], p);
      ghost var bs, bucket := buckets[..], BucketAfterRemove(list, nodes, segs[index], p);
      var old' := buckets[index];
      if pair == old'.first && pair == old'.last {
        buckets[index] := Bucket(list, list);
      } else if pair == old'.first {
        buckets[index] := Bucket(pair.next, old'.last);
      } else if pair == old'.last {
        buckets[index] := Bucket(old'.first, pair.prev);
      }
      assert buckets[..] == bs[index := bucket];
      AtNode(list, nodes, p);
      ListRemove(list, nodes, p, pair);
      DistinctRemove(list, nodes, p);
      nodes, segs := Removed(nodes, p), SegsAfterRemove(segs, index, p);
    }

    method DropData(pair: Node<V>, ghost before: seq<Node<V>>, ghost p: nat)
      requires p < |before| && pair == before[p] && nodes == Removed(before, p) && Distinct(list, before)
      requires Keyed(before, nodeOf) && Valued(before, contents) && contents.Keys == nodeOf.Keys
      requires size == |before| && numBuckets < 29 && buckets.Length == PRIMES[numBuckets]
      modifies `nodeOf, `contents, `size
      ensures Data() && contents == old(contents) - {pair.key} && nodeOf == old(nodeOf) - {pair.key}
    {
      hide Keyed, Valued, Removed, Distinct;
      DataRemoved(list, before, nodeOf, contents, p);
      nodeOf, contents := nodeOf - {pair.key}, contents - {pair.key};
      size := size - 1;
    }

    /** hashtable_iter_next, and hashtable_iter when `iter` is the list head. */
    method IterNext(iter: Node<V>, ghost i: int) returns (next: Node?<V>)
      requires Valid() && -1 <= i < |nodes| && iter == At(list, nodes, i)
      ensures next == if i + 1 < |nodes| then nodes[i + 1] else null
    {
      Neighbours(list, nodes, i);
      next := if iter.next == list then null else iter.next;
    }

    /** A full iteration: each key once, with its value, and then the end. */
    method IterateAll() returns (pairs: seq<(CString, V)>)
      requires Valid()
      ensures |pairs| == size == |contents|
      ensures forall i :: 0 <= i < |pairs| ==> pairs[i].0 in contents && contents[pairs[i].0] == pairs[i].1
      ensures forall i, j :: 0 <= i < j < |pairs| ==> pairs[i].0 != pairs[j].0
      ensures forall k :: k in contents ==> exists i :: 0 <= i < |pairs| && pairs[i].0 == k
    {
      hide Shape, Data;
      pairs := WalkAll();
      EachKeyOnce();
      ValuesRight();
      forall k | k in contents
        ensures exists i :: 0 <= i < |pairs| && pairs[i].0 == k
      {
        var i :| 0 <= i < |nodes| && nodes[i].key == k;
        assert pairs[i].0 == k;
      }
    }

    lemma ValuesRight()
      requires Valid()
      ensures |nodes| == size
      ensures forall i :: 0 <= i < |nodes| ==> nodes[i].key in contents && contents[nodes[i].key] == nodes[i].value
    {
      hide Shape, Keyed;
    }

    method WalkAll() returns (pairs: seq<(CString, V)>)
      requires Valid()
      ensures |pairs| == |nodes| && forall i :: 0 <= i < |pairs| ==> pairs[i] == (nodes[i].key, nodes[i].value)
    {
      hide Ring, Distinct, Segments, Recorded, Keyed, Valued;
      pairs := [];
      ghost var i := -1;
      var iter := IterNext(list, i);
      while iter != null
        invariant -1 <= i && i + 1 == |pairs| <= |nodes|
        invariant iter == if i + 1 < |nodes| then nodes[i + 1] else null
        invariant forall j :: 0 <= j < |pairs| ==> pairs[j] == (nodes[j].key, nodes[j].value)
        decreases |nodes| - i
      {
        pairs := pairs + [(iter.key, iter.value)];
        i := i + 1;
        iter := IterNext(iter, i);
      }
    }

    /** The list holds every key of the map exactly once; size is the cardinality of the map. */
    lemma EachKeyOnce()
      requires Valid()
      ensures forall i, j :: 0 <= i < j < |nodes| ==> nodes[i].key != nodes[j].key
      ensures forall k :: k in contents ==> exists i :: 0 <= i < |nodes| && nodes[i].key == k
      ensures size == |contents|
    {
      hide Ring, Segments, Recorded;
      forall k | k in contents
        ensures exists i :: 0 <= i < |nodes| && nodes[i].key == k
      {
        assert nodeOf[k] in nodes && nodeOf[k].key == k;
      }
      KeySetSize(nodes, |nodes|);
      assert KeySet(nodes, |nodes|) == contents.Keys;
    }

    /** hashtable_clear: every value is released once, and the table is empty with its capacity kept. */
    method Clear() returns (released: seq<V>)
      requires Valid()
      modifies this, list, buckets
      ensures Valid() && contents == map[] && buckets == old(buckets) && nodes == []
      ensures |released| == old(size) && forall i :: 0 <= i < |released| ==> released[i] == old(nodes[i].value)
    {
      hide Segments, Recorded, Keyed, Valued;
      released := ReleaseAll();
      var head := list;
      forall b | 0 <= b < buckets.Length {
        buckets[b] := Bucket(head, head);
      }
      PrimesPositive(numBuckets);
      segs := seq(buckets.Length, _ => Seg(0, 0));
      SegmentsEmpty(list, buckets.Length, segs, buckets[..]);
      nodes, nodeOf, contents, size := [], map[], map[], 0;
      list.next, list.prev := list, list;
      NothingStored<V>();
    }

    lemma NothingStored<W>()
      ensures Keyed<W>([], map[]) && Valued<W>([], map[])
    {
    }

    /** hashtable_do_clear */
    method ReleaseAll() returns (released: seq<V>)
      requires Valid()
      ensures |released| == size && forall i :: 0 <= i < |released| ==> released[i] == nodes[i].value
    {
      hide Segments, Recorded, Keyed, Valued;
      released := [];
      FirstOf(list, nodes);
      var n := list.next;
      while n != list
        invariant |released| <= |nodes| && n == At(list, nodes, |released|)
        invariant forall i :: 0 <= i < |released| ==> released[i] == nodes[i].value
        decreases |nodes| - |released|
      {
        Neighbours(list, nodes, |released|);
        released := released + [n.value];
        n := n.next;
      }
    }

    lemma RecordedIs(head: Node<V>, ns: seq<Node<V>>, ss: seq<Seg>, bs: seq<Bucket<V>>)
      requires Recorded(head, ns, ss, bs)
      ensures |bs| == |ss|
      ensures forall b :: 0 <= b < |ss| ==> ss[b].lo <= ss[b].hi <= |ns| && bs[b] == BucketAt(head, ns, ss[b])
    {
    }

    lemma NotElsewhere(key: CString, b: nat)
      requires Segments(nodes, buckets.Length, segs) && Keyed(nodes, nodeOf)
      requires b < buckets.Length && b == HashStr(key) % buckets.Length
      requires forall j :: segs[b].lo <= j < segs[b].hi ==> nodes[j].key != key
      ensures key !in nodeOf
    {
    }
  }
}
