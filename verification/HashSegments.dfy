/** Buckets of jansson's hashtable: each is a contiguous stretch of the one list of all pairs. */
module HashSegments {
  import opened Bytes
  import opened HashList

  /** Positions lo, lo + 1, ..., hi - 1 of the list. */
  datatype Seg = Seg(lo: nat, hi: nat) {
    predicate Has(i: int) { lo <= i < hi }
  }

  /** struct hashtable_bucket */
  datatype Bucket<V> = Bucket(first: Node<V>, last: Node<V>)

  function BucketIndex<V>(n: Node<V>, nb: nat): (b: nat)
    requires nb > 0
    ensures b < nb
  {
    n.hash % nb
  }

  /** Bucket `b` is exactly the stretch `segs[b]` of the list. */
  ghost predicate Segments<V>(nodes: seq<Node<V>>, nb: nat, segs: seq<Seg>) {
    && |segs| == nb > 0
    && (forall b :: 0 <= b < nb ==> segs[b].lo <= segs[b].hi <= |nodes|)
    && (forall i, b :: 0 <= i < |nodes| && 0 <= b < nb ==> (BucketIndex(nodes[i], nb) == b <==> segs[b].Has(i)))
  }

  /** What the bucket record of a stretch holds; an empty one holds the head twice. */
  function BucketAt<V>(head: Node<V>, nodes: seq<Node<V>>, s: Seg): Bucket<V>
    requires s.lo <= s.hi <= |nodes|
  {
    if s.lo < s.hi then Bucket(nodes[s.lo], nodes[s.hi - 1]) else Bucket(head, head)
  }

  ghost predicate Recorded<V>(head: Node<V>, nodes: seq<Node<V>>, segs: seq<Seg>, buckets: seq<Bucket<V>>) {
    && |buckets| == |segs|
    && forall b :: 0 <= b < |segs| ==>
         segs[b].lo <= segs[b].hi <= |nodes| && buckets[b] == BucketAt(head, nodes, segs[b])
  }

  /** insert_to_bucket puts a pair before the first of its bucket, or at the end of the list. */
  function InsertPos<V>(nodes: seq<Node<V>>, s: Seg): nat {
    if s.lo < s.hi then s.lo else |nodes|
  }

  function SegsAfterInsert<V>(nodes: seq<Node<V>>, segs: seq<Seg>, b: nat): (r: seq<Seg>)
    requires b < |segs|
    ensures |r| == |segs|
  {
    var p := InsertPos(nodes, segs[b]);
    seq(|segs|, c requires 0 <= c < |segs| => SegAfterInsert(segs[c], p, c == b))
  }

  /** A stretch after an insertion at `p`, into itself or elsewhere. */
  function SegAfterInsert(s: Seg, p: nat, here: bool): Seg {
    if here then Seg(p, if s.lo < s.hi then s.hi + 1 else p + 1)
    else if p <= s.lo < s.hi then Seg(s.lo + 1, s.hi + 1)
    else s
  }

  /** The positions of the nodes that were there move with their stretch. */
  lemma SegMoves(s: Seg, n: nat, p: nat, here: bool, i: nat, j: nat)
    requires s.lo <= s.hi <= n && p <= n && i <= n && i != p && j == if i < p then i else i - 1
    requires here ==> p == if s.lo < s.hi then s.lo else n
    requires !here && p < n ==> !s.Has(p)
    ensures SegAfterInsert(s, p, here).Has(i) <==> s.Has(j)
  {
  }

  lemma SegmentsInsert<V>(nodes: seq<Node<V>>, nb: nat, segs: seq<Seg>, node: Node<V>)
    requires Segments(nodes, nb, segs)
    ensures var b := BucketIndex(node, nb); var p := InsertPos(nodes, segs[b]);
            p <= |nodes| && Segments(Inserted(nodes, p, node), nb, SegsAfterInsert(nodes, segs, b))
  {
    hide BucketIndex, SegAfterInsert;
    var b := BucketIndex(node, nb);
    var p, segs' := InsertPos(nodes, segs[b]), SegsAfterInsert(nodes, segs, b);
    forall i, c | 0 <= i <= |nodes| && 0 <= c < nb
      ensures BucketIndex(Inserted(nodes, p, node)[i], nb) == c <==> segs'[c].Has(i)
    {
      if i == p {
        SegOfNew(nodes, nb, segs, b, c);
      } else {
        var j := if i < p then i else i - 1;
        assert Inserted(nodes, p, node)[i] == nodes[j];
        assert BucketIndex(nodes[j], nb) == c <==> segs[c].Has(j);
        assert p < |nodes| ==> (BucketIndex(nodes[p], nb) == c <==> segs[c].Has(p)) && segs[b].Has(p);
        SegMoves(segs[c], |nodes|, p, c == b, i, j);
      }
    }
    forall c | 0 <= c < nb
      ensures segs'[c].lo <= segs'[c].hi <= |nodes| + 1
    {
      SegFits(segs[c], |nodes|, p, c == b);
    }
  }

  lemma SegFits(s: Seg, n: nat, p: nat, here: bool)
    requires s.lo <= s.hi <= n && p <= n && (here ==> p == if s.lo < s.hi then s.lo else n)
    ensures SegAfterInsert(s, p, here).lo <= SegAfterInsert(s, p, here).hi <= n + 1
  {
  }

  /** The new position belongs to the stretch inserted into, and to no other. */
  lemma SegOfNew<V>(nodes: seq<Node<V>>, nb: nat, segs: seq<Seg>, b: nat, c: nat)
    requires Segments(nodes, nb, segs) && b < nb && c < nb
    ensures SegsAfterInsert(nodes, segs, b)[c].Has(InsertPos(nodes, segs[b])) <==> c == b
  {
    hide BucketIndex;
    var p := InsertPos(nodes, segs[b]);
    if p < |nodes| && c != b {
      assert segs[b].Has(p);
      assert BucketIndex(nodes[p], nb) == b && !segs[c].Has(p);
    }
  }

  lemma RecordedInsert<V>(head: Node<V>, nodes: seq<Node<V>>, nb: nat, segs: seq<Seg>, buckets: seq<Bucket<V>>,
                          node: Node<V>)
    requires Segments(nodes, nb, segs) && Recorded(head, nodes, segs, buckets)
    ensures var b := BucketIndex(node, nb); var p := InsertPos(nodes, segs[b]); var s := segs[b];
            p <= |nodes| && Recorded(head, Inserted(nodes, p, node), SegsAfterInsert(nodes, segs, b),
                                     buckets[b := Bucket(node, if s.lo < s.hi then buckets[b].last else node)])
  {
    hide BucketIndex;
    var b := BucketIndex(node, nb);
    var p := InsertPos(nodes, segs[b]);
    forall c | 0 <= c < nb && c != b && p < |nodes|
      ensures !segs[c].Has(p)
    {
      assert BucketIndex(nodes[p], nb) == b;
    }
  }

  /** Taking the pair at position `p` out of bucket `b`. */
  function SegsAfterRemove(segs: seq<Seg>, b: nat, p: nat): (r: seq<Seg>)
    requires b < |segs| && segs[b].Has(p)
    ensures |r| == |segs|
  {
    seq(|segs|, c requires 0 <= c < |segs| =>
      if c == b then Seg(segs[b].lo, segs[b].hi - 1)
      else if p < segs[c].lo then Seg(segs[c].lo - 1, if segs[c].hi > 0 then segs[c].hi - 1 else 0)
      else segs[c])
  }

  lemma SegmentsRemove<V>(nodes: seq<Node<V>>, nb: nat, segs: seq<Seg>, b: nat, p: nat)
    requires Segments(nodes, nb, segs) && b < nb && segs[b].Has(p)
    ensures p < |nodes| && Segments(Removed(nodes, p), nb, SegsAfterRemove(segs, b, p))
  {
    hide BucketIndex;
    var segs' := SegsAfterRemove(segs, b, p);
    forall c | 0 <= c < nb && c != b
      ensures !segs[c].Has(p)
    {
      assert BucketIndex(nodes[p], nb) == b;
    }
    forall i, c | 0 <= i < |nodes| - 1 && 0 <= c < nb
      ensures BucketIndex(Removed(nodes, p)[i], nb) == c <==> segs'[c].Has(i)
    {
      var j := if i < p then i else i + 1;
      assert Removed(nodes, p)[i] == nodes[j];
      assert BucketIndex(nodes[j], nb) == c <==> segs[c].Has(j);
    }
  }

  /** hashtable_do_del's update of the bucket record. */
  function BucketAfterRemove<V>(head: Node<V>, nodes: seq<Node<V>>, s: Seg, p: nat): Bucket<V>
    requires s.Has(p) && s.hi <= |nodes|
  {
    if s.lo == p == s.hi - 1 then Bucket(head, head)
    else if s.lo == p then Bucket(nodes[p + 1], nodes[s.hi - 1])
    else if s.hi - 1 == p then Bucket(nodes[s.lo], nodes[p - 1])
    else Bucket(nodes[s.lo], nodes[s.hi - 1])
  }

  lemma RecordedRemove<V>(head: Node<V>, nodes: seq<Node<V>>, nb: nat, segs: seq<Seg>, buckets: seq<Bucket<V>>, b: nat,
                          p: nat)
    requires Segments(nodes, nb, segs) && Recorded(head, nodes, segs, buckets) && b < nb && segs[b].Has(p)
    ensures p < |nodes| && Recorded(head, Removed(nodes, p), SegsAfterRemove(segs, b, p),
                                    buckets[b := BucketAfterRemove(head, nodes, segs[b], p)])
  {
    hide BucketIndex;
    forall c | 0 <= c < nb && c != b
      ensures !segs[c].Has(p)
    {
      assert BucketIndex(nodes[p], nb) == b;
    }
  }

  /** A table whose buckets are all empty. */
  lemma SegmentsEmpty<V>(head: Node<V>, nb: nat, segs: seq<Seg>, buckets: seq<Bucket<V>>)
    requires |segs| == |buckets| == nb > 0
    requires forall b :: 0 <= b < nb ==> segs[b] == Seg(0, 0) && buckets[b] == Bucket(head, head)
    ensures Segments<V>([], nb, segs) && Recorded(head, [], segs, buckets)
  {
  }
}
