/** The circular doubly linked list that jansson's hashtable threads through all its pairs. */
module HashList {
  import opened Bytes

  /** A pair with its embedded list links.  The list head of a table is a node whose pair fields are
      not used. */
  class Node<V> {
    const key: CString
    const hash: nat
    const serial: nat
    var value: V
    var prev: Node?<V>
    var next: Node?<V>

    constructor (key: CString, hash: nat, serial: nat, value: V)
      ensures this.key == key && this.hash == hash && this.serial == serial && this.value == value
    {
      this.key, this.hash, this.serial, this.value := key, hash, serial, value;
      prev, next := null, null;
    }
  }

  /** Position `i` of the circle: the nodes, with the head before the first and after the last. */
  function At<V>(head: Node<V>, nodes: seq<Node<V>>, i: int): Node<V> {
    if 0 <= i < |nodes| then nodes[i] else head
  }

  ghost predicate Ring<V>(head: Node<V>, nodes: seq<Node<V>>)
    reads head`next, head`prev, nodes`next, nodes`prev
  {
    forall i {:trigger At(head, nodes, i)} :: -1 <= i < |nodes| ==>
      At(head, nodes, i).next == At(head, nodes, i + 1) && At(head, nodes, i + 1).prev == At(head, nodes, i)
  }

  ghost predicate Distinct<V>(head: Node<V>, nodes: seq<Node<V>>) {
    head !in nodes && forall i, j :: 0 <= i < j < |nodes| ==> nodes[i] != nodes[j]
  }

  function Inserted<T>(s: seq<T>, p: nat, x: T): seq<T>
    requires p <= |s|
    ensures |Inserted(s, p, x)| == |s| + 1
  {
    s[..p] + [x] + s[p..]
  }

  function Removed<T>(s: seq<T>, p: nat): seq<T>
    requires p < |s|
    ensures |Removed(s, p)| == |s| - 1
  {
    s[..p] + s[p + 1..]
  }

  lemma AtInserted<V>(head: Node<V>, nodes: seq<Node<V>>, p: nat, node: Node<V>, i: int)
    requires p <= |nodes| && -1 <= i <= |nodes| + 1
    ensures At(head, Inserted(nodes, p, node), i)
         == if i < p then At(head, nodes, i) else if i == p then node else At(head, nodes, i - 1)
  {
  }

  lemma AtRemoved<V>(head: Node<V>, nodes: seq<Node<V>>, p: nat, i: int)
    requires p < |nodes| && -1 <= i < |nodes|
    ensures At(head, Removed(nodes, p), i) == if i < p then At(head, nodes, i) else At(head, nodes, i + 1)
  {
  }

  ghost predicate Linked<V>(a: Node<V>, b: Node<V>)
    reads a`next, b`prev
  {
    a.next == b && b.prev == a
  }

  /** Neighbours on the circle. */
  lemma Neighbours<V>(head: Node<V>, nodes: seq<Node<V>>, i: int)
    requires Ring(head, nodes) && -1 <= i < |nodes|
    ensures Linked(At(head, nodes, i), At(head, nodes, i + 1))
    ensures At(head, nodes, i) == head || At(head, nodes, i) in nodes
    ensures At(head, nodes, i + 1) == head || At(head, nodes, i + 1) in nodes
  {
  }

  /** The first `n` links of the circle, from the head on. */
  ghost predicate LinkedUpTo<V>(head: Node<V>, nodes: seq<Node<V>>, n: nat)
    reads head`next, head`prev, nodes`next, nodes`prev
  {
    forall i {:trigger At(head, nodes, i)} :: -1 <= i < n - 1 && i < |nodes| ==>
      At(head, nodes, i).next == At(head, nodes, i + 1) && At(head, nodes, i + 1).prev == At(head, nodes, i)
  }

  /** All links of the circle are there but the one from `before` to `list`. */
  ghost predicate OtherLinks<V>(head: Node<V>, nodes: seq<Node<V>>, before: Node<V>, list: Node<V>)
    reads head`next, head`prev, nodes`next, nodes`prev
  {
    forall i {:trigger At(head, nodes, i)} :: -1 <= i < |nodes| ==>
      (At(head, nodes, i) != before ==> At(head, nodes, i).next == At(head, nodes, i + 1)) &&
      (At(head, nodes, i + 1) != list ==> At(head, nodes, i + 1).prev == At(head, nodes, i))
  }

  lemma OtherLink<V>(head: Node<V>, nodes: seq<Node<V>>, before: Node<V>, list: Node<V>, i: int)
    requires OtherLinks(head, nodes, before, list) && -1 <= i < |nodes|
    requires At(head, nodes, i) != before && At(head, nodes, i + 1) != list
    ensures Linked(At(head, nodes, i), At(head, nodes, i + 1))
  {
  }

  lemma OnCircle<V>(head: Node<V>, nodes: seq<Node<V>>)
    ensures forall i {:trigger At(head, nodes, i)} :: At(head, nodes, i) == head || At(head, nodes, i) in nodes
  {
  }

  lemma InsertedLink<V>(head: Node<V>, nodes: seq<Node<V>>, p: nat, node: Node<V>, i: int)
    requires Distinct(head, nodes) && p <= |nodes| && -1 <= i <= |nodes|
    requires Linked(At(head, nodes, p - 1), node) && Linked(node, At(head, nodes, p))
    requires OtherLinks(head, nodes, At(head, nodes, p - 1), At(head, nodes, p))
    ensures Linked(At(head, Inserted(nodes, p, node), i), At(head, Inserted(nodes, p, node), i + 1))
  {
    hide At, Inserted, Distinct, OtherLinks;
    AtInserted(head, nodes, p, node, i);
    AtInserted(head, nodes, p, node, i + 1);
    if i != p - 1 && i != p {
      var j := if i < p then i else i - 1;
      ApartFrom(head, nodes, p - 1, j);
      OtherLink(head, nodes, At(head, nodes, p - 1), At(head, nodes, p), j);
    }
  }

  lemma {:induction false} InsertedLinks<V>(head: Node<V>, nodes: seq<Node<V>>, p: nat, node: Node<V>, n: nat)
    requires Distinct(head, nodes) && p <= |nodes| && n <= |nodes| + 2
    requires Linked(At(head, nodes, p - 1), node) && Linked(node, At(head, nodes, p))
    requires OtherLinks(head, nodes, At(head, nodes, p - 1), At(head, nodes, p))
    ensures LinkedUpTo(head, Inserted(nodes, p, node), n)
  {
    hide At, Inserted, Distinct, OtherLinks;
    if n > 0 {
      InsertedLinks(head, nodes, p, node, n - 1);
      InsertedLink(head, nodes, p, node, n - 2);
    }
  }

  /** list_insert: `node` goes before the node at position `p`. */
  method ListInsert<V>(head: Node<V>, ghost nodes: seq<Node<V>>, ghost p: nat, list: Node<V>, node: Node<V>)
    requires Ring(head, nodes) && Distinct(head, nodes)
    requires p <= |nodes| && list == At(head, nodes, p) && node != head && node !in nodes
    modifies node`prev, node`next, head`prev, head`next, nodes`prev, nodes`next
    ensures Ring(head, Inserted(nodes, p, node))
  {
    hide At, Inserted, Distinct;
    Neighbours(head, nodes, p - 1);
    OnCircle(head, nodes);
    ghost var before := At(head, nodes, p - 1);
    node.next := list;
    node.prev := list.prev;
    list.prev.next := node;
    list.prev := node;
    assert OtherLinks(head, nodes, before, list);
    InsertedLinks(head, nodes, p, node, |nodes| + 2);
    RingFromLinks(head, Inserted(nodes, p, node));
  }

  /** Two different links of the circle share neither their first nor their second node. */
  lemma ApartFrom<V>(head: Node<V>, nodes: seq<Node<V>>, i: int, j: int)
    requires Distinct(head, nodes) && -1 <= i < |nodes| && -1 <= j < |nodes| && i != j
    ensures At(head, nodes, i) != At(head, nodes, j)
    ensures At(head, nodes, i + 1) != At(head, nodes, j + 1)
    ensures At(head, nodes, j) == head || At(head, nodes, j) in nodes
    ensures At(head, nodes, j + 1) == head || At(head, nodes, j + 1) in nodes
  {
  }

  lemma RingFromLinks<V>(head: Node<V>, nodes: seq<Node<V>>)
    requires LinkedUpTo(head, nodes, |nodes| + 1)
    ensures Ring(head, nodes)
  {
  }

  lemma RemovedLink<V>(head: Node<V>, nodes: seq<Node<V>>, p: nat, i: int)
    requires Distinct(head, nodes) && p < |nodes| && -1 <= i < |nodes| - 1
    requires Linked(At(head, nodes, p - 1), At(head, nodes, p + 1))
    requires OtherLinks(head, nodes, At(head, nodes, p - 1), At(head, nodes, p + 1))
    ensures Linked(At(head, Removed(nodes, p), i), At(head, Removed(nodes, p), i + 1))
  {
    hide At, Removed, Distinct, OtherLinks;
    AtRemoved(head, nodes, p, i);
    AtRemoved(head, nodes, p, i + 1);
    if i != p - 1 {
      var j := if i < p then i else i + 1;
      ApartFrom(head, nodes, p - 1, j);
      ApartFrom(head, nodes, p, j);
      OtherLink(head, nodes, At(head, nodes, p - 1), At(head, nodes, p + 1), j);
    }
  }

  lemma {:induction false} RemovedLinks<V>(head: Node<V>, nodes: seq<Node<V>>, p: nat, n: nat)
    requires Distinct(head, nodes) && p < |nodes| && n <= |nodes|
    requires Linked(At(head, nodes, p - 1), At(head, nodes, p + 1))
    requires OtherLinks(head, nodes, At(head, nodes, p - 1), At(head, nodes, p + 1))
    ensures LinkedUpTo(head, Removed(nodes, p), n)
  {
    hide At, Removed, Distinct, OtherLinks;
    if n > 0 {
      RemovedLinks(head, nodes, p, n - 1);
      RemovedLink(head, nodes, p, n - 2);
    }
  }

  /** list_remove */
  method ListRemove<V>(head: Node<V>, ghost nodes: seq<Node<V>>, ghost p: nat, list: Node<V>)
    requires Ring(head, nodes) && Distinct(head, nodes)
    requires p < |nodes| && list == At(head, nodes, p)
    modifies head`prev, head`next, nodes`prev, nodes`next
    ensures Ring(head, Removed(nodes, p))
  {
    hide At, Removed, Distinct;
    ApartFrom(head, nodes, p - 1, p);
    OnCircle(head, nodes);
    ghost var before, after := At(head, nodes, p - 1), At(head, nodes, p + 1);
    Neighbours(head, nodes, p - 1);
    Neighbours(head, nodes, p);
    list.prev.next := list.next;
    list.next.prev := list.prev;
    assert OtherLinks(head, nodes, before, after);
    RemovedLinks(head, nodes, p, |nodes|);
    RingFromLinks(head, Removed(nodes, p));
  }
}
