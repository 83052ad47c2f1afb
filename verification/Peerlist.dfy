/** The peer list: one record per peer, indexed by identifier and by virtual IPv4 and IPv6 address, and
    the walks by which broadcasts reach all peers. */
module Peerlist {
  import opened Bytes
  import opened Wrappers
  import opened KhashFlags
  import opened KhashModel
  import opened Khash
  import opened KhashRun

  const ID_SIZE: nat := 20

  type Address = seq<Byte>

  /** struct peer_state; what peerlist_add sets does not change afterwards. */
  class Peer {
    const id: seq<Byte>
    const localIpv4: Address
    const localIpv6: Address
    const destIpv4: Address
    const port: nat

    constructor (id: seq<Byte>, localIpv4: Address, localIpv6: Address, destIpv4: Address, port: nat)
      ensures this.id == id && this.localIpv4 == localIpv4 && this.localIpv6 == localIpv6
      ensures this.destIpv4 == destIpv4 && this.port == port
    {
      this.id, this.localIpv4, this.localIpv6, this.destIpv4, this.port := id, localIpv4, localIpv6, destIpv4, port;
    }
  }

  // ---- keys

  /** Two hexadecimal digits for each byte. */
  function Hex(s: seq<Byte>): (r: CString)
    ensures |r| == 2 * |s|
  {
    if |s| == 0 then [] else Hex(s[..|s| - 1]) + [HexDigit(s[|s| - 1] / 16), HexDigit(s[|s| - 1] % 16)]
  }

  lemma HexDigitsDiffer(a: nat, b: nat)
    requires a < 16 && b < 16 && HexDigit(a) == HexDigit(b)
    ensures a == b
  {
  }

  lemma TwoDigits(a: Byte, b: Byte)
    requires a / 16 == b / 16 && a % 16 == b % 16
    ensures a == b
  {
  }

  /** Different identifiers have different keys. */
  lemma {:induction false} HexInjective(a: seq<Byte>, b: seq<Byte>)
    requires Hex(a) == Hex(b)
    ensures a == b
    decreases |a|
  {
    hide HexDigit;
    if |a| > 0 {
      var n := |a| - 1;
      assert Hex(a)[2 * n] == Hex(b)[2 * n] && Hex(a)[2 * n + 1] == Hex(b)[2 * n + 1];
      HexDigitsDiffer(a[n] / 16, b[n] / 16);
      HexDigitsDiffer(a[n] % 16, b[n] % 16);
      TwoDigits(a[n], b[n]);
      assert Hex(a[..n]) == Hex(a)[..2 * n] && Hex(b[..n]) == Hex(b)[..2 * n];
      HexInjective(a[..n], b[..n]);
      assert a == a[..n] + [a[n]] && b == b[..n] + [b[n]];
    }
  }

  /** convert_to_hex_string: each sprintf writes two digits and a NUL. */
  method ConvertToHexString(source: seq<Byte>, dest: array<Byte>) returns (r: int)
    modifies dest
    ensures r == if dest.Length <= 2 * |source| then -1 else 0
    ensures r == 0 ==> dest[..2 * |source|] == Hex(source) && (|source| > 0 ==> dest[2 * |source|] == 0)
    ensures r == -1 ==> dest[..] == old(dest[..])
  {
    if dest.Length <= |source| * 2 {
      return -1;
    }
    for i := 0 to |source|
      invariant dest[..2 * i] == Hex(source[..i]) && (i > 0 ==> dest[2 * i] == 0)
    {
      dest[2 * i] := HexDigit(source[i] / 16);
      dest[2 * i + 1] := HexDigit(source[i] % 16);
      dest[2 * i + 2] := 0;
      assert source[..i + 1][..i] == source[..i];
    }
    assert source[..|source|] == source;
    r := 0;
  }

  /** The key of an identifier, as kh_put and kh_get get it. */
  method IdKey(id: seq<Byte>) returns (key: CString)
    requires |id| == ID_SIZE
    ensures key == Hex(id)
  {
    var dest := new Byte[ID_SIZE * 2 + 1](_ => 0);
    var r := ConvertToHexString(id, dest);
    key := dest[..2 * ID_SIZE];
  }

  // ---- addresses

  /** ip[3]++, `k` times */
  function Nth(a: Address, k: nat): Address
    requires |a| == 4
  {
    a[3 := (a[3] + k) % 256]
  }

  lemma NthNext(a: Address, k: nat)
    requires |a| == 4
    ensures Nth(Nth(a, k), 1) == Nth(a, k + 1) && Nth(a, 0) == a
  {
    assert (a[3] + k) % 256 + 1 == a[3] + k + 1 - 256 * ((a[3] + k) / 256);
  }

  /** The last byte is greater by `k`, or that less 256, and the others are the same. */
  predicate Above(a: Address, b: Address, k: nat) {
    |a| == |b| == 4 && a[..3] == b[..3] && (a[3] == b[3] + k || a[3] == b[3] + k - 256)
  }

  lemma NthAbove(a: Address, k: nat)
    requires |a| == 4 && k <= 256
    ensures Above(Nth(a, k), a, k)
  {
  }

  /** The first 256 of them differ, and the next is the first again. */
  lemma NthDiffer(a: Address, i: nat, j: nat)
    requires |a| == 4 && i < j
    ensures j - i < 256 ==> Nth(a, i) != Nth(a, j)
    ensures j - i == 256 ==> Nth(a, i) == Nth(a, j)
  {
    var x, y := a[3] + i, a[3] + j;
    assert x == 256 * (x / 256) + x % 256 && y == 256 * (y / 256) + y % 256;
    assert Nth(a, i)[3] == x % 256 && Nth(a, j)[3] == y % 256;
  }

  /** Multicast, or what is taken for broadcast. */
  predicate Multicast4(a: Address): (r: bool)
    requires |a| == 4
    ensures r <==> a[0] / 16 == 14 || a[3] == 255
  {
    224 <= a[0] <= 239 || a[3] == 0xFF
  }

  predicate Multicast6(a: Address): (r: bool)
    requires |a| == 16
    ensures r <==> a[0] == 255 && a[1] % 16 in {5, 8, 14}
  {
    a[0] == 0xFF && (a[1] % 16 == 0x05 || a[1] % 16 == 0x08 || a[1] % 16 == 0x0E)
  }

  // ---- indexes

  type Index = Table<CString, Peer?>

  ghost function Repr(t: Index): set<object>
    reads t
  {
    {t, t.flags, t.keys, t.vals}
  }

  /** The table maps the i-th key to the i-th peer, and nothing else. */
  ghost predicate Indexed(m: map<CString, Peer?>, peers: seq<Peer>, keys: seq<CString>) {
    && |keys| == |peers|
    && (forall i :: 0 <= i < |peers| ==> keys[i] in m && m[keys[i]] == peers[i])
    && (forall k :: k in m ==> k in keys)
  }

  ghost predicate Roomy(t: Index)
    reads t
  {
    t.nBuckets <= 4 + 4 * |t.contents|
  }

  /** How peerlist_add enters a peer: kh_put; if the key was there, kh_del of its bucket; then the value is
      assigned to the bucket.  So a key that was there is lost, and the peer with it. */
  method AddIndex(t: Index, key: CString, peer: Peer)
    requires t.Valid() && Roomy(t) && |t.contents| <= 0x1000_0000 - 1
    modifies t, t.flags, t.keys, t.vals
    ensures t.Valid() && (fresh(t.flags) || t.flags == old(t.flags))
    ensures (fresh(t.keys) || t.keys == old(t.keys)) && (fresh(t.vals) || t.vals == old(t.vals))
    ensures t.contents == if key in old(t.contents) then old(t.contents) - {key} else old(t.contents)[key := peer]
    ensures key !in old(t.contents) ==> Roomy(t)
    ensures t.nBuckets >= old(t.nBuckets)
  {
    hide Sound, Cells;
    ghost var m := t.contents;
    SizeAfterAdd(m, key, peer);
    var x, ret := t.Put(key);
    if ret == 0 {
      Lose(t, x, peer);
    } else {
      StoredOver(m, key, t.vals[x], peer);
      t.SetValue(x, peer);
    }
  }

  /** The branch for a key that was there. */
  method Lose(t: Index, x: nat, peer: Peer)
    requires t.Valid() && x < t.nBuckets && t.Buckets()[x].Live()
    modifies t, t.flags, t.vals
    ensures t.Valid() && t.flags == old(t.flags) && t.keys == old(t.keys) && t.vals == old(t.vals)
    ensures t.contents == old(t.contents) - {old(t.keys[x])}
  {
    hide Sound, Cells;
    t.Del(x);
    GoneIsDead(t, x);
    t.SetDeadValue(x, peer);
  }

  lemma GoneIsDead(t: Index, x: nat)
    requires t.Valid() && x < t.nBuckets && t.keys[x] !in t.contents
    ensures !t.Buckets()[x].Live()
  {
    hide Sound, Cells;
    t.Facts();
  }

  lemma {:induction false} IndexedMore(m: map<CString, Peer?>, peers: seq<Peer>, keys: seq<CString>, key: CString,
                                       peer: Peer)
    requires Indexed(m, peers, keys) && key !in m
    ensures Indexed(m[key := peer], peers + [peer], keys + [key])
  {
  }

  /** The key of an index is one of its peers', at one position if keys differ. */
  lemma IndexedFind(m: map<CString, Peer?>, peers: seq<Peer>, keys: seq<CString>, key: CString)
    requires Indexed(m, peers, keys)
    ensures key in m <==> key in keys
    ensures forall i :: 0 <= i < |peers| && keys[i] == key ==> key in m && m[key] == peers[i]
  {
    if key in keys {
      var i :| 0 <= i < |keys| && keys[i] == key;
    }
  }

  ghost function IdKeys(peers: seq<Peer>): (r: seq<CString>)
    ensures |r| == |peers|
  {
    seq(|peers|, i requires 0 <= i < |peers| => Hex(peers[i].id))
  }

  ghost function Ipv4Keys(text: Address -> CString, peers: seq<Peer>): (r: seq<CString>)
    ensures |r| == |peers|
  {
    seq(|peers|, i requires 0 <= i < |peers| => text(peers[i].localIpv4))
  }

  ghost function Ipv6Keys(text: Address -> CString, peers: seq<Peer>): (r: seq<CString>)
    ensures |r| == |peers|
  {
    seq(|peers|, i requires 0 <= i < |peers| => text(peers[i].localIpv6))
  }

  /** inet_ntop writes different addresses differently. */
  ghost predicate Injective(text: Address -> CString, size: nat) {
    forall a, b :: |a| == |b| == size && text(a) == text(b) ==> a == b
  }

  ghost predicate GoodIndex(t: Index, peers: seq<Peer>, keys: seq<CString>)
    reads t, t.flags, t.keys, t.vals
  {
    t.Valid() && Roomy(t) && |t.contents| == |peers| && Indexed(t.contents, peers, keys)
  }

  /** The peers have identifiers and IPv6 addresses of their own, and their IPv4 addresses follow the
      local one. */
  ghost predicate GoodPeers(peers: seq<Peer>, local: Address) {
    && |local| == 4
    && (forall i :: 0 <= i < |peers| ==> |peers[i].id| == ID_SIZE && |peers[i].localIpv6| == 16)
    && (forall i :: 0 <= i < |peers| ==> peers[i].localIpv4 == Nth(local, i + 1))
    && (forall i, j :: 0 <= i < j < |peers| ==> peers[i].id != peers[j].id && peers[i].localIpv6 != peers[j].localIpv6)
  }

  class PeerList {
    const idTable: Index
    const ipv4Table: Index
    const ipv6Table: Index
    const text4: Address -> CString  // inet_ntop(AF_INET, ...)
    const text6: Address -> CString  // inet_ntop(AF_INET6, ...)
    const nullPeer: Peer
    var idIterator: nat
    var ipv4Iterator: nat
    var ipv6Iterator: nat
    var localIpv4: Address
    var baseIpv4: Address
    ghost var peers: seq<Peer>  // all that have been added, in order

    /** All but the iterators. */
    ghost predicate Books()
      reads `localIpv4, `baseIpv4, `peers
      reads idTable, idTable.flags, idTable.keys, idTable.vals
      reads ipv4Table, ipv4Table.flags, ipv4Table.keys, ipv4Table.vals
      reads ipv6Table, ipv6Table.flags, ipv6Table.keys, ipv6Table.vals
    {
      && Repr(idTable) !! Repr(ipv4Table) !! Repr(ipv6Table)
      && Injective(text4, 4) && Injective(text6, 16)
      && GoodPeers(peers, localIpv4) && baseIpv4 == Nth(localIpv4, |peers| + 1)
      && GoodIndex(idTable, peers, IdKeys(peers))
      && GoodIndex(ipv4Table, peers, Ipv4Keys(text4, peers))
      && GoodIndex(ipv6Table, peers, Ipv6Keys(text6, peers))
    }

    ghost predicate Valid()
      reads this, idTable, idTable.flags, idTable.keys, idTable.vals
      reads ipv4Table, ipv4Table.flags, ipv4Table.keys, ipv4Table.vals
      reads ipv6Table, ipv6Table.flags, ipv6Table.keys, ipv6Table.vals
    {
      Books() && idIterator <= idTable.nBuckets && ipv4Iterator <= ipv4Table.nBuckets &&
      ipv6Iterator <= ipv6Table.nBuckets
    }

    lemma Facts()
      requires Books()
      ensures GoodIndex(idTable, peers, IdKeys(peers)) && GoodIndex(ipv4Table, peers, Ipv4Keys(text4, peers))
      ensures GoodIndex(ipv6Table, peers, Ipv6Keys(text6, peers))
      ensures GoodPeers(peers, localIpv4) && Injective(text4, 4) && Injective(text6, 16)
    {
      hide GoodIndex, GoodPeers, Injective, Repr, Nth;
    }

    lemma BooksFrom()
      requires Repr(idTable) !! Repr(ipv4Table) !! Repr(ipv6Table)
      requires Injective(text4, 4) && Injective(text6, 16)
      requires GoodPeers(peers, localIpv4) && |localIpv4| == 4 && baseIpv4 == Nth(localIpv4, |peers| + 1)
      requires GoodIndex(idTable, peers, IdKeys(peers))
      requires GoodIndex(ipv4Table, peers, Ipv4Keys(text4, peers))
      requires GoodIndex(ipv6Table, peers, Ipv6Keys(text6, peers))
      ensures Books()
    {
      hide GoodIndex, GoodPeers, Injective, Repr, Nth;
    }

    lemma BooksAre()
      requires Books()
      ensures Repr(idTable) !! Repr(ipv4Table) !! Repr(ipv6Table)
      ensures |localIpv4| == 4 && baseIpv4 == Nth(localIpv4, |peers| + 1)
    {
      hide GoodIndex, Injective, Repr, Nth;
    }

    /** peerlist_init and peerlist_set_local */
    constructor (hash: CString -> nat, text4: Address -> CString, text6: Address -> CString, local: Address,
                 nullPeer: Peer)
      requires |local| == 4 && Injective(text4, 4) && Injective(text6, 16)
      ensures Valid() && peers == [] && localIpv4 == local && Above(baseIpv4, local, 1)
      ensures fresh(Repr(idTable)) && fresh(Repr(ipv4Table)) && fresh(Repr(ipv6Table))
    {
      hide GoodIndex, Injective, Repr, Nth, Above;
      NthSize(local);
      NthNext(local, 0);
      NthAbove(local, 1);
      var ids, ipv4s, ipv6s := NewIndexes(hash);
      idTable, ipv4Table, ipv6Table := ids, ipv4s, ipv6s;
      this.text4, this.text6, this.nullPeer := text4, text6, nullPeer;
      idIterator, ipv4Iterator, ipv6Iterator := 0, 0, 0;
      localIpv4, baseIpv4, peers := local, Incremented(local), [];
    }

    lemma NotInside(t: Index)
      ensures this !in Repr(t)
    {
    }

    /** peerlist_add */
    method Add(id: seq<Byte>, destIpv4: Address, destIpv6: Address, port: nat)
      requires Valid() && |peers| < 255
      requires |id| == ID_SIZE && |destIpv6| == 16
      requires forall i :: 0 <= i < |peers| ==> peers[i].id != id && peers[i].localIpv6 != destIpv6
      modifies this, Repr(idTable), Repr(ipv4Table), Repr(ipv6Table)
      ensures Valid() && unchanged(`localIpv4, `idIterator, `ipv4Iterator, `ipv6Iterator)
      ensures |peers| == old(|peers|) + 1 && peers[..old(|peers|)] == old(peers)
      ensures var p := peers[old(|peers|)];
              fresh(p) && p.id == id && p.localIpv4 == old(baseIpv4) && p.localIpv6 == destIpv6 &&
              p.destIpv4 == destIpv4 && p.port == port &&
              Above(p.localIpv4, localIpv4, old(|peers|) + 1)
    {
      hide Books, GoodIndex, Injective, GoodPeers, Nth, Above, Hex, Repr, IdKeys, Ipv4Keys, Ipv6Keys;
      Facts();
      BooksAre();
      GoodPeersLocal(peers, localIpv4);
      var peer := new Peer(id, baseIpv4, destIpv6, destIpv4, port);
      AddressFree(peers, localIpv4);
      KeysMore(peers, peer, text4, text6);
      FreshKeys(peers, peer, text4, text6);
      var key := IdKey(id);
      NotInside(idTable);
      NotInside(ipv4Table);
      NotInside(ipv6Table);
      AddToAll(idTable, ipv4Table, ipv6Table, key, text4(peer.localIpv4), text6(peer.localIpv6), peer, peers,
               IdKeys(peers), Ipv4Keys(text4, peers), Ipv6Keys(text6, peers));
      PeersMore(peers, peer, localIpv4);
      NthNext(localIpv4, |peers| + 1);
      NthAbove(localIpv4, |peers| + 1);
      baseIpv4 := Incremented(baseIpv4);
      peers := peers + [peer];
      BooksFrom();
    }

    /** peerlist_get_by_id */
    method GetById(id: seq<Byte>) returns (peer: Option<Peer?>)
      requires Valid() && |id| == ID_SIZE
      ensures FoundById(peer, peers, id)
    {
      hide Books, GoodIndex, GoodPeers, Hex, Indexed, Injective;
      Facts();
      TableOf(idTable, peers, IdKeys(peers));
      FindId(idTable.contents, peers, id);
      var key := IdKey(id);
      peer := Lookup(idTable, key);
    }

    /** peerlist_reset_iterators */
    method ResetIterators()
      requires Valid()
      modifies `ipv4Iterator, `ipv6Iterator
      ensures Valid() && ipv4Iterator == ipv6Iterator == 0
    {
      hide Books;
      ipv4Iterator, ipv6Iterator := 0, 0;
    }

    /** peerlist_get_by_local_ipv4_addr: for a unicast address the peer that has it, or the null peer; for the
        others the next peer of the walk, until there is none. */
    method GetByIpv4(addr: Address, current: Peer?) returns (result: int, peer: Peer?)
      requires Valid() && |addr| == 4
      modifies `ipv4Iterator
      ensures Valid()
      ensures !Multicast4(addr) ==>
                result == 0 && ipv4Iterator == old(ipv4Iterator) && HasIpv4(peer, addr, peers, nullPeer)
      ensures Multicast4(addr) ==>
                Walked(result, peer, current, Left(ipv4Table, old(ipv4Iterator)), Left(ipv4Table, ipv4Iterator),
                       ipv4Table.contents)
    {
      hide Books, GoodIndex, GoodPeers, Indexed, Injective, Left, Walked, Sound, Cells, Ipv4Keys, Ipv6Keys;
      Facts();
      TableOf(ipv4Table, peers, Ipv4Keys(text4, peers));
      if (224 <= addr[0] <= 239) || addr[3] == 0xFF {
        result, peer, ipv4Iterator := Next(ipv4Table, ipv4Iterator, current);
        return;
      }
      FindIpv4(ipv4Table.contents, peers, text4, addr, localIpv4);
      var found := Lookup(ipv4Table, text4(addr));
      peer := if found.Some? then found.value else nullPeer;
      result := 0;
    }

    /** peerlist_get_by_local_ipv6_addr */
    method GetByIpv6(addr: Address, current: Peer?) returns (result: int, peer: Peer?)
      requires Valid() && |addr| == 16
      modifies `ipv6Iterator
      ensures Valid()
      ensures !Multicast6(addr) ==>
                result == 0 && ipv6Iterator == old(ipv6Iterator) && HasIpv6(peer, addr, peers, nullPeer)
      ensures Multicast6(addr) ==>
                Walked(result, peer, current, Left(ipv6Table, old(ipv6Iterator)), Left(ipv6Table, ipv6Iterator),
                       ipv6Table.contents)
    {
      hide Books, GoodIndex, GoodPeers, Indexed, Injective, Left, Walked, Sound, Cells, Ipv4Keys, Ipv6Keys;
      Facts();
      TableOf(ipv6Table, peers, Ipv6Keys(text6, peers));
      var kind := addr[1] % 16;
      if addr[0] == 0xFF && (kind == 0x05 || kind == 0x08 || kind == 0x0E) {
        result, peer, ipv6Iterator := Next(ipv6Table, ipv6Iterator, current);
        return;
      }
      FindIpv6(ipv6Table.contents, peers, text6, addr, localIpv4);
      var found := Lookup(ipv6Table, text6(addr));
      peer := if found.Some? then found.value else nullPeer;
      result := 0;
    }

    // ---- the send loops of packetio.c

    /** The loop that sends an IPv4 packet: to the peer that has the address, or to every peer once. */
    method SendIpv4(addr: Address) returns (sent: seq<Peer?>)
      requires Valid() && |addr| == 4
      modifies `ipv4Iterator, `ipv6Iterator
      ensures Valid()
      ensures !Multicast4(addr) ==> |sent| == 1 && HasIpv4(sent[0], addr, peers, nullPeer)
      ensures Multicast4(addr) ==> EachOnce(sent, peers)
    {
      hide Books, GoodIndex, GoodPeers, Injective, Left, EachOnce, Sending;
      Facts();
      ResetIterators();
      sent := [];
      var peer: Peer? := null;
      SendingStart(ipv4Table, peers, Ipv4Keys(text4, peers));
      while true
        invariant Valid()
        invariant Multicast4(addr) ==> Sending(sent, ipv4Table, ipv4Iterator)
        invariant !Multicast4(addr) ==> sent == []
        decreases |Left(ipv4Table, ipv4Iterator)|
      {
        ghost var it := ipv4Iterator;
        var result;
        result, peer := GetByIpv4(addr, peer);
        if result == -1 {
          SendingEnd(sent, ipv4Table, it, peers, Ipv4Keys(text4, peers), localIpv4);
          break;
        }
        if Multicast4(addr) {
          SendingNext(sent, ipv4Table, it, ipv4Iterator, peer);
        }
        sent := sent + [peer];
        if result == 0 {
          return;
        }
      }
    }

    /** The same for IPv6. */
    method SendIpv6(addr: Address) returns (sent: seq<Peer?>)
      requires Valid() && |addr| == 16
      modifies `ipv4Iterator, `ipv6Iterator
      ensures Valid()
      ensures !Multicast6(addr) ==> |sent| == 1 && HasIpv6(sent[0], addr, peers, nullPeer)
      ensures Multicast6(addr) ==> EachOnce(sent, peers)
    {
      hide Books, GoodIndex, GoodPeers, Injective, Left, EachOnce, Sending;
      Facts();
      ResetIterators();
      sent := [];
      var peer: Peer? := null;
      SendingStart(ipv6Table, peers, Ipv6Keys(text6, peers));
      while true
        invariant Valid()
        invariant Multicast6(addr) ==> Sending(sent, ipv6Table, ipv6Iterator)
        invariant !Multicast6(addr) ==> sent == []
        decreases |Left(ipv6Table, ipv6Iterator)|
      {
        ghost var it := ipv6Iterator;
        var result;
        result, peer := GetByIpv6(addr, peer);
        if result == -1 {
          SendingEnd(sent, ipv6Table, it, peers, Ipv6Keys(text6, peers), localIpv4);
          break;
        }
        if Multicast6(addr) {
          SendingNext(sent, ipv6Table, it, ipv6Iterator, peer);
        }
        sent := sent + [peer];
        if result == 0 {
          return;
        }
      }
    }

    /** The loop of switch mode over the identifier table. */
    method SendToAll() returns (sent: seq<Peer?>)
      requires Valid()
      modifies `idIterator
      ensures Valid() && EachOnce(sent, peers)
    {
      hide Books, GoodIndex, GoodPeers, Injective, Left, EachOnce, Sending, Sound, Cells, IdKeys, Indexed;
      Facts();
      TableOf(idTable, peers, IdKeys(peers));
      SendingStart(idTable, peers, IdKeys(peers));
      sent := [];
      idIterator := 0;  // reset_id_table
      while idIterator != idTable.nBuckets
        invariant Valid() && Sending(sent, idTable, idIterator)
        decreases idTable.nBuckets - idIterator
      {
        var peer;
        var live;
        live, peer := IdAt();
        SendingOver(sent, idTable, idIterator, peer);
        if live {  // is_id_exist
          sent := sent + [peer];  // retrieve_peer
        }
        idIterator := idIterator + 1;  // increase_id_table_itr
      }
      LeftAtEnd(idTable);
      SendingEnd(sent, idTable, idIterator, peers, IdKeys(peers), localIpv4);
    }

    /** is_id_exist and retrieve_peer */
    method IdAt() returns (live: bool, peer: Peer?)
      requires Valid() && idIterator < idTable.nBuckets
      ensures idTable.Valid() && live == idTable.Buckets()[idIterator].Live()
      ensures live ==>
                idTable.keys[idIterator] in idTable.contents && peer == idTable.contents[idTable.keys[idIterator]]
    {
      hide Books, GoodIndex, GoodPeers, Injective, Sound, Cells;
      Facts();
      TableOf(idTable, peers, IdKeys(peers));
      live := idTable.Exist(idIterator);
      peer := if live then idTable.vals[idIterator] else null;
    }
  }

  /** kh_get and kh_value */
  method Lookup(t: Index, key: CString) returns (r: Option<Peer?>)
    requires t.Valid()
    ensures r == if key in t.contents then Some(t.contents[key]) else None
  {
    hide Sound, Cells;
    var k := t.Get(key);
    r := if k == t.nBuckets then None else Some(t.vals[k]);
  }

  /** The keys an iterator has still to come to. */
  ghost function Left(t: Index, it: nat): seq<CString>
    reads t, t.flags, t.keys, t.vals
  {
    if t.nBuckets <= 16 * t.flags.Length && t.keys.Length == t.nBuckets then Walk(t.Buckets(), t.keys[..], it) else []
  }

  /** The loop of the multicast lookups: advances to the next live bucket. */
  method Next(t: Index, it: nat, current: Peer?) returns (result: int, peer: Peer?, r: nat)
    requires t.Valid() && it <= t.nBuckets
    ensures r <= t.nBuckets && Walked(result, peer, current, Left(t, it), Left(t, r), t.contents)
  {
    hide Sound, Cells, Walk;
    r := Advance(t, it);
    if r < t.nBuckets {
      result, peer, r := 1, t.vals[r], r + 1;
    } else {
      WalkEnd(t.Buckets(), t.keys[..], r);
      result, peer := -1, current;
    }
  }

  /** The peer that has the identifier, or none if there is none. */
  ghost predicate FoundById(peer: Option<Peer?>, peers: seq<Peer>, id: seq<Byte>) {
    && (peer.Some? <==> exists i :: 0 <= i < |peers| && peers[i].id == id)
    && (forall i :: 0 <= i < |peers| && peers[i].id == id ==> peer == Some(peers[i]))
  }

  /** `peer` is the one that has the address, or the null peer if none has. */
  ghost predicate HasIpv4(peer: Peer?, addr: Address, peers: seq<Peer>, nullPeer: Peer) {
    && (forall i :: 0 <= i < |peers| && peers[i].localIpv4 == addr ==> peer == peers[i])
    && ((forall i :: 0 <= i < |peers| ==> peers[i].localIpv4 != addr) ==> peer == nullPeer)
  }

  ghost predicate HasIpv6(peer: Peer?, addr: Address, peers: seq<Peer>, nullPeer: Peer) {
    && (forall i :: 0 <= i < |peers| && peers[i].localIpv6 == addr ==> peer == peers[i])
    && ((forall i :: 0 <= i < |peers| ==> peers[i].localIpv6 != addr) ==> peer == nullPeer)
  }

  /** What has been sent goes, in order, to the peers of the keys that the iterator has passed. */
  ghost predicate Sending(sent: seq<Peer?>, t: Index, it: nat)
    reads t, t.flags, t.keys, t.vals
  {
    exists seen :: seen + Left(t, it) == Left(t, 0) && SentSo(sent, seen, t.contents)
  }

  lemma SendingStart(t: Index, peers: seq<Peer>, keys: seq<CString>)
    ensures Sending([], t, 0)
  {
    hide Left;
    var seen: seq<CString> := [];
    assert seen + Left(t, 0) == Left(t, 0);
    assert SentSo([], seen, t.contents);
  }

  lemma SendingNext(sent: seq<Peer?>, t: Index, it: nat, it': nat, peer: Peer?)
    requires Sending(sent, t, it) && Walked(1, peer, peer, Left(t, it), Left(t, it'), t.contents)
    ensures Sending(sent + [peer], t, it')
  {
    hide Left;
    var seen :| seen + Left(t, it) == Left(t, 0) && SentSo(sent, seen, t.contents);
    var seen' := seen + [Left(t, it)[0]];
    assert seen' + Left(t, it') == seen + Left(t, it);
    assert SentSo(sent + [peer], seen', t.contents);
  }

  /** The iterator passes one bucket. */
  lemma SendingOver(sent: seq<Peer?>, t: Index, it: nat, peer: Peer?)
    requires t.Valid() && it < t.nBuckets && Sending(sent, t, it)
    requires t.Buckets()[it].Live() ==> t.keys[it] in t.contents && peer == t.contents[t.keys[it]]
    ensures Sending(if t.Buckets()[it].Live() then sent + [peer] else sent, t, it + 1)
  {
    hide Sound, Cells, Left;
    LeftStep(t, it);
    var seen :| seen + Left(t, it) == Left(t, 0) && SentSo(sent, seen, t.contents);
    if t.Buckets()[it].Live() {
      var seen' := seen + [t.keys[it]];
      assert seen' + Left(t, it + 1) == seen + Left(t, it);
      assert SentSo(sent + [peer], seen', t.contents);
    } else {
      assert seen + Left(t, it + 1) == Left(t, 0);
    }
  }

  lemma LeftStep(t: Index, it: nat)
    requires t.Valid() && it < t.nBuckets
    ensures Left(t, it) == (if t.Buckets()[it].Live() then [t.keys[it]] else []) + Left(t, it + 1)
  {
    hide Sound, Cells;
  }

  lemma LeftAtEnd(t: Index)
    ensures Left(t, t.nBuckets) == []
  {
    if t.nBuckets <= 16 * t.flags.Length && t.keys.Length == t.nBuckets {
      WalkEnd(t.Buckets(), t.keys[..], t.nBuckets);
    }
  }

  /** At the end every peer has been sent to once. */
  lemma SendingEnd(sent: seq<Peer?>, t: Index, it: nat, peers: seq<Peer>, keys: seq<CString>, local: Address)
    requires Sending(sent, t, it) && Left(t, it) == [] && GoodIndex(t, peers, keys) && GoodPeers(peers, local)
    ensures EachOnce(sent, peers)
  {
    hide GoodIndex, GoodPeers, EachOnce, Indexed, Walk, Sound, Cells;
    TableOf(t, peers, keys);
    WalkMeetsAll(t);
    var seen :| seen + Left(t, it) == Left(t, 0) && SentSo(sent, seen, t.contents);
    assert seen == Left(t, 0);
    AllSent(t.contents, peers, keys, seen, sent, local);
  }

  lemma TableOf(t: Index, peers: seq<Peer>, keys: seq<CString>)
    requires GoodIndex(t, peers, keys)
    ensures t.Valid() && Indexed(t.contents, peers, keys)
  {
  }

  /** One step of a walk: the next key's peer, or the end. */
  ghost predicate Walked(result: int, peer: Peer?, current: Peer?, before: seq<CString>, after: seq<CString>,
                         m: map<CString, Peer?>)
  {
    if |before| == 0 then result == -1 && peer == current && after == []
    else result == 1 && after == before[1..] && before[0] in m && peer == m[before[0]]
  }

  lemma WalkEnd(cells: seq<Cell>, keys: seq<CString>, from: nat)
    requires |keys| == |cells| <= from
    ensures Walk(cells, keys, from) == []
  {
  }

  lemma FindId(m: map<CString, Peer?>, peers: seq<Peer>, id: seq<Byte>)
    requires Indexed(m, peers, IdKeys(peers))
    ensures Hex(id) in m <==> exists i :: 0 <= i < |peers| && peers[i].id == id
    ensures forall i :: 0 <= i < |peers| && peers[i].id == id ==> m[Hex(id)] == peers[i]
  {
    hide Hex;
    var keys := IdKeys(peers);
    if Hex(id) in m {
      var i :| 0 <= i < |keys| && keys[i] == Hex(id);
      HexInjective(id, peers[i].id);
    }
    forall i | 0 <= i < |peers| && peers[i].id == id
      ensures Hex(id) in m && m[Hex(id)] == peers[i]
    {
      assert keys[i] == Hex(id);
    }
  }

  lemma FindIpv4(m: map<CString, Peer?>, peers: seq<Peer>, text: Address -> CString, addr: Address, local: Address)
    requires Indexed(m, peers, Ipv4Keys(text, peers)) && Injective(text, 4) && |addr| == 4 && GoodPeers(peers, local)
    ensures text(addr) in m <==> exists i :: 0 <= i < |peers| && peers[i].localIpv4 == addr
    ensures forall i :: 0 <= i < |peers| && peers[i].localIpv4 == addr ==> m[text(addr)] == peers[i]
  {
    GoodPeersLocal(peers, local);
    var keys := Ipv4Keys(text, peers);
    if text(addr) in m {
      var i :| 0 <= i < |keys| && keys[i] == text(addr);
      assert peers[i].localIpv4 == addr;
    }
    forall i | 0 <= i < |peers| && peers[i].localIpv4 == addr
      ensures text(addr) in m && m[text(addr)] == peers[i]
    {
      assert keys[i] == text(addr);
    }
  }

  lemma FindIpv6(m: map<CString, Peer?>, peers: seq<Peer>, text: Address -> CString, addr: Address, local: Address)
    requires Indexed(m, peers, Ipv6Keys(text, peers)) && Injective(text, 16) && |addr| == 16 && GoodPeers(peers, local)
    ensures text(addr) in m <==> exists i :: 0 <= i < |peers| && peers[i].localIpv6 == addr
    ensures forall i :: 0 <= i < |peers| && peers[i].localIpv6 == addr ==> m[text(addr)] == peers[i]
  {
    GoodPeersLocal(peers, local);
    var keys := Ipv6Keys(text, peers);
    if text(addr) in m {
      var i :| 0 <= i < |keys| && keys[i] == text(addr);
      assert peers[i].localIpv6 == addr;
    }
    forall i | 0 <= i < |peers| && peers[i].localIpv6 == addr
      ensures text(addr) in m && m[text(addr)] == peers[i]
    {
      assert keys[i] == text(addr);
    }
  }

  /** What has been sent goes to the peers of the keys walked over. */
  ghost predicate SentSo(sent: seq<Peer?>, seen: seq<CString>, m: map<CString, Peer?>) {
    |sent| == |seen| && forall j :: 0 <= j < |seen| ==> seen[j] in m && sent[j] == m[seen[j]]
  }

  /** Every peer exactly once. */
  ghost predicate EachOnce(sent: seq<Peer?>, peers: seq<Peer>) {
    && Distinct(sent)
    && (forall j :: 0 <= j < |sent| ==> sent[j] in peers)
    && (forall i :: 0 <= i < |peers| ==> peers[i] in sent)
  }

  lemma AllSent(m: map<CString, Peer?>, peers: seq<Peer>, keys: seq<CString>, all: seq<CString>, sent: seq<Peer?>,
                local: Address)
    requires Indexed(m, peers, keys) && GoodPeers(peers, local)
    requires Distinct(all) && (forall k :: k in all <==> k in m) && SentSo(sent, all, m)
    ensures EachOnce(sent, peers)
  {
    hide Nth;
    forall i, j | 0 <= i < j < |sent|
      ensures sent[i] != sent[j]
    {
      var a := PeerAt(m, peers, keys, all[i]);
      var b := PeerAt(m, peers, keys, all[j]);
      assert all[i] != all[j];
    }
    forall j | 0 <= j < |sent|
      ensures sent[j] in peers
    {
      var a := PeerAt(m, peers, keys, all[j]);
    }
    forall i | 0 <= i < |peers|
      ensures peers[i] in sent
    {
      assert keys[i] in all;
      var j :| 0 <= j < |all| && all[j] == keys[i];
      assert sent[j] == peers[i];
    }
  }

  lemma PeerAt(m: map<CString, Peer?>, peers: seq<Peer>, keys: seq<CString>, key: CString) returns (a: nat)
    requires Indexed(m, peers, keys) && key in m
    ensures a < |peers| && keys[a] == key && m[key] == peers[a]
  {
    a :| 0 <= a < |keys| && keys[a] == key;
  }

  /** The addresses of the peers differ from each other and from the local one exactly as long as there are
      no more than 255. */
  lemma AddressesDiffer(peers: seq<Peer>, local: Address)
    requires GoodPeers(peers, local)
    ensures |peers| <= 255 <==>
            (forall i, j :: 0 <= i < j < |peers| ==> peers[i].localIpv4 != peers[j].localIpv4) &&
            (forall i :: 0 <= i < |peers| ==> peers[i].localIpv4 != local)
  {
    hide Nth;
    NthNext(local, 0);
    if |peers| <= 255 {
      forall i, j | 0 <= i < j < |peers|
        ensures peers[i].localIpv4 != peers[j].localIpv4
      {
        NthDiffer(local, i + 1, j + 1);
      }
      forall i | 0 <= i < |peers|
        ensures peers[i].localIpv4 != local
      {
        NthDiffer(local, 0, i + 1);
      }
    } else {
      NthDiffer(local, 0, 256);
      assert peers[255].localIpv4 == local;
    }
  }

  lemma GoodPeersLocal(peers: seq<Peer>, local: Address)
    requires GoodPeers(peers, local)
    ensures |local| == 4 && |Nth(local, |peers| + 1)| == 4
    ensures forall i :: 0 <= i < |peers| ==> |peers[i].localIpv4| == 4 && |peers[i].localIpv6| == 16
  {
  }

  method NewIndexes(hash: CString -> nat) returns (a: Index, b: Index, c: Index)
    ensures GoodIndex(a, [], []) && GoodIndex(b, [], []) && GoodIndex(c, [], [])
    ensures fresh(Repr(a)) && fresh(Repr(b)) && fresh(Repr(c)) && Repr(a) !! Repr(b) !! Repr(c)
    ensures a.nBuckets == b.nBuckets == c.nBuckets == 0
  {
    hide GoodIndex;
    a := NewIndex(hash);
    b := NewIndex(hash);
    c := NewIndex(hash);
  }

  method NewIndex(hash: CString -> nat) returns (t: Index)
    ensures GoodIndex(t, [], []) && fresh(Repr(t)) && t.nBuckets == 0
  {
    hide Sound, Cells;
    t := new Table(hash);
  }

  /** increment_base_ipv4_addr */
  function Incremented(a: Address): Address
    requires |a| == 4
  {
    Nth(a, 1)
  }

  /** An index gets one more peer, under a new key. */
  method AddTo(t: Index, key: CString, peer: Peer, ghost peers: seq<Peer>, ghost keys: seq<CString>)
    requires GoodIndex(t, peers, keys) && key !in keys && |peers| < 255
    modifies Repr(t)
    ensures GoodIndex(t, peers + [peer], keys + [key])
    ensures fresh(Repr(t) - old(Repr(t)))
    ensures t.nBuckets >= old(t.nBuckets)
  {
    hide Sound, Cells;
    IndexedFind(t.contents, peers, keys, key);
    IndexedMore(t.contents, peers, keys, key, peer);
    SizeAfterAdd(t.contents, key, peer);
    AddIndex(t, key, peer);
  }

  lemma InReprs(a: Index, b: Index, c: Index)
    ensures Repr(a) == {a, a.flags, a.keys, a.vals}
    ensures Repr(b) == {b, b.flags, b.keys, b.vals}
    ensures Repr(c) == {c, c.flags, c.keys, c.vals}
  {
  }

  method AddToAll(a: Index, b: Index, c: Index, key1: CString, key2: CString, key3: CString, peer: Peer,
                  ghost peers: seq<Peer>, ghost keys1: seq<CString>, ghost keys2: seq<CString>,
                  ghost keys3: seq<CString>)
    requires Repr(a) !! Repr(b) !! Repr(c) && |peers| < 255
    requires GoodIndex(a, peers, keys1) && GoodIndex(b, peers, keys2) && GoodIndex(c, peers, keys3)
    requires key1 !in keys1 && key2 !in keys2 && key3 !in keys3
    modifies Repr(a), Repr(b), Repr(c)
    ensures Repr(a) !! Repr(b) !! Repr(c)
    ensures GoodIndex(a, peers + [peer], keys1 + [key1])
    ensures GoodIndex(b, peers + [peer], keys2 + [key2])
    ensures GoodIndex(c, peers + [peer], keys3 + [key3])
    ensures a.nBuckets >= old(a.nBuckets) && b.nBuckets >= old(b.nBuckets) && c.nBuckets >= old(c.nBuckets)
  {
    hide GoodIndex, Repr;
    InReprs(a, b, c);
    AddTo(a, key1, peer, peers, keys1);
    InReprs(a, b, c);
    AddTo(b, key2, peer, peers, keys2);
    InReprs(a, b, c);
    AddTo(c, key3, peer, peers, keys3);
    InReprs(a, b, c);
  }

  lemma KeysMore(peers: seq<Peer>, p: Peer, text4: Address -> CString, text6: Address -> CString)
    ensures IdKeys(peers + [p]) == IdKeys(peers) + [Hex(p.id)]
    ensures Ipv4Keys(text4, peers + [p]) == Ipv4Keys(text4, peers) + [text4(p.localIpv4)]
    ensures Ipv6Keys(text6, peers + [p]) == Ipv6Keys(text6, peers) + [text6(p.localIpv6)]
  {
    hide Hex;
  }

  /** The next address is that of no peer, nor the local one. */
  lemma AddressFree(peers: seq<Peer>, local: Address)
    requires GoodPeers(peers, local) && |peers| < 255
    ensures forall i :: 0 <= i < |peers| ==> peers[i].localIpv4 != Nth(local, |peers| + 1) && |peers[i].localIpv4| == 4
    ensures Nth(local, |peers| + 1) != local
  {
    hide Nth;
    NthSize(local);
    forall i | 0 <= i < |peers|
      ensures peers[i].localIpv4 != Nth(local, |peers| + 1)
    {
      NthDiffer(local, i + 1, |peers| + 1);
    }
    NthNext(local, 0);
    NthDiffer(local, 0, |peers| + 1);
  }

  lemma NthSize(a: Address)
    requires |a| == 4
    ensures forall k: nat :: |Nth(a, k)| == 4
  {
  }

  lemma FreshKeys(peers: seq<Peer>, p: Peer, text4: Address -> CString, text6: Address -> CString)
    requires Injective(text4, 4) && Injective(text6, 16) && |p.localIpv4| == 4 && |p.localIpv6| == 16
    requires forall i :: 0 <= i < |peers| ==> |peers[i].localIpv4| == 4 && |peers[i].localIpv6| == 16
    requires forall i :: 0 <= i < |peers| ==>
               peers[i].id != p.id && peers[i].localIpv4 != p.localIpv4 && peers[i].localIpv6 != p.localIpv6
    ensures Hex(p.id) !in IdKeys(peers)
    ensures text4(p.localIpv4) !in Ipv4Keys(text4, peers)
    ensures text6(p.localIpv6) !in Ipv6Keys(text6, peers)
  {
    hide Hex;
    if Hex(p.id) in IdKeys(peers) {
      var i :| 0 <= i < |peers| && IdKeys(peers)[i] == Hex(p.id);
      HexInjective(p.id, peers[i].id);
    }
  }

  lemma PeersMore(peers: seq<Peer>, p: Peer, local: Address)
    requires GoodPeers(peers, local) && |p.id| == ID_SIZE && |p.localIpv6| == 16
    requires p.localIpv4 == Nth(local, |peers| + 1)
    requires forall i :: 0 <= i < |peers| ==> peers[i].id != p.id && peers[i].localIpv6 != p.localIpv6
    ensures GoodPeers(peers + [p], local)
  {
    hide Nth;
  }
}
