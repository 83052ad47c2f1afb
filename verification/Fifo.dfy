/** The FIFO BIO: a ring of packet buffers, with the counters of waiting threads. */
module Fifo {
  import opened Bytes
  import opened FifoRun

  /** struct fifo_item: a buffer of data_size bytes, of which the first `size` are the packet. */
  datatype Item = Item(size: nat, data: seq<Byte>)

  function PacketOf(x: Item): Packet {
    if x.size <= |x.data| then x.data[..x.size] else x.data
  }

  /** Where the packet stands that is `i` behind position `start`. */
  function Slot(size: nat, start: nat, i: nat): int {
    if start + i < size then start + i else start + i - size
  }

  function Ring(items: seq<Item>, start: nat, n: nat): (q: seq<Packet>)
    requires n <= |items| && (|items| > 0 ==> start < |items|)
    ensures |q| == n
  {
    seq(n, i requires 0 <= i < n => PacketOf(items[Slot(|items|, start, i)]))
  }

  function Next(size: nat, i: nat): nat {
    if i + 1 == size then 0 else i + 1
  }

  lemma RingTake(items: seq<Item>, start: nat, n: nat)
    requires 0 < n <= |items| && start < |items|
    ensures Next(|items|, start) < |items|
    ensures Ring(items, start, n)[0] == PacketOf(items[start])
    ensures Ring(items, Next(|items|, start), n - 1) == Ring(items, start, n)[1..]
    ensures Slot(|items|, Next(|items|, start), n - 1) == Slot(|items|, start, n)
  {
    var next := Next(|items|, start);
    forall i | 0 <= i < n - 1
      ensures Slot(|items|, next, i) == Slot(|items|, start, i + 1)
    {
    }
  }

  lemma RingPut(items: seq<Item>, start: nat, n: nat, x: Item)
    requires n < |items| && start < |items|
    ensures 0 <= Slot(|items|, start, n) < |items|
    ensures Ring(items[Slot(|items|, start, n) := x], start, n + 1) == Ring(items, start, n) + [PacketOf(x)]
    ensures Next(|items|, Slot(|items|, start, n)) == Slot(|items|, start, n + 1)
  {
    var w := Slot(|items|, start, n);
    forall i | 0 <= i < n
      ensures Slot(|items|, start, i) != w
    {
    }
  }

  datatype ReadResult = Got(bytes: Packet) | WaitsToRead | TimedOut
  datatype WriteResult = Wrote(len: nat) | WaitsToWrite

  class Fifo {
    const size: nat
    const threshold: nat
    const items: array<Item>
    var indexRead: nat
    var indexWrite: nat
    var nelem: nat
    var waitingRead: nat
    var waitingWrite: nat
    var droptail: bool
    var readSignal: bool    // cond_read has been signalled since the reader began to wait
    var writeSignal: bool   // cond_write, since the writer did
    ghost var state: State  // with the threads' own variables, and what has been sent and read

    ghost predicate Shape()
      reads `indexRead, `indexWrite, `nelem, items
    {
      && items.Length == size
      && nelem <= size && (if size == 0 then indexRead == 0 else indexRead < size)
      && indexWrite == Slot(size, indexRead, nelem)
      && forall i :: 0 <= i < size ==> items[i].size <= |items[i].data|
    }

    /** The packets in the ring, oldest first. */
    ghost function Queue(): (q: seq<Packet>)
      requires Shape()
      reads `indexRead, `indexWrite, `nelem, items
      ensures |q| == nelem
    {
      Ring(items[..], indexRead, nelem)
    }

    ghost predicate Valid()
      reads this, items
    {
      Ties() && Inv(state)
    }

    /** The fields stand for the state. */
    ghost predicate Ties()
      reads this, items
    {
      && Shape() && threshold == Threshold(size)
      && state.size == size && state.droptail == droptail && state.queue == Queue()
      && waitingRead == (if state.reader.ReadWait? then 1 else 0)
      && waitingWrite == (if state.writer.WriteWait? then 1 else 0)
      && (state.reader.ReadWait? ==> readSignal == state.reader.signalled)
      && (state.writer.WriteWait? ==> writeSignal == state.writer.signalled)
    }

    /** fifo_allocate */
    constructor (len: nat, dataSize: nat)
      ensures Valid() && fresh(items) && state == Init(len)
      ensures size == len && threshold == len / 10 && Queue() == [] && !droptail
    {
      size, threshold := len, len / 10;
      indexRead, indexWrite, nelem := 0, 0, 0;
      waitingRead, waitingWrite, droptail := 0, 0, false;
      readSignal, writeSignal := false, false;
      items := new Item[len](_ => Item(0, seq(dataSize, _ => 0)));
      state := Init(len);
    }

    /** The end of fifo_read, with a packet there. */
    method TakeOut(outl: nat) returns (out: Packet)
      requires Shape() && nelem > 0
      modifies `indexRead, `nelem, `writeSignal
      ensures Shape() && Queue() == old(Queue())[1..] && out == Cut(old(Queue())[0], outl)
      ensures writeSignal == (old(writeSignal) || (waitingWrite > 0 && size - nelem >= threshold))
    {
      hide Ring;
      RingTake(items[..], indexRead, nelem);
      var item := items[indexRead];
      var len := item.size;
      var ret := if outl >= len then len else outl;
      out := item.data[..ret];
      indexRead := if indexRead == size - 1 then 0 else indexRead + 1;
      nelem := nelem - 1;
      if waitingWrite > 0 && size - nelem >= threshold {
        writeSignal := true;
      }
    }

    /** The end of fifo_write, with room for the packet. */
    method PutIn(packet: Packet)
      requires Shape() && nelem < size
      modifies `indexWrite, `nelem, `readSignal, items
      ensures Shape() && Queue() == old(Queue()) + [packet]
      ensures readSignal == (old(readSignal) || waitingRead > 0)
    {
      hide Ring;
      var item := items[indexWrite];
      var data := if |packet| > |item.data| then packet else packet + item.data[|packet|..];
      assert data[..|packet|] == packet;
      RingPut(items[..], indexRead, nelem, Item(|packet|, data));
      ghost var ring := items[..][indexWrite := Item(|packet|, data)];
      items[indexWrite] := Item(|packet|, data);
      assert items[..] == ring;
      indexWrite := if indexWrite == size - 1 then 0 else indexWrite + 1;
      nelem := nelem + 1;
      if waitingRead > 0 {
        readSignal := true;
      }
    }

    /** fifo_read, from taking the mutex until it returns or waits. */
    method Read(outl: nat) returns (r: ReadResult)
      requires Valid() && state.reader.Reading?
      modifies this
      ensures Valid() && state == Apply(old(state), FifoRun.Read(outl))
      ensures if |old(state).queue| == 0 then r == WaitsToRead else r == Got(Cut(old(state).queue[0], outl))
      ensures if |old(state).queue| == 0 then Queue() == [] && state.reader == ReadWait(outl, false)
              else Queue() == old(state).queue[1..] && state.reader == Reading
    {
      hide Shape, Ring, Queue;
      InvStep(state, FifoRun.Read(outl));
      if nelem == 0 {
        waitingRead, readSignal := waitingRead + 1, false;
        r := WaitsToRead;
      } else {
        var out := TakeOut(outl);
        r := Got(out);
      }
      state := Apply(state, FifoRun.Read(outl));
    }

    /** fifo_read, woken by a signal. */
    method ReadWoken(outl: nat) returns (r: ReadResult)
      requires Valid() && state.reader == ReadWait(outl, true)
      modifies this
      ensures Valid() && state == Apply(old(state), ReadWakes)
      ensures |old(state).queue| > 0 && r == Got(Cut(old(state).queue[0], outl))
      ensures Queue() == old(state).queue[1..] && state.reader == Reading
    {
      hide Shape, Ring, Queue;
      InvStep(state, ReadWakes);
      waitingRead := waitingRead - 1;
      var out := TakeOut(outl);
      r := Got(out);
      state := Apply(state, ReadWakes);
    }

    /** fifo_read, when its time is up: nothing is taken, even if a packet has come. */
    method ReadTimeout() returns (r: ReadResult)
      requires Valid() && state.reader.ReadWait?
      modifies `waitingRead, `state
      ensures Valid() && state == Apply(old(state), ReadTimesOut) && r == TimedOut
      ensures state.queue == old(state).queue
    {
      hide Shape, Ring, Queue;
      InvStep(state, ReadTimesOut);
      waitingRead := waitingRead - 1;
      state := Apply(state, ReadTimesOut);
      r := TimedOut;
    }

    /** fifo_write, from taking the mutex until it returns or waits. */
    method Write(packet: Packet) returns (r: WriteResult)
      requires Valid() && state.writer.Writing?
      modifies this, items
      ensures Valid() && state == Apply(old(state), FifoRun.Write(packet))
      ensures r == if |old(state).queue| == size && !droptail then WaitsToWrite else Wrote(|packet|)
      ensures Queue() == old(state).queue + (if |old(state).queue| == size then [] else [packet])
      ensures state.writer == if r.Wrote? then Writing else WriteWait(packet, false)
    {
      hide Shape, Ring, Queue;
      InvStep(state, FifoRun.Write(packet));
      if nelem == size && droptail {
        return Wrote(|packet|);
      }
      if nelem == size {
        waitingWrite, writeSignal := waitingWrite + 1, false;
        r := WaitsToWrite;
      } else {
        PutIn(packet);
        r := Wrote(|packet|);
      }
      state := Apply(state, FifoRun.Write(packet));
    }

    /** fifo_write, woken: it looks again, and perhaps waits again. */
    method WriteWoken(packet: Packet) returns (r: WriteResult)
      requires Valid() && state.writer.WriteWait? && state.writer.packet == packet
      modifies this, items
      ensures Valid() && state == Apply(old(state), WriteWakes)
      ensures r == if |old(state).queue| == size then WaitsToWrite else Wrote(|packet|)
      ensures Queue() == old(state).queue + (if |old(state).queue| == size then [] else [packet])
      ensures state.writer == if r.Wrote? then Writing else WriteWait(packet, false)
    {
      hide Shape, Ring, Queue;
      InvStep(state, WriteWakes);
      waitingWrite := waitingWrite - 1;
      if nelem == size {
        waitingWrite, writeSignal := waitingWrite + 1, false;
        r := WaitsToWrite;
      } else {
        PutIn(packet);
        r := Wrote(|packet|);
      }
      state := Apply(state, WriteWakes);
    }

    /** BIO_CTRL_FIFO_SET_DROPTAIL */
    method SetDroptail(on: bool)
      requires Valid()
      modifies `droptail, `state
      ensures Valid() && state == Apply(old(state), FifoRun.SetDroptail(on))
    {
      hide Shape, Ring, Queue;
      InvStep(state, FifoRun.SetDroptail(on));
      droptail := on;
      state := Apply(state, FifoRun.SetDroptail(on));
    }

    /** BIO_CTRL_RESET empties the ring, and leaves the waiting threads as they are.  That is all right exactly if
        they fit an empty ring. */
    method Reset()
      requires Valid()
      modifies `indexRead, `indexWrite, `nelem, `state
      ensures Ties() && state == FifoRun.Reset(old(state)) && Queue() == []
      ensures Valid() <==> size == 0 || ResetFits(old(state))
    {
      hide Inv;
      ResetInv(state);
      indexRead, indexWrite, nelem := 0, 0, 0;
      state := FifoRun.Reset(state);
    }

    /** BIO_CTRL_PENDING: the bytes in the ring. */
    method Pending() returns (ret: nat)
      requires Valid()
      ensures ret == TotalLength(state.queue)
    {
      hide Ring, Inv, TotalLength;
      ghost var q := Queue();
      NoPackets();
      ret := 0;
      var v := nelem;
      var i := indexRead;
      while i < indexRead + v
        invariant indexRead <= i <= indexRead + v
        invariant ret == TotalLength(q[..i - indexRead])
      {
        var item := items[if i < size then i else i - size];
        RingAt(items[..], indexRead, nelem, i - indexRead);
        TotalNext(q, i - indexRead);
        ret := ret + item.size;
        i := i + 1;
      }
      assert q[..v] == q;
    }
  }

  lemma RingAt(items: seq<Item>, start: nat, n: nat, i: nat)
    requires i < n <= |items| && start < |items|
    ensures 0 <= Slot(|items|, start, i) < |items|
    ensures Ring(items, start, n)[i] == PacketOf(items[Slot(|items|, start, i)])
  {
  }

  lemma NoPackets()
    ensures TotalLength([]) == 0
  {
  }

  function TotalLength(q: seq<Packet>): nat {
    if |q| == 0 then 0 else |q[0]| + TotalLength(q[1..])
  }

  lemma {:induction false} TotalConcat(a: seq<Packet>, b: seq<Packet>)
    ensures TotalLength(a + b) == TotalLength(a) + TotalLength(b)
  {
    if |a| == 0 {
      assert a + b == b;
    } else {
      TotalConcat(a[1..], b);
      assert (a + b)[1..] == a[1..] + b;
    }
  }

  lemma TotalNext(q: seq<Packet>, k: nat)
    requires k < |q|
    ensures TotalLength(q[..k + 1]) == TotalLength(q[..k]) + |q[k]|
  {
    TotalConcat(q[..k], [q[k]]);
    assert q[..k + 1] == q[..k] + [q[k]];
    assert TotalLength([q[k]][1..]) == 0;
  }
}
