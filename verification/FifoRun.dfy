/** The blocking FIFO as its two threads see it: every step is one stretch of code under the mutex, from
    taking it (or being woken with it) to releasing it or waiting. */
module FifoRun {
  import opened Bytes

  type Packet = seq<Byte>

  /** One thread reads, one writes.  A waiting thread may have been signalled and not yet have run. */
  datatype Reader = Reading | ReadWait(outl: nat, signalled: bool)
  datatype Writer = Writing | WriteWait(packet: Packet, signalled: bool)

  /** `sent` are the packets that have been queued and not thrown away by a reset, `taken` those that have been
      read, with the size of the reader's buffer.  `broken` says that an empty queue has been read. */
  datatype State = State(size: nat, droptail: bool, queue: seq<Packet>, reader: Reader, writer: Writer,
                         sent: seq<Packet>, taken: seq<(Packet, nat)>, broken: bool)

  function Threshold(size: nat): nat { size / 10 }

  function Init(size: nat): State {
    State(size, false, [], Reading, Writing, [], [], false)
  }

  /** Calls, wake-ups and time-outs, as they follow each other on the mutex.  The writer may also be woken for
      no reason; the reader, whose wait is not in a loop, must not be. */
  datatype Step =
    | Read(outl: nat) | ReadWakes | ReadTimesOut
    | Write(packet: Packet) | WriteWakes
    | SetDroptail(on: bool)

  predicate Enabled(s: State, step: Step) {
    match step
    case Read(_) => s.reader.Reading?
    case ReadWakes => s.reader.ReadWait? && s.reader.signalled
    case ReadTimesOut => s.reader.ReadWait?
    case Write(_) => s.writer.Writing?
    case WriteWakes => s.writer.WriteWait?
    case SetDroptail(_) => true
  }

  /** The reader takes a packet, and signals the writer once enough room is free. */
  function Take(s: State, outl: nat): State {
    if |s.queue| == 0 then s.(broken := true, reader := Reading)
    else
      var s' := s.(queue := s.queue[1..], taken := s.taken + [(s.queue[0], outl)], reader := Reading);
      if s'.writer.WriteWait? && s'.size - |s'.queue| >= Threshold(s'.size)
      then s'.(writer := s'.writer.(signalled := true)) else s'
  }

  /** The writer queues a packet, and signals a waiting reader. */
  function Put(s: State, p: Packet): State {
    var s' := s.(queue := s.queue + [p], sent := s.sent + [p], writer := Writing);
    if s'.reader.ReadWait? then s'.(reader := s'.reader.(signalled := true)) else s'
  }

  function Apply(s: State, step: Step): State
    requires Enabled(s, step)
  {
    match step
    case Read(outl) => if |s.queue| == 0 then s.(reader := ReadWait(outl, false)) else Take(s, outl)
    case ReadWakes => Take(s, s.reader.outl)
    case ReadTimesOut => s.(reader := Reading)
    case Write(p) =>
      if |s.queue| == s.size then (if s.droptail then s else s.(writer := WriteWait(p, false))) else Put(s, p)
    case WriteWakes =>
      if |s.queue| == s.size then s.(writer := s.writer.(signalled := false)) else Put(s, s.writer.packet)
    case SetDroptail(on) => s.(droptail := on)
  }

  function Whole(taken: seq<(Packet, nat)>): seq<Packet> {
    seq(|taken|, i requires 0 <= i < |taken| => taken[i].0)
  }

  /** What the calls of fifo_read have returned: each packet as far as it fits the buffer. */
  function Results(s: State): seq<Packet> {
    seq(|s.taken|, i requires 0 <= i < |s.taken| => Cut(s.taken[i].0, s.taken[i].1))
  }

  function Cut(p: Packet, outl: nat): Packet {
    if outl >= |p| then p else p[..outl]
  }

  // ---- what every step keeps

  /** A reader that waits unsignalled has nothing to read, a signalled one has; a writer waits unsignalled
      only while the room is under the threshold. */
  predicate Waits(s: State) {
    && (s.reader.ReadWait? && !s.reader.signalled ==> |s.queue| == 0)
    && (s.reader.ReadWait? && s.reader.signalled ==> |s.queue| > 0)
    && (s.writer.WriteWait? && !s.writer.signalled ==>
          |s.queue| == s.size || s.size - |s.queue| < Threshold(s.size))
  }

  predicate Inv(s: State) {
    |s.queue| <= s.size && !s.broken && s.sent == Whole(s.taken) + s.queue && Waits(s)
  }

  lemma InvInit(size: nat)
    ensures Inv(Init(size))
  {
  }

  lemma TakeInv(s: State, outl: nat)
    requires Inv(s) && |s.queue| > 0
    ensures Inv(Take(s, outl))
  {
    assert Whole(s.taken + [(s.queue[0], outl)]) == Whole(s.taken) + [s.queue[0]];
    assert s.queue == [s.queue[0]] + s.queue[1..];
  }

  lemma PutInv(s: State, p: Packet)
    requires Inv(s) && |s.queue| < s.size
    ensures Inv(Put(s, p))
  {
    assert Whole(s.taken) + (s.queue + [p]) == Whole(s.taken) + s.queue + [p];
  }

  lemma InvStep(s: State, step: Step)
    requires Inv(s) && Enabled(s, step)
    ensures Inv(Apply(s, step))
  {
    hide Take, Put;
    match step
    case Read(outl) => if |s.queue| > 0 { TakeInv(s, outl); }
    case ReadWakes => TakeInv(s, s.reader.outl);
    case Write(p) => if |s.queue| < s.size { PutInv(s, p); }
    case WriteWakes => if |s.queue| < s.size { PutInv(s, s.writer.packet); }
    case _ =>
  }

  /** States a run can get to. */
  ghost predicate Run(s: State, steps: seq<Step>, s': State)
    decreases |steps|
  {
    if |steps| == 0 then s == s'
    else Enabled(s, steps[0]) && Run(Apply(s, steps[0]), steps[1..], s')
  }

  lemma {:induction false} InvRun(s: State, steps: seq<Step>, s': State)
    requires Inv(s) && Run(s, steps, s')
    ensures Inv(s') && s'.size == s.size
    decreases |steps|
  {
    if |steps| > 0 {
      InvStep(s, steps[0]);
      InvRun(Apply(s, steps[0]), steps[1..], s');
    }
  }

  // ---- results

  /** In every run, the reads return the queued packets in the order in which they were written, each cut to
      the reader's buffer; what has been queued and not read is in the queue, which never overflows, and
      no empty queue is read. */
  lemma InOrder(size: nat, steps: seq<Step>, s: State)
    requires Run(Init(size), steps, s)
    ensures |s.taken| <= |s.sent| && |Results(s)| == |s.taken|
    ensures forall i :: 0 <= i < |s.taken| ==>
              var len := if s.taken[i].1 < |s.sent[i]| then s.taken[i].1 else |s.sent[i]|;
              Results(s)[i] == s.sent[i][..len]
    ensures s.queue == s.sent[|s.taken|..] && |s.queue| <= size && !s.broken
  {
    InvInit(size);
    InvRun(Init(size), steps, s);
    assert Whole(s.taken) == s.sent[..|s.taken|];
    assert forall i :: 0 <= i < |s.taken| ==> Whole(s.taken)[i] == s.sent[i];
  }

  // ---- no packet is lost

  /** The packets that the calls of fifo_write were given. */
  function Offered(steps: seq<Step>): seq<Packet> {
    if |steps| == 0 then []
    else (if steps[0].Write? then [steps[0].packet] else []) + Offered(steps[1..])
  }

  /** Those of them, in a run, that did not meet a full queue with droptail on. */
  function Accepted(s: State, steps: seq<Step>): seq<Packet>
    decreases |steps|
  {
    if |steps| == 0 || !Enabled(s, steps[0]) then []
    else
      (if steps[0].Write? && !(s.droptail && |s.queue| == s.size) then [steps[0].packet] else []) +
      Accepted(Apply(s, steps[0]), steps[1..])
  }

  /** The packet of a call of fifo_write that waits. */
  function Waiting(w: Writer): seq<Packet> {
    if w.WriteWait? then [w.packet] else []
  }

  /** One step neither loses nor doubles a packet. */
  lemma StepKeeps(s: State, step: Step)
    requires Enabled(s, step)
    ensures var s' := Apply(s, step);
            s'.sent + Waiting(s'.writer) == s.sent + Waiting(s.writer) +
              (if step.Write? && !(s.droptail && |s.queue| == s.size) then [step.packet] else [])
  {
  }

  lemma {:induction false} RunKeeps(s: State, steps: seq<Step>, s': State)
    requires Run(s, steps, s')
    ensures s'.sent + Waiting(s'.writer) == s.sent + Waiting(s.writer) + Accepted(s, steps)
    decreases |steps|
  {
    hide Apply, Waiting;
    if |steps| > 0 {
      StepKeeps(s, steps[0]);
      RunKeeps(Apply(s, steps[0]), steps[1..], s');
    }
  }

  lemma {:induction false} AllAccepted(s: State, steps: seq<Step>, s': State)
    requires Run(s, steps, s') && !s.droptail && SetDroptail(true) !in steps
    ensures Accepted(s, steps) == Offered(steps)
    decreases |steps|
  {
    if |steps| > 0 {
      AllAccepted(Apply(s, steps[0]), steps[1..], s');
    }
  }

  /** In every run, the packets that have been queued, and the one of a writer that waits, are those that were offered,
      in that order; only under droptail are those missing that met a full queue. */
  lemma NoneLost(size: nat, steps: seq<Step>, s: State)
    requires Run(Init(size), steps, s)
    ensures s.sent + Waiting(s.writer) == Accepted(Init(size), steps)
    ensures SetDroptail(true) !in steps ==> s.sent + Waiting(s.writer) == Offered(steps)
  {
    hide Apply, Run, Accepted, Offered;
    RunKeeps(Init(size), steps, s);
    assert Init(size).sent + Waiting(Init(size).writer) == [];
    assert [] + Accepted(Init(size), steps) == Accepted(Init(size), steps);
    if SetDroptail(true) !in steps {
      AllAccepted(Init(size), steps, s);
    }
  }

  /** Both threads wait, and neither has been signalled. */
  predicate Deadlocked(s: State) {
    s.reader.ReadWait? && !s.reader.signalled && s.writer.WriteWait? && !s.writer.signalled
  }

  ghost predicate CanDeadlock(size: nat) {
    exists steps, s :: Run(Init(size), steps, s) && Deadlocked(s)
  }

  /** A queue of any size but 0 never leaves both threads waiting, although the writer is woken only when a
      tenth of the queue is free. */
  lemma DeadlockExactly(size: nat)
    ensures CanDeadlock(size) <==> size == 0
  {
    if size == 0 {
      var s0 := Init(0);
      var s1 := Apply(s0, Read(0));
      var s2 := Apply(s1, Write([]));
      assert Run(s2, [], s2);
      assert [Write([])][1..] == [];
      assert Run(s1, [Write([])], s2);
      var steps := [Read(0), Write([])];
      assert steps[1..] == [Write([])];
      assert Run(s0, steps, s2) && Deadlocked(s2);
    } else if CanDeadlock(size) {
      var steps, s :| Run(Init(size), steps, s) && Deadlocked(s);
      InvInit(size);
      InvRun(Init(size), steps, s);
      assert false;
    }
  }

  /** The wait of fifo_read is not a loop: woken without a signal, it would read an empty queue. */
  lemma SpuriousReadBreaks(s: State)
    requires Inv(s) && s.reader.ReadWait? && !s.reader.signalled
    ensures Take(s, s.reader.outl).broken
  {
  }

  // ---- BIO_CTRL_RESET, which takes no mutex and signals nobody

  function Reset(s: State): State {
    s.(queue := [], sent := Whole(s.taken))
  }

  /** No writer waits unsignalled, and no reader is on its way to a packet. */
  predicate ResetFits(s: State) {
    !(s.writer.WriteWait? && !s.writer.signalled) && !(s.reader.ReadWait? && s.reader.signalled)
  }

  lemma ResetInv(s: State)
    requires Inv(s)
    ensures Inv(Reset(s)) <==> s.size == 0 || ResetFits(s)
  {
    assert Whole(s.taken) + [] == Whole(s.taken);
    assert s.size == 0 ==> s.queue == [];
  }

  /** In no run from here is an empty queue read or do both threads end up waiting. */
  ghost predicate Safe(s: State) {
    forall steps, s' :: Run(s, steps, s') ==> !s'.broken && !Deadlocked(s')
  }

  lemma InvSafe(s: State)
    requires Inv(s) && s.size > 0
    ensures Safe(s)
  {
    forall steps, s' | Run(s, steps, s')
      ensures !s'.broken && !Deadlocked(s')
    {
      InvRun(s, steps, s');
    }
  }

  lemma OneStep(s: State, step: Step)
    requires Enabled(s, step)
    ensures Run(s, [step], Apply(s, step)) && Run(s, [], s)
  {
    assert [step][1..] == [];
  }

  /** After a reset all goes well exactly if no writer was waiting unsignalled and no reader was on its way. */
  lemma ResetExactly(s: State)
    requires Inv(s) && s.size > 0
    ensures Safe(Reset(s)) <==> ResetFits(s)
  {
    hide Apply, Run;
    var t := Reset(s);
    ResetInv(s);
    if ResetFits(s) {
      InvSafe(t);
    } else if t.reader.ReadWait? && t.reader.signalled {
      OneStep(t, ReadWakes);
      WakesToNothing(t);
    } else {
      assert t.reader.Reading?;
      OneStep(t, Read(0));
      ResetDeadlocks(s, 0);
    }
  }

  lemma WakesToNothing(s: State)
    requires s.reader.ReadWait? && s.reader.signalled && s.queue == []
    ensures Apply(s, ReadWakes).broken
  {
  }

  /** A writer that waits is forgotten: with the next read both wait. */
  lemma ResetDeadlocks(s: State, outl: nat)
    requires Inv(s) && s.writer.WriteWait? && !s.writer.signalled && s.reader.Reading?
    ensures Deadlocked(Apply(Reset(s), Read(outl)))
  {
  }
}
