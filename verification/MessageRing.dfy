/**
 The message ring between two threads (sendVIMS.c: queue_write, queue_read), under every interleaving
 of the memory accesses of one writer and one reader.

 A call is split at its accesses to shared memory.  The writer loads the reader's index, stores a
 slot, stores its own index; the reader loads the writer's index, loads a slot, stores its own index.
 `accepted` and `delivered` record what has been published and taken.  Memory is sequentially
 consistent.
 */
module MessageRing {

  const QUEUE_SIZE := 256
  const QUEUE_MASK := QUEUE_SIZE - 1

  datatype WriterPc<M> =
    | WriterIdle
    | WriterLoaded(m: M, messages: nat)
    | WriterStored(m: M)

  datatype ReaderPc<M> =
    | ReaderIdle
    | ReaderLoaded(messages: nat)
    | ReaderTaken(m: M)

  datatype Ring<M> = Ring(
    slots: seq<M>, read: nat, write: nat, writer: WriterPc<M>, reader: ReaderPc<M>,
    accepted: seq<M>, delivered: seq<M>)

  /** `(write - read) & QUEUE_MASK` in unsigned arithmetic */
  function Messages<M>(r: Ring<M>): nat {
    (r.write - r.read) % QUEUE_SIZE
  }

  /** queue_init */
  ghost predicate Init<M>(r: Ring<M>) {
    && |r.slots| == QUEUE_SIZE && r.read == 0 && r.write == 0
    && r.writer == WriterIdle && r.reader == ReaderIdle && r.accepted == [] && r.delivered == []
  }

  /** What is in the ring. */
  function Contents<M>(r: Ring<M>): seq<M>
    requires |r.delivered| <= |r.accepted|
  {
    r.accepted[|r.delivered|..]
  }

  // ------------------------------------------------------------ steps

  datatype Step<M> =
    | WriterLoads(m: M)
    | WriterDrops
    | WriterStores
    | WriterPublishes
    | ReaderLoads
    | ReaderFindsNothing
    | ReaderTakes
    | ReaderAdvances

  predicate Enabled<M>(r: Ring<M>, s: Step<M>) {
    match s
    case WriterLoads(m) => r.writer.WriterIdle?
    case WriterDrops => r.writer.WriterLoaded? && r.writer.messages == QUEUE_MASK
    case WriterStores => r.writer.WriterLoaded? && r.writer.messages != QUEUE_MASK && r.write < |r.slots|
    case WriterPublishes => r.writer.WriterStored?
    case ReaderLoads => r.reader.ReaderIdle?
    case ReaderFindsNothing => r.reader.ReaderLoaded? && r.reader.messages == 0
    case ReaderTakes => r.reader.ReaderLoaded? && r.reader.messages != 0 && r.read < |r.slots|
    case ReaderAdvances => r.reader.ReaderTaken?
  }

  function Do<M>(r: Ring<M>, s: Step<M>): Ring<M>
    requires Enabled(r, s)
  {
    match s
    case WriterLoads(m) => r.(writer := WriterLoaded(m, Messages(r)))
    case WriterDrops => r.(writer := WriterIdle)
    case WriterStores => r.(slots := r.slots[r.write := r.writer.m], writer := WriterStored(r.writer.m))
    case WriterPublishes =>
      r.(write := (r.write + 1) % QUEUE_SIZE, accepted := r.accepted + [r.writer.m], writer := WriterIdle)
    case ReaderLoads => r.(reader := ReaderLoaded(Messages(r)))
    case ReaderFindsNothing => r.(reader := ReaderIdle)
    case ReaderTakes => r.(reader := ReaderTaken(r.slots[r.read]))
    case ReaderAdvances =>
      r.(read := (r.read + 1) % QUEUE_SIZE, delivered := r.delivered + [r.reader.m], reader := ReaderIdle)
  }

  // ------------------------------------------------------------ the invariant

  ghost predicate Inv<M>(r: Ring<M>) {
    && |r.slots| == QUEUE_SIZE
    && r.delivered <= r.accepted && |r.accepted| - |r.delivered| <= QUEUE_MASK
    && r.read == |r.delivered| % QUEUE_SIZE && r.write == |r.accepted| % QUEUE_SIZE
    && (forall i :: |r.delivered| <= i < |r.accepted| ==> r.slots[i % QUEUE_SIZE] == r.accepted[i])
    && (r.writer.WriterLoaded? ==> |Contents(r)| <= r.writer.messages <= QUEUE_MASK)
    && (r.writer.WriterStored? ==> |Contents(r)| < QUEUE_MASK && r.slots[r.write] == r.writer.m)
    && (r.reader.ReaderLoaded? ==> r.reader.messages <= |Contents(r)|)
    && (r.reader.ReaderTaken? ==> Contents(r) != [] && r.reader.m == Contents(r)[0])
  }

  /** The index arithmetic counts the messages: it never confuses an empty ring with a full one. */
  lemma MessagesCounts<M>(r: Ring<M>)
    requires |r.delivered| <= |r.accepted| && |r.accepted| - |r.delivered| <= QUEUE_MASK
    requires r.read == |r.delivered| % QUEUE_SIZE && r.write == |r.accepted| % QUEUE_SIZE
    ensures Messages(r) == |Contents(r)|
  {
    ModDifference(|r.accepted|, |r.delivered|);
  }

  lemma ModDifference(a: nat, b: nat)
    requires b <= a && a - b < QUEUE_SIZE
    ensures (a % QUEUE_SIZE - b % QUEUE_SIZE) % QUEUE_SIZE == a - b
  {
    var n := a - b;
    assert a % QUEUE_SIZE
        == if b % QUEUE_SIZE + n < QUEUE_SIZE then b % QUEUE_SIZE + n else b % QUEUE_SIZE + n - QUEUE_SIZE;
  }

  /** Slots of different messages in the ring, and the slot the next one will take, are different. */
  lemma SlotsDiffer(i: nat, j: nat)
    requires i < j < i + QUEUE_SIZE
    ensures i % QUEUE_SIZE != j % QUEUE_SIZE
  {
  }

  lemma Wraps(n: nat)
    ensures (n % QUEUE_SIZE + 1) % QUEUE_SIZE == (n + 1) % QUEUE_SIZE
  {
  }

  lemma StepKeepsInv<M>(r: Ring<M>, s: Step<M>)
    requires Inv(r) && Enabled(r, s)
    ensures Inv(Do(r, s))
  {
    MessagesCounts(r);
    var r' := Do(r, s);
    match s
    case WriterStores =>
      forall i | |r.delivered| <= i < |r.accepted| ensures r'.slots[i % QUEUE_SIZE] == r.accepted[i] {
        SlotsDiffer(i, |r.accepted|);
      }
    case WriterPublishes =>
      Wraps(|r.accepted|);
    case ReaderAdvances =>
      Wraps(|r.delivered|);
    case _ =>
  }

  // ------------------------------------------------------------ what a step is to a queue

  /**
   Every step is, to the sequence in the ring, nothing at all, or an append, or the removal of the
   head.  A message is dropped only if the ring was full when the writer looked, an empty answer is
   given only if it was empty when the reader looked, and what the reader takes is the head.
   */
  lemma StepRefinesQueue<M>(r: Ring<M>, s: Step<M>)
    requires Inv(r) && Enabled(r, s)
    ensures Inv(Do(r, s))
    ensures var before, r' := Contents(r), Do(r, s);
            match s
            case WriterLoads(m) =>
              Contents(r') == before && r'.writer == WriterLoaded(m, |before|)
              && (Enabled(r', WriterDrops) <==> |before| == QUEUE_MASK)
            case WriterPublishes => Contents(r') == before + [r.writer.m] && |before| < QUEUE_MASK
            case ReaderLoads =>
              Contents(r') == before && r'.reader == ReaderLoaded(|before|)
              && (Enabled(r', ReaderFindsNothing) <==> before == [])
            case ReaderTakes => Contents(r') == before && before != [] && r'.reader.m == before[0]
            case ReaderAdvances => before != [] && r.reader.m == before[0] && Contents(r') == before[1..]
            case _ => Contents(r') == before
  {
    StepKeepsInv(r, s);
    MessagesCounts(r);
  }

  /** Between its look at the ring and the end of its call a thread can rely on what it saw. */
  lemma OtherThreadCannotSpoil<M>(r: Ring<M>, s: Step<M>)
    requires Inv(r) && Enabled(r, s)
    ensures (r.writer.WriterLoaded? && Do(r, s).writer == r.writer ==> |Contents(Do(r, s))| <= |Contents(r)|)
    ensures (r.reader.ReaderLoaded? && Do(r, s).reader == r.reader ==> |Contents(Do(r, s))| >= |Contents(r)|)
    ensures (!s.WriterStores? ==> Do(r, s).slots == r.slots)
    ensures s.WriterStores? ==> forall i :: |r.delivered| <= i < |r.accepted| ==>
              Do(r, s).slots[i % QUEUE_SIZE] == r.slots[i % QUEUE_SIZE]
  {
    StepKeepsInv(r, s);
  }

  // ------------------------------------------------------------ runs

  /** A run: every state follows from the one before by the step between them. */
  ghost predicate Run<M>(states: seq<Ring<M>>, steps: seq<Step<M>>) {
    && |states| == |steps| + 1 && Init(states[0])
    && forall i :: 0 <= i < |steps| ==> Enabled(states[i], steps[i]) && states[i + 1] == Do(states[i], steps[i])
  }

  lemma {:induction false} RunKeepsInv<M>(states: seq<Ring<M>>, steps: seq<Step<M>>, i: nat)
    requires Run(states, steps) && i < |states|
    ensures Inv(states[i])
  {
    if i == 0 {
    } else {
      RunKeepsInv(states, steps, i - 1);
      StepKeepsInv(states[i - 1], steps[i - 1]);
    }
  }

  /** The messages of the publishing steps among the first `n`, in order. */
  ghost function Published<M>(states: seq<Ring<M>>, steps: seq<Step<M>>, n: nat): seq<M>
    requires n <= |steps| && n <= |states|
  {
    if n == 0 then []
    else Published(states, steps, n - 1)
         + if steps[n - 1].WriterPublishes? && states[n - 1].writer.WriterStored? then [states[n - 1].writer.m] else []
  }

  /** The messages the reader left with in the first `n` steps, in order. */
  ghost function Received<M>(states: seq<Ring<M>>, steps: seq<Step<M>>, n: nat): seq<M>
    requires n <= |steps| && n <= |states|
  {
    if n == 0 then []
    else Received(states, steps, n - 1)
         + if steps[n - 1].ReaderAdvances? && states[n - 1].reader.ReaderTaken? then [states[n - 1].reader.m] else []
  }

  lemma StepRecords<M>(r: Ring<M>, s: Step<M>)
    requires Enabled(r, s)
    ensures Do(r, s).accepted
            == r.accepted + if s.WriterPublishes? && r.writer.WriterStored? then [r.writer.m] else []
    ensures Do(r, s).delivered
            == r.delivered + if s.ReaderAdvances? && r.reader.ReaderTaken? then [r.reader.m] else []
  {
  }

  lemma {:induction false} RunRecords<M>(states: seq<Ring<M>>, steps: seq<Step<M>>, n: nat)
    requires Run(states, steps) && n <= |steps|
    ensures states[n].accepted == Published(states, steps, n) && states[n].delivered == Received(states, steps, n)
  {
    hide Enabled, Do;
    if n == 0 {
    } else {
      RunRecords(states, steps, n - 1);
      StepRecords(states[n - 1], steps[n - 1]);
    }
  }

  /**
   In every run, at every moment: what has been received is exactly the first part of what has been
   published, in order and each once, and never more than 255 messages are under way.
   */
  lemma RunIsFifo<M>(states: seq<Ring<M>>, steps: seq<Step<M>>, n: nat)
    requires Run(states, steps) && n <= |steps|
    ensures Received(states, steps, n) <= Published(states, steps, n)
    ensures |Published(states, steps, n)| - |Received(states, steps, n)| <= 255
  {
    RunKeepsInv(states, steps, n);
    RunRecords(states, steps, n);
  }

  /** Step `i` is the load with which the writer's call that is under way at moment `n` began. */
  ghost predicate WriterCallBegan<M>(states: seq<Ring<M>>, steps: seq<Step<M>>, i: nat, n: nat) {
    && i < n < |states| && |states| == |steps| + 1 && steps[i].WriterLoads?
    && forall j :: i < j <= n ==> states[j].writer == states[n].writer
  }

  ghost predicate ReaderCallBegan<M>(states: seq<Ring<M>>, steps: seq<Step<M>>, i: nat, n: nat) {
    && i < n < |states| && |states| == |steps| + 1 && steps[i].ReaderLoads?
    && forall j :: i < j <= n ==> states[j].reader == states[n].reader
  }

  lemma {:induction false} WriterLooked<M>(states: seq<Ring<M>>, steps: seq<Step<M>>, n: nat) returns (i: nat)
    requires Run(states, steps) && n < |states| && states[n].writer.WriterLoaded?
    ensures WriterCallBegan(states, steps, i, n) && Inv(states[i])
    ensures |Contents(states[i])| == states[n].writer.messages
  {
    RunKeepsInv(states, steps, n - 1);
    StepRefinesQueue(states[n - 1], steps[n - 1]);
    if steps[n - 1].WriterLoads? {
      i := n - 1;
    } else {
      i := WriterLooked(states, steps, n - 1);
    }
  }

  lemma {:induction false} ReaderLooked<M>(states: seq<Ring<M>>, steps: seq<Step<M>>, n: nat) returns (i: nat)
    requires Run(states, steps) && n < |states| && states[n].reader.ReaderLoaded?
    ensures ReaderCallBegan(states, steps, i, n) && Inv(states[i])
    ensures |Contents(states[i])| == states[n].reader.messages
  {
    RunKeepsInv(states, steps, n - 1);
    StepRefinesQueue(states[n - 1], steps[n - 1]);
    if steps[n - 1].ReaderLoads? {
      i := n - 1;
    } else {
      i := ReaderLooked(states, steps, n - 1);
    }
  }

  /** A message is dropped only in a call during which the ring was full. */
  lemma DropsOnlyWhenFull<M>(states: seq<Ring<M>>, steps: seq<Step<M>>, n: nat)
    requires Run(states, steps) && n < |steps| && steps[n].WriterDrops?
    ensures exists i: nat ::
              WriterCallBegan(states, steps, i, n) && Inv(states[i]) && |Contents(states[i])| == 255
  {
    var i := WriterLooked(states, steps, n);
  }

  /** The reader is told there is nothing only in a call during which the ring was empty. */
  lemma NothingOnlyWhenEmpty<M>(states: seq<Ring<M>>, steps: seq<Step<M>>, n: nat)
    requires Run(states, steps) && n < |steps| && steps[n].ReaderFindsNothing?
    ensures exists i: nat :: ReaderCallBegan(states, steps, i, n) && Inv(states[i]) && Contents(states[i]) == []
  {
    var i := ReaderLooked(states, steps, n);
  }

  // ------------------------------------------------------------ the calls, undisturbed

  /** What a ring buffer holds from index `read` up to index `write`, going round at its end. */
  function Between<M>(q: seq<M>, read: nat, write: nat): seq<M>
    requires read <= |q| && write <= |q|
  {
    if read <= write then q[read..write] else q[read..] + q[..write]
  }

  lemma SliceHead<M>(q: seq<M>, from: nat, to: nat, rest: seq<M>)
    requires from < to <= |q|
    ensures q[from..to] + rest == [q[from]] + (q[from + 1..to] + rest)
  {
    assert q[from..to] == [q[from]] + q[from + 1..to];
  }

  lemma CountOfBetween<M>(q: seq<M>, read: nat, write: nat)
    requires |q| == QUEUE_SIZE && read < QUEUE_SIZE && write < QUEUE_SIZE
    ensures |Between(q, read, write)| == (write - read) % QUEUE_SIZE
  {
  }

  function Following(i: nat): nat
    requires i < QUEUE_SIZE
  {
    if i + 1 == QUEUE_SIZE then 0 else i + 1
  }

  lemma FollowingIsMasked(i: nat)
    requires i < QUEUE_SIZE
    ensures (i + 1) % QUEUE_SIZE == Following(i)
  {
  }

  lemma HeadLeaves<M>(q: seq<M>, read: nat, write: nat)
    requires |q| == QUEUE_SIZE && read < QUEUE_SIZE && write < QUEUE_SIZE && read != write
    ensures Between(q, read, write) == [q[read]] + Between(q, Following(read), write)
  {
    if read < write {
      SliceHead(q, read, write, []);
      assert q[read..write] + [] == q[read..write] && q[read + 1..write] + [] == q[read + 1..write];
    } else {
      HeadLeavesAround(q, read, write);
    }
  }

  lemma HeadLeavesAround<M>(q: seq<M>, read: nat, write: nat)
    requires |q| == QUEUE_SIZE && write < read < QUEUE_SIZE
    ensures q[read..] + q[..write] == [q[read]] + Between(q, Following(read), write)
  {
    SliceHead(q, read, |q|, q[..write]);
    assert q[read..|q|] == q[read..] && q[read + 1..|q|] == q[read + 1..];
    if read + 1 == |q| {
      assert q[read + 1..] + q[..write] == q[0..write];
    }
  }

  lemma TailJoins<M>(q: seq<M>, read: nat, write: nat, m: M)
    requires |q| == QUEUE_SIZE && read < QUEUE_SIZE && write < QUEUE_SIZE && Following(write) != read
    ensures Between(q[write := m], read, Following(write)) == Between(q, read, write) + [m]
  {
    var p := q[write := m];
    assert p[..write] == q[..write];
    if read <= write {
      assert p[read..write + 1] == q[read..write] + [m];
      if write + 1 == QUEUE_SIZE {
        assert p[read..] + p[..0] == p[read..write + 1];
      }
    } else {
      assert p[read..] == q[read..];
      assert p[..write + 1] == q[..write] + [m];
    }
  }

  /** `queue_t`, as one thread finds it when the other is out of its calls. */
  class Queue<M(0)> {
    const queue: array<M>
    var read: nat
    var write: nat

    ghost predicate Valid()
      reads this
    {
      queue.Length == QUEUE_SIZE && read < QUEUE_SIZE && write < QUEUE_SIZE
    }

    ghost function Held(): seq<M>
      requires Valid()
      reads this, queue
    {
      Between(queue[..], read, write)
    }

    constructor ()
      ensures Valid() && Held() == [] && fresh(queue)
    {
      queue := new M[QUEUE_SIZE];
      read, write := 0, 0;
    }

    /** queue_write; `dropped` where C frees the message */
    method Write(m: M) returns (dropped: bool)
      requires Valid()
      modifies this`write, queue
      ensures Valid()
      ensures dropped <==> |old(Held())| == QUEUE_MASK
      ensures Held() == if dropped then old(Held()) else old(Held()) + [m]
    {
      CountOfBetween(queue[..], read, write);
      FollowingIsMasked(write);
      var messages := (write - read) % QUEUE_SIZE;
      if messages == QUEUE_MASK {
        dropped := true;
      } else {
        ghost var was := queue[..];
        TailJoins(was, read, write, m);
        queue[write] := m;
        assert queue[..] == was[write := m];
        write := (write + 1) % QUEUE_SIZE;
        dropped := false;
      }
    }

    /** queue_read; `found` is false where C returns a null pointer */
    method Read() returns (found: bool, m: M)
      requires Valid()
      modifies this`read
      ensures Valid()
      ensures found <==> old(Held()) != []
      ensures found ==> m == old(Held())[0]
      ensures Held() == if found then old(Held())[1..] else old(Held())
    {
      CountOfBetween(queue[..], read, write);
      FollowingIsMasked(read);
      var messages := (write - read) % QUEUE_SIZE;
      found, m := false, *;
      if messages == 0 {
        return;
      }
      HeadLeaves(queue[..], read, write);
      found, m := true, queue[read];
      read := (read + 1) % QUEUE_SIZE;
    }
  }
}
