/**
 Disconnecting comes to an end: once the run flag is down, every step of either thread brings the main
 thread nearer to having joined the worker and emptied both rings, and some step is always possible.
 */
module VimsProgress {
  import opened MessageRing
  import opened VimsProtocol

  /** The main thread is inside sendVIMS_disconnect, past the point where it takes the flag down. */
  predicate Leaving(m: Main) {
    m.Joining? || m.Closing? || m.DrainingVq? || m.DrainingPq?
  }

  // ------------------------------------------------------------ the steps still to come

  /** To fetch a command, wait for its frames, each with its status, and send it. */
  function CommandSteps(m: Command): nat {
    4 * m.delay + 5
  }

  function CommandsSteps(ms: seq<Command>): nat {
    if ms == [] then 0 else CommandSteps(ms[0]) + CommandsSteps(ms[1..])
  }

  function WriterSteps<M>(r: Ring<M>): nat {
    match r.writer
    case WriterIdle => 3
    case WriterLoaded(_, _) => 2
    case WriterStored(_) => 1
  }

  function ReaderSteps<M>(r: Ring<M>): nat {
    match r.reader
    case ReaderIdle => 0
    case ReaderLoaded(_) => 1
    case ReaderTaken(_) => 2
  }

  /** From the top of the worker's inner loop, for the commands `ms`, to its end. */
  function FetchSteps(ms: seq<Command>): nat {
    CommandsSteps(ms) + 8
  }

  function PurposeSteps(after: Purpose, ms: seq<Command>): nat {
    if after.ThenSend? then 1 + FetchSteps(ms) else 1
  }

  /** At most so many steps until the worker ends, `ms` being the commands in its ring. */
  function WorkerSteps(s: State, ms: seq<Command>): nat {
    match s.worker
    case NoThread => 0
    case AtLoop => 1
    case Fetching => FetchSteps(ms) - ReaderSteps(s.vq)
    case Flushing(after, left) => 4 * left + 1 + PurposeSteps(after, ms)
    case Posting(_, after, left) => WriterSteps(s.pq) + 4 * left + 1 + PurposeSteps(after, ms)
    case Sending(_, _) => 1 + FetchSteps(ms)
    case PostingNotice => WriterSteps(s.pq)
    case Ended => 0
  }

  /** To empty a ring of `n` messages; a full ring takes 767 steps. */
  function DrainSteps(n: nat): nat {
    3 * n + 2
  }

  /** At most so many steps until the main thread has disconnected. */
  function StepsLeft(s: State): int
    requires Rings(s)
  {
    var ms, n := Contents(s.vq), |Contents(s.pq)|;
    match s.main
    case Joining(_) => WorkerSteps(s, ms) + 1 + 1 + DrainSteps(|ms|) + 768
    case Closing(_) => 1 + DrainSteps(|ms|) + 768
    case DrainingVq(_) => DrainSteps(|ms|) - ReaderSteps(s.vq) + 768
    case DrainingPq(_) => DrainSteps(n) - ReaderSteps(s.pq)
    case _ => 0
  }

  // ------------------------------------------------------------ each step counts

  lemma WorkerDrains(s: State, e: Event)
    requires Good(s) && s.main.Joining? && Can(s, e) && e.VqRead?
    ensures Rings(After(s, e))
    ensures var ms, ms' := Contents(s.vq), Contents(After(s, e).vq);
            WorkerSteps(After(s, e), ms') < WorkerSteps(s, ms) && |ms'| <= |ms|
  {
    hide Contents, CommandSteps, Ordered, Timed, Noticed;
    StepKeepsGood(s, e);
    ReaderMoves(s.vq, e.v);
    if e.v.ReaderAdvances? {
      FirstCommand(Contents(s.vq));
    }
  }

  lemma FirstCommand(ms: seq<Command>)
    requires ms != []
    ensures CommandsSteps(ms) == 4 * ms[0].delay + 5 + CommandsSteps(ms[1..])
  {
  }

  lemma WorkerWorks(s: State, e: Event)
    requires Good(s) && s.main.Joining? && Can(s, e) && e != Joins && !e.VqRead?
    ensures Rings(After(s, e))
    ensures var ms, s' := Contents(s.vq), After(s, e);
            WorkerSteps(s', ms) < WorkerSteps(s, ms) && s'.main == s.main && Contents(s'.vq) == ms
  {
    hide Inv, Contents, CommandsSteps;
    StepKeepsGood(s, e);
    if e.PqWrite? {
      WriterMoves(s.pq, e.p, Posted(s.worker));
    }
  }

  lemma DrainsDown(s: State, e: Event)
    requires Good(s) && Can(s, e) && (s.main.Closing? || s.main.DrainingVq? || s.main.DrainingPq?)
    ensures Rings(After(s, e)) && (Leaving(After(s, e).main) ==> StepsLeft(After(s, e)) < StepsLeft(s))
  {
    hide Inv, Contents, Ordered, Timed, Noticed, WorkerSteps;
    StepKeepsGood(s, e);
    if e.VqDrain? {
      ReaderMoves(s.vq, e.v);
    } else if e.PqDrain? {
      ReaderMoves(s.pq, e.p);
    }
    AtMost255(After(s, e).pq);
  }

  lemma AtMost255<M>(r: Ring<M>)
    requires Inv(r)
    ensures |Contents(r)| <= 255
  {
  }

  /** Every step while the main thread disconnects brings the end nearer. */
  lemma StepCounts(s: State, e: Event)
    requires Good(s) && Leaving(s.main) && Can(s, e)
    ensures Good(After(s, e))
    ensures Leaving(After(s, e).main) ==> StepsLeft(After(s, e)) < StepsLeft(s)
  {
    hide Inv, Contents, Roles, Phases, Ordered, Timed, Noticed, WorkerSteps;
    StepKeepsGood(s, e);
    if !s.main.Joining? {
      DrainsDown(s, e);
    } else if e.VqRead? {
      WorkerDrains(s, e);
    } else if e != Joins {
      WorkerWorks(s, e);
    }
  }

  lemma StepsAreLeft(s: State)
    requires Good(s) && Leaving(s.main)
    ensures StepsLeft(s) > 0
  {
    hide Ordered, Timed, Noticed, Phases, Roles;
  }

  // ------------------------------------------------------------ some step is possible

  function NextRead<M>(r: Ring<M>): Step<M> {
    match r.reader
    case ReaderIdle => ReaderLoads
    case ReaderLoaded(messages) => if messages == 0 then ReaderFindsNothing else ReaderTakes
    case ReaderTaken(_) => ReaderAdvances
  }

  function NextWrite<M>(r: Ring<M>, m: M): Step<M> {
    match r.writer
    case WriterIdle => WriterLoads(m)
    case WriterLoaded(_, messages) => if messages == 255 then WriterDrops else WriterStores
    case WriterStored(_) => WriterPublishes
  }

  lemma NextIsEnabled<M>(r: Ring<M>, m: M)
    requires Inv(r)
    ensures ReaderStep(r, NextRead(r)) && WriterStep(r, NextWrite(r, m), m)
  {
  }

  /** What can happen next while the main thread disconnects. */
  function NextEvent(s: State): Event {
    match s.main
    case Closing(_) => Closes
    case DrainingVq(_) => VqDrain(NextRead(s.vq))
    case DrainingPq(_) => PqDrain(NextRead(s.pq))
    case _ =>
      match s.worker
      case AtLoop => LoopTest
      case Fetching => VqRead(NextRead(s.vq))
      case Flushing(_, left) => if left == 0 then FlushDone else FrameArrives("")
      case Sending(_, _) => Sends(true)
      case Posting(_, _, _) => PqWrite(NextWrite(s.pq, Posted(s.worker)))
      case PostingNotice => PqWrite(NextWrite(s.pq, Posted(s.worker)))
      case _ => Joins
  }

  lemma NotStuck(s: State)
    requires Good(s) && Leaving(s.main)
    ensures Can(s, NextEvent(s))
  {
    hide Inv, WriterStep, ReaderStep, NextRead, NextWrite, Ordered, Timed, Noticed;
    NextIsEnabled(s.vq, Command(0, ""));
    NextIsEnabled(s.pq, Posted(s.worker));
  }

  /**
   From any moment of any run at which the main thread disconnects, it does so for at most the steps
   counted there, whatever order the threads take them in, and is never stuck.
   */
  lemma {:induction false} DisconnectEnds(states: seq<State>, events: seq<Event>, i: nat, n: nat)
    requires RunOf(states, events) && i <= n < |states|
    requires forall j :: i <= j <= n ==> Leaving(states[j].main)
    ensures Good(states[i]) && n - i < StepsLeft(states[i])
    ensures exists e :: Can(states[n], e)
    decreases n - i
  {
    hide Good, Can, After, StepsLeft, NextEvent;
    RunIsGood(states, events, i);
    RunIsGood(states, events, n);
    NotStuck(states[n]);
    StepsAreLeft(states[i]);
    if i < n {
      StepCounts(states[i], events[i]);
      DisconnectEnds(states, events, i + 1, n);
    }
  }
}
