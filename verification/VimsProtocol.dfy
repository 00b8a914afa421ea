/**
 Two threads, two rings and a connection (sendVIMS.c): the main thread accepts commands, polls for
 replies, connects and disconnects; the worker sends each command at its frame and posts a status
 for every frame.  Every interleaving of their steps is a run.

 `vq` carries commands to the worker, `pq` replies to the main thread.  A frame arriving, a send and
 a connection attempt are abstract steps that may fail.  `frames`, `base`, `sent` and `noticeLost`
 only record what happens: the frames that arrived so far; and, of the current session, how many
 commands had been accepted before it, what was sent in it, and whether its disconnect notice was lost.
 */
module VimsProtocol {
  import opened MessageRing

  datatype Command = Command(delay: nat, text: string)
  datatype Reply = Status(text: string) | Disconnected
  datatype Sent = Sent(command: Command, fetchedAt: nat, sentAt: nat)

  /** What the worker does when sendVIMS_flush returns to it. */
  datatype Purpose = ThenSend(command: Command, fetchedAt: nat) | ThenLoop

  datatype Worker =
    | NoThread
    | AtLoop
    | Fetching
    | Flushing(after: Purpose, left: nat)
    | Posting(reply: Reply, after: Purpose, left: nat)
    | Sending(command: Command, fetchedAt: nat)
    | PostingNotice
    | Ended

  /** What the main thread does when sendVIMS_disconnect returns to it. */
  datatype Next = ThenIdle | ThenTick | ThenConnect

  datatype Main =
    | Idle
    | Accepting(command: Command)
    | Ticking
    | Stopping(next: Next)
    | Joining(next: Next)
    | Closing(next: Next)
    | DrainingVq(next: Next)
    | DrainingPq(next: Next)
    | Connecting

  datatype State = State(
    vq: Ring<Command>, pq: Ring<Reply>, run: bool, connected: bool, main: Main, worker: Worker,
    frames: nat, base: nat, sent: seq<Sent>, noticeLost: bool)

  datatype Event =
    | Says(command: Command)
    | TickStarts
    | DisconnectCalled
    | ConnectCalled
    | VqWrite(v: Step<Command>)
    | PqRead(p: Step<Reply>)
    | Stops
    | Joins
    | Closes
    | VqDrain(v: Step<Command>)
    | PqDrain(p: Step<Reply>)
    | Connects(ok: bool)
    | LoopTest
    | VqRead(v: Step<Command>)
    | FlushDone
    | FrameArrives(text: string)
    | FrameFails
    | PqWrite(p: Step<Reply>)
    | Sends(ok: bool)

  /** A step of the writer's call: for message `m`, if it is its first. */
  predicate WriterStep<M(==)>(r: Ring<M>, s: Step<M>, m: M) {
    (s == WriterLoads(m) || s.WriterDrops? || s.WriterStores? || s.WriterPublishes?) && Enabled(r, s)
  }

  predicate ReaderStep<M>(r: Ring<M>, s: Step<M>) {
    (s.ReaderLoads? || s.ReaderFindsNothing? || s.ReaderTakes? || s.ReaderAdvances?) && Enabled(r, s)
  }

  predicate Posts(w: Worker) { w.Posting? || w.PostingNotice? }

  function Posted(w: Worker): Reply {
    if w.Posting? then w.reply else Disconnected
  }

  predicate Can(s: State, e: Event) {
    match e
    case Says(_) => s.main.Idle?
    case TickStarts => s.main.Idle?
    case DisconnectCalled => s.main.Idle?
    case ConnectCalled => s.main.Idle?
    case VqWrite(v) => s.main.Accepting? && WriterStep(s.vq, v, s.main.command)
    case PqRead(p) => s.main.Ticking? && ReaderStep(s.pq, p)
    case Stops => s.main.Stopping?
    case Joins => s.main.Joining? && s.worker.Ended?
    case Closes => s.main.Closing?
    case VqDrain(v) => s.main.DrainingVq? && ReaderStep(s.vq, v)
    case PqDrain(p) => s.main.DrainingPq? && ReaderStep(s.pq, p)
    case Connects(_) => s.main.Connecting?
    case LoopTest => s.worker.AtLoop?
    case VqRead(v) => s.worker.Fetching? && ReaderStep(s.vq, v)
    case FlushDone => s.worker.Flushing? && s.worker.left == 0
    case FrameArrives(_) => s.worker.Flushing? && s.worker.left != 0
    case FrameFails => s.worker.Flushing? && s.worker.left != 0
    case PqWrite(p) => Posts(s.worker) && WriterStep(s.pq, p, Posted(s.worker))
    case Sends(_) => s.worker.Sending?
  }

  function Returned(next: Next): Main {
    match next
    case ThenIdle => Idle
    case ThenTick => Ticking
    case ThenConnect => Connecting
  }

  /** sendVIMS_connect after its sendVIMS_disconnect */
  function Connected(s: State, ok: bool): State {
    if ok then
      s.(connected := true, run := true, main := Idle, worker := AtLoop,
         base := |s.vq.accepted|, sent := [], noticeLost := false)
    else
      s.(main := Stopping(ThenIdle))
  }

  /** queue_read in sendVIMS_thread, and what the worker does with the answer */
  function Fetched(s: State, v: Step<Command>): State
    requires Enabled(s.vq, v)
  {
    s.(vq := Do(s.vq, v),
       worker :=
         if v.ReaderFindsNothing? then Flushing(ThenLoop, 1)
         else if v.ReaderAdvances? then Flushing(ThenSend(s.vq.reader.m, s.frames), s.vq.reader.m.delay)
         else s.worker)
  }

  /** queue_write in sendVIMS_flush and in sendVIMS_disconnect_from_thread */
  function Wrote(s: State, p: Step<Reply>): State
    requires Enabled(s.pq, p)
  {
    var s' := s.(pq := Do(s.pq, p));
    if !(p.WriterDrops? || p.WriterPublishes?) then s'
    else if s.worker.Posting? then s'.(worker := Flushing(s.worker.after, s.worker.left))
    else s'.(worker := Ended, noticeLost := p.WriterDrops?)
  }

  /** queue_read in sendVIMS_tick, and what the main thread does with the answer */
  function Polled(s: State, p: Step<Reply>): State
    requires Enabled(s.pq, p)
  {
    s.(pq := Do(s.pq, p),
       main :=
         if p.ReaderFindsNothing? then Idle
         else if p.ReaderAdvances? && s.pq.reader.m.Disconnected? then Stopping(ThenTick)
         else s.main)
  }

  function After(s: State, e: Event): State
    requires Can(s, e)
  {
    match e
    case Says(m) => if s.connected then s.(main := Accepting(m)) else s
    case TickStarts => s.(main := Ticking)
    case DisconnectCalled => s.(main := Stopping(ThenIdle))
    case ConnectCalled => s.(main := Stopping(ThenConnect))
    case VqWrite(v) =>
      s.(vq := Do(s.vq, v), main := if v.WriterDrops? || v.WriterPublishes? then Idle else s.main)
    case PqRead(p) => Polled(s, p)
    case Stops => if s.run then s.(run := false, main := Joining(s.main.next)) else s.(main := Closing(s.main.next))
    case Joins => s.(worker := NoThread, main := Closing(s.main.next))
    case Closes => s.(connected := false, main := DrainingVq(s.main.next))
    case VqDrain(v) =>
      s.(vq := Do(s.vq, v), main := if v.ReaderFindsNothing? then DrainingPq(s.main.next) else s.main)
    case PqDrain(p) =>
      s.(pq := Do(s.pq, p), main := if p.ReaderFindsNothing? then Returned(s.main.next) else s.main)
    case Connects(ok) => Connected(s, ok)
    case LoopTest => s.(worker := if s.run then Fetching else Ended)
    case VqRead(v) => Fetched(s, v)
    case FlushDone =>
      s.(worker := match s.worker.after
                   case ThenSend(m, t) => Sending(m, t)
                   case ThenLoop => AtLoop)
    case FrameArrives(text) =>
      s.(frames := s.frames + 1, worker := Posting(Status(text), s.worker.after, s.worker.left - 1))
    case FrameFails => s.(worker := PostingNotice)
    case PqWrite(p) => Wrote(s, p)
    case Sends(ok) =>
      if ok then
        s.(worker := Fetching, sent := s.sent + [Sent(s.worker.command, s.worker.fetchedAt, s.frames)])
      else
        s.(worker := PostingNotice)
  }

  /** sendVIMS_init */
  ghost predicate Start(s: State) {
    && Init(s.vq) && Init(s.pq) && !s.run && !s.connected && s.main.Idle? && s.worker.NoThread?
    && s.base == 0 && s.sent == [] && !s.noticeLost
  }

  ghost predicate RunOf(states: seq<State>, events: seq<Event>) {
    && |states| == |events| + 1 && Start(states[0])
    && forall i :: 0 <= i < |events| ==> Can(states[i], events[i]) && states[i + 1] == After(states[i], events[i])
  }

  // ------------------------------------------------------------ the invariant, in five parts

  ghost predicate Rings(s: State) { Inv(s.vq) && Inv(s.pq) }

  /** A call under way on a ring belongs to the thread whose turn it is. */
  ghost predicate Roles(s: State) {
    && (s.vq.writer.WriterLoaded? ==> s.main == Accepting(s.vq.writer.m))
    && (s.vq.writer.WriterStored? ==> s.main == Accepting(s.vq.writer.m))
    && (!s.vq.reader.ReaderIdle? ==> s.worker.Fetching? || s.main.DrainingVq?)
    && (s.pq.writer.WriterLoaded? ==> Posts(s.worker) && s.pq.writer.m == Posted(s.worker))
    && (s.pq.writer.WriterStored? ==> Posts(s.worker) && s.pq.writer.m == Posted(s.worker))
    && (!s.pq.reader.ReaderIdle? ==> s.main.Ticking? || s.main.DrainingPq?)
  }

  predicate AtRest(m: Main) { m.Idle? || m.Accepting? || m.Ticking? || m.Stopping? }

  ghost predicate Phases(s: State)
    requires Rings(s)
  {
    && (AtRest(s.main) ==> s.run == s.connected && (s.run <==> !s.worker.NoThread?))
    && (!AtRest(s.main) ==> !s.run && (s.worker.NoThread? <==> !s.main.Joining?))
    && (s.main.Accepting? ==> s.connected)
    && (s.main.DrainingVq? || s.main.DrainingPq? || s.main.Connecting? ==> !s.connected)
    && (s.main.DrainingPq? || s.main.Connecting? || (AtRest(s.main) && !s.run) ==> Contents(s.vq) == [])
    && (s.main.Connecting? || (AtRest(s.main) && !s.run) ==> Contents(s.pq) == [])
    && (s.main.DrainingVq? && s.vq.reader.ReaderLoaded? ==> s.vq.reader.messages == |Contents(s.vq)|)
    && (s.main.DrainingPq? && s.pq.reader.ReaderLoaded? ==> s.pq.reader.messages == |Contents(s.pq)|)
  }

  function CommandsOf(sent: seq<Sent>): seq<Command> {
    seq(|sent|, i requires 0 <= i < |sent| => sent[i].command)
  }

  function AfterOf(w: Worker): Purpose {
    match w
    case Flushing(after, _) => after
    case Posting(_, after, _) => after
    case Sending(m, t) => ThenSend(m, t)
    case _ => ThenLoop
  }

  /** The command the worker has taken and not yet sent. */
  function InHand(w: Worker): seq<Command> {
    if AfterOf(w).ThenSend? then [AfterOf(w).command] else []
  }

  predicate Finished(w: Worker) { w.NoThread? || w.Ended? || w.PostingNotice? }

  /** After its first `base` commands, just what was taken from the ring was sent or is in hand. */
  ghost predicate InOrder(sent: seq<Command>, hand: seq<Command>, taken: seq<Command>, base: nat, finished: bool) {
    base <= |taken| && sent + hand <= taken[base..] && (!finished ==> sent + hand == taken[base..])
  }

  /** The session has sent just what it took from the ring, in order, but for the command in hand. */
  ghost predicate Ordered(s: State) {
    InOrder(CommandsOf(s.sent), InHand(s.worker), s.vq.delivered, s.base, Finished(s.worker))
  }

  function LeftOf(w: Worker): nat {
    if w.Flushing? || w.Posting? then w.left else 0
  }

  /** Everything in the log was sent by frame `t`. */
  ghost predicate AllBefore(sent: seq<Sent>, t: nat) {
    forall k :: 0 <= k < |sent| ==> sent[k].sentAt <= t
  }

  /** Each command was sent just its delay after it was fetched, and fetched once the one before was sent. */
  ghost predicate AtTheirFrames(sent: seq<Sent>, frames: nat) {
    && AllBefore(sent, frames)
    && (forall k :: 0 <= k < |sent| ==> sent[k].sentAt == sent[k].fetchedAt + sent[k].command.delay)
    && (forall j, k :: 0 <= j < k < |sent| ==> sent[j].sentAt <= sent[k].fetchedAt)
  }

  /** Every command left at its frame, and the one in hand has the rest of its delay to go. */
  ghost predicate Timed(s: State) {
    && AtTheirFrames(s.sent, s.frames)
    && (AfterOf(s.worker).ThenSend? ==>
          var a := AfterOf(s.worker);
          a.fetchedAt + a.command.delay == s.frames + LeftOf(s.worker) && AllBefore(s.sent, a.fetchedAt))
  }

  /** A disconnect notice in the ring is the last word of a thread that has ended. */
  ghost predicate Noticed(s: State)
    requires Rings(s)
  {
    && (s.worker.Posting? ==> s.worker.reply.Status?)
    && (!s.worker.NoThread? && !s.worker.Ended? ==> Disconnected !in Contents(s.pq))
    && (s.main == Stopping(ThenTick) || s.main == Joining(ThenTick) ==> s.worker.Ended?)
    && (s.run && s.worker.Ended? && s.main != Stopping(ThenTick) ==>
          s.noticeLost || (Contents(s.pq) != [] && Contents(s.pq)[|Contents(s.pq)| - 1] == Disconnected))
    && (s.noticeLost ==> (s.worker.Ended? || s.worker.NoThread?) && Disconnected !in Contents(s.pq))
  }

  ghost predicate Good(s: State) {
    Rings(s) && Roles(s) && Phases(s) && Ordered(s) && Timed(s) && Noticed(s)
  }

  // ------------------------------------------------------------ every step keeps it

  lemma StartIsGood(s: State)
    requires Start(s)
    ensures Good(s)
  {
  }

  lemma WriterMoves<M>(r: Ring<M>, s: Step<M>, m: M)
    requires Inv(r) && WriterStep(r, s, m)
    requires r.writer.WriterLoaded? || r.writer.WriterStored? ==> r.writer.m == m
    ensures var r' := Do(r, s);
            && Inv(r') && r'.reader == r.reader && r'.delivered == r.delivered
            && (r'.writer.WriterIdle? <==> s.WriterDrops? || s.WriterPublishes?)
            && (r'.writer.WriterLoaded? || r'.writer.WriterStored? ==> r'.writer.m == m)
            && Contents(r') == if s.WriterPublishes? then Contents(r) + [m] else Contents(r)
  {
    StepRefinesQueue(r, s);
    hide Inv;
  }

  lemma ReaderMoves<M>(r: Ring<M>, s: Step<M>)
    requires Inv(r) && ReaderStep(r, s)
    ensures var r' := Do(r, s);
            && Inv(r') && r'.writer == r.writer && r'.accepted == r.accepted
            && (r'.reader.ReaderIdle? <==> s.ReaderFindsNothing? || s.ReaderAdvances?)
            && (r'.reader.ReaderLoaded? <==> s.ReaderLoads?)
            && (s.ReaderLoads? ==> r'.reader.messages == |Contents(r)|)
            && (s.ReaderFindsNothing? ==> r.reader == ReaderLoaded(0))
            && (s.ReaderAdvances? ==> r.reader.ReaderTaken? && Contents(r) != [] && r.reader.m == Contents(r)[0])
            && r'.delivered == (if s.ReaderAdvances? then r.delivered + [r.reader.m] else r.delivered)
            && Contents(r') == if s.ReaderAdvances? then Contents(r)[1..] else Contents(r)
  {
    StepRefinesQueue(r, s);
    hide Inv;
  }

  lemma StepKeepsRings(s: State, e: Event)
    requires Rings(s) && Can(s, e)
    ensures Rings(After(s, e))
  {
    hide Inv, Enabled, Do;
    match e
    case VqWrite(v) => StepKeepsInv(s.vq, v);
    case VqRead(v) => StepKeepsInv(s.vq, v);
    case VqDrain(v) => StepKeepsInv(s.vq, v);
    case PqWrite(p) => StepKeepsInv(s.pq, p);
    case PqRead(p) => StepKeepsInv(s.pq, p);
    case PqDrain(p) => StepKeepsInv(s.pq, p);
    case _ =>
  }

  lemma StepKeepsRoles(s: State, e: Event)
    requires Rings(s) && Roles(s) && Phases(s) && Can(s, e)
    ensures Roles(After(s, e))
  {
    hide Inv, Enabled, Do, Contents;
    match e
    case VqWrite(v) => WriterMoves(s.vq, v, s.main.command);
    case VqRead(v) => ReaderMoves(s.vq, v);
    case VqDrain(v) => ReaderMoves(s.vq, v);
    case PqWrite(p) => WriterMoves(s.pq, p, Posted(s.worker));
    case PqRead(p) => ReaderMoves(s.pq, p);
    case PqDrain(p) => ReaderMoves(s.pq, p);
    case _ =>
  }

  lemma StepKeepsPhases(s: State, e: Event)
    requires Rings(s) && Roles(s) && Phases(s) && Can(s, e)
    ensures Rings(After(s, e)) && Phases(After(s, e))
  {
    hide Inv, Enabled, Do, Contents;
    StepKeepsRings(s, e);
    match e
    case VqWrite(v) => WriterMoves(s.vq, v, s.main.command);
    case VqRead(v) => ReaderMoves(s.vq, v);
    case VqDrain(v) => ReaderMoves(s.vq, v);
    case PqWrite(p) => WriterMoves(s.pq, p, Posted(s.worker));
    case PqRead(p) => ReaderMoves(s.pq, p);
    case PqDrain(p) => ReaderMoves(s.pq, p);
    case _ =>
  }

  lemma TailGrows<T>(d: seq<T>, more: seq<T>, base: nat)
    requires base <= |d|
    ensures (d + more)[base..] == d[base..] + more
  {
  }

  lemma LogGrows(sent: seq<Sent>, last: Sent)
    ensures CommandsOf(sent + [last]) == CommandsOf(sent) + [last.command]
  {
  }

  lemma EmptyIsAllDelivered<M>(r: Ring<M>)
    requires Inv(r) && Contents(r) == []
    ensures r.delivered == r.accepted
  {
  }

  lemma NothingSentYet(taken: seq<Command>)
    ensures InOrder(CommandsOf([]), [], taken, |taken|, false)
  {
  }

  lemma DrainKeepsOrder(sent: seq<Command>, hand: seq<Command>, taken: seq<Command>, base: nat, m: Command)
    requires InOrder(sent, hand, taken, base, true)
    ensures InOrder(sent, hand, taken + [m], base, true)
  {
    TailGrows(taken, [m], base);
  }

  lemma FetchKeepsOrder(sent: seq<Command>, taken: seq<Command>, base: nat, m: Command)
    requires InOrder(sent, [], taken, base, false)
    ensures InOrder(sent, [m], taken + [m], base, false)
  {
    TailGrows(taken, [m], base);
    assert sent + [] == sent;
  }

  lemma SendKeepsOrder(sent: seq<Command>, taken: seq<Command>, base: nat, m: Command)
    requires InOrder(sent, [m], taken, base, false)
    ensures InOrder(sent + [m], [], taken, base, false) && InOrder(sent, [], taken, base, true)
  {
    assert sent + [m] + [] == sent + [m] && sent + [] == sent;
  }

  lemma FinishKeepsOrder(sent: seq<Command>, hand: seq<Command>, taken: seq<Command>, base: nat, finished: bool)
    requires InOrder(sent, hand, taken, base, finished)
    ensures InOrder(sent, hand, taken, base, true) && InOrder(sent, [], taken, base, true)
  {
    assert sent + [] == sent && sent <= sent + hand;
  }

  lemma VqStepKeepsOrdered(s: State, e: Event)
    requires Rings(s) && Roles(s) && Phases(s) && Ordered(s) && Can(s, e)
    requires e.VqWrite? || e.VqRead? || e.VqDrain?
    ensures Ordered(After(s, e))
  {
    hide Inv, Enabled, Do, CommandsOf, Contents, InOrder;
    var sent, hand := CommandsOf(s.sent), InHand(s.worker);
    if e.VqWrite? {
      WriterMoves(s.vq, e.v, s.main.command);
    } else {
      ReaderMoves(s.vq, e.v);
      if e.v.ReaderAdvances? && e.VqRead? {
        FetchKeepsOrder(sent, s.vq.delivered, s.base, s.vq.reader.m);
      } else if e.v.ReaderAdvances? {
        DrainKeepsOrder(sent, hand, s.vq.delivered, s.base, s.vq.reader.m);
      }
    }
  }

  lemma StepKeepsOrdered(s: State, e: Event)
    requires Rings(s) && Roles(s) && Phases(s) && Ordered(s) && Can(s, e)
    ensures Ordered(After(s, e))
  {
    hide Inv, Enabled, Do, CommandsOf, Contents, InOrder;
    var sent, hand := CommandsOf(s.sent), InHand(s.worker);
    if e.VqWrite? || e.VqRead? || e.VqDrain? {
      VqStepKeepsOrdered(s, e);
    } else if e.Connects? {
      EmptyIsAllDelivered(s.vq);
      NothingSentYet(s.vq.delivered);
    } else if e.Sends? {
      SendKeepsOrder(sent, s.vq.delivered, s.base, s.worker.command);
      LogGrows(s.sent, Sent(s.worker.command, s.worker.fetchedAt, s.frames));
    } else {
      FinishKeepsOrder(sent, hand, s.vq.delivered, s.base, Finished(s.worker));
    }
  }

  lemma SendKeepsTimes(sent: seq<Sent>, frames: nat, m: Command, fetchedAt: nat)
    requires AtTheirFrames(sent, frames) && AllBefore(sent, fetchedAt) && fetchedAt + m.delay == frames
    ensures AtTheirFrames(sent + [Sent(m, fetchedAt, frames)], frames)
  {
  }

  lemma TimePasses(sent: seq<Sent>, frames: nat)
    requires AtTheirFrames(sent, frames)
    ensures AtTheirFrames(sent, frames + 1) && AllBefore(sent, frames) && AtTheirFrames([], frames)
  {
  }

  lemma StepKeepsTimed(s: State, e: Event)
    requires Rings(s) && Timed(s) && Can(s, e)
    ensures Timed(After(s, e))
  {
    hide Inv, Enabled, Do, Contents, AtTheirFrames, AllBefore;
    TimePasses(s.sent, s.frames);
    if e.Sends? {
      SendKeepsTimes(s.sent, s.frames, s.worker.command, s.worker.fetchedAt);
    }
  }

  lemma StepKeepsNoticed(s: State, e: Event)
    requires Rings(s) && Roles(s) && Phases(s) && Noticed(s) && Can(s, e)
    ensures Rings(After(s, e)) && Noticed(After(s, e))
  {
    hide Inv, Enabled, Do, Contents;
    StepKeepsRings(s, e);
    match e
    case VqWrite(v) => WriterMoves(s.vq, v, s.main.command);
    case VqRead(v) => ReaderMoves(s.vq, v);
    case VqDrain(v) => ReaderMoves(s.vq, v);
    case PqWrite(p) => WriterMoves(s.pq, p, Posted(s.worker));
    case PqRead(p) => ReaderMoves(s.pq, p);
    case PqDrain(p) => ReaderMoves(s.pq, p);
    case _ =>
  }

  lemma StepKeepsGood(s: State, e: Event)
    requires Good(s) && Can(s, e)
    ensures Good(After(s, e))
  {
    hide Rings, Roles, Phases, Ordered, Timed, Noticed, Can, After;
    StepKeepsRings(s, e);
    StepKeepsRoles(s, e);
    StepKeepsPhases(s, e);
    StepKeepsOrdered(s, e);
    StepKeepsTimed(s, e);
    StepKeepsNoticed(s, e);
  }

  // ------------------------------------------------------------ whole runs

  lemma {:induction false} RunIsGood(states: seq<State>, events: seq<Event>, n: nat)
    requires RunOf(states, events) && n < |states|
    ensures Good(states[n])
  {
    hide Good, Can, After;
    if n == 0 {
      StartIsGood(states[0]);
    } else {
      RunIsGood(states, events, n - 1);
      StepKeepsGood(states[n - 1], events[n - 1]);
    }
  }

  /**
   While the main thread empties the rings nothing else happens at all: no second reader, and no
   writer, is ever inside a ring that is being emptied.
   */
  lemma DrainsAlone(states: seq<State>, events: seq<Event>, n: nat)
    requires RunOf(states, events) && n < |events|
    requires states[n].main.DrainingVq? || states[n].main.DrainingPq?
    ensures events[n].VqDrain? || events[n].PqDrain?
    ensures states[n].worker.NoThread?
  {
    RunIsGood(states, events, n);
  }

  /**
   On each side of each ring at most one thread can take a step; and a thread is started only when
   there is none, so that one worker is all there ever is.
   */
  lemma OneThreadPerSide(states: seq<State>, events: seq<Event>, n: nat, a: Step<Command>, b: Step<Command>)
    requires RunOf(states, events) && n < |states|
    ensures !(Can(states[n], VqRead(a)) && Can(states[n], VqDrain(b)))
    ensures n < |events| && events[n].Connects? ==> states[n].worker.NoThread?
    ensures !states[n].vq.reader.ReaderIdle? ==> states[n].worker.Fetching? != states[n].main.DrainingVq?
    ensures !states[n].pq.writer.WriterIdle? ==> Posts(states[n].worker)
    ensures !states[n].vq.writer.WriterIdle? ==> states[n].main.Accepting?
    ensures !states[n].pq.reader.ReaderIdle? ==> states[n].main.Ticking? || states[n].main.DrainingPq?
  {
    RunIsGood(states, events, n);
  }

  /**
   What a session has sent is a first part of what was accepted in it, in the order of acceptance;
   each command left exactly its delay in frames after it was fetched, none before its predecessor.
   */
  lemma SentInOrderOnTime(states: seq<State>, events: seq<Event>, n: nat)
    requires RunOf(states, events) && n < |states|
    ensures var s := states[n];
            && s.base <= |s.vq.accepted| && CommandsOf(s.sent) <= s.vq.accepted[s.base..]
            && (forall k :: 0 <= k < |s.sent| ==>
                  s.sent[k].sentAt - s.sent[k].fetchedAt == s.sent[k].command.delay)
            && (forall j, k :: 0 <= j < k < |s.sent| ==> s.sent[j].sentAt <= s.sent[k].fetchedAt)
  {
    RunIsGood(states, events, n);
    var s := states[n];
    var sent, taken := CommandsOf(s.sent), s.vq.delivered[s.base..];
    assert sent <= sent + InHand(s.worker) <= taken;
    assert taken <= s.vq.accepted[s.base..];
  }

  // ------------------------------------------------------------ the log against the steps

  /** How many frames arrive in these steps. */
  function FramesIn(events: seq<Event>): nat {
    if events == [] then 0
    else FramesIn(events[..|events| - 1]) + (if events[|events| - 1].FrameArrives? then 1 else 0)
  }

  lemma FrameIsCounted(s: State, e: Event)
    requires Can(s, e)
    ensures After(s, e).frames == s.frames + (if e.FrameArrives? then 1 else 0)
  {
  }

  lemma {:induction false} FramesAreCounted(states: seq<State>, events: seq<Event>, i: nat, n: nat)
    requires RunOf(states, events) && i <= n < |states|
    ensures states[n].frames == states[i].frames + FramesIn(events[i..n])
  {
    hide Can, After;
    if n == i {
      assert events[i..n] == [];
    } else {
      FramesAreCounted(states, events, i, n - 1);
      FrameIsCounted(states[n - 1], events[n - 1]);
      assert events[i..n][..n - 1 - i] == events[i..n - 1] && events[i..n][n - 1 - i] == events[n - 1];
    }
  }

  /** Step `i` takes `m` from the ring; from there to moment `n` nothing else is taken, sent or begun. */
  ghost predicate FetchOf(states: seq<State>, events: seq<Event>, i: nat, n: nat, m: Command) {
    && i < n < |states| == |events| + 1 && events[i] == VqRead(ReaderAdvances) && states[i].vq.reader == ReaderTaken(m)
    && forall j :: i < j < n ==> !events[j].VqRead? && !events[j].Sends? && events[j] != Connects(true)
  }

  lemma HandIsFetched(s: State, e: Event)
    requires Can(s, e) && AfterOf(After(s, e).worker).ThenSend?
    ensures var a := AfterOf(After(s, e).worker);
            if e == VqRead(ReaderAdvances) then s.vq.reader == ReaderTaken(a.command) && s.frames == a.fetchedAt
            else a == AfterOf(s.worker) && !e.VqRead? && !e.Sends? && e != Connects(true)
  {
  }

  lemma {:induction false} FetchHappened(states: seq<State>, events: seq<Event>, n: nat) returns (i: nat)
    requires RunOf(states, events) && n < |states| && AfterOf(states[n].worker).ThenSend?
    ensures var a := AfterOf(states[n].worker);
            FetchOf(states, events, i, n, a.command) && states[i].frames == a.fetchedAt
  {
    hide Can, After;
    HandIsFetched(states[n - 1], events[n - 1]);
    if events[n - 1] == VqRead(ReaderAdvances) {
      i := n - 1;
    } else {
      i := FetchHappened(states, events, n - 1);
    }
  }

  /** Between the step that takes a command from the ring and the one that sends it just its delay of frames arrive. */
  lemma SendWaitsItsDelay(states: seq<State>, events: seq<Event>, n: nat) returns (i: nat)
    requires RunOf(states, events) && n < |events| && events[n].Sends?
    ensures FetchOf(states, events, i, n, states[n].worker.command)
    ensures FramesIn(events[i..n]) == states[n].worker.command.delay
    ensures states[n].worker.fetchedAt == states[i].frames
  {
    RunIsGood(states, events, n);
    i := FetchHappened(states, events, n);
    FramesAreCounted(states, events, i, n);
  }

  /** Entry `k` of the log at moment `n`: taken in step `i`, sent in step `j`, in the session of moment `n`. */
  ghost predicate LoggedBy(states: seq<State>, events: seq<Event>, k: nat, n: nat, i: nat, j: nat) {
    && j < n < |states| == |events| + 1 && k < |states[n].sent| && |states[j].sent| == k && events[j] == Sends(true)
    && (forall l :: j < l < n ==> events[l] != Connects(true))
    && var entry := states[n].sent[k];
    && entry.sentAt == states[j].frames && FetchOf(states, events, i, j, entry.command)
    && entry.fetchedAt == states[i].frames && FramesIn(events[i..j]) == entry.command.delay
  }

  lemma LogStep(s: State, e: Event)
    requires Can(s, e)
    ensures var s' := After(s, e);
            if e == Connects(true) then s'.sent == []
            else if e == Sends(true) then s'.sent == s.sent + [Sent(s.worker.command, s.worker.fetchedAt, s.frames)]
            else s'.sent == s.sent
  {
  }

  /** Every entry of the log is of a step that sent, and of the step that fetched for it. */
  lemma {:induction false} LogIsOfSends(states: seq<State>, events: seq<Event>, n: nat, k: nat) returns (i: nat, j: nat)
    requires RunOf(states, events) && n < |states| && k < |states[n].sent|
    ensures LoggedBy(states, events, k, n, i, j)
  {
    hide Can, After, FetchOf;
    var s, e := states[n - 1], events[n - 1];
    LogStep(s, e);
    if k < |s.sent| && e != Connects(true) {
      i, j := LogIsOfSends(states, events, n - 1, k);
    } else {
      j := n - 1;
      i := SendWaitsItsDelay(states, events, j);
    }
  }

  /** And every step that sent in this session has its entry, the next one. */
  lemma {:induction false} SendsAreLogged(states: seq<State>, events: seq<Event>, j: nat, n: nat)
    requires RunOf(states, events) && j < n < |states| && events[j] == Sends(true)
    requires forall l :: j < l < n ==> events[l] != Connects(true)
    ensures Can(states[j], events[j]) && |states[j].sent| < |states[n].sent|
    ensures states[n].sent[|states[j].sent|]
         == Sent(states[j].worker.command, states[j].worker.fetchedAt, states[j].frames)
  {
    hide After;
    LogStep(states[n - 1], events[n - 1]);
    if n == j + 1 {
    } else {
      SendsAreLogged(states, events, j, n - 1);
    }
  }

  /** A session begins with both rings empty: nothing accepted before it can be sent in it. */
  lemma SessionBeginsEmpty(states: seq<State>, events: seq<Event>, n: nat)
    requires RunOf(states, events) && n < |events| && events[n] == Connects(true)
    ensures Good(states[n + 1])
    ensures var s := states[n + 1];
            && s.base == |s.vq.accepted| == |s.vq.delivered| && s.sent == []
            && Contents(s.vq) == [] && Contents(s.pq) == [] && s.run && s.connected && s.worker.AtLoop?
  {
    RunIsGood(states, events, n);
    RunIsGood(states, events, n + 1);
    EmptyIsAllDelivered(states[n].vq);
  }

  /** sendVIMS_disconnect ends with both rings empty, the thread gone and both flags down. */
  lemma DisconnectLeavesNothing(states: seq<State>, events: seq<Event>, n: nat)
    requires RunOf(states, events) && n < |events| && events[n] == PqDrain(ReaderFindsNothing)
    ensures Good(states[n + 1])
    ensures var s := states[n + 1];
            && states[n].main.DrainingPq?
            && (states[n].main.next == ThenIdle ==> s.main == Idle)
            && (states[n].main.next == ThenTick ==> s.main == Ticking)
            && (states[n].main.next == ThenConnect ==> s.main == Connecting)
            && Contents(s.vq) == [] && Contents(s.pq) == [] && s.worker.NoThread? && !s.run && !s.connected
            && s.vq.writer.WriterIdle? && s.vq.reader.ReaderIdle? && s.pq.writer.WriterIdle? && s.pq.reader.ReaderIdle?
  {
    RunIsGood(states, events, n);
    RunIsGood(states, events, n + 1);
    ReaderMoves(states[n].pq, ReaderFindsNothing);
  }

  /** A disconnect found by a poll is always about a thread that has ended, so its join never waits. */
  lemma TickNeverWaits(states: seq<State>, events: seq<Event>, n: nat)
    requires RunOf(states, events) && n < |states|
    requires states[n].main == Stopping(ThenTick) || states[n].main == Joining(ThenTick)
    ensures states[n].worker.Ended?
    ensures states[n].main.Joining? ==> Can(states[n], Joins)
  {
    RunIsGood(states, events, n);
  }

  /** The step in which the worker, about to post its disconnect notice, looks how full the ring is. */
  predicate LooksForNotice(s: State, e: Event) {
    s.worker.PostingNotice? && e == PqWrite(WriterLoads(Disconnected))
  }

  /** Step `i` is that look, and no session has begun between it and moment `n`. */
  ghost predicate NoticeLook(states: seq<State>, events: seq<Event>, i: nat, n: nat) {
    && i < n < |states| == |events| + 1 && LooksForNotice(states[i], events[i])
    && forall j :: i < j < n ==> events[j] != Connects(true)
  }

  /** What a look that found `count` replies leads to. */
  predicate Looked(s: State, count: nat) {
    if s.worker.PostingNotice? then
      || s.pq.writer == WriterLoaded(Disconnected, count)
      || (s.pq.writer == WriterStored(Disconnected) && count != QUEUE_MASK)
    else
      (s.worker.Ended? || s.worker.NoThread?) && (s.noticeLost <==> count == QUEUE_MASK)
  }

  lemma LookIsRemembered(s: State, e: Event)
    requires Good(s) && Can(s, e) && LooksForNotice(s, e)
    ensures Looked(After(s, e), |Contents(s.pq)|)
  {
    hide Roles, Phases, Ordered, Timed;
    StepRefinesQueue(s.pq, e.p);
  }

  lemma LookedStays(s: State, e: Event, count: nat)
    requires Good(s) && Can(s, e) && Looked(s, count) && e != Connects(true)
    ensures Looked(After(s, e), count)
  {
    hide Inv, Contents, Phases, Ordered, Timed;
  }

  lemma {:induction false} LookDecides(states: seq<State>, events: seq<Event>, i: nat, n: nat)
    requires RunOf(states, events) && NoticeLook(states, events, i, n)
    ensures Good(states[i]) && Looked(states[n], |Contents(states[i].pq)|)
  {
    hide Roles, Phases, Ordered, Timed, Noticed, Can, After, Looked, LooksForNotice;
    RunIsGood(states, events, i);
    if n == i + 1 {
      LookIsRemembered(states[i], events[i]);
    } else {
      LookDecides(states, events, i, n - 1);
      RunIsGood(states, events, n - 1);
      LookedStays(states[n - 1], events[n - 1], |Contents(states[i].pq)|);
    }
  }

  /** The worker has ended unasked, or is past its look on the way there. */
  predicate PastLook(s: State) {
    (s.run && s.worker.Ended?) || (s.worker.PostingNotice? && !s.pq.writer.WriterIdle?)
  }

  lemma LookBegins(s: State, e: Event)
    requires Good(s) && Can(s, e) && PastLook(After(s, e)) && !LooksForNotice(s, e)
    ensures PastLook(s) && e != Connects(true)
  {
    hide Inv, Contents, Phases, Ordered, Timed, Noticed;
  }

  lemma {:induction false} LookHappened(states: seq<State>, events: seq<Event>, n: nat) returns (i: nat)
    requires RunOf(states, events) && n < |states| && PastLook(states[n])
    ensures NoticeLook(states, events, i, n)
  {
    hide Good, Can, After, LooksForNotice;
    var s, e := states[n - 1], events[n - 1];
    RunIsGood(states, events, n - 1);
    if LooksForNotice(s, e) {
      i := n - 1;
    } else {
      LookBegins(s, e);
      i := LookHappened(states, events, n - 1);
    }
  }

  /** The last message under way is a disconnect notice. */
  predicate EndsWithNotice(r: Ring<Reply>) {
    |r.delivered| < |r.accepted| && r.accepted[|r.accepted| - 1] == Disconnected
  }

  /**
   A thread that ended although it was not asked to has, in this session, looked at the ring to
   leave its notice; and the notice is now the last message for the main thread if and only if the
   ring then held fewer than 255 messages.
   */
  lemma DeadThreadIsNoticed(states: seq<State>, events: seq<Event>, n: nat)
    requires RunOf(states, events) && n < |states|
    requires states[n].run && states[n].worker.Ended? && states[n].main != Stopping(ThenTick)
    ensures exists i: nat :: NoticeLook(states, events, i, n)
    ensures forall i: nat :: NoticeLook(states, events, i, n) ==>
              (EndsWithNotice(states[n].pq) <==> |states[i].pq.accepted| - |states[i].pq.delivered| < 255)
  {
    hide RunOf;
    RunIsGood(states, events, n);
    var look := LookHappened(states, events, n);
    forall i: nat | NoticeLook(states, events, i, n)
      ensures EndsWithNotice(states[n].pq) <==> |states[i].pq.accepted| - |states[i].pq.delivered| < 255 {
      LookDecides(states, events, i, n);
      NoticeIsLast(states[n]);
    }
  }

  lemma NoticeIsLast(s: State)
    requires Good(s) && s.run && s.worker.Ended? && s.main != Stopping(ThenTick)
    ensures EndsWithNotice(s.pq) <==> !s.noticeLost
  {
    if EndsWithNotice(s.pq) {
      assert Contents(s.pq)[|Contents(s.pq)| - 1] == Disconnected;
    }
  }

  /** The connection still counts as up, but its thread is gone and no notice of that is coming. */
  ghost predicate Stranded(s: State) {
    && Good(s) && s.run && s.connected && s.worker.Ended? && Disconnected !in Contents(s.pq)
    && (s.main.Idle? || s.main.Accepting? || s.main.Ticking?)
  }

  /** A notice dropped because the ring was full strands the connection ... */
  lemma LostNoticeStrands(s: State)
    requires Good(s) && s.worker.PostingNotice? && Can(s, PqWrite(WriterDrops))
    requires s.main.Idle? || s.main.Accepting? || s.main.Ticking?
    ensures Stranded(After(s, PqWrite(WriterDrops)))
  {
    StepKeepsGood(s, PqWrite(WriterDrops));
    WriterMoves(s.pq, WriterDrops, Disconnected);
  }

  /** ... and nothing but the user's own connect or disconnect ends that. */
  lemma StrandedStays(s: State, e: Event)
    requires Stranded(s) && Can(s, e) && !e.DisconnectCalled? && !e.ConnectCalled?
    ensures Stranded(After(s, e))
  {
    hide Ordered, Timed;
    StepKeepsGood(s, e);
    if e.PqRead? {
      ReaderMoves(s.pq, e.p);
    }
  }

  // ------------------------------------------------------------ a run that strands the connection

  /** Some run comes to this state. */
  ghost predicate Reachable(s: State) {
    exists states, events :: RunOf(states, events) && states[|events|] == s
  }

  lemma StepReaches(s: State, e: Event)
    requires Reachable(s) && Can(s, e)
    ensures Reachable(After(s, e)) && Good(After(s, e))
  {
    hide Can, After, Good;
    var states, events :| RunOf(states, events) && states[|events|] == s;
    var states', events' := states + [After(s, e)], events + [e];
    forall i | 0 <= i < |events'|
      ensures Can(states'[i], events'[i]) && states'[i + 1] == After(states'[i], events'[i]) {
      if i < |events| {
        assert states'[i] == states[i] && states'[i + 1] == states[i + 1] && events'[i] == events[i];
      }
    }
    assert RunOf(states', events') && states'[|events'|] == After(s, e);
    RunIsGood(states', events', |events'|);
  }

  /** Connected, with the main thread idle, the worker at the top of its loop and `n` replies waiting. */
  ghost predicate Resting(s: State, n: nat) {
    && Reachable(s) && Good(s) && s.main.Idle? && s.run && s.worker.AtLoop?
    && Contents(s.vq) == [] && |Contents(s.pq)| == n
  }

  lemma Advance(s: State, e: Event) returns (s': State)
    requires Reachable(s) && Can(s, e)
    ensures s' == After(s, e) && Reachable(s') && Good(s')
  {
    StepReaches(s, e);
    s' := After(s, e);
  }

  lemma FirstSession() returns (s: State)
    ensures Resting(s, 0)
  {
    hide Reachable, Roles, Phases, Ordered, Timed, Noticed;
    s := Stopped();
    s := Advance(s, VqDrain(ReaderLoads));
    s := Advance(s, VqDrain(ReaderFindsNothing));
    s := Advance(s, PqDrain(ReaderLoads));
    s := Advance(s, PqDrain(ReaderFindsNothing));
    s := Advance(s, Connects(true));
  }

  lemma Stopped() returns (s: State)
    ensures Reachable(s) && s.main == DrainingVq(ThenConnect) && s.worker.NoThread?
    ensures Init(s.vq) && Init(s.pq)
  {
    var vq := Ring(seq(QUEUE_SIZE, _ => Command(0, "")), 0, 0, WriterIdle, ReaderIdle, [], []);
    var pq := Ring(seq(QUEUE_SIZE, _ => Disconnected), 0, 0, WriterIdle, ReaderIdle, [], []);
    s := State(vq, pq, false, false, Idle, NoThread, 0, 0, [], false);
    var none: seq<Event> := [];
    assert RunOf([s], none) && [s][|none|] == s;
    assert Reachable(s);
    hide Reachable;
    s := Advance(s, ConnectCalled);
    s := Advance(s, Stops);
    s := Advance(s, Closes);
  }

  /** The worker finds no command. */
  lemma NothingToSend(s: State, n: nat) returns (s': State)
    requires Resting(s, n)
    ensures Reachable(s') && Good(s') && s'.main.Idle? && s'.run && s'.worker == Flushing(ThenLoop, 1)
    ensures Contents(s'.vq) == [] && s'.pq == s.pq && s'.pq.writer.WriterIdle?
  {
    hide Reachable, Ordered, Timed, Noticed;
    s' := Advance(s, LoopTest);
    StepRefinesQueue(s'.vq, ReaderLoads);
    s' := Advance(s', VqRead(ReaderLoads));
    s' := Advance(s', VqRead(ReaderFindsNothing));
  }

  /** The poster looks how full the ring is. */
  lemma PosterLooks(s: State) returns (s': State)
    requires Reachable(s) && Good(s) && Posts(s.worker) && s.pq.writer.WriterIdle?
    ensures Reachable(s') && Good(s') && s' == s.(pq := s'.pq)
    ensures s'.pq.writer == WriterLoaded(Posted(s.worker), |Contents(s.pq)|) && Contents(s'.pq) == Contents(s.pq)
  {
    hide Reachable, Inv, Roles, Phases, Ordered, Timed, Noticed;
    StepRefinesQueue(s.pq, WriterLoads(Posted(s.worker)));
    s' := Advance(s, PqWrite(WriterLoads(Posted(s.worker))));
  }

  /** Finding room, it stores its status and publishes it. */
  lemma PosterPosts(s: State) returns (s': State)
    requires Reachable(s) && Good(s) && s.worker.Posting? && s.pq.writer.WriterLoaded?
    requires s.pq.writer.messages != QUEUE_MASK
    ensures Reachable(s') && Good(s') && s' == s.(pq := s'.pq, worker := Flushing(s.worker.after, s.worker.left))
    ensures |Contents(s'.pq)| == |Contents(s.pq)| + 1
  {
    hide Reachable, Roles, Phases, Ordered, Timed, Noticed;
    StepRefinesQueue(s.pq, WriterStores);
    s' := Advance(s, PqWrite(WriterStores));
    StepRefinesQueue(s'.pq, WriterPublishes);
    s' := Advance(s', PqWrite(WriterPublishes));
  }

  /** A frame arrives, and its status is posted. */
  lemma OneMoreStatus(s: State, n: nat) returns (s': State)
    requires Resting(s, n) && n < QUEUE_MASK
    ensures Resting(s', n + 1)
  {
    hide Reachable, Inv, Roles, Phases, Ordered, Timed, Noticed;
    s' := NothingToSend(s, n);
    s' := Advance(s', FrameArrives(""));
    s' := PosterLooks(s');
    s' := PosterPosts(s');
    s' := Advance(s', FlushDone);
  }

  lemma {:induction false} ManyStatuses(n: nat) returns (s: State)
    requires n <= QUEUE_MASK
    ensures Resting(s, n)
  {
    hide Resting;
    if n == 0 {
      s := FirstSession();
    } else {
      s := ManyStatuses(n - 1);
      s := OneMoreStatus(s, n - 1);
    }
  }

  /** The main thread polls too seldom, 255 statuses pile up, a frame fails, and its notice is dropped. */
  lemma StrandedIsReached()
    ensures exists s: State :: Reachable(s) && Stranded(s)
  {
    hide Reachable, Inv, Roles, Phases, Ordered, Timed, Noticed, Stranded;
    var s := ManyStatuses(QUEUE_MASK);
    s := NothingToSend(s, QUEUE_MASK);
    s := Advance(s, FrameFails);
    s := PosterLooks(s);
    LostNoticeStrands(s);
    s := Advance(s, PqWrite(WriterDrops));
  }
}
