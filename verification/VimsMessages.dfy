/**
 Where the messages of the two rings come from: every command that is accepted is the one the user
 gave, every reply a status that arrived or the disconnect notice; and no message the user gives or
 the server sends gets lost other than in a full ring.
 */
module VimsMessages {
  import opened MessageRing
  import opened VimsProtocol

  // ------------------------------------------------------------ commands

  /** The end of the main thread's call of queue_write. */
  predicate EndsAccepting(e: Event) {
    e == VqWrite(WriterPublishes) || e == VqWrite(WriterDrops)
  }

  /** Step `i` is the user's command `m` on a connected object, and up to moment `n` no other is begun or ended. */
  ghost predicate SaidAt(states: seq<State>, events: seq<Event>, i: nat, n: nat, m: Command) {
    && i < n < |states| == |events| + 1 && events[i] == Says(m) && states[i].connected
    && forall j :: i < j < n ==> !events[j].Says? && !EndsAccepting(events[j])
  }

  lemma AcceptingIsSaid(s: State, e: Event)
    requires Can(s, e) && After(s, e).main.Accepting?
    ensures var m := After(s, e).main.command;
            if e.Says? then e == Says(m) && s.connected else s.main == Accepting(m) && !EndsAccepting(e)
  {
  }

  lemma {:induction false} SayHappened(states: seq<State>, events: seq<Event>, n: nat) returns (i: nat)
    requires RunOf(states, events) && n < |states| && states[n].main.Accepting?
    ensures SaidAt(states, events, i, n, states[n].main.command)
  {
    hide Can, After;
    AcceptingIsSaid(states[n - 1], events[n - 1]);
    if events[n - 1].Says? {
      i := n - 1;
    } else {
      i := SayHappened(states, events, n - 1);
    }
  }

  /** What the ring of commands accepts, and what it drops, is what the user said, as it was said. */
  lemma AcceptedIsSaid(states: seq<State>, events: seq<Event>, n: nat) returns (i: nat)
    requires RunOf(states, events) && n < |events| && EndsAccepting(events[n])
    ensures Good(states[n]) && states[n].main.Accepting?
    ensures var m := states[n].main.command;
            && SaidAt(states, events, i, n, m)
            && (if events[n] == VqWrite(WriterPublishes) then
                  states[n].vq.writer == WriterStored(m)
                  && states[n + 1].vq.accepted == states[n].vq.accepted + [m]
                else
                  states[n].vq.writer == WriterLoaded(m, 255) && states[n + 1].vq.accepted == states[n].vq.accepted)
  {
    RunIsGood(states, events, n);
    i := SayHappened(states, events, n);
  }

  /** A command given to a connected object is being accepted; to any other, it is ignored. */
  lemma SayingBegins(s: State, m: Command)
    requires Good(s) && Can(s, Says(m))
    ensures After(s, Says(m)) == if s.connected then s.(main := Accepting(m)) else s
  {
  }

  /** And the main thread leaves that only by publishing the command or, the ring being full, dropping it. */
  lemma AcceptingEnds(s: State, e: Event)
    requires Good(s) && s.main.Accepting? && Can(s, e)
    ensures Good(After(s, e))
    ensures var m, s' := s.main.command, After(s, e);
            if e == VqWrite(WriterPublishes) then s'.main.Idle? && Contents(s'.vq)[|Contents(s'.vq)| - 1..] == [m]
            else if e == VqWrite(WriterDrops) then s'.main.Idle? && s.vq.writer == WriterLoaded(m, 255)
            else s'.main == Accepting(m) && s'.vq.accepted == s.vq.accepted
  {
    StepKeepsGood(s, e);
    if e == VqWrite(WriterPublishes) {
      WriterMoves(s.vq, WriterPublishes, s.main.command);
    }
  }

  // ------------------------------------------------------------ replies

  predicate EndsPosting(e: Event) {
    e == PqWrite(WriterPublishes) || e == PqWrite(WriterDrops)
  }

  /** A step that makes the worker post something. */
  predicate BeginsPosting(e: Event) {
    e.FrameArrives? || e.FrameFails? || e == Sends(false)
  }

  /** Step `i` is why the worker posts `m`: a status that arrived, or else a failure. */
  ghost predicate CausedAt(events: seq<Event>, i: nat, n: nat, m: Reply) {
    && i < n <= |events| && BeginsPosting(events[i])
    && m == (if events[i].FrameArrives? then Status(events[i].text) else Disconnected)
    && forall j :: i < j < n ==> !BeginsPosting(events[j]) && !EndsPosting(events[j])
  }

  lemma PostingIsCaused(s: State, e: Event)
    requires Can(s, e) && Posts(After(s, e).worker)
    ensures var m := Posted(After(s, e).worker);
            if BeginsPosting(e) then m == (if e.FrameArrives? then Status(e.text) else Disconnected)
            else Posts(s.worker) && Posted(s.worker) == m && !EndsPosting(e)
  {
  }

  lemma {:induction false} CauseHappened(states: seq<State>, events: seq<Event>, n: nat) returns (i: nat)
    requires RunOf(states, events) && n < |states| && Posts(states[n].worker)
    ensures CausedAt(events, i, n, Posted(states[n].worker))
  {
    hide Can, After, Posted, Posts;
    NoThreadPosts(states[0].worker);
    PostingIsCaused(states[n - 1], events[n - 1]);
    if BeginsPosting(events[n - 1]) {
      i := n - 1;
    } else {
      i := CauseHappened(states, events, n - 1);
    }
  }

  lemma NoThreadPosts(w: Worker)
    ensures w.NoThread? ==> !Posts(w)
  {
  }

  /** What the ring of replies accepts, and what it drops, is a status that arrived, or the notice of a failure. */
  lemma AcceptedIsCaused(states: seq<State>, events: seq<Event>, n: nat) returns (i: nat)
    requires RunOf(states, events) && n < |events| && EndsPosting(events[n])
    ensures Good(states[n]) && Posts(states[n].worker)
    ensures var m := Posted(states[n].worker);
            && CausedAt(events, i, n, m)
            && (if events[n] == PqWrite(WriterPublishes) then
                  states[n].pq.writer == WriterStored(m)
                  && states[n + 1].pq.accepted == states[n].pq.accepted + [m]
                else
                  states[n].pq.writer == WriterLoaded(m, 255) && states[n + 1].pq.accepted == states[n].pq.accepted)
  {
    RunIsGood(states, events, n);
    i := CauseHappened(states, events, n);
  }

  /** Every status that arrives, and every failure, is posted: the worker goes on only once that is done. */
  lemma PostingEnds(s: State, e: Event)
    requires Good(s) && Can(s, e)
    ensures var s' := After(s, e);
            && (e.FrameArrives? ==> Posts(s'.worker) && Posted(s'.worker) == Status(e.text))
            && (e.FrameFails? || e == Sends(false) ==> s'.worker.PostingNotice?)
            && (Posts(s.worker) && !EndsPosting(e) ==> s'.worker == s.worker)
            && (Posts(s.worker) && e == PqWrite(WriterPublishes) ==>
                  s'.pq.accepted == s.pq.accepted + [Posted(s.worker)])
            && (Posts(s.worker) && e == PqWrite(WriterDrops) ==> s.pq.writer == WriterLoaded(Posted(s.worker), 255))
            && (e.PqWrite? && EndsPosting(e) ==> (s'.worker.Ended? <==> s.worker.PostingNotice?))
  {
  }

  // ------------------------------------------------------------ waiting for commands

  /** Step `i` is the look at the ring of commands that found nothing, up to moment `n` the last one. */
  ghost predicate IdleSince(events: seq<Event>, i: nat, n: nat) {
    && i < n <= |events| && events[i] == VqRead(ReaderFindsNothing)
    && forall j :: i < j < n ==> !events[j].VqRead? && !events[j].LoopTest?
  }

  lemma IdleStays(s: State, e: Event)
    requires Can(s, e) && (After(s, e).worker.Flushing? || After(s, e).worker.Posting?)
    requires After(s, e).worker.after == ThenLoop
    ensures var s' := After(s, e);
            if e == VqRead(ReaderFindsNothing) then s'.worker.left == 1 && s'.frames == s.frames
            else
              && (s.worker.Flushing? || s.worker.Posting?) && s.worker.after == ThenLoop
              && s.frames + s.worker.left == s'.frames + s'.worker.left && !e.VqRead? && !e.LoopTest?
  {
  }

  lemma {:induction false} IdleHappened(states: seq<State>, events: seq<Event>, n: nat) returns (i: nat)
    requires RunOf(states, events) && n < |states|
    requires (states[n].worker.Flushing? || states[n].worker.Posting?) && states[n].worker.after == ThenLoop
    ensures IdleSince(events, i, n) && states[n].frames + states[n].worker.left == states[i].frames + 1
  {
    hide Can, After;
    IdleStays(states[n - 1], events[n - 1]);
    if events[n - 1] == VqRead(ReaderFindsNothing) {
      i := n - 1;
    } else {
      i := IdleHappened(states, events, n - 1);
    }
  }

  /** A worker that finds no command goes on after exactly one frame. */
  lemma IdleWaitsAFrame(states: seq<State>, events: seq<Event>, n: nat) returns (i: nat)
    requires RunOf(states, events) && n < |events| && events[n].FlushDone? && states[n].worker.Flushing?
    requires states[n].worker.after == ThenLoop
    ensures IdleSince(events, i, n) && FramesIn(events[i..n]) == 1 && states[n + 1].worker.AtLoop?
  {
    i := IdleHappened(states, events, n);
    FramesAreCounted(states, events, i, n);
  }

  // ------------------------------------------------------------ polls

  /** Step `i` is the look with which the poll under way at moment `n` finds nothing. */
  ghost predicate PollLook(states: seq<State>, events: seq<Event>, i: nat, n: nat) {
    && i < n < |states| == |events| + 1 && events[i] == PqRead(ReaderLoads)
    && forall j :: i <= j <= n ==> states[j].main.Ticking?
  }

  lemma LookStays(s: State, e: Event)
    requires Good(s) && Can(s, e) && After(s, e).main.Ticking? && After(s, e).pq.reader.ReaderLoaded?
    ensures if e == PqRead(ReaderLoads) then s.main.Ticking? && After(s, e).pq.reader.messages == |Contents(s.pq)|
            else s.main.Ticking? && s.pq.reader == After(s, e).pq.reader
  {
    if e.PqRead? {
      ReaderMoves(s.pq, e.p);
    }
  }

  lemma {:induction false} LookedBefore(states: seq<State>, events: seq<Event>, n: nat) returns (i: nat)
    requires RunOf(states, events) && n < |states| && states[n].main.Ticking? && states[n].pq.reader.ReaderLoaded?
    ensures PollLook(states, events, i, n) && Good(states[i])
    ensures |Contents(states[i].pq)| == states[n].pq.reader.messages
  {
    hide Can, After, Good, Contents;
    RunIsGood(states, events, n - 1);
    LookStays(states[n - 1], events[n - 1]);
    if events[n - 1] == PqRead(ReaderLoads) {
      i := n - 1;
    } else {
      i := LookedBefore(states, events, n - 1);
    }
  }

  /**
   A poll takes one reply after the other.  It ends when it looked and the ring was empty; or, for
   disconnecting first, at the notice; and not otherwise.
   */
  lemma PollEnds(states: seq<State>, events: seq<Event>, n: nat)
    requires RunOf(states, events) && n < |events| && states[n].main.Ticking?
    ensures Good(states[n])
    ensures if events[n] == PqRead(ReaderFindsNothing) then
              && states[n + 1].main.Idle?
              && exists i: nat :: PollLook(states, events, i, n) && Good(states[i]) && Contents(states[i].pq) == []
            else if events[n] == PqRead(ReaderAdvances) then
              && Contents(states[n].pq) != [] && Contents(states[n + 1].pq) == Contents(states[n].pq)[1..]
              && states[n + 1].main == if Contents(states[n].pq)[0].Disconnected? then Stopping(ThenTick) else Ticking
            else states[n + 1].main.Ticking?
  {
    RunIsGood(states, events, n);
    if events[n].PqRead? {
      ReaderMoves(states[n].pq, events[n].p);
      if events[n].p.ReaderFindsNothing? {
        var i := LookedBefore(states, events, n);
      }
    }
  }
}
