/**
 Producers, workers and the stopping thread around the work queue
 (src/app.c, src/queue.c, src/watcher.c).  Every step is one critical section
 or one visible action of one thread, and runs interleave steps freely.
 */
module Shutdown {
  import opened WorkQueue

  /** An accepted event object. */
  type Ticket = nat

  /** A thread that enqueues: it looks at the stop flag first and pushes later. */
  datatype Producer = Idle | Checked(event: Ticket) | Joined

  /** A worker: about to look at the list, waiting for an event inside `pop`, back from `pop` with nothing and about
      to look at `closed`, holding an event, done with an event but not yet with `task_done`, returned. */
  datatype Worker = Asking | Waiting | GotNothing | Holding(event: Ticket) | Finished(event: Ticket) | Gone

  /** How far `syseba_app_stop` is; `empty` is what wait-empty returned. */
  datatype Phase =
    | Running
    | Stopping
    | ProducersJoined
    | Waited(empty: bool)
    | Closed(empty: bool)
    | WorkersJoined(empty: bool)

  /** `accepted`, `taken` and `processed` are histories. */
  datatype State = State(queue: Queue<Ticket>, stopRequested: bool, producers: seq<Producer>, workers: seq<Worker>,
                         phase: Phase, accepted: seq<Ticket>, taken: seq<Ticket>, processed: seq<Ticket>)

  datatype Step =
    | Check(p: nat, event: Ticket)
    | Push(p: nat)
    | Exit(p: nat)
    | Take(w: nat)
    | TakeNothing(w: nat)
    | Wait(w: nat)
    | Wake(w: nat)
    | TimeOut(w: nat)
    | LookClosed(w: nat)
    | Process(w: nat)
    | Done(w: nat)
    | RequestStop
    | StartStop
    | JoinProducers
    | WaitEmpty
    | Close
    | JoinWorkers

  predicate Enabled(s: State, step: Step) {
    match step
    case Check(p, _) => p < |s.producers| && s.producers[p] == Idle && !s.stopRequested
    case Push(p) => p < |s.producers| && s.producers[p].Checked?
    case Exit(p) => p < |s.producers| && s.producers[p] == Idle
    case Take(w) => w < |s.workers| && s.workers[w] == Asking && s.queue.items != []
    case TakeNothing(w) => w < |s.workers| && s.workers[w] == Asking && s.queue.items == [] && s.queue.closed
    case Wait(w) => w < |s.workers| && s.workers[w] == Asking && s.queue.items == [] && !s.queue.closed
    case Wake(w) => w < |s.workers| && s.workers[w] == Waiting
    case TimeOut(w) => w < |s.workers| && s.workers[w] == Waiting
    case LookClosed(w) => w < |s.workers| && s.workers[w] == GotNothing
    case Process(w) => w < |s.workers| && s.workers[w].Holding?
    case Done(w) => w < |s.workers| && s.workers[w].Finished?
    case RequestStop => true
    case StartStop => s.phase == Running
    case JoinProducers => s.phase == Stopping && forall p :: 0 <= p < |s.producers| ==> s.producers[p] == Joined
    case WaitEmpty => s.phase == ProducersJoined
    case Close => s.phase.Waited?
    case JoinWorkers => s.phase.Closed? && forall w :: 0 <= w < |s.workers| ==> s.workers[w] == Gone
  }

  function Next(s: State, step: Step): State
    requires Enabled(s, step)
  {
    match step
    case Check(p, e) => s.(producers := s.producers[p := Checked(e)])
    case Push(p) =>
      var e := s.producers[p].event;
      s.(producers := s.producers[p := Idle], queue := s.queue.Push(e),
         accepted := if s.queue.closed then s.accepted else s.accepted + [e])
    case Exit(p) => s.(producers := s.producers[p := Joined])
    case Take(w) =>
      var e := s.queue.items[0];
      s.(queue := s.queue.Pop(), workers := s.workers[w := Holding(e)], taken := s.taken + [e])
    case TakeNothing(w) => s.(workers := s.workers[w := GotNothing])
    case Wait(w) => s.(workers := s.workers[w := Waiting])
    case Wake(w) => s.(workers := s.workers[w := Asking])
    case TimeOut(w) => s.(workers := s.workers[w := GotNothing])
    case LookClosed(w) => s.(workers := s.workers[w := if s.queue.closed then Gone else Asking])
    case Process(w) =>
      var e := s.workers[w].event;
      s.(workers := s.workers[w := Finished(e)], processed := s.processed + [e])
    case Done(w) => s.(queue := s.queue.TaskDone(), workers := s.workers[w := Asking])
    case RequestStop => s.(stopRequested := true)
    case StartStop => s.(phase := Stopping, stopRequested := true)
    case JoinProducers => s.(phase := ProducersJoined)
    case WaitEmpty => s.(phase := Waited(s.queue.unfinished == 0))
    case Close => s.(phase := Closed(s.phase.empty), queue := s.queue.(closed := true))
    case JoinWorkers => s.(phase := WorkersJoined(s.phase.empty))
  }

  predicate Initial(s: State) {
    && s.queue == Queue([], 0, false) && s.phase == Running && !s.stopRequested
    && (forall p :: 0 <= p < |s.producers| ==> s.producers[p] == Idle)
    && (forall w :: 0 <= w < |s.workers| ==> s.workers[w] == Asking)
    && s.accepted == [] && s.taken == [] && s.processed == []
  }

  // ---------------------------------------------------------------------------
  // Counting workers
  // ---------------------------------------------------------------------------

  function BusyOf(worker: Worker): nat {
    if worker.Holding? || worker.Finished? then 1 else 0
  }

  function HeldBy(worker: Worker, e: Ticket): nat {
    if worker == Holding(e) then 1 else 0
  }

  /** Workers that took an event and have not called `task_done` for it. */
  function Busy(workers: seq<Worker>): nat {
    if workers == [] then 0 else BusyOf(workers[0]) + Busy(workers[1..])
  }

  /** How many workers have `e` in their hands. */
  function Held(workers: seq<Worker>, e: Ticket): nat {
    if workers == [] then 0 else HeldBy(workers[0], e) + Held(workers[1..], e)
  }

  lemma {:induction false} WorkerChanges(workers: seq<Worker>, w: nat, x: Worker, e: Ticket)
    requires w < |workers|
    ensures Busy(workers[w := x]) + BusyOf(workers[w]) == Busy(workers) + BusyOf(x)
    ensures Held(workers[w := x], e) + HeldBy(workers[w], e) == Held(workers, e) + HeldBy(x, e)
  {
    if w == 0 {
      assert workers[0 := x][1..] == workers[1..];
    } else {
      WorkerChanges(workers[1..], w - 1, x, e);
      assert workers[w := x][1..] == workers[1..][w - 1 := x];
    }
  }

  lemma {:induction false} NobodyBusy(workers: seq<Worker>, e: Ticket)
    requires Busy(workers) == 0
    ensures Held(workers, e) == 0
  {
    if workers != [] {
      NobodyBusy(workers[1..], e);
    }
  }

  lemma {:induction false} AllAsking(workers: seq<Worker>)
    requires forall w :: 0 <= w < |workers| ==> workers[w] == Asking
    ensures Busy(workers) == 0
  {
    if workers != [] {
      AllAsking(workers[1..]);
    }
  }

  lemma {:induction false} BusyAtLeast(workers: seq<Worker>, w: nat)
    requires w < |workers| && (workers[w].Holding? || workers[w].Finished?)
    ensures Busy(workers) >= 1
  {
    if w > 0 {
      BusyAtLeast(workers[1..], w - 1);
    }
  }

  // ---------------------------------------------------------------------------
  // What every step keeps
  // ---------------------------------------------------------------------------

  /** How often an event occurs in a history. */
  function Times(history: seq<Ticket>, e: Ticket): nat {
    multiset(history)[e]
  }

  predicate PastJoin(phase: Phase) {
    phase != Running && phase != Stopping
  }

  ghost predicate Inv(s: State) {
    // first in, first out
    && s.accepted == s.taken + s.queue.items
    // unfinished = queued + taken but not done
    && s.queue.unfinished == |s.queue.items| + Busy(s.workers)
    // what was taken is processed or in the hands of a worker
    && (forall e :: Times(s.taken, e) == Times(s.processed, e) + Held(s.workers, e))
    && (PastJoin(s.phase) ==> forall p :: 0 <= p < |s.producers| ==> s.producers[p] == Joined)
    && ((s.phase.Waited? || s.phase.Closed? || s.phase.WorkersJoined?) && s.phase.empty ==> s.queue.unfinished == 0)
    && (s.queue.closed <==> s.phase.Closed? || s.phase.WorkersJoined?)
    && (s.phase.WorkersJoined? ==> forall w :: 0 <= w < |s.workers| ==> s.workers[w] == Gone)
  }

  lemma InitialInv(s: State)
    requires Initial(s)
    ensures Inv(s)
  {
    AllAsking(s.workers);
    forall e ensures Held(s.workers, e) == 0 {
      NobodyBusy(s.workers, e);
    }
  }

  lemma TakeInv(s: State, w: nat)
    requires Inv(s) && Enabled(s, Take(w))
    ensures Inv(Next(s, Take(w)))
  {
    var e, rest := s.queue.items[0], s.queue.items[1..];
    forall x ensures Held(s.workers[w := Holding(e)], x) == Held(s.workers, x) + HeldBy(Holding(e), x) {
      WorkerChanges(s.workers, w, Holding(e), x);
    }
    WorkerChanges(s.workers, w, Holding(e), e);
    assert s.queue.items == [e] + rest;
    assert (s.taken + [e]) + rest == s.taken + ([e] + rest);
  }

  lemma ProcessInv(s: State, w: nat)
    requires Inv(s) && Enabled(s, Process(w))
    ensures Inv(Next(s, Process(w)))
  {
    var e := s.workers[w].event;
    forall x ensures Held(s.workers[w := Finished(e)], x) + HeldBy(Holding(e), x) == Held(s.workers, x) {
      WorkerChanges(s.workers, w, Finished(e), x);
    }
    WorkerChanges(s.workers, w, Finished(e), e);
  }

  lemma DoneInv(s: State, w: nat)
    requires Inv(s) && Enabled(s, Done(w))
    ensures Inv(Next(s, Done(w)))
  {
    var e := s.workers[w].event;
    forall x ensures Held(s.workers[w := Asking], x) == Held(s.workers, x) {
      WorkerChanges(s.workers, w, Asking, x);
    }
    WorkerChanges(s.workers, w, Asking, e);
    BusyAtLeast(s.workers, w);
  }

  lemma IdleInv(s: State, w: nat, x: Worker)
    requires Inv(s) && w < |s.workers| && BusyOf(s.workers[w]) == 0 && BusyOf(x) == 0 && s.workers[w] != Gone
    ensures Inv(s.(workers := s.workers[w := x]))
  {
    forall e ensures Held(s.workers[w := x], e) == Held(s.workers, e) {
      WorkerChanges(s.workers, w, x, e);
    }
    WorkerChanges(s.workers, w, x, 0);
  }

  lemma PushInv(s: State, p: nat)
    requires Inv(s) && Enabled(s, Push(p))
    ensures Inv(Next(s, Push(p)))
  {
    var e := s.producers[p].event;
    assert (s.taken + s.queue.items) + [e] == s.taken + (s.queue.items + [e]);
  }

  lemma StepInv(s: State, step: Step)
    requires Inv(s) && Enabled(s, step)
    ensures Inv(Next(s, step))
  {
    match step
    case Take(w) => TakeInv(s, w);
    case TakeNothing(w) => IdleInv(s, w, GotNothing);
    case Wait(w) => IdleInv(s, w, Waiting);
    case Wake(w) => IdleInv(s, w, Asking);
    case TimeOut(w) => IdleInv(s, w, GotNothing);
    case LookClosed(w) => IdleInv(s, w, if s.queue.closed then Gone else Asking);
    case Process(w) => ProcessInv(s, w);
    case Done(w) => DoneInv(s, w);
    case Push(p) => PushInv(s, p);
    case _ =>
  }

  /** The steps can be taken one after the other, from `s`. */
  predicate Runs(s: State, steps: seq<Step>)
    decreases |steps|
  {
    steps == [] || (Enabled(s, steps[0]) && Runs(Next(s, steps[0]), steps[1..]))
  }

  function After(s: State, steps: seq<Step>): State
    requires Runs(s, steps)
    decreases |steps|
  {
    if steps == [] then s else After(Next(s, steps[0]), steps[1..])
  }

  lemma {:induction false} RunInv(s: State, steps: seq<Step>)
    requires Inv(s) && Runs(s, steps)
    ensures Inv(After(s, steps))
    decreases |steps|
  {
    if steps != [] {
      StepInv(s, steps[0]);
      RunInv(Next(s, steps[0]), steps[1..]);
    }
  }

  // ---------------------------------------------------------------------------
  // The theorems
  // ---------------------------------------------------------------------------

  /** In every reachable state: the queue is first-in first-out, each accepted event is processed at
      most once, and `unfinished` counts the queued and the taken events that are not done. */
  lemma EveryRun(s: State, steps: seq<Step>)
    requires Initial(s) && Runs(s, steps)
    ensures var t := After(s, steps);
            && t.taken <= t.accepted && t.accepted[|t.taken|..] == t.queue.items
            && multiset(t.processed) <= multiset(t.accepted)
            && t.queue.unfinished == |t.queue.items| + Busy(t.workers)
  {
    InitialInv(s);
    RunInv(s, steps);
    var t := After(s, steps);
    assert multiset(t.accepted) == multiset(t.taken) + multiset(t.queue.items);
    forall e ensures multiset(t.processed)[e] <= multiset(t.accepted)[e] {
      assert Times(t.taken, e) == Times(t.processed, e) + Held(t.workers, e);
    }
  }

  /** The guard `unfinished > 0` in `task_done` never saves anything: it always holds. */
  lemma GuardNeverBites(s: State, steps: seq<Step>, w: nat)
    requires Initial(s) && Runs(s, steps) && Enabled(After(s, steps), Done(w))
    ensures After(s, steps).queue.unfinished > 0
  {
    InitialInv(s);
    RunInv(s, steps);
    BusyAtLeast(After(s, steps).workers, w);
  }

  lemma NothingPushed(s: State, step: Step)
    requires Inv(s) && PastJoin(s.phase) && Enabled(s, step)
    ensures Next(s, step).accepted == s.accepted && PastJoin(Next(s, step).phase)
  {
  }

  /** Once the producers are joined, nothing is accepted any more. */
  lemma {:induction false} NothingAcceptedLater(s: State, steps: seq<Step>)
    requires Inv(s) && PastJoin(s.phase) && Runs(s, steps)
    ensures After(s, steps).accepted == s.accepted && PastJoin(After(s, steps).phase)
    decreases |steps|
  {
    if steps != [] {
      StepInv(s, steps[0]);
      NothingPushed(s, steps[0]);
      NothingAcceptedLater(Next(s, steps[0]), steps[1..]);
    }
  }

  /** Shutdown drains: if wait-empty returned true, then when the workers are joined the list is
      empty and every event ever accepted was processed exactly once. */
  lemma ShutdownDrains(s: State, steps: seq<Step>)
    requires Initial(s) && Runs(s, steps)
    requires After(s, steps).phase == WorkersJoined(true)
    ensures After(s, steps).queue.items == []
    ensures multiset(After(s, steps).processed) == multiset(After(s, steps).accepted)
  {
    InitialInv(s);
    RunInv(s, steps);
    var t := After(s, steps);
    assert t.accepted == t.taken;
    forall e ensures multiset(t.processed)[e] == multiset(t.accepted)[e] {
      NobodyBusy(t.workers, e);
      assert Times(t.taken, e) == Times(t.processed, e) + Held(t.workers, e);
    }
  }

  // ---------------------------------------------------------------------------
  // What the stop flag does
  // ---------------------------------------------------------------------------

  /** Producers that looked at the stop flag and have not pushed yet. */
  function OnTheirWay(producers: seq<Producer>): nat {
    if producers == [] then 0 else (if producers[0].Checked? then 1 else 0) + OnTheirWay(producers[1..])
  }

  lemma {:induction false} ProducerChanges(producers: seq<Producer>, p: nat, x: Producer)
    requires p < |producers|
    ensures OnTheirWay(producers[p := x]) + (if producers[p].Checked? then 1 else 0)
            == OnTheirWay(producers) + if x.Checked? then 1 else 0
  {
    if p == 0 {
      assert producers[0 := x][1..] == producers[1..];
    } else {
      ProducerChanges(producers[1..], p - 1, x);
      assert producers[p := x][1..] == producers[1..][p - 1 := x];
    }
  }

  lemma StopStep(s: State, step: Step)
    requires s.stopRequested && Enabled(s, step)
    ensures Next(s, step).stopRequested
    ensures |Next(s, step).accepted| + OnTheirWay(Next(s, step).producers) <= |s.accepted| + OnTheirWay(s.producers)
  {
    match step
    case Push(p) => ProducerChanges(s.producers, p, Idle);
    case Exit(p) => ProducerChanges(s.producers, p, Joined);
    case _ =>
  }

  /** Once a stop is requested, no more events are accepted than producers had looked at the flag before. */
  lemma {:induction false} StopAdmitsNoMore(s: State, steps: seq<Step>)
    requires s.stopRequested && Runs(s, steps)
    ensures After(s, steps).stopRequested
    ensures |After(s, steps).accepted| + OnTheirWay(After(s, steps).producers) <= |s.accepted| + OnTheirWay(s.producers)
    decreases |steps|
  {
    if steps != [] {
      StopStep(s, steps[0]);
      StopAdmitsNoMore(Next(s, steps[0]), steps[1..]);
    }
  }

  /** Stopping requests a stop. */
  lemma {:induction false} StoppingRequestsStop(s: State, steps: seq<Step>)
    requires (s.phase != Running ==> s.stopRequested) && Runs(s, steps)
    ensures After(s, steps).phase != Running ==> After(s, steps).stopRequested
    decreases |steps|
  {
    if steps != [] {
      StoppingRequestsStop(Next(s, steps[0]), steps[1..]);
    }
  }

  // ---------------------------------------------------------------------------
  // What wait-empty reports
  // ---------------------------------------------------------------------------

  /** The worker took an event and still owes its `task_done`. */
  predicate Owes(worker: Worker) {
    worker.Holding? || worker.Finished?
  }

  lemma {:induction false} NobodyOwes(workers: seq<Worker>)
    requires forall w :: 0 <= w < |workers| ==> !Owes(workers[w])
    ensures Busy(workers) == 0
  {
    if workers != [] {
      NobodyOwes(workers[1..]);
    }
  }

  lemma {:induction false} HeldAtLeast(workers: seq<Worker>, w: nat)
    requires w < |workers| && workers[w].Holding?
    ensures Held(workers, workers[w].event) >= 1
  {
    if w > 0 {
      HeldAtLeast(workers[1..], w - 1);
    }
  }

  /** Wait-empty reports true if and only if every accepted event was processed and no worker owes its `task_done`. */
  lemma WaitEmptyIff(s: State, steps: seq<Step>)
    requires Initial(s) && Runs(s, steps) && Enabled(After(s, steps), WaitEmpty)
    ensures var t := After(s, steps);
            Next(t, WaitEmpty).phase == Waited(multiset(t.processed) == multiset(t.accepted)
                                               && forall w :: 0 <= w < |t.workers| ==> !t.workers[w].Finished?)
  {
    InitialInv(s);
    RunInv(s, steps);
    var t := After(s, steps);
    if t.queue.unfinished == 0 {
      NothingOpen(t);
    } else if multiset(t.processed) == multiset(t.accepted) {
      SomethingOpen(t);
    }
  }

  lemma NothingOpen(t: State)
    requires Inv(t) && t.queue.unfinished == 0
    ensures multiset(t.processed) == multiset(t.accepted) && forall w :: 0 <= w < |t.workers| ==> !Owes(t.workers[w])
  {
    assert t.accepted == t.taken;
    forall e ensures multiset(t.processed)[e] == multiset(t.accepted)[e] {
      NobodyBusy(t.workers, e);
      assert Times(t.taken, e) == Times(t.processed, e) + Held(t.workers, e);
    }
    forall w | 0 <= w < |t.workers|
      ensures !Owes(t.workers[w])
    {
      if Owes(t.workers[w]) {
        BusyAtLeast(t.workers, w);
      }
    }
  }

  /** Every accepted event was processed, is in the hands of a worker or waits. */
  lemma Balance(t: State, e: Ticket)
    requires Inv(t)
    ensures Times(t.accepted, e) == Times(t.processed, e) + Held(t.workers, e) + Times(t.queue.items, e)
  {
    assert multiset(t.accepted) == multiset(t.taken) + multiset(t.queue.items);
    assert Times(t.taken, e) == Times(t.processed, e) + Held(t.workers, e);
  }

  lemma SomethingOpen(t: State)
    requires Inv(t) && t.queue.unfinished > 0 && multiset(t.processed) == multiset(t.accepted)
    ensures exists w :: 0 <= w < |t.workers| && t.workers[w].Finished?
  {
    if t.queue.items != [] {
      assert t.queue.items[0] in multiset(t.queue.items);
      Balance(t, t.queue.items[0]);
    }
    if forall w :: 0 <= w < |t.workers| ==> !t.workers[w].Finished? {
      forall w | 0 <= w < |t.workers|
        ensures !Owes(t.workers[w])
      {
        if t.workers[w].Holding? {
          HeldAtLeast(t.workers, w);
          Balance(t, t.workers[w].event);
        }
      }
      NobodyOwes(t.workers);
    }
  }

  // ---------------------------------------------------------------------------
  // After a timeout of wait-empty
  // ---------------------------------------------------------------------------

  /** A worker that will look at the list again whatever the others do. */
  predicate Active(worker: Worker) {
    worker == Asking || worker.Holding? || worker.Finished?
  }

  ghost predicate AnyActive(workers: seq<Worker>) {
    exists w :: 0 <= w < |workers| && Active(workers[w])
  }

  /** Some waiting worker is woken before its wait times out. */
  predicate AnyWake(steps: seq<Step>) {
    exists i :: 0 <= i < |steps| && steps[i].Wake?
  }

  lemma AnyWakeNext(steps: seq<Step>)
    requires steps != []
    ensures AnyWake(steps) <==> steps[0].Wake? || AnyWake(steps[1..])
  {
    assert forall i :: 0 < i < |steps| ==> steps[i] == steps[1..][i - 1];
  }

  /** A step after the close does not fill an empty list, and keeps the workers active that are. */
  lemma ClosedStep(s: State, step: Step)
    requires Inv(s) && s.queue.closed && Enabled(s, step)
    ensures Next(s, step).queue.closed && (s.queue.items == [] ==> Next(s, step).queue.items == [])
    ensures s.queue.items != [] ==>
              (AnyActive(Next(s, step).workers) <==> AnyActive(s.workers) || step.Wake?)
  {
    if s.queue.items != [] {
      ActiveStep(s, step);
    }
  }

  lemma ActiveChange(workers: seq<Worker>, w: nat, x: Worker)
    requires w < |workers|
    ensures Active(x) ==> AnyActive(workers[w := x])
    ensures !Active(x) && !Active(workers[w]) ==> (AnyActive(workers[w := x]) <==> AnyActive(workers))
    ensures Active(workers[w]) ==> AnyActive(workers)
  {
    if Active(x) {
      assert Active(workers[w := x][w]);
    } else if !Active(workers[w]) {
      assert forall i :: 0 <= i < |workers| ==> Active(workers[i]) == Active(workers[w := x][i]);
      if AnyActive(workers) {
        var i :| 0 <= i < |workers| && Active(workers[i]);
        assert Active(workers[w := x][i]);
      }
    }
  }

  lemma ActiveStep(s: State, step: Step)
    requires Inv(s) && s.queue.closed && Enabled(s, step) && s.queue.items != []
    ensures AnyActive(Next(s, step).workers) <==> AnyActive(s.workers) || step.Wake?
  {
    match step
    case Take(w) => ActiveChange(s.workers, w, Holding(s.queue.items[0]));
    case Wake(w) => ActiveChange(s.workers, w, Asking);
    case TimeOut(w) => ActiveChange(s.workers, w, GotNothing);
    case LookClosed(w) => ActiveChange(s.workers, w, Gone);
    case Process(w) => ActiveChange(s.workers, w, Finished(s.workers[w].event));
    case Done(w) => ActiveChange(s.workers, w, Asking);
    case _ =>
  }

  /** What is left when the workers are joined, from any state after the close: nothing, if and only if the list was
      empty, or a worker was active, or one is woken in time. */
  lemma {:induction false} DrainedIff(s: State, steps: seq<Step>)
    requires Inv(s) && s.queue.closed && Runs(s, steps) && After(s, steps).phase.WorkersJoined?
    ensures After(s, steps).queue.items == [] <==> s.queue.items == [] || AnyActive(s.workers) || AnyWake(steps)
    decreases |steps|
  {
    if steps != [] {
      StepInv(s, steps[0]);
      ClosedStep(s, steps[0]);
      AnyWakeNext(steps);
      DrainedIff(Next(s, steps[0]), steps[1..]);
    }
  }

  /** Nothing is left exactly when every accepted event was processed once. */
  lemma DrainedIsProcessed(s: State)
    requires Inv(s) && s.phase.WorkersJoined?
    ensures s.queue.items == [] <==> multiset(s.processed) == multiset(s.accepted)
  {
    AllGone(s.workers);
    forall e ensures multiset(s.processed)[e] == multiset(s.taken)[e] {
      NobodyBusy(s.workers, e);
      assert Times(s.taken, e) == Times(s.processed, e) + Held(s.workers, e);
    }
    assert multiset(s.processed) == multiset(s.taken);
    assert multiset(s.accepted) == multiset(s.taken) + multiset(s.queue.items);
    assert |multiset(s.queue.items)| == |s.queue.items|;
  }

  lemma {:induction false} AllGone(workers: seq<Worker>)
    requires forall w :: 0 <= w < |workers| ==> workers[w] == Gone
    ensures Busy(workers) == 0
  {
    if workers != [] {
      AllGone(workers[1..]);
    }
  }

  /** A whole shutdown, whatever wait-empty returned: every accepted event was processed exactly once if and only if at
      some moment after the close the list was empty, or a worker was active, or a waiting one was woken afterwards. */
  lemma ShutdownDrainsIff(s: State, before: seq<Step>, after: seq<Step>)
    requires Initial(s) && Runs(s, before) && After(s, before).phase.Closed?
    requires Runs(After(s, before), after) && After(After(s, before), after).phase.WorkersJoined?
    ensures var closed, last := After(s, before), After(After(s, before), after);
            multiset(last.processed) == multiset(last.accepted)
            <==> closed.queue.items == [] || AnyActive(closed.workers) || AnyWake(after)
  {
    InitialInv(s);
    RunInv(s, before);
    RunInv(After(s, before), after);
    DrainedIff(After(s, before), after);
    DrainedIsProcessed(After(After(s, before), after));
  }

  // ---------------------------------------------------------------------------
  // The run in which every wait times out
  // ---------------------------------------------------------------------------

  lemma {:induction false} RunsOn(s: State, first: seq<Step>, second: seq<Step>)
    requires Runs(s, first) && Runs(After(s, first), second)
    ensures Runs(s, first + second) && After(s, first + second) == After(After(s, first), second)
    decreases |first|
  {
    if first == [] {
      assert first + second == second;
    } else {
      assert (first + second)[1..] == first[1..] + second;
      RunsOn(Next(s, first[0]), first[1..], second);
    }
  }

  lemma OneStep(s: State, step: Step)
    requires Enabled(s, step)
    ensures Runs(s, [step]) && After(s, [step]) == Next(s, step)
  {
    assert [step][1..] == [];
  }

  /** Nobody who is left will look at the list again. */
  ghost predicate Leaving(s: State) {
    s.queue.closed && s.phase.Closed? && forall w :: 0 <= w < |s.workers| ==> !Active(s.workers[w])
  }

  /** One worker times out, if it waits, and leaves. */
  lemma Leave(s: State, k: nat) returns (steps: seq<Step>)
    requires Leaving(s) && k < |s.workers|
    ensures Runs(s, steps) && !AnyWake(steps)
    ensures After(s, steps) == s.(workers := s.workers[k := Gone])
  {
    var t := s;
    steps := [];
    if s.workers[k] == Waiting {
      OneStep(s, TimeOut(k));
      steps := [TimeOut(k)];
      t := Next(s, TimeOut(k));
    }
    if t.workers[k] == GotNothing {
      OneStep(t, LookClosed(k));
      RunsOn(s, steps, [LookClosed(k)]);
      steps := steps + [LookClosed(k)];
      assert t.workers[k := Gone] == s.workers[k := Gone];
    } else {
      assert s.workers[k := Gone] == s.workers;
    }
  }

  lemma {:induction false} LeaveOneByOne(s: State, k: nat) returns (steps: seq<Step>)
    requires Leaving(s) && k <= |s.workers| && forall w :: 0 <= w < k ==> s.workers[w] == Gone
    ensures Runs(s, steps) && !AnyWake(steps) && After(s, steps).phase.WorkersJoined?
    decreases |s.workers| - k
  {
    if k == |s.workers| {
      steps := [JoinWorkers];
      OneStep(s, JoinWorkers);
    } else {
      var first := Leave(s, k);
      var rest := LeaveOneByOne(After(s, first), k + 1);
      RunsOn(s, first, rest);
      steps := first + rest;
    }
  }

  /** Whether the list is drained is settled at the close, if and only if it is empty or a worker is active then: in
      that case every run drains it, and otherwise some run leaves events behind. */
  lemma DrainsForCertainIff(s: State)
    requires Inv(s) && s.phase.Closed?
    ensures (forall steps | Runs(s, steps) && After(s, steps).phase.WorkersJoined? :: After(s, steps).queue.items == [])
            <==> s.queue.items == [] || AnyActive(s.workers)
  {
    forall steps | Runs(s, steps) && After(s, steps).phase.WorkersJoined?
      ensures s.queue.items == [] || AnyActive(s.workers) ==> After(s, steps).queue.items == []
    {
      DrainedIff(s, steps);
    }
    if !(s.queue.items == [] || AnyActive(s.workers)) {
      var steps := LeaveOneByOne(s, 0);
      DrainedIff(s, steps);
      assert After(s, steps).queue.items != [];
    }
  }

  /** Without wait-empty returning true events can be left behind: the only worker waits, its wait times out, the event
      comes before it looks at `closed`, and the wait of the stopping thread times out. */
  lemma TimeoutCanLeaveEvents() returns (s: State, steps: seq<Step>)
    ensures Initial(s) && Runs(s, steps)
    ensures After(s, steps).phase == WorkersJoined(false)
    ensures After(s, steps).queue.items == [7] && After(s, steps).processed == []
  {
    s := State(Queue([], 0, false), false, [Idle], [Asking], Running, [], [], []);
    var t := s.(workers := [GotNothing], queue := Queue([7], 1, false), accepted := [7]);
    var u := t.(phase := ProducersJoined, stopRequested := true, producers := [Joined]);
    var v := u.(phase := Closed(false), queue := u.queue.(closed := true));
    PushSteps(s, t);
    JoinSteps(t, u);
    CloseSteps(u, v);
    LeaveSteps(v);
    RunsOn(s, [Wait(0), TimeOut(0), Check(0, 7), Push(0)], [StartStop, Exit(0), JoinProducers]);
    var first := [Wait(0), TimeOut(0), Check(0, 7), Push(0)] + [StartStop, Exit(0), JoinProducers];
    RunsOn(s, first, [WaitEmpty, Close]);
    RunsOn(s, first + [WaitEmpty, Close], [LookClosed(0), JoinWorkers]);
    steps := first + [WaitEmpty, Close] + [LookClosed(0), JoinWorkers];
  }

  lemma LeaveSteps(s: State)
    requires s.phase == Closed(false) && s.queue.closed && s.workers == [GotNothing]
    ensures Runs(s, [LookClosed(0), JoinWorkers])
    ensures After(s, [LookClosed(0), JoinWorkers]) == s.(phase := WorkersJoined(false), workers := [Gone])
  {
    var t := Next(s, LookClosed(0));
    assert t.workers == [Gone];
    OneStep(s, LookClosed(0));
    OneStep(t, JoinWorkers);
    RunsOn(s, [LookClosed(0)], [JoinWorkers]);
    assert [LookClosed(0)] + [JoinWorkers] == [LookClosed(0), JoinWorkers];
  }

  lemma CloseSteps(s: State, t: State)
    requires s.phase == ProducersJoined && s.queue.unfinished > 0
    requires t == s.(phase := Closed(false), queue := s.queue.(closed := true))
    ensures Runs(s, [WaitEmpty, Close]) && After(s, [WaitEmpty, Close]) == t
  {
    OneStep(s, WaitEmpty);
    OneStep(Next(s, WaitEmpty), Close);
    RunsOn(s, [WaitEmpty], [Close]);
    assert [WaitEmpty] + [Close] == [WaitEmpty, Close];
  }

  lemma JoinSteps(s: State, t: State)
    requires s.phase == Running && s.producers == [Idle]
    requires t == s.(phase := ProducersJoined, stopRequested := true, producers := [Joined])
    ensures Runs(s, [StartStop, Exit(0), JoinProducers]) && After(s, [StartStop, Exit(0), JoinProducers]) == t
  {
    var a := Next(s, StartStop);
    var b := Next(a, Exit(0));
    assert b.producers == [Joined];
    OneStep(s, StartStop);
    OneStep(a, Exit(0));
    OneStep(b, JoinProducers);
    RunsOn(s, [StartStop], [Exit(0)]);
    RunsOn(s, [StartStop] + [Exit(0)], [JoinProducers]);
    assert [StartStop] + [Exit(0)] + [JoinProducers] == [StartStop, Exit(0), JoinProducers];
  }

  lemma PushSteps(s: State, t: State)
    requires s.producers == [Idle] && s.workers == [Asking] && !s.stopRequested
    requires s.queue == Queue([], 0, false) && s.accepted == []
    requires t == s.(workers := [GotNothing], queue := Queue([7], 1, false), accepted := [7])
    ensures Runs(s, [Wait(0), TimeOut(0), Check(0, 7), Push(0)])
    ensures After(s, [Wait(0), TimeOut(0), Check(0, 7), Push(0)]) == t
  {
    var a := Next(s, Wait(0));
    var b := Next(a, TimeOut(0));
    var c := Next(b, Check(0, 7));
    assert b.workers == [GotNothing] && c.producers == [Checked(7)];
    assert Next(c, Push(0)) == t by {
      assert c.producers[0 := Idle] == [Idle];
    }
    OneStep(s, Wait(0));
    OneStep(a, TimeOut(0));
    OneStep(b, Check(0, 7));
    OneStep(c, Push(0));
    RunsOn(s, [Wait(0)], [TimeOut(0)]);
    RunsOn(s, [Wait(0)] + [TimeOut(0)], [Check(0, 7)]);
    RunsOn(s, [Wait(0)] + [TimeOut(0)] + [Check(0, 7)], [Push(0)]);
    assert [Wait(0)] + [TimeOut(0)] + [Check(0, 7)] + [Push(0)] == [Wait(0), TimeOut(0), Check(0, 7), Push(0)];
  }

  // ---------------------------------------------------------------------------
  // A shutdown that drains
  // ---------------------------------------------------------------------------

  lemma TwoRuns(s: State, first: seq<Step>, m: State, second: seq<Step>, t: State)
    requires Runs(s, first) && After(s, first) == m && Runs(m, second) && After(m, second) == t
    ensures Runs(s, first + second) && After(s, first + second) == t
  {
    RunsOn(s, first, second);
  }

  lemma StepThen(s: State, step: Step, rest: seq<Step>, t: State)
    requires Enabled(s, step) && Runs(Next(s, step), rest) && After(Next(s, step), rest) == t
    ensures Runs(s, [step] + rest) && After(s, [step] + rest) == t
  {
    OneStep(s, step);
    RunsOn(s, [step], rest);
  }

  /** One event goes through producer and worker 0. */
  function Served(s: State, e: Ticket): State {
    s.(accepted := s.accepted + [e], taken := s.taken + [e], processed := s.processed + [e])
  }

  predicate Open(s: State) {
    && s.queue == Queue([], 0, false) && !s.stopRequested && s.phase == Running
    && 0 < |s.producers| && s.producers[0] == Idle && 0 < |s.workers| && s.workers[0] == Asking
  }

  lemma ServeOne(s: State, e: Ticket) returns (steps: seq<Step>)
    requires Open(s)
    ensures Runs(s, steps) && After(s, steps) == Served(s, e)
  {
    var s1 := Next(s, Check(0, e));
    var s2 := Next(s1, Push(0));
    assert s2.producers == s.producers && s2.queue == Queue([e], 1, false);
    var s3 := Next(s2, Take(0));
    assert s3.queue == Queue([], 1, false);
    var s4 := Next(s3, Process(0));
    var s5 := Next(s4, Done(0));
    assert s5.workers == s.workers && s5.queue == s.queue;
    assert s5 == Served(s, e);
    OneStep(s4, Done(0));
    StepThen(s3, Process(0), [Done(0)], s5);
    StepThen(s2, Take(0), [Process(0)] + [Done(0)], s5);
    StepThen(s1, Push(0), [Take(0)] + ([Process(0)] + [Done(0)]), s5);
    steps := [Check(0, e)] + ([Push(0)] + ([Take(0)] + ([Process(0)] + [Done(0)])));
    StepThen(s, Check(0, e), [Push(0)] + ([Take(0)] + ([Process(0)] + [Done(0)])), s5);
  }

  lemma {:induction false} ServeAll(s: State, events: seq<Ticket>) returns (steps: seq<Step>)
    requires (events != [] ==> Open(s))
    ensures Runs(s, steps)
    ensures After(s, steps) == s.(accepted := s.accepted + events, taken := s.taken + events,
                                  processed := s.processed + events)
    decreases |events|
  {
    steps := [];
    if events == [] {
      assert s.accepted + events == s.accepted && s.taken + events == s.taken && s.processed + events == s.processed;
    } else {
      var first := ServeOne(s, events[0]);
      var t := Served(s, events[0]);
      var rest := ServeAll(t, events[1..]);
      TwoRuns(s, first, t, rest, After(t, rest));
      assert forall h: seq<Ticket> :: h + [events[0]] + events[1..] == h + events;
      steps := first + rest;
    }
  }

  lemma {:induction false} ExitAll(s: State, k: nat) returns (steps: seq<Step>, t: State)
    requires k <= |s.producers| && (forall p :: 0 <= p < k ==> s.producers[p] == Joined)
    requires forall p :: k <= p < |s.producers| ==> s.producers[p] == Idle
    ensures Runs(s, steps) && After(s, steps) == t && t == s.(producers := t.producers)
    ensures |t.producers| == |s.producers| && forall p :: 0 <= p < |t.producers| ==> t.producers[p] == Joined
    decreases |s.producers| - k
  {
    steps, t := [], s;
    if k < |s.producers| {
      var rest;
      rest, t := ExitAll(Next(s, Exit(k)), k + 1);
      StepThen(s, Exit(k), rest, t);
      steps := [Exit(k)] + rest;
    }
  }

  lemma {:induction false} AskersLeave(s: State, k: nat) returns (steps: seq<Step>, t: State)
    requires s.queue.closed && s.queue.items == [] && s.phase.Closed? && k <= |s.workers|
    requires (forall w :: 0 <= w < k ==> s.workers[w] == Gone)
    requires forall w :: k <= w < |s.workers| ==> s.workers[w] == Asking
    ensures Runs(s, steps) && After(s, steps) == t
    ensures t.phase == WorkersJoined(s.phase.empty) && t.accepted == s.accepted
    decreases |s.workers| - k
  {
    if k == |s.workers| {
      steps, t := [JoinWorkers], Next(s, JoinWorkers);
      OneStep(s, JoinWorkers);
    } else {
      var s1 := Next(s, TakeNothing(k));
      var s2 := Next(s1, LookClosed(k));
      var rest;
      rest, t := AskersLeave(s2, k + 1);
      StepThen(s1, LookClosed(k), rest, t);
      StepThen(s, TakeNothing(k), [LookClosed(k)] + rest, t);
      steps := [TakeNothing(k)] + ([LookClosed(k)] + rest);
    }
  }

  /** The stopping thread, when everything is done already. */
  lemma StopsDrained(s: State) returns (steps: seq<Step>, t: State)
    requires s.queue == Queue([], 0, false) && s.phase == Running
    requires (forall p :: 0 <= p < |s.producers| ==> s.producers[p] == Idle)
    requires forall w :: 0 <= w < |s.workers| ==> s.workers[w] == Asking
    ensures Runs(s, steps) && After(s, steps) == t && t.phase == WorkersJoined(true) && t.accepted == s.accepted
  {
    var s1 := Next(s, StartStop);
    var exits, s2 := ExitAll(s1, 0);
    var s3 := Next(s2, JoinProducers);
    var s4 := Next(s3, WaitEmpty);
    var s5 := Next(s4, Close);
    var leaving;
    leaving, t := AskersLeave(s5, 0);
    StepThen(s4, Close, leaving, t);
    StepThen(s3, WaitEmpty, [Close] + leaving, t);
    StepThen(s2, JoinProducers, [WaitEmpty] + ([Close] + leaving), t);
    TwoRuns(s1, exits, s2, [JoinProducers] + ([WaitEmpty] + ([Close] + leaving)), t);
    steps := [StartStop] + (exits + ([JoinProducers] + ([WaitEmpty] + ([Close] + leaving))));
    StepThen(s, StartStop, exits + ([JoinProducers] + ([WaitEmpty] + ([Close] + leaving))), t);
  }

  /** For every number of producers and of workers and for all events there is a run that accepts exactly them and in
      which wait-empty reports true. */
  lemma DrainedShutdownExists(producers: nat, workers: nat, events: seq<Ticket>) returns (s: State, steps: seq<Step>)
    requires workers > 0 && (events != [] ==> producers > 0)
    ensures Initial(s) && |s.producers| == producers && |s.workers| == workers && Runs(s, steps)
    ensures After(s, steps).phase == WorkersJoined(true) && After(s, steps).accepted == events
  {
    s := State(Queue([], 0, false), false, seq(producers, _ => Idle), seq(workers, _ => Asking), Running, [], [], []);
    var serving := ServeAll(s, events);
    var m := After(s, serving);
    var stopping, t := StopsDrained(m);
    TwoRuns(s, serving, m, stopping, t);
    steps := serving + stopping;
  }
}
