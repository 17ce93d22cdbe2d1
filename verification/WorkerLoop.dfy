/** The worker loop (`syseba_worker_main`, src/app.c): taking events from the queue and processing them one after the
    other is a run of the engine, and the counters are those of the run. */
module WorkerLoop {
  import opened Wrappers
  import opened FileTree
  import opened Transfer
  import opened Events
  import opened Engine
  import opened EngineRuns
  import opened Counters
  import opened WorkQueue

  lemma RecordThen(records: seq<Record>, r: Record, s: Stats)
    ensures EventsOf(records + [r]) == EventsOf(records) + [r.event]
    ensures StatsRun(s, records + [r]) == StatsAfter(StatsRun(s, records), r.event, r.effect)
  {
    assert Front(records + [r]) == records && Last(records + [r]) == r;
  }

  /** Every event was processed over this source, at this place on the disk, and the system refused nothing unless
      it may. */
  ghost predicate AllFrom(source: Tree, root: Path, records: seq<Record>, mayFail: bool)
    decreases |records|
  {
    records == [] || (Last(records).source == source && Last(records).context.root == root
                      && (Last(records).context.fault ==> mayFail)
                      && AllFrom(source, root, Front(records), mayFail))
  }

  lemma {:induction false} AllFromEach(source: Tree, root: Path, records: seq<Record>, mayFail: bool, r: Record)
    requires AllFrom(source, root, records, mayFail) && r in records
    ensures r.source == source && r.context.root == root && (r.context.fault ==> mayFail)
  {
    LastRecord(records);
    if r != Last(records) {
      AllFromEach(source, root, Front(records), mayFail, r);
    }
  }

  /** The run so far, extended by one event. */
  method ProcessNext(app: App, e: Event, stamp: string, crossDevice: bool, mayFail: bool, named: bool,
                     ghost t: Trees, ghost s: Stats, ghost records: seq<Record>)
    returns (ghost more: seq<Record>)
    requires app.Valid()
    requires Run(t, records, app.State()) && app.stats == StatsRun(s, records)
    requires AllFrom(app.source.tree, app.source.root, records, mayFail)
    modifies app`stats, app.backup, app.restore
    ensures app.Valid() && app.source.tree == old(app.source.tree)
    ensures Run(t, more, app.State()) && app.stats == StatsRun(s, more)
    ensures |more| == |records| + 1 && EventsOf(more) == EventsOf(records) + [e]
    ensures AllFrom(app.source.tree, app.source.root, more, mayFail)
  {
    ghost var m := app.State();
    var effect, fault := app.ProcessEvent(e, stamp, crossDevice, mayFail, named);
    ghost var r := Record(app.source.tree, e, app.PathContext(stamp, fault, e.path), effect);
    RunThen(t, records, m, r, app.State());
    RecordThen(records, r, s);
    more := records + [r];
    assert Front(more) == records && Last(more) == r;
  }

  /** The events `all` were waiting; those in `records` have been taken, processed and reported as done. */
  ghost predicate Working(app: App, queue: LinkedQueue<Event>, mayFail: bool, t: Trees, s: Stats, all: seq<Event>,
                          records: seq<Record>)
    reads app, app.source, app.backup, app.restore, queue, queue.spine
  {
    && app.Valid() && queue.Valid() && EventsOf(records) + queue.Abstract().items == all
    && AllFrom(app.source.tree, app.source.root, records, mayFail) && Run(t, records, app.State())
    && app.stats == StatsRun(s, records)
  }

  /** One round of the loop: `more` is longer unless the pop gave nothing. */
  method WorkOnce(app: App, queue: LinkedQueue<Event>, mayFail: bool, mayTimeOut: bool,
                  ghost t: Trees, ghost s: Stats, ghost all: seq<Event>, ghost records: seq<Record>)
    returns (stop: bool, ghost more: seq<Record>)
    requires Working(app, queue, mayFail, t, s, all, records) && queue.unfinished >= |queue.Abstract().items|
    modifies app`stats, app.backup, app.restore, queue
    ensures Working(app, queue, mayFail, t, s, all, more) && app.source.tree == old(app.source.tree)
    ensures stop && !mayTimeOut ==> queue.Abstract().items == []
    ensures |more| == |records| + if stop then 0 else 1
    ensures old(queue.unfinished) - queue.unfinished == if stop then 0 else 1
    ensures old(|queue.Abstract().items|) - |queue.Abstract().items| == if stop then 0 else 1
  {
    more := records;
    var e := Take(queue, mayTimeOut, EventsOf(records), all);
    if e.None? {
      return true, more;
    }
    more := Serve(app, queue, e.value, mayFail, t, s, records);
    stop := false;
  }

  method Take(queue: LinkedQueue<Event>, mayTimeOut: bool, ghost done: seq<Event>, ghost all: seq<Event>)
    returns (e: Option<Event>)
    requires queue.Valid() && done + queue.Abstract().items == all
    modifies queue
    ensures queue.Valid() && queue.unfinished == old(queue.unfinished)
    ensures e.None? ==> queue.Abstract() == old(queue.Abstract())
    ensures e.None? && !mayTimeOut ==> queue.Abstract().items == []
    ensures e.Some? ==> e.value in all && (done + [e.value]) + queue.Abstract().items == all
  {
    ghost var items := queue.Abstract().items;
    var timedOut := SystemRefuses(mayTimeOut);
    e := queue.Pop(timedOut);
    if e.Some? {
      TakenFirst(done, items, e.value, queue.Abstract().items, all);
    }
  }

  /** Process an event and report it as done. */
  method Serve(app: App, queue: LinkedQueue<Event>, e: Event, mayFail: bool, ghost t: Trees, ghost s: Stats,
               ghost records: seq<Record>)
    returns (ghost more: seq<Record>)
    requires app.Valid() && queue.Valid() && queue.unfinished > 0
    requires Run(t, records, app.State()) && app.stats == StatsRun(s, records)
    requires AllFrom(app.source.tree, app.source.root, records, mayFail)
    modifies app`stats, app.backup, app.restore, queue`unfinished
    ensures app.Valid() && app.source.tree == old(app.source.tree)
    ensures Run(t, more, app.State()) && app.stats == StatsRun(s, more)
    ensures |more| == |records| + 1 && EventsOf(more) == EventsOf(records) + [e]
    ensures AllFrom(app.source.tree, app.source.root, more, mayFail)
    ensures queue.Valid() && queue.Abstract() == old(queue.Abstract()).TaskDone()
  {
    var stamp, named, crossDevice := *, *, *;
    ghost var rest := queue.Abstract();
    more := ProcessNext(app, e, stamp, crossDevice, mayFail, named, t, s, records);
    assert queue.Valid() && queue.Abstract() == rest;
    var drained := queue.TaskDone();
  }

  lemma TakenFirst(done: seq<Event>, items: seq<Event>, e: Event, rest: seq<Event>, all: seq<Event>)
    requires done + items == all && items != [] && e == items[0] && rest == items[1..]
    ensures e in all && (done + [e]) + rest == all
  {
    assert items == [e] + rest;
    assert all[|done|] == e;
  }

  /** One worker until a pop gives it nothing: it takes events from the front of the list, processes them in that order
      and reports each as done.  Time stamps and timeouts are arbitrary. */
  method Work(app: App, queue: LinkedQueue<Event>, mayFail: bool, mayTimeOut: bool) returns (ghost records: seq<Record>)
    requires app.Valid() && queue.Valid() && queue.unfinished >= |queue.Abstract().items|
    modifies app`stats, app.backup, app.restore, queue
    ensures app.Valid() && app.source.tree == old(app.source.tree) && queue.Valid()
    ensures EventsOf(records) + queue.Abstract().items == old(queue.Abstract()).items
    ensures queue.unfinished == old(queue.unfinished) - |records|
    ensures !mayTimeOut ==> queue.Abstract().items == []
    ensures AllFrom(app.source.tree, app.source.root, records, mayFail) && Run(old(app.State()), records, app.State())
    ensures app.stats == StatsRun(old(app.stats), records)
  {
    ghost var t, s, all := app.State(), app.stats, queue.Abstract().items;
    records := [];
    var stop := false;
    while !stop
      invariant Working(app, queue, mayFail, t, s, all, records) && app.source.tree == old(app.source.tree)
      invariant queue.unfinished == old(queue.unfinished) - |records| >= |queue.Abstract().items|
      invariant stop && !mayTimeOut ==> queue.Abstract().items == []
      decreases !stop, |queue.Abstract().items|
    {
      stop, records := WorkOnce(app, queue, mayFail, mayTimeOut, t, s, all, records);
    }
  }
}
