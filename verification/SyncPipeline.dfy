/** The initial synchronisation from end to end: the walk's events go through the queue, workers process them in any
    order, the program is stopped, and backup has followed the source. */
module SyncPipeline {
  import opened Wrappers
  import opened FileTree
  import opened Transfer
  import opened Events
  import opened Engine
  import opened EngineRuns
  import opened Counters
  import Shutdown

  /** The events that tickets of the queue stand for. */
  ghost function EventsFor(event: Shutdown.Ticket -> Event, tickets: seq<Shutdown.Ticket>): seq<Event> {
    seq(|tickets|, i requires 0 <= i < |tickets| => event(tickets[i]))
  }

  lemma EventsForSplit(event: Shutdown.Ticket -> Event, a: seq<Shutdown.Ticket>, x: Shutdown.Ticket,
                       b: seq<Shutdown.Ticket>)
    ensures EventsFor(event, a + [x] + b) == EventsFor(event, a) + [event(x)] + EventsFor(event, b)
    ensures EventsFor(event, a + b) == EventsFor(event, a) + EventsFor(event, b)
  {
  }

  lemma WithoutOne(rest: seq<Shutdown.Ticket>, front: seq<Shutdown.Ticket>, x: Shutdown.Ticket,
                   back: seq<Shutdown.Ticket>)
    requires multiset([x] + rest) == multiset(front + [x] + back)
    ensures multiset(rest) == multiset(front + back)
  {
    assert multiset([x] + rest) == multiset{x} + multiset(rest);
    assert multiset(front + [x] + back) == multiset(front + back) + multiset{x};
    forall y ensures multiset(rest)[y] == multiset(front + back)[y] {
      assert (multiset{x} + multiset(rest))[y] == (multiset(front + back) + multiset{x})[y];
    }
  }

  /** The same tickets in another order stand for the same events. */
  lemma {:induction false} SameTickets(event: Shutdown.Ticket -> Event, a: seq<Shutdown.Ticket>,
                                       b: seq<Shutdown.Ticket>)
    requires multiset(a) == multiset(b)
    ensures multiset(EventsFor(event, a)) == multiset(EventsFor(event, b))
    decreases |a|
  {
    if a == [] {
      assert |multiset(b)| == 0;
      assert b == [];
    } else {
      assert a[0] in multiset(b);
      var i :| 0 <= i < |b| && b[i] == a[0];
      var front, back := b[..i], b[i + 1..];
      assert a == [a[0]] + a[1..] && b == front + [a[0]] + back;
      WithoutOne(a[1..], front, a[0], back);
      SameTickets(event, a[1..], front + back);
      EventsForSplit(event, [], a[0], a[1..]);
      assert EventsFor(event, a) == [event(a[0])] + EventsFor(event, a[1..]);
      EventsForSplit(event, front, a[0], back);
    }
  }

  /** Queued, drained, converged: whenever the walk's events were all accepted, in whatever interleaving with
      the workers, and the stopping thread saw the queue empty, backup follows the image of the source and
      every file was counted. */
  lemma QueuedDrainedConverged(root: Path, source: Tree, image: Tree, listing: seq<Path>,
                               s: Shutdown.State, steps: seq<Shutdown.Step>, event: Shutdown.Ticket -> Event,
                               t: Trees, records: seq<Record>, u: Trees, stats: Stats)
    requires Rooted(source) && IsListing(source, [], listing) && forall q :: q in listing ==> q in source
    requires Shutdown.Initial(s) && Shutdown.Runs(s, steps)
    requires Shutdown.After(s, steps).phase == Shutdown.WorkersJoined(true)
    requires multiset(EventsFor(event, Shutdown.After(s, steps).accepted)) == multiset(SyncEvents(source, listing))
    requires Run(t, records, u) && EventsOf(records) == EventsFor(event, Shutdown.After(s, steps).processed)
    requires IsImage(root, source, image) && Sound(t) && [] in t.backup && NoClash(image, t.backup) && Reset(stats)
    requires forall r :: r in records ==> r.source == source && r.context.root == root && Untroubled(r)
    ensures Follows(image, t.backup, u.backup) && u.restore == t.restore
    ensures StatsRun(stats, records).initialDone == |Files(source)|
  {
    var last := Shutdown.After(s, steps);
    Shutdown.ShutdownDrains(s, steps);
    SameTickets(event, last.processed, last.accepted);
    AnyOrderOfTheWalk(source, listing, records);
    AllTell(root, source, image, t, records, u);
    InitialSyncConverges(root, source, image, t, records, u);
    DoneIsTotal(source, t, records, u, stats);
  }
}
