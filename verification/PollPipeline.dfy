/**
 One round of the polling watcher from end to end: the source is walked and
 scanned, the tables are reconciled, the emitted events are queued, and workers
 process them in any order.
 */
module PollPipeline {
  import opened Wrappers
  import opened FileTree
  import opened Transfer
  import opened Events
  import opened Engine
  import opened EngineRuns
  import opened Mirroring
  import opened Counters
  import Snapshot

  /** What `syseba_fs_stat` reports; the time of a directory is not used. */
  function StatOf(n: Node): Meta {
    if n == Dir then Meta(0, 0, true) else Meta(|n.content|, n.mtime, false)
  }

  function Listed(source: Tree, walk: seq<Path>): Snapshot.Listing
    requires forall q :: q in walk ==> q in source
  {
    seq(|walk|, i requires 0 <= i < |walk| => (walk[i], StatOf(source[walk[i]])))
  }

  lemma {:induction false} ScanValue(listing: Snapshot.Listing, i: nat)
    requires Snapshot.OnceEach(listing) && i < |listing|
    ensures listing[i].0 in Snapshot.ScanOf(listing) && Snapshot.ScanOf(listing)[listing[i].0] == listing[i].1
  {
    var n := |listing| - 1;
    if i < n {
      ScanValue(listing[..n], i);
      assert listing[i].0 != listing[n].0;
    }
  }

  /** The table built from a walk describes the source. */
  lemma WalkGivesScan(source: Tree, walk: seq<Path>)
    requires Rooted(source) && IsListing(source, [], walk) && forall q :: q in walk ==> q in source
    ensures Snapshot.OnceEach(Listed(source, walk)) && IsScan(source, Snapshot.ScanOf(Listed(source, walk)))
  {
    var listing := Listed(source, walk);
    var scan := Snapshot.ScanOf(listing);
    forall i, j | 0 <= i < j < |listing|
      ensures listing[i].0 != listing[j].0
    {
      assert !(walk[j] <= walk[i]);
    }
    forall p
      ensures p in scan <==> p in source && p != []
      ensures p in scan ==> scan[p] == StatOf(source[p])
    {
      Snapshot.ScanKeys(listing, p);
      assert p in walk <==> Below(source, [], p);
      if p in scan {
        var i :| 0 <= i < |listing| && listing[i].0 == p;
        ScanValue(listing, i);
        assert walk[i] in walk;
      }
      if p in walk {
        var i :| 0 <= i < |walk| && walk[i] == p;
        assert listing[i].0 == p;
      }
    }
  }

  /** Whatever the order in which the emitted events are processed, they are the events of the round. */
  lemma EmittedAreTheRound(source: Tree, previous: Scan, current: Scan, events: seq<Event>, records: seq<Record>)
    requires Snapshot.ExactDiff(previous, current, events)
    requires multiset(EventsOf(records)) == multiset(events)
    requires forall r :: r in records ==> r.source == source
    ensures RoundEvents(source, previous, current, records)
  {
    var done := EventsOf(records);
    forall r | r in records
      ensures InDiff(previous, current, r.event)
    {
      var i :| 0 <= i < |records| && records[i] == r;
      assert done[i] == r.event && r.event in multiset(done);
      assert multiset(events)[r.event] > 0;
    }
    forall e | InDiff(previous, current, e)
      ensures Happened(records, e)
    {
      assert multiset(events)[e] == 1;
      assert e in multiset(done);
      var i :| 0 <= i < |done| && done[i] == e;
      assert records[i] in records;
    }
  }

  /** From walk to mirror: a round that starts with backup mirroring the previous scan, and whose events
      are all processed without trouble, ends with backup mirroring the source as it was walked. */
  lemma PollRoundMirrors(source: Tree, walk: seq<Path>, previous: Scan, events: seq<Event>,
                         t: Trees, records: seq<Record>, u: Trees)
    requires WellFormed(source) && Rooted(source) && PlainTree(source)
    requires IsListing(source, [], walk) && forall q :: q in walk ==> q in source
    requires Sound(t) && PlainTree(t.backup) && IsScan(t.backup, previous)
    requires KindStable(previous, Snapshot.ScanOf(Listed(source, walk)))
    requires Snapshot.ExactDiff(previous, Snapshot.ScanOf(Listed(source, walk)), events)
    requires Run(t, records, u) && multiset(EventsOf(records)) == multiset(events)
    requires forall r :: r in records ==> r.source == source && Untroubled(r)
    ensures IsScan(u.backup, Snapshot.ScanOf(Listed(source, walk)))
    ensures forall q :: q in u.backup <==> q in source
    ensures forall q :: q in source ==> Signature(u.backup[q]) == Signature(source[q])
  {
    var current := Snapshot.ScanOf(Listed(source, walk));
    WalkGivesScan(source, walk);
    EmittedAreTheRound(source, previous, current, events, records);
    RoundMirrors(source, previous, current, t, records, u);
    RunSound(t, records, u);
  }

  // ---------------------------------------------------------------------------
  // Whole runs of the poll loop
  // ---------------------------------------------------------------------------

  /** What happens between two scans: if the scan failed nothing was emitted, and else its events were processed
      over the source that was walked. */
  ghost predicate PollRound(reference: Scan, scan: Option<Snapshot.Listing>, source: Tree, walk: seq<Path>,
                            events: seq<Event>, t: Trees, records: seq<Record>, u: Trees) {
    && Run(t, records, u) && multiset(EventsOf(records)) == multiset(events)
    && (scan.Some? ==>
          && WellFormed(source) && Rooted(source) && PlainTree(source) && IsListing(source, [], walk)
          && (forall q :: q in walk ==> q in source) && scan.value == Listed(source, walk)
          && KindStable(reference, Snapshot.ScanOf(scan.value))
          && forall r :: r in records ==> r.source == source && Untroubled(r))
  }

  lemma NothingEmitted(t: Trees, records: seq<Record>, u: Trees)
    requires Run(t, records, u) && multiset(EventsOf(records)) == multiset([])
    ensures u == t
  {
    assert |EventsOf(records)| == |multiset(EventsOf(records))| == 0;
  }

  /** Over every run of the poll loop, with scans that fail in between: after each round backup mirrors the last
      successful scan. */
  lemma {:induction false} PollLoopMirrors(first: Snapshot.Listing, scans: seq<Option<Snapshot.Listing>>,
                                           rounds: seq<seq<Event>>, sources: seq<Tree>, walks: seq<seq<Path>>,
                                           states: seq<Trees>, records: seq<seq<Record>>, k: nat)
    requires |rounds| == |scans| == |sources| == |walks| == |records| && |states| == |scans| + 1 && k <= |scans|
    requires Snapshot.GoodRounds(first, scans, rounds)
    requires Sound(states[0]) && PlainTree(states[0].backup) && IsScan(states[0].backup, Snapshot.ScanOf(first))
    requires forall i :: 0 <= i < |scans| ==>
               PollRound(Snapshot.Reference(first, scans, i), scans[i], sources[i], walks[i], rounds[i],
                         states[i], records[i], states[i + 1])
    ensures Sound(states[k]) && PlainTree(states[k].backup)
    ensures IsScan(states[k].backup, Snapshot.Reference(first, scans, k))
  {
    if k > 0 {
      var i := k - 1;
      PollLoopMirrors(first, scans, rounds, sources, walks, states, records, i);
      Snapshot.GoodRoundAt(first, scans, rounds, i);
      assert PollRound(Snapshot.Reference(first, scans, i), scans[i], sources[i], walks[i], rounds[i],
                       states[i], records[i], states[i + 1]);
      if scans[i].None? {
        NothingEmitted(states[i], records[i], states[i + 1]);
      } else {
        PollRoundMirrors(sources[i], walks[i], Snapshot.Reference(first, scans, i), rounds[i],
                         states[i], records[i], states[i + 1]);
        RunSound(states[i], records[i], states[i + 1]);
      }
    }
  }

  // ---------------------------------------------------------------------------
  // What a round counts
  // ---------------------------------------------------------------------------

  /** The files that the events of one kind are about. */
  ghost function FilesOf(records: seq<Record>, kind: Kind): set<Path> {
    set r | r in records && r.event.kind == kind && !r.event.directory :: r.event.path
  }

  /** No two creations or modifications are about the same path. */
  ghost predicate UpsertsDiffer(records: seq<Record>) {
    forall i, j :: 0 <= i < j < |records| && records[i].event.kind != Delete && records[j].event.kind != Delete ==>
      records[i].event.path != records[j].event.path
  }

  lemma LastIsNew(records: seq<Record>)
    requires records != [] && UpsertsDiffer(records)
    ensures UpsertsDiffer(Front(records))
    ensures Last(records).event.kind != Delete ==>
              forall b :: b in Front(records) && b.event.kind != Delete ==> b.event.path != Last(records).event.path
  {
    var before, n := Front(records), |records| - 1;
    forall b | b in before && b.event.kind != Delete && Last(records).event.kind != Delete
      ensures b.event.path != Last(records).event.path
    {
      var i :| 0 <= i < |before| && before[i] == b;
      assert records[i].event.path != records[n].event.path;
    }
    forall i, j | 0 <= i < j < |before| && before[i].event.kind != Delete && before[j].event.kind != Delete
      ensures before[i].event.path != before[j].event.path
    {
      assert records[i].event.path != records[j].event.path;
    }
  }

  lemma NextOfKind(records: seq<Record>, kind: Kind)
    requires records != [] && kind != Delete
    requires Last(records).event.kind != Delete ==>
               forall b :: b in Front(records) && b.event.kind != Delete ==> b.event.path != Last(records).event.path
    ensures var r := Last(records);
            |FilesOf(records, kind)|
            == |FilesOf(Front(records), kind)| + One(r.event.kind == kind && !r.event.directory)
  {
    var before, r := Front(records), Last(records);
    LastRecord(records);
    if r.event.kind == kind && !r.event.directory {
      assert r.event.path !in FilesOf(before, kind);
      assert FilesOf(records, kind) == FilesOf(before, kind) + {r.event.path};
    } else {
      assert FilesOf(records, kind) == FilesOf(before, kind);
    }
  }

  /** When each file needs its copy and comes once, every file event copies. */
  lemma {:induction false} EachIsCopied(source: Tree, t: Trees, records: seq<Record>, u: Trees, s: Stats)
    requires WellFormed(source) && Sound(t) && Run(t, records, u) && Smooth(source, records) && AtHome(records)
    requires UpsertsDiffer(records)
    requires forall r :: r in records && r.event.kind != Delete && !r.event.directory ==>
               NeedsCopy(source, t.backup, r.event.path)
    ensures StatsRun(s, records).copied == s.copied + |FilesOf(records, Create)|
    ensures StatsRun(s, records).updated == s.updated + |FilesOf(records, Modify)|
    decreases |records|
  {
    if records == [] {
      assert FilesOf(records, Create) == {} && FilesOf(records, Modify) == {};
    } else {
      var before, r := Front(records), Last(records);
      var m :| Run(t, before, m) && StepOf(m, u, r);
      LastRecord(records);
      LastIsNew(records);
      NextOfKind(records, Create);
      NextOfKind(records, Modify);
      EachIsCopied(source, t, before, m, s);
      CopiesNow(source, t, before, m, r, u);
    }
  }

  lemma CopiesNow(source: Tree, t: Trees, before: seq<Record>, m: Trees, r: Record, u: Trees)
    requires WellFormed(source) && Sound(t) && Run(t, before, m) && Smooth(source, before) && AtHome(before)
    requires StepOf(m, u, r) && Tells(source, r) && r.effect.result == OK && At(r) == Some(r.event.path)
    requires r.event.kind != Delete ==>
               forall b :: b in before && b.event.kind != Delete ==> b.event.path != r.event.path
    requires r.event.kind != Delete && !r.event.directory ==> NeedsCopy(source, t.backup, r.event.path)
    ensures r.effect.copied <==> r.event.kind != Delete && !r.event.directory
  {
    if r.event.kind != Delete && !r.event.directory {
      RunOutcome(source, t, before, m);
      RecordsTame(source, before);
      CopyIsDecidedAtTheStart(source, t.backup, Upserts(before), Deletes(before), r.event.path);
    }
  }

  lemma UpsertsComeOnce(previous: Scan, current: Scan, events: seq<Event>, records: seq<Record>)
    requires Snapshot.ExactDiff(previous, current, events) && multiset(EventsOf(records)) == multiset(events)
    ensures UpsertsDiffer(records)
  {
    var done := EventsOf(records);
    forall i, j | 0 <= i < j < |records| && records[i].event.kind != Delete && records[j].event.kind != Delete
      ensures records[i].event.path != records[j].event.path
    {
      assert done[i] in multiset(done) && done[j] in multiset(done);
      assert multiset(events)[done[i]] > 0 && multiset(events)[done[j]] > 0;
      assert InDiff(previous, current, done[i]) && InDiff(previous, current, done[j]);
      if records[i].event.path == records[j].event.path {
        assert done[i] == done[j];
        CountTwice(done, i, j);
      }
    }
  }

  /** Files that are in one scan and not in the other, and files whose size or time differs. */
  ghost function AddedFiles(previous: Scan, current: Scan): set<Path> {
    set q | q in current && q !in previous && !current[q].directory
  }

  ghost function ChangedFiles(previous: Scan, current: Scan): set<Path> {
    set q | q in current && q in previous && !current[q].directory
            && (current[q].size != previous[q].size || current[q].mtime != previous[q].mtime)
  }

  lemma RoundNeedsCopies(source: Tree, previous: Scan, current: Scan, t: Trees, r: Record)
    requires IsScan(source, current) && IsScan(t.backup, previous) && KindStable(previous, current)
    requires InDiff(previous, current, r.event) && r.event.kind != Delete && !r.event.directory
    ensures NeedsCopy(source, t.backup, r.event.path)
  {
  }

  lemma FilesOfTheRound(source: Tree, previous: Scan, current: Scan, records: seq<Record>)
    requires RoundEvents(source, previous, current, records)
    ensures FilesOf(records, Create) == AddedFiles(previous, current)
    ensures FilesOf(records, Modify) == ChangedFiles(previous, current)
  {
    forall q | q in AddedFiles(previous, current)
      ensures q in FilesOf(records, Create)
    {
      assert Happened(records, Event(Create, q, false, false));
    }
    forall q | q in ChangedFiles(previous, current)
      ensures q in FilesOf(records, Modify)
    {
      assert Happened(records, Event(Modify, q, false, false));
    }
  }

  /** A round counts the files that were added as copied, and those that were changed as updated, in every order. */
  lemma RoundCounts(source: Tree, previous: Scan, current: Scan, events: seq<Event>,
                    t: Trees, records: seq<Record>, u: Trees, s: Stats)
    requires WellFormed(source) && PlainTree(source) && Sound(t) && PlainTree(t.backup)
    requires IsScan(source, current) && IsScan(t.backup, previous) && KindStable(previous, current)
    requires Snapshot.ExactDiff(previous, current, events)
    requires Run(t, records, u) && multiset(EventsOf(records)) == multiset(events)
    requires forall r :: r in records ==> r.source == source && Untroubled(r)
    ensures StatsRun(s, records).copied == s.copied + |AddedFiles(previous, current)|
    ensures StatsRun(s, records).updated == s.updated + |ChangedFiles(previous, current)|
  {
    EmittedAreTheRound(source, previous, current, events, records);
    RoundMirrors(source, previous, current, t, records, u);
    RoundAtHome(source, previous, current, t, records, u);
    UpsertsComeOnce(previous, current, events, records);
    forall r | r in records && r.event.kind != Delete && !r.event.directory
      ensures NeedsCopy(source, t.backup, r.event.path)
    {
      RoundNeedsCopies(source, previous, current, t, r);
    }
    EachIsCopied(source, t, records, u, s);
    FilesOfTheRound(source, previous, current, records);
  }
}
