/** The progress counters of the initial synchronisation (`initial_total`,
    `initial_done`, `initial_copied`, `initial_skipped`) over a drained run. */
module Counters {
  import opened Wrappers
  import opened PathText
  import opened Joining
  import opened FileTree
  import opened Transfer
  import opened Events
  import opened Engine
  import opened EngineRuns

  function Files(source: Tree): set<Path> {
    set q | q in source && source[q].File?
  }

  ghost function FilesIn(source: Tree, listing: seq<Path>): set<Path> {
    set q | q in listing && q in source && source[q].File?
  }

  lemma NextFile(source: Tree, listing: seq<Path>, i: nat)
    requires WellFormed(source) && Rooted(source) && IsListing(source, [], listing) && i < |listing|
    ensures listing[i] in source && listing[i] !in FilesIn(source, listing[..i])
    ensures FilesIn(source, listing[..i + 1])
            == if source[listing[i]].File? then FilesIn(source, listing[..i]) + {listing[i]}
               else FilesIn(source, listing[..i])
  {
    ParentSeen(source, [], listing, i);
    assert listing[..i + 1] == listing[..i] + [listing[i]];
  }

  lemma AllFilesListed(source: Tree, listing: seq<Path>)
    requires Rooted(source) && IsListing(source, [], listing)
    ensures FilesIn(source, listing) == Files(source)
  {
    forall q | q in Files(source)
      ensures q in FilesIn(source, listing)
    {
      assert Below(source, [], q);
    }
  }

  /** `context.files` of the first walk, which becomes `initial_total`. */
  method CountFiles(source: Tree) returns (total: nat)
    requires WellFormed(source) && Rooted(source)
    ensures total == |Files(source)|
  {
    var listing := Walk(source, []);
    total := 0;
    assert listing[..0] == [] && FilesIn(source, []) == {};
    for i := 0 to |listing|
      invariant total == |FilesIn(source, listing[..i])|
    {
      NextFile(source, listing, i);
      if source[listing[i]].File? {
        total := total + 1;
      }
    }
    assert listing[..|listing|] == listing;
    AllFilesListed(source, listing);
  }

  ghost function StatsRun(s: Stats, records: seq<Record>): Stats
    decreases |records|
  {
    if records == [] then s
    else StatsAfter(StatsRun(s, Front(records)), Last(records).event, Last(records).effect)
  }

  // ---------------------------------------------------------------------------
  // What the four running counters mean
  // ---------------------------------------------------------------------------

  /** The trees that a run goes through. */
  ghost predicate Through(states: seq<Trees>, records: seq<Record>) {
    |states| == |records| + 1 && forall i :: 0 <= i < |records| ==> StepOf(states[i], states[i + 1], records[i])
  }

  /** Every run goes through some trees. */
  lemma {:induction false} RunGoesThrough(t: Trees, records: seq<Record>, u: Trees) returns (states: seq<Trees>)
    requires Run(t, records, u)
    ensures Through(states, records) && states[0] == t && Last(states) == u
    decreases |records|
  {
    states := [t];
    if records != [] {
      var m :| Run(t, Front(records), m) && StepOf(m, u, Last(records));
      var before := RunGoesThrough(t, Front(records), m);
      states := before + [u];
      forall i | 0 <= i < |records|
        ensures StepOf(states[i], states[i + 1], records[i])
      {
        if i < |records| - 1 {
          assert Front(records)[i] == records[i];
        }
      }
    }
  }

  /** The event put the whole file of the source where it was missing or differed in signature. */
  ghost predicate BroughtFile(t: Trees, u: Trees, r: Record) {
    && !r.event.directory && r.effect.result == OK && At(r).Some? && IsFile(r.source, r.event.path)
    && var x, file := At(r).value, r.source[r.event.path];
       (x !in t.backup || Signature(t.backup[x]) != Signature(file)) && x in u.backup && u.backup[x] == file
  }

  /** The event succeeded and what was at its place is gone from it. */
  ghost predicate TookAway(t: Trees, u: Trees, r: Record) {
    && r.event.kind == Delete && r.effect.result == OK && At(r).Some?
    && At(r).value in t.backup && At(r).value !in u.backup
  }

  /** A file event that succeeded and left backup as it was. */
  ghost predicate LeftAlone(t: Trees, u: Trees, r: Record) {
    r.event.kind != Delete && !r.event.directory && r.effect.result == OK && u.backup == t.backup
  }

  datatype Tally = Tally(created: nat, modified: nat, deleted: nat, kept: nat)

  /** How many events of each sort there were, told from the trees. */
  ghost function TallyOf(states: seq<Trees>, records: seq<Record>): Tally
    requires |states| == |records| + 1
    decreases |records|
  {
    if records == [] then Tally(0, 0, 0, 0)
    else
      var n := |records| - 1;
      var before, t, u, r := TallyOf(states[..n + 1], records[..n]), states[n], states[n + 1], records[n];
      Tally(before.created + One(r.event.kind == Create && BroughtFile(t, u, r)),
            before.modified + One(r.event.kind == Modify && BroughtFile(t, u, r)),
            before.deleted + One(TookAway(t, u, r)),
            before.kept + One(LeftAlone(t, u, r)))
  }

  /** One step: the effect that is counted is the one that the trees show. */
  lemma CountedAsSeen(t: Trees, u: Trees, r: Record)
    requires WellFormed(t.backup) && StepOf(t, u, r)
    ensures r.event.kind != Delete ==> (r.effect.copied <==> BroughtFile(t, u, r))
    ensures r.effect.copied ==> r.event.kind != Delete
    ensures r.effect.result == OK && (r.effect.dest.Some? || r.effect.beside) <==> TookAway(t, u, r)
    ensures r.effect.skipped <==> LeftAlone(t, u, r)
  {
    if At(r).Some? {
      var x := At(r).value;
      if r.event.kind == Delete {
        DeleteSeen(t, u, r, x);
      } else if !r.event.directory {
        FileSeen(r.source, t, u, r.event.path, x, r.effect);
      }
    }
  }

  lemma FileSeen(source: Tree, t: Trees, u: Trees, p: Path, x: Path, f: Effect)
    requires FileStep(source, t, u, p, x, f)
    ensures f.copied ==> IsFile(source, p) && Differs(source[p], t.backup, x)
    ensures f.copied ==> x in u.backup && u.backup[x] == source[p]
    ensures f.copied ==> u.backup != t.backup
    ensures f.result == OK ==> f.copied || f.skipped
    ensures f.skipped ==> u == t && f.result == OK && !f.copied
    ensures f.skipped && IsFile(source, p) ==> !Differs(source[p], t.backup, x)
  {
    if f.copied {
      PutAt(t.backup, x, source[p], x);
    }
  }

  lemma DeleteSeen(t: Trees, u: Trees, r: Record, x: Path)
    requires StepOf(t, u, r) && r.event.kind == Delete && At(r) == Some(x)
    ensures r.effect.result == OK && (r.effect.dest.Some? || r.effect.beside) <==> TookAway(t, u, r)
  {
  }

  /** The running counters are what the trees show: `copied` and `updated` count the CREATE and MODIFY events that
      brought a file, `deleted` those that took something away, `skipped` the file events that left backup alone. */
  lemma {:induction false} CountersTally(s: Stats, states: seq<Trees>, records: seq<Record>)
    requires Through(states, records) && WellFormed(states[0].backup)
    ensures var after, tally := StatsRun(s, records), TallyOf(states, records);
            && after.copied == s.copied + tally.created && after.updated == s.updated + tally.modified
            && after.deleted == s.deleted + tally.deleted && after.skipped == s.skipped + tally.kept
    ensures WellFormed(Last(states).backup)
    decreases |records|
  {
    if records != [] {
      var n := |records| - 1;
      ThroughFront(states, records);
      CountersTally(s, states[..n + 1], records[..n]);
      CountedAsSeen(states[n], states[n + 1], records[n]);
      TallyNext(s, states, records);
    }
  }

  lemma ThroughFront(states: seq<Trees>, records: seq<Record>)
    requires Through(states, records) && records != []
    ensures var n := |records| - 1;
            && Through(states[..n + 1], records[..n]) && StepOf(states[n], states[n + 1], records[n])
            && Last(states[..n + 1]) == states[n] && states[..n + 1][0] == states[0] && Last(states) == states[n + 1]
  {
    var n := |records| - 1;
    forall i | 0 <= i < n
      ensures StepOf(states[..n + 1][i], states[..n + 1][i + 1], records[..n][i])
    {
      assert StepOf(states[i], states[i + 1], records[i]);
    }
    assert StepOf(states[n], states[n + 1], records[n]);
  }

  /** What the last event adds, to the counters and to the tally. */
  lemma TallyNext(s: Stats, states: seq<Trees>, records: seq<Record>)
    requires |states| == |records| + 1 && records != []
    ensures var n := |records| - 1;
            var r, t, u := records[n], states[n], states[n + 1];
            var a, b, x, y := StatsRun(s, records[..n]), StatsRun(s, records),
                              TallyOf(states[..n + 1], records[..n]), TallyOf(states, records);
            && b.copied == a.copied + One(r.effect.copied && r.event.kind == Create)
            && b.updated == a.updated + One(r.effect.copied && r.event.kind == Modify)
            && b.deleted == a.deleted + One(r.effect.result == OK && (r.effect.dest.Some? || r.effect.beside))
            && b.skipped == a.skipped + One(r.effect.skipped)
            && y.created == x.created + One(r.event.kind == Create && BroughtFile(t, u, r))
            && y.modified == x.modified + One(r.event.kind == Modify && BroughtFile(t, u, r))
            && y.deleted == x.deleted + One(TookAway(t, u, r)) && y.kept == x.kept + One(LeftAlone(t, u, r))
  {
    assert Front(records) == records[..|records| - 1];
  }

  /** Only events of the initial walk move the progress. */
  lemma {:induction false} WatchingIsNoProgress(s: Stats, records: seq<Record>)
    requires forall r :: r in records ==> !r.event.initial
    ensures var after := StatsRun(s, records);
            && after.initialDone == s.initialDone && after.initialCopied == s.initialCopied
            && after.initialSkipped == s.initialSkipped
    decreases |records|
  {
    if records != [] {
      LastRecord(records);
      WatchingIsNoProgress(s, Front(records));
    }
  }

  /** The counters when a synchronisation starts. */
  ghost predicate Reset(s: Stats) {
    s.initialDone == 0 && s.initialCopied == 0 && s.initialSkipped == 0
  }

  ghost function FailedCount(records: seq<Record>): nat
    decreases |records|
  {
    if records == [] then 0
    else
      var r := Last(records);
      FailedCount(Front(records)) + One(!r.event.directory && r.effect.result != OK)
  }

  ghost function FilePaths(records: seq<Record>): set<Path> {
    set r | r in records && !r.event.directory :: r.event.path
  }

  ghost predicate DistinctPaths(records: seq<Record>) {
    forall i, j :: 0 <= i < j < |records| ==> records[i].event.path != records[j].event.path
  }

  /** All events of the run come from the initial walk and have a place. */
  ghost predicate FromWalk(records: seq<Record>) {
    forall r :: r in records ==> r.event.initial && r.event.kind == Create && At(r).Some?
  }

  lemma FilePathsNext(records: seq<Record>)
    requires records != [] && DistinctPaths(records)
    ensures var p := Last(records).event.path;
            && DistinctPaths(Front(records)) && p !in FilePaths(Front(records))
            && (Last(records).event.directory ==> FilePaths(records) == FilePaths(Front(records)))
            && (!Last(records).event.directory ==> FilePaths(records) == FilePaths(Front(records)) + {p})
    ensures |FilePaths(records)| == |FilePaths(Front(records))| + One(!Last(records).event.directory)
    ensures forall r :: r in Front(records) ==> r.event.path != Last(records).event.path
  {
    LastRecord(records);
  }

  /** A file event that has a place copies, skips or fails. */
  lemma OneOfThree(t: Trees, u: Trees, r: Record)
    requires StepOf(t, u, r) && At(r).Some? && r.event.kind == Create
    ensures r.effect.result != Invalid
    ensures !r.event.directory ==> One(r.effect.copied) + One(r.effect.skipped) + One(r.effect.result != OK) == 1
    ensures !r.event.directory && r.effect.result == OK && IsFile(r.source, r.event.path) ==>
              r.effect.copied == Differs(r.source[r.event.path], t.backup, At(r).value)
  {
  }

  /** Every file is counted once, and it was copied, skipped or failed: even when
      system calls fail. */
  lemma {:induction false} ProgressAddsUp(t: Trees, records: seq<Record>, u: Trees, s: Stats)
    requires Run(t, records, u) && FromWalk(records) && DistinctPaths(records) && Reset(s)
    ensures var after := StatsRun(s, records);
            && after.initialDone == |FilePaths(records)|
            && after.initialDone == after.initialCopied + after.initialSkipped + FailedCount(records)
  {
    if records == [] {
      assert FilePaths(records) == {};
    } else {
      var before, r := Front(records), Last(records);
      var m :| Run(t, before, m) && StepOf(m, u, r);
      assert FromWalk(before);
      FilePathsNext(records);
      ProgressAddsUp(t, before, m, s);
      OneOfThree(m, u, r);
      ProgressOfOne(StatsRun(s, before), r.event, r.effect);
    }
  }

  lemma ProgressOfOne(s: Stats, e: Event, f: Effect)
    requires e.initial && f.result != Invalid
    requires !e.directory ==> One(f.copied) + One(f.skipped) + One(f.result != OK) == 1
    ensures var u := StatsAfter(s, e, f);
            && u.initialDone == s.initialDone + One(!e.directory)
            && u.initialCopied + u.initialSkipped + One(!e.directory && f.result != OK)
               == s.initialCopied + s.initialSkipped + One(!e.directory)
  {
  }

  /** Drained synchronisation: `initial_done` is `initial_total`. */
  lemma DoneIsTotal(source: Tree, t: Trees, records: seq<Record>, u: Trees, s: Stats)
    requires Rooted(source) && Run(t, records, u) && SyncRun(source, records) && Reset(s)
    requires forall r :: r in records ==> At(r).Some?
    ensures var after := StatsRun(s, records);
            && after.initialDone == |Files(source)|
            && after.initialDone == after.initialCopied + after.initialSkipped + FailedCount(records)
  {
    ProgressAddsUp(t, records, u, s);
    SyncedFiles(source, records);
  }

  lemma SyncedFiles(source: Tree, records: seq<Record>)
    requires Rooted(source) && SyncRun(source, records)
    ensures FilePaths(records) == Files(source)
  {
    forall q | q in Files(source)
      ensures q in FilePaths(records)
    {
      assert q in Paths(records);
    }
  }

  /** The files of the source whose copy is missing or differs in signature. */
  function Stale(source: Tree, backup: Tree): set<Path> {
    set q | q in source && source[q].File? && NeedsCopy(source, backup, q)
  }

  /** The event copied its file if that was stale and skipped it otherwise. */
  ghost predicate Decided(r: Record, stale: set<Path>) {
    && r.effect.result != Invalid && r.event.initial
    && (!r.event.directory ==>
          r.effect.copied == (r.event.path in stale) && r.effect.skipped == (r.event.path !in stale))
  }

  /** In a run over plain names the file events are decided by the first state of backup. */
  lemma {:induction false} AllDecided(source: Tree, t: Trees, records: seq<Record>, u: Trees)
    requires WellFormed(source) && Sound(t) && Run(t, records, u) && Smooth(source, records) && AtHome(records)
    requires FromWalk(records) && DistinctPaths(records)
    ensures forall r :: r in records ==> Decided(r, Stale(source, t.backup))
  {
    if records != [] {
      var before, r := Front(records), Last(records);
      var m :| Run(t, before, m) && StepOf(m, u, r);
      LastRecord(records);
      FilePathsNext(records);
      AllDecided(source, t, before, m);
      OneOfThree(m, u, r);
      if !r.event.directory {
        NextCopy(source, t, before, m, r.event.path);
      }
    }
  }

  /** When backup is up to date, every file event is skipped. */
  lemma {:induction false} AllSkipped(image: Tree, t: Trees, records: seq<Record>, u: Trees)
    requires WellFormed(image) && Sound(t) && Run(t, records, u) && Smooth(image, records) && FromWalk(records)
    requires forall x :: x in image ==> !NeedsCopy(image, t.backup, x)
    ensures forall r :: r in records ==> Decided(r, {})
  {
    if records != [] {
      var before, r := Front(records), Last(records);
      var m :| Run(t, before, m) && StepOf(m, u, r);
      LastRecord(records);
      AllSkipped(image, t, before, m);
      OneOfThree(m, u, r);
      if !r.event.directory {
        RunOutcome(image, t, before, m);
        RecordsTame(image, before);
        CopyIsDecidedAtTheStart(image, t.backup, Upserts(before), Deletes(before), At(r).value);
      }
    }
  }

  lemma {:induction false} CountDecided(records: seq<Record>, stale: set<Path>, s: Stats)
    requires DistinctPaths(records) && Reset(s) && forall r :: r in records ==> Decided(r, stale)
    ensures StatsRun(s, records).initialCopied == |FilePaths(records) * stale|
    ensures StatsRun(s, records).initialSkipped == |FilePaths(records) - stale|
  {
    if records == [] {
      assert FilePaths(records) == {};
    } else {
      var before, r := Front(records), Last(records);
      LastRecord(records);
      FilePathsNext(records);
      CountDecided(before, stale, s);
      DecidedOne(StatsRun(s, before), r, stale);
      if !r.event.directory {
        SplitBy(FilePaths(before), stale, r.event.path);
      }
    }
  }

  lemma DecidedOne(s: Stats, r: Record, stale: set<Path>)
    requires Decided(r, stale)
    ensures var u, file := StatsAfter(s, r.event, r.effect), !r.event.directory;
            && u.initialCopied == s.initialCopied + One(file && r.event.path in stale)
            && u.initialSkipped == s.initialSkipped + One(file && r.event.path !in stale)
  {
  }

  lemma SyncAtHome(root: Path, source: Tree, records: seq<Record>)
    requires PlainTree(source) && Canonical(root) && SyncRun(source, records)
    requires forall r :: r in records ==> r.context.root == root && r.context.fits
    ensures AtHome(records) && FromWalk(records) && DistinctPaths(records)
  {
    forall r | r in records
      ensures At(r) == Some(r.event.path)
    {
      LandsAtHome(root, r.event.path);
    }
  }

  /** In a synchronisation without faults, over plain names, exactly the stale files are
      copied and exactly the others are skipped, in whatever order they come. */
  lemma CopiesExactlyTheStale(root: Path, source: Tree, t: Trees, records: seq<Record>, u: Trees, s: Stats)
    requires WellFormed(source) && Rooted(source) && PlainTree(source) && Canonical(root)
    requires Sound(t) && [] in t.backup && NoClash(source, t.backup)
    requires Run(t, records, u) && SyncRun(source, records) && Reset(s)
    requires forall r :: r in records ==> r.context.root == root && r.context.fits && !r.context.fault
    ensures StatsRun(s, records).initialCopied == |Stale(source, t.backup)|
    ensures StatsRun(s, records).initialSkipped == |Files(source) - Stale(source, t.backup)|
  {
    PlainIsOwnImage(root, source);
    InitialSyncConverges(root, source, source, t, records, u);
    SyncAtHome(root, source, records);
    AllDecided(source, t, records, u);
    CountSync(source, records, Stale(source, t.backup), s);
  }

  lemma CountSync(source: Tree, records: seq<Record>, stale: set<Path>, s: Stats)
    requires Rooted(source) && SyncRun(source, records) && Reset(s) && stale <= Files(source)
    requires forall r :: r in records ==> Decided(r, stale)
    ensures StatsRun(s, records).initialCopied == |stale|
    ensures StatsRun(s, records).initialSkipped == |Files(source) - stale|
  {
    CountDecided(records, stale, s);
    SyncedFiles(source, records);
    assert Files(source) * stale == stale;
  }

  lemma SplitBy(all: set<Path>, stale: set<Path>, p: Path)
    requires p !in all
    ensures |(all + {p}) * stale| == |all * stale| + One(p in stale)
    ensures |(all + {p}) - stale| == |all - stale| + One(p !in stale)
  {
    if p in stale {
      assert (all + {p}) * stale == (all * stale) + {p};
      assert (all + {p}) - stale == all - stale;
    } else {
      assert (all + {p}) * stale == all * stale;
      assert (all + {p}) - stale == (all - stale) + {p};
    }
  }

  lemma NextCopy(source: Tree, t: Trees, before: seq<Record>, m: Trees, p: Path)
    requires WellFormed(source) && Sound(t) && Run(t, before, m) && Smooth(source, before) && AtHome(before)
    requires IsFile(source, p) && forall r :: r in before ==> r.event.path != p
    ensures NeedsCopy(source, m.backup, p) <==> p in Stale(source, t.backup)
  {
    RunOutcome(source, t, before, m);
    RecordsTame(source, before);
    CopyIsDecidedAtTheStart(source, t.backup, Upserts(before), Deletes(before), p);
  }

  /** After an untroubled synchronisation, a second one over the same source copies
      nothing, skips every file and leaves both trees as they are. */
  lemma SecondSyncCopiesNothing(root: Path, source: Tree, image: Tree, t: Trees, first: seq<Record>, u: Trees,
                                second: seq<Record>, v: Trees, s: Stats)
    requires Rooted(source) && IsImage(root, source, image) && Reset(s)
    requires Sound(t) && [] in t.backup && NoClash(image, t.backup)
    requires Run(t, first, u) && SyncRun(source, first)
    requires forall r :: r in first ==> r.context.root == root && Untroubled(r)
    requires Run(u, second, v) && SyncRun(source, second)
    requires forall r :: r in second ==> r.context.root == root && Untroubled(r)
    ensures v == u
    ensures StatsRun(s, second).initialCopied == 0
    ensures StatsRun(s, second).initialSkipped == |Files(source)| == StatsRun(s, second).initialDone
  {
    InitialSyncConverges(root, source, image, t, first, u);
    RunSound(t, first, u);
    FollowedIsCurrent(image, t.backup, u.backup);
    SyncOfCurrent(root, source, image, u, second, v);
    CountsOfCurrent(root, source, image, u, second, v, s);
  }

  lemma CountsOfCurrent(root: Path, source: Tree, image: Tree, u: Trees, second: seq<Record>, v: Trees, s: Stats)
    requires Rooted(source) && IsImage(root, source, image) && Reset(s)
    requires Sound(u) && [] in u.backup && NoClash(image, u.backup)
    requires forall x :: x in image ==> !NeedsCopy(image, u.backup, x)
    requires Run(u, second, v) && SyncRun(source, second)
    requires forall r :: r in second ==> r.context.root == root && Untroubled(r)
    ensures StatsRun(s, second).initialCopied == 0
    ensures StatsRun(s, second).initialSkipped == |Files(source)| == StatsRun(s, second).initialDone
  {
    AllTell(root, source, image, u, second, v);
    InitialSyncConverges(root, source, image, u, second, v);
    AllSkipped(image, u, second, v);
    CountSync(source, second, {}, s);
    DoneIsTotal(source, u, second, v, s);
    assert Files(source) - {} == Files(source);
  }

  lemma SyncOfCurrent(root: Path, source: Tree, image: Tree, u: Trees, second: seq<Record>, v: Trees)
    requires IsImage(root, source, image) && Sound(u) && [] in u.backup && NoClash(image, u.backup)
    requires forall x :: x in image ==> !NeedsCopy(image, u.backup, x)
    requires Run(u, second, v) && SyncRun(source, second)
    requires forall r :: r in second ==> r.context.root == root && Untroubled(r)
    ensures v == u
  {
    InitialSyncConverges(root, source, image, u, second, v);
    FollowsNothing(image, u.backup, v.backup);
  }

  lemma FollowedIsCurrent(image: Tree, before: Tree, after: Tree)
    requires Follows(image, before, after)
    ensures NoClash(image, after) && forall x :: x in image ==> !NeedsCopy(image, after, x)
  {
  }

  lemma FollowsNothing(image: Tree, before: Tree, after: Tree)
    requires Follows(image, before, after) && forall x :: x in image ==> !NeedsCopy(image, before, x)
    ensures after == before
  {
    forall q ensures SameAt(after, before, q) {
    }
    SameTree(after, before);
  }
}
