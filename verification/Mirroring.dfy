/**
 Polling refines mirroring: a round turns the difference of two scans into
 events, and processing them, in any order, makes backup mirror the new scan.
 A backup mirrors a scan when the scan describes it (`IsScan`).
 */
module Mirroring {
  import opened Wrappers
  import opened PathText
  import opened Joining
  import opened FileTree
  import opened Transfer
  import opened Events
  import opened Engine
  import opened EngineRuns

  /** The events of the run are those of the difference, each at least once. */
  ghost predicate RoundEvents(source: Tree, previous: Scan, current: Scan, records: seq<Record>) {
    && (forall r :: r in records ==> r.source == source && InDiff(previous, current, r.event))
    && (forall e :: InDiff(previous, current, e) ==> Happened(records, e))
  }

  ghost predicate Happened(records: seq<Record>, e: Event) {
    exists r :: r in records && r.event == e
  }

  /** No path kept from one scan to the next turns from file to directory or back. */
  ghost predicate KindStable(previous: Scan, current: Scan) {
    forall q :: q in previous && q in current ==> previous[q].directory == current[q].directory
  }

  /** When source and backup have plain names, the events of a round take effect at their own paths. */
  lemma RoundAtHome(source: Tree, previous: Scan, current: Scan, t: Trees, records: seq<Record>, u: Trees)
    requires PlainTree(source) && PlainTree(t.backup)
    requires IsScan(source, current) && IsScan(t.backup, previous)
    requires RoundEvents(source, previous, current, records) && Run(t, records, u)
    requires forall r :: r in records ==> Untroubled(r)
    ensures AtHome(records)
  {
    forall r | r in records
      ensures At(r) == Some(r.event.path)
    {
      EachStep(t, records, u, r);
      var m, n :| StepOf(m, n, r);
      PlainAtHome(m, n, r);
    }
  }

  lemma RoundTells(source: Tree, t: Trees, previous: Scan, current: Scan, records: seq<Record>)
    requires WellFormed(source) && WellFormed(t.backup) && AtHome(records)
    requires IsScan(source, current) && IsScan(t.backup, previous) && KindStable(previous, current)
    requires RoundEvents(source, previous, current, records)
    ensures forall r :: r in records ==> Tells(source, r)
    ensures NoClash(source, t.backup)
  {
    forall r | r in records
      ensures Tells(source, r)
    {
      assert At(r) == Some(r.event.path) && InDiff(previous, current, r.event);
    }
  }

  lemma RoundPaths(source: Tree, previous: Scan, current: Scan, records: seq<Record>, q: Path)
    requires RoundEvents(source, previous, current, records) && AtHome(records)
    ensures q in Deletes(records) <==> q in previous && q !in current
    ensures q in Upserts(records) <==>
              && q in current
              && (q !in previous || (!current[q].directory && (current[q].size != previous[q].size
                                                               || current[q].mtime != previous[q].mtime)))
  {
    forall r | r in records && At(r) == Some(q)
      ensures r.event.path == q && InDiff(previous, current, r.event)
    {
    }
    if q in previous && q !in current {
      WasProcessed(records, previous, current, Event(Delete, q, previous[q].directory, false));
    }
    if q in current && q !in previous {
      WasProcessed(records, previous, current, Event(Create, q, current[q].directory, false));
    }
    if q in current && q in previous && !current[q].directory
       && (current[q].size != previous[q].size || current[q].mtime != previous[q].mtime) {
      WasProcessed(records, previous, current, Event(Modify, q, false, false));
    }
  }

  lemma WasProcessed(records: seq<Record>, previous: Scan, current: Scan, e: Event)
    requires InDiff(previous, current, e) && Happened(records, e) && AtHome(records)
    ensures e.path in if e.kind == Delete then Deletes(records) else Upserts(records)
  {
    var r :| r in records && r.event == e;
    assert At(r) == Some(e.path);
  }

  /** What the round leaves at a path: it is there exactly when the current scan has it;
      a file that is new or changed is the source's, everything else is as it was. */
  ghost predicate RefreshedAt(source: Tree, previous: Scan, current: Scan, before: Tree, after: Tree, q: Path) {
    && (q != [] ==> (q in after <==> q in current))
    && (q in current ==>
          && q in after && q in source && after[q].Dir? == source[q].Dir?
          && if IsFile(source, q) && (q !in previous || previous[q] != current[q]) then after[q] == source[q]
             else if q in previous then q in before && after[q] == before[q]
             else after[q] == Dir)
  }

  lemma RoundAt(source: Tree, t: Trees, previous: Scan, current: Scan, records: seq<Record>, q: Path)
    requires WellFormed(source) && WellFormed(t.backup) && AtHome(records)
    requires IsScan(source, current) && IsScan(t.backup, previous) && KindStable(previous, current)
    requires RoundEvents(source, previous, current, records)
    ensures RefreshedAt(source, previous, current, t.backup,
                        Outcome(source, t.backup, Upserts(records), Deletes(records)), q)
  {
    var ups, dels := Upserts(records), Deletes(records);
    RoundTells(source, t, previous, current, records);
    RecordsTame(source, records);
    OutcomeAt(source, t.backup, ups, dels, q);
    RoundPaths(source, previous, current, records, q);
    if q in dels {
      assert Gone(dels, q);
    }
    if q in ups {
      assert Covered(ups, q);
    }
    if Covered(ups, q) {
      CoveredInSource(source, ups, dels, q);
    }
    if q in current {
      StillThere(source, ups, dels, q);
    }
  }

  lemma RefreshedMirrors(source: Tree, previous: Scan, current: Scan, before: Tree, after: Tree)
    requires WellFormed(source) && IsScan(source, current) && IsScan(before, previous)
    requires WellFormed(after) && Rooted(after)
    requires forall q :: RefreshedAt(source, previous, current, before, after, q)
    ensures IsScan(after, current)
  {
    forall q
      ensures q in current <==> q in after && q != []
      ensures q in current ==> current[q].directory == after[q].Dir?
      ensures q in current && after[q].File? ==>
                current[q].size == |after[q].content| && current[q].mtime == after[q].mtime
    {
      assert RefreshedAt(source, previous, current, before, after, q);
    }
  }

  lemma RootStays(source: Tree, t: Trees, records: seq<Record>, u: Trees)
    requires WellFormed(source) && Rooted(source) && Rooted(t.backup) && Run(t, records, u)
    requires forall r :: r in records ==> Tells(source, r)
    ensures Rooted(u.backup)
  {
    KindStaysOverRun(source, t, records, u, []);
  }

  /** One round: if backup mirrors the previous scan and the source stands at the
      current one, then the events of the round, in any order and with any number
      of workers, make backup mirror the current scan. */
  lemma RoundMirrors(source: Tree, previous: Scan, current: Scan, t: Trees, records: seq<Record>, u: Trees)
    requires WellFormed(source) && PlainTree(source) && Sound(t) && PlainTree(t.backup)
    requires IsScan(source, current) && IsScan(t.backup, previous) && KindStable(previous, current)
    requires RoundEvents(source, previous, current, records) && Run(t, records, u)
    requires forall r :: r in records ==> Untroubled(r)
    ensures Smooth(source, records)
    ensures IsScan(u.backup, current)
    ensures forall q :: RefreshedAt(source, previous, current, t.backup, u.backup, q)
  {
    RoundAtHome(source, previous, current, t, records, u);
    RoundTells(source, t, previous, current, records);
    UpsertsSucceed(source, t, records, u);
    RunOutcome(source, t, records, u);
    RunSound(t, records, u);
    RootStays(source, t, records, u);
    forall q ensures RefreshedAt(source, previous, current, t.backup, u.backup, q) {
      RoundAt(source, t, previous, current, records, q);
    }
    RefreshedMirrors(source, previous, current, t.backup, u.backup);
  }

  /** A round brings backup to the current scan exactly when the names of the source are plain and no kept path
      changed its kind: the watcher emits nothing that could turn a file into a directory or back, and the engine
      writes no other names. */
  lemma RoundMirrorsIff(source: Tree, previous: Scan, current: Scan, t: Trees, records: seq<Record>, u: Trees)
    requires WellFormed(source) && Sound(t) && PlainTree(t.backup)
    requires IsScan(source, current) && IsScan(t.backup, previous)
    requires RoundEvents(source, previous, current, records) && Run(t, records, u)
    requires forall r :: r in records ==> Untroubled(r)
    ensures IsScan(u.backup, current) <==> KindStable(previous, current) && PlainTree(source)
  {
    RunSound(t, records, u);
    if PlainTree(source) {
      if KindStable(previous, current) {
        RoundMirrors(source, previous, current, t, records, u);
      } else {
        var q :| q in previous && q in current && previous[q].directory != current[q].directory;
        RoundAtHome(source, previous, current, t, records, u);
        RoundSpares(source, previous, current, records);
        KindStaysOverRun(source, t, records, u, q);
      }
    } else {
      var q :| q in source && !Canonical(q);
      assert q != [] && q in current && q !in u.backup;
    }
  }

  lemma RoundSpares(source: Tree, previous: Scan, current: Scan, records: seq<Record>)
    requires WellFormed(source) && [] !in previous
    requires IsScan(source, current) && RoundEvents(source, previous, current, records) && AtHome(records)
    ensures forall r :: r in records ==> Spares(source, r)
  {
    forall r | r in records
      ensures Spares(source, r)
    {
      DiffSpares(source, previous, current, r);
    }
  }

  lemma DiffSpares(source: Tree, previous: Scan, current: Scan, r: Record)
    requires WellFormed(source) && IsScan(source, current) && InDiff(previous, current, r.event)
    requires At(r) == Some(r.event.path) && r.event.path != []
    ensures Spares(source, r)
  {
  }

  /** A file that became a directory since the last scan stays a file in backup. */
  lemma FlipIsMissed(source: Tree, previous: Scan, current: Scan, t: Trees, records: seq<Record>, u: Trees, x: Name)
    requires source == map[[] := Dir, [x] := Dir] && t.backup == map[[] := Dir, [x] := File([], 0)] && Sound(t)
    requires IsComponent(x)
    requires IsScan(source, current) && IsScan(t.backup, previous)
    requires RoundEvents(source, previous, current, records) && Run(t, records, u)
    requires forall r :: r in records ==> Untroubled(r)
    ensures !IsScan(u.backup, current) && [x] in u.backup && u.backup[[x]].File?
  {
    assert [x] in source && [x] in t.backup && [x] in previous && [x] in current;
    OneDirectory(x, source);
    RoundAtHome(source, previous, current, t, records, u);
    RoundSpares(source, previous, current, records);
    KindStaysOverRun(source, t, records, u, [x]);
  }

  lemma OneDirectory(x: Name, source: Tree)
    requires source == map[[] := Dir, [x] := Dir]
    ensures WellFormed(source)
  {
    assert Parent([x]) == [];
  }

  // ---------------------------------------------------------------------------
  // Whole runs of the watcher
  // ---------------------------------------------------------------------------

  /** A round of the watcher from scan `previous` to scan `current`: the source was
      scanned and stood still while the events of the difference were processed. */
  ghost predicate Round(source: Tree, previous: Scan, current: Scan, t: Trees, records: seq<Record>, u: Trees) {
    && WellFormed(source) && PlainTree(source) && IsScan(source, current) && KindStable(previous, current)
    && RoundEvents(source, previous, current, records) && Run(t, records, u)
    && forall r :: r in records ==> Untroubled(r)
  }

  /** After every round of every run of the watcher, backup mirrors the scan of that round. */
  lemma {:induction false} WatcherMirrors(sources: seq<Tree>, scans: seq<Scan>, states: seq<Trees>,
                                          rounds: seq<seq<Record>>, k: nat)
    requires |scans| == |states| == |sources| == |rounds| && k < |scans|
    requires Sound(states[0]) && PlainTree(states[0].backup) && IsScan(states[0].backup, scans[0])
    requires forall i :: 0 < i < |scans| ==>
               Round(sources[i], scans[i - 1], scans[i], states[i - 1], rounds[i], states[i])
    ensures Sound(states[k]) && PlainTree(states[k].backup) && IsScan(states[k].backup, scans[k])
  {
    if k > 0 {
      WatcherMirrors(sources, scans, states, rounds, k - 1);
      assert Round(sources[k], scans[k - 1], scans[k], states[k - 1], rounds[k], states[k]);
      RoundMirrors(sources[k], scans[k - 1], scans[k], states[k - 1], rounds[k], states[k]);
      RunSound(states[k - 1], rounds[k], states[k]);
    }
  }

  /** Between two states of the source every change of a file shows in its size or time. */
  ghost predicate ChangesShow(before: Tree, after: Tree) {
    forall q :: IsFile(before, q) && IsFile(after, q) && Signature(before[q]) == Signature(after[q]) ==>
      before[q] == after[q]
  }

  /** When changes show, a backup equal to the old source becomes equal to the new one. */
  lemma RoundCopiesExactly(before: Tree, source: Tree, previous: Scan, current: Scan,
                           t: Trees, records: seq<Record>, u: Trees)
    requires WellFormed(before) && PlainTree(before)
    requires IsScan(before, previous) && t.backup == before && Sound(t)
    requires Round(source, previous, current, t, records, u) && ChangesShow(before, source)
    ensures u.backup == source
  {
    RoundMirrors(source, previous, current, t, records, u);
    forall q ensures SameAt(u.backup, source, q) {
      assert RefreshedAt(source, previous, current, t.backup, u.backup, q);
      RefreshedIsSource(before, source, previous, current, u.backup, q);
    }
    SameTree(u.backup, source);
  }

  lemma RefreshedIsSource(before: Tree, source: Tree, previous: Scan, current: Scan, after: Tree, q: Path)
    requires IsScan(before, previous) && IsScan(source, current) && IsScan(after, current)
    requires ChangesShow(before, source) && KindStable(previous, current)
    requires RefreshedAt(source, previous, current, before, after, q)
    ensures SameAt(after, source, q)
  {
    if q in current && q in previous && previous[q] == current[q] && IsFile(source, q) {
      assert Signature(before[q]) == Signature(source[q]);
    }
  }

  /** A delete never takes away a path that is still in the source, at any point of any run and whatever fails:
      trees are closed under parents. */
  lemma NeverTakenAway(source: Tree, t: Trees, records: seq<Record>, k: nat, m: Trees, q: Path)
    requires WellFormed(source) && k <= |records| && (forall r :: r in records ==> Spares(source, r))
    requires Run(t, records[..k], m) && q in source && q in t.backup
    ensures q in m.backup
  {
    assert forall r :: r in records[..k] ==> r in records;
    KindStaysOverRun(source, t, records[..k], m, q);
  }

  // ---------------------------------------------------------------------------
  // Deletes
  // ---------------------------------------------------------------------------

  /** Exactly when a delete succeeds, the environment permitting: nothing is left to
      move, or a name is found and no ancestor of the path is a file in restore. */
  lemma DeleteSucceedsIff(t: Trees, u: Trees, r: Record, x: Path)
    requires StepOf(t, u, r) && r.event.kind == Delete && At(r) == Some(x) && x != [] && !r.context.fault
    requires PlainBelow(t.backup, x)
    ensures r.effect.result == OK <==>
              x !in t.backup || (!NoName(t.restore, x, r.context.stamp, r.context.room)
                                 && NoFileAbove(t.restore, x, |x|))
  {
    if x in t.backup && r.effect.result == OK {
      var dest := r.effect.dest.value;
      PickOrGiveUp(t.restore, x, r.context.stamp, r.context.room, dest);
      SameDirectory(t.restore, x, dest);
    }
  }

  /** A file in restore where the deleted path has an ancestor: the delete fails, and
      leaves backup as it is, whatever the environment does. */
  lemma BlockedDelete(t: Trees, u: Trees, r: Record, x: Path)
    requires Sound(t) && StepOf(t, u, r) && r.event.kind == Delete && At(r) == Some(x)
    requires x in t.backup && PlainBelow(t.backup, x) && !NoFileAbove(t.restore, x, |x|)
    ensures r.effect.result != OK && u.backup == t.backup
    ensures !NoFileAbove(u.restore, x, |x|)
  {
    var i :| 0 <= i < |x| && IsFile(t.restore, x[..i]);
    if r.effect.dest.Some? {
      var dest := r.effect.dest.value;
      SameDirectory(t.restore, x, dest);
      assert Keeps(t.restore, u.restore);
      forall q | q in t.backup
        ensures q in u.backup
      {
        if q !in u.backup {
          StuckBelowFile(u.restore, x, dest, q, i);
        }
      }
      forall q ensures SameAt(u.backup, t.backup, q) {
      }
      SameTree(u.backup, t.backup);
    }
  }

  lemma StuckBelowFile(restore: Tree, x: Path, dest: Path, q: Path, i: nat)
    requires WellFormed(restore) && x <= q && x != [] && dest != [] && Parent(dest) == Parent(x)
    requires i < |x| && IsFile(restore, x[..i])
    ensures Rebase(x, dest, q) !in restore
  {
    var y := Rebase(x, dest, q);
    if y in restore {
      assert y[..i] == Parent(dest)[..i] == Parent(x)[..i] == x[..i];
      AncestorIsDir(restore, y, i);
    }
  }

  /** Such a block exists in practice: a name that was once a deleted file is now a
      directory, and something is deleted inside it. */
  lemma DeleteCanBeStuck(t: Trees, u: Trees, r: Record)
    requires Sound(t) && StepOf(t, u, r) && r.context.fits
    requires r.event == Event(Delete, ["a", "x"], false, false)
    requires t.backup == map[[] := Dir, ["a"] := Dir, ["a", "x"] := File([], 0)]
    requires t.restore == map[[] := Dir, ["a"] := File([], 0)]
    ensures r.effect.result != OK && ["a", "x"] in u.backup
  {
    var x := ["a", "x"];
    assert x in t.backup && Canonical(x);
    LandsAtHome(r.context.root, x);
    assert x[..1] == ["a"];
    assert IsFile(t.restore, x[..1]);
    BlockedDelete(t, u, r, x);
  }

  /** The paths to delete were in backup, are not in the source, and no ancestor of
      theirs is a file in restore. */
  ghost predicate Deletable(source: Tree, backup: Tree, restore: Tree, dels: set<Path>) {
    forall p :: p in dels ==> p in backup && p !in source && NoFileAbove(restore, p, |p|)
  }

  /** The first stamped name a delete would use. */
  function Stamped(r: Record): Path
    requires r.event.path != []
  {
    Candidate(r.event.path, r.context.stamp, 0)
  }

  ghost predicate IsDelete(records: seq<Record>, r: Record) {
    r in records && r.event.kind == Delete && r.event.path != []
  }

  /** The stamped names fit and are new: nothing in backup is or lies below one, none is in restore, and
      deletes of different paths have different ones. */
  ghost predicate Nameable(t: Trees, records: seq<Record>) {
    && (forall r :: IsDelete(records, r) ==>
          && LastLength(r.event.path) < r.context.room && LastLength(Stamped(r)) < r.context.room
          && Stamped(r) !in t.restore && forall q :: q in t.backup ==> !(Stamped(r) <= q))
    && forall r, s :: IsDelete(records, r) && IsDelete(records, s) && r.event.path != s.event.path ==>
         Stamped(r) != Stamped(s)
  }

  /** What is left to delete still has its stamped name free. */
  ghost predicate StampsFree(m: Trees, records: seq<Record>) {
    forall r :: IsDelete(records, r) && r.event.path in m.backup ==> Stamped(r) !in m.restore
  }

  /** With its stamped name free, a delete finds a name: its own, or that one. */
  lemma NameFound(restore: Tree, p: Path, stamp: string, room: nat)
    requires p != [] && Candidate(p, stamp, 0) !in restore
    requires LastLength(p) < room && LastLength(Candidate(p, stamp, 0)) < room
    ensures !NoName(restore, p, stamp, room)
    ensures forall dest :: Picks(restore, p, stamp, room, dest) ==> dest == p || dest == Candidate(p, stamp, 0)
  {
    assert forall c: nat :: AllTaken(restore, p, stamp, room, c) ==> c == 0;
  }

  /** Where the entries of a deleted subtree come from: they were in backup at the start. */
  lemma DeletedWasThere(source: Tree, t: Trees, m: Trees, before: seq<Record>, p: Path, q: Path)
    requires WellFormed(source) && Tame(source, Upserts(before), Deletes(before)) && p !in source
    requires m.backup == Outcome(source, t.backup, Upserts(before), Deletes(before))
    requires p <= q && q in m.backup
    ensures q in t.backup && m.backup[q] == t.backup[q]
  {
    OutcomeAt(source, t.backup, Upserts(before), Deletes(before), q);
    if Covered(Upserts(before), q) {
      CoveredInSource(source, Upserts(before), Deletes(before), q);
    }
    if q in source && p != q {
      PrefixIsDir(source, p, q);
    }
  }

  /** The situation in which the delete `r` of a round is processed. */
  ghost predicate Deleting(source: Tree, t: Trees, m: Trees, before: seq<Record>, r: Record, u: Trees, dest: Path) {
    && WellFormed(source) && Sound(t) && Sound(m) && PlainTree(m.backup)
    && r.event.kind == Delete && At(r) == Some(r.event.path)
    && Tame(source, Upserts(before), Deletes(before))
    && m.backup == Outcome(source, t.backup, Upserts(before), Deletes(before))
    && r.event.path != [] && r.event.path in m.backup && r.event.path !in source
    && dest != [] && (dest == r.event.path || dest == Stamped(r)) && Parent(dest) == Parent(r.event.path)
    && u.backup == Without(m.backup, r.event.path)
    && u.restore == Graft(Base(m.restore, dest), m.backup, r.event.path, dest)
  }

  /** What a delete adds to restore: directories above its path, or what was in backup, moved. */
  lemma AddedToRestore(source: Tree, t: Trees, m: Trees, before: seq<Record>, r: Record, u: Trees, dest: Path, q: Path)
    requires Deleting(source, t, m, before, r, u, dest) && q in u.restore && q !in m.restore
    ensures || (q <= Parent(r.event.path) && u.restore[q] == Dir)
            || (dest <= q && var o := Rebase(dest, r.event.path, q); o in t.backup && u.restore[q] == t.backup[o])
  {
    var p := r.event.path;
    GraftAt(Base(m.restore, dest), m.backup, p, dest, q);
    WithDirsAt(m.restore, Parent(dest), |dest| - 1, q);
    if Grafted(m.backup, p, dest, q) {
      DeletedWasThere(source, t, m, before, p, Rebase(dest, p, q));
    }
  }

  /** A finished delete takes the stamped name of no other that is still to come. */
  lemma StampsStayFree(source: Tree, t: Trees, m: Trees, before: seq<Record>, r: Record, u: Trees, dest: Path,
                       records: seq<Record>, s: Record)
    requires Deleting(source, t, m, before, r, u, dest) && Nameable(t, records) && StampsFree(m, records)
    requires IsDelete(records, r) && IsDelete(records, s)
    requires s.event.path in u.backup && s.event.path in t.backup && r.event.path in t.backup
    ensures Stamped(s) !in u.restore
  {
    var c := Stamped(s);
    if c in u.restore {
      AddedToRestore(source, t, m, before, r, u, dest, c);
      StampIsElsewhere(t.backup, r.event.path, dest, c, s.event.path);
    }
  }

  /** A stamped name is neither above nor inside what another delete adds. */
  lemma StampIsElsewhere(backup: Tree, p: Path, dest: Path, c: Path, p2: Path)
    requires p in backup && p2 in backup && p != [] && p2 != [] && c != [] && Parent(c) == Parent(p2)
    requires dest == p || (dest != c && forall q :: q in backup ==> !(dest <= q))
    requires forall q :: q in backup ==> !(c <= q)
    ensures !(c <= Parent(p)) && !(dest <= c && Rebase(dest, p, c) in backup)
  {
    assert Parent(p) <= p && Parent(c) <= p2;
    assert dest <= c ==> dest == c || dest <= Parent(c);
    assert dest <= c && dest == p ==> Rebase(dest, p, c) == c;
  }

  /** What a delete moves to a place above a path that was in backup is a directory. */
  lemma MovedAboveIsDir(backup: Tree, p: Path, dest: Path, p2: Path, i: nat)
    requires WellFormed(backup) && p2 in backup && i < |p2| && dest <= p2[..i]
    requires dest == p || forall q :: q in backup ==> !(dest <= q)
    ensures dest == p && Rebase(dest, p, p2[..i]) == p2[..i]
    ensures p2[..i] in backup && backup[p2[..i]] == Dir
  {
    AncestorIsDir(backup, p2, i);
    assert dest <= p2;
  }

  /** A finished delete blocks none of the others. */
  lemma StaysDeletable(source: Tree, t: Trees, m: Trees, before: seq<Record>, r: Record, u: Trees, dest: Path,
                       records: seq<Record>, p2: Path, i: nat)
    requires Deleting(source, t, m, before, r, u, dest) && Nameable(t, records) && IsDelete(records, r)
    requires p2 in t.backup && i < |p2| && !IsFile(m.restore, p2[..i])
    requires Keeps(m.restore, u.restore)
    ensures !IsFile(u.restore, p2[..i])
  {
    var q := p2[..i];
    if q in u.restore && q !in m.restore {
      AddedToRestore(source, t, m, before, r, u, dest, q);
      if dest <= q {
        MovedAboveIsDir(t.backup, r.event.path, dest, p2, i);
      }
    }
  }

  /** One delete of a round: it succeeds, and leaves the others possible. */
  lemma NextDelete(source: Tree, t: Trees, m: Trees, before: seq<Record>, r: Record, u: Trees, records: seq<Record>,
                   dels: set<Path>)
    requires WellFormed(source) && Sound(t) && Sound(m) && Tame(source, Upserts(before), Deletes(before))
    requires PlainTree(m.backup)
    requires m.backup == Outcome(source, t.backup, Upserts(before), Deletes(before))
    requires IsDelete(records, r) && At(r) == Some(r.event.path) && !r.context.fault && StepOf(m, u, r)
    requires Nameable(t, records) && StampsFree(m, records)
    requires Deletable(source, t.backup, m.restore, dels) && r.event.path in dels
    requires forall s :: IsDelete(records, s) ==> s.event.path in dels
    ensures r.effect.result == OK
    ensures Deletable(source, t.backup, u.restore, dels) && StampsFree(u, records)
  {
    var p := r.event.path;
    PlainIsPlainBelow(m.backup, p);
    if p in m.backup {
      NameFound(m.restore, p, r.context.stamp, r.context.room);
      DeleteSucceedsIff(m, u, r, p);
      var dest := r.effect.dest.value;
      assert Deleting(source, t, m, before, r, u, dest);
      forall p2, i | p2 in dels && 0 <= i < |p2|
        ensures !IsFile(u.restore, p2[..i])
      {
        StaysDeletable(source, t, m, before, r, u, dest, records, p2, i);
      }
      forall s | IsDelete(records, s) && s.event.path in u.backup
        ensures Stamped(s) !in u.restore
      {
        StampsStayFree(source, t, m, before, r, u, dest, records, s);
      }
    } else {
      DeleteSucceedsIff(m, u, r, p);
    }
  }

  /** In a round without faults all deletes succeed, in every order, provided that at the start nothing stands in
      their way in restore and the stamped names are new. */
  lemma {:induction false} DeletesSucceed(source: Tree, t: Trees, done: seq<Record>, records: seq<Record>, u: Trees,
                                          dels: set<Path>)
    requires WellFormed(source) && Sound(t) && NoClash(source, t.backup) && Run(t, done, u) && AtHome(done)
    requires PlainTree(t.backup)
    requires forall r :: r in done ==> r in records
    requires forall r :: r in done ==> Tells(source, r) && !r.context.fault
    requires forall r :: r in done && r.event.kind == Delete ==> r.event.path != []
    requires forall r :: IsDelete(records, r) ==> r.event.path in dels
    requires Deletable(source, t.backup, t.restore, dels) && Nameable(t, records)
    ensures Smooth(source, done) && Deletable(source, t.backup, u.restore, dels) && StampsFree(u, records)
  {
    if done != [] {
      var before, r := Front(done), Last(done);
      var m :| Run(t, before, m) && StepOf(m, u, r);
      LastRecord(done);
      DeletesSucceed(source, t, before, records, m, dels);
      RunOutcome(source, t, before, m);
      RunSound(t, before, m);
      RecordsTame(source, before);
      NextSucceeds(source, t, m, before, r, u, records, dels);
    }
  }

  lemma NextSucceeds(source: Tree, t: Trees, m: Trees, before: seq<Record>, r: Record, u: Trees, records: seq<Record>,
                     dels: set<Path>)
    requires WellFormed(source) && Sound(t) && Sound(m) && Tame(source, Upserts(before), Deletes(before))
    requires NoClash(source, t.backup) && PlainTree(m.backup)
    requires m.backup == Outcome(source, t.backup, Upserts(before), Deletes(before))
    requires StepOf(m, u, r) && r in records && At(r) == Some(r.event.path) && Tells(source, r) && !r.context.fault
    requires r.event.kind == Delete ==> r.event.path != []
    requires Nameable(t, records) && StampsFree(m, records)
    requires Deletable(source, t.backup, m.restore, dels)
    requires forall s :: IsDelete(records, s) ==> s.event.path in dels
    ensures r.effect.result == OK
    ensures Deletable(source, t.backup, u.restore, dels) && StampsFree(u, records)
  {
    if r.event.kind == Delete {
      NextDelete(source, t, m, before, r, u, records, dels);
    } else {
      UpsertNotBlocked(source, t.backup, Upserts(before), Deletes(before), m, r, r.event.path);
      UpsertKeepsStamps(source, t, m, u, r, records, dels);
    }
  }

  lemma UpsertKeepsStamps(source: Tree, t: Trees, m: Trees, u: Trees, r: Record, records: seq<Record>, dels: set<Path>)
    requires WellFormed(source) && StepOf(m, u, r) && r.event.kind != Delete && At(r) == Some(r.event.path)
    requires Tells(source, r) && Deletable(source, t.backup, m.restore, dels) && StampsFree(m, records)
    requires forall s :: IsDelete(records, s) ==> s.event.path in dels
    ensures u.restore == m.restore && StampsFree(u, records)
  {
    forall s | IsDelete(records, s) && s.event.path in u.backup
      ensures Stamped(s) !in u.restore
    {
      if s.event.path !in m.backup {
        NewInBackup(m, u, r, s.event.path);
        if s.event.path != r.event.path {
          PrefixIsDir(source, s.event.path, r.event.path);
        }
        assert false;
      }
    }
  }

  /** A whole round from conditions at its start alone: without faults, with plain names, no change of kind, nothing
      in the way in restore and new stamped names, every event succeeds and backup mirrors the current scan, in every
      order. */
  lemma FaultlessRoundMirrors(source: Tree, previous: Scan, current: Scan, t: Trees, records: seq<Record>, u: Trees)
    requires WellFormed(source) && PlainTree(source) && Sound(t) && PlainTree(t.backup)
    requires IsScan(source, current) && IsScan(t.backup, previous) && KindStable(previous, current)
    requires RoundEvents(source, previous, current, records) && Run(t, records, u)
    requires forall r :: r in records ==> r.context.fits && !r.context.fault
    requires Deletable(source, t.backup, t.restore, previous.Keys - current.Keys) && Nameable(t, records)
    ensures Smooth(source, records) && IsScan(u.backup, current)
  {
    forall r | r in records
      ensures At(r) == Some(r.event.path)
    {
      EachStep(t, records, u, r);
      var m, n :| StepOf(m, n, r);
      LandsAtHome(r.context.root, r.event.path);
    }
    RoundTells(source, t, previous, current, records);
    DeletesSucceed(source, t, records, records, u, previous.Keys - current.Keys);
    RoundMirrors(source, previous, current, t, records, u);
  }
}
