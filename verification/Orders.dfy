/**
 When the order of the events matters.  Starting from an empty backup, all orders
 in which the events of the walk can be processed lead to the same tree if and
 only if the entries of the source are compatible where they land.
 */
module Orders {
  import opened Wrappers
  import opened PathText
  import opened Joining
  import opened FileTree
  import opened Transfer
  import opened Events
  import opened Engine
  import opened EngineRuns

  /** Where an entry lands, if that is below the root. */
  function Spot(root: Path, q: Path): Option<Path> {
    var x := Landing(root, q);
    if x == Some([]) then None else x
  }

  ghost predicate Entry(source: Tree, q: Path) {
    q in source && q != []
  }

  /** Entries that land at the same place are equal, and what lands above another entry is a directory. */
  ghost predicate Compatible(root: Path, source: Tree) {
    forall p, q | Entry(source, p) && Entry(source, q) && Spot(root, p).Some? && Spot(root, q).Some? ::
      Agree(source, p, Spot(root, p).value, q, Spot(root, q).value)
  }

  predicate Agree(source: Tree, p: Path, x: Path, q: Path, y: Path)
    requires p in source && q in source
  {
    && (x == y ==> source[p] == source[q])
    && (x <= y && x != y ==> source[p] == Dir)
  }

  /** A synchronisation without faults, in some order. */
  ghost predicate Sync(root: Path, source: Tree, t: Trees, records: seq<Record>, u: Trees) {
    && Run(t, records, u) && SyncRun(source, records)
    && forall r :: r in records ==> r.context.root == root && r.context.fits && !r.context.fault
  }

  /** Whatever the order, the synchronisation ends with the same backup. */
  ghost predicate OrderFree(root: Path, source: Tree, t: Trees) {
    forall records, u, others, v :: Sync(root, source, t, records, u) && Sync(root, source, t, others, v) ==>
      u.backup == v.backup
  }

  // ---------------------------------------------------------------------------
  // Compatible entries
  // ---------------------------------------------------------------------------

  /** The event changes nothing: it has no place, or its place is the root. */
  predicate Idle(r: Record) {
    At(r) == None || At(r) == Some([])
  }

  lemma IdleStep(t: Trees, u: Trees, r: Record)
    requires Rooted(t.backup) && StepOf(t, u, r) && r.event.kind != Delete && Idle(r)
    ensures u == t
  {
    forall q ensures SameAt(t.backup, u.backup, q) {
      if !SameAt(t.backup, u.backup, q) {
        UpsertTouches(t, u, r, q);
      }
    }
    SameTree(t.backup, u.backup);
  }

  ghost function Busy(records: seq<Record>): seq<Record>
    decreases |records|
  {
    if records == [] then []
    else Busy(Front(records)) + if Idle(Last(records)) then [] else [Last(records)]
  }

  lemma {:induction false} BusyHas(records: seq<Record>, r: Record)
    ensures r in Busy(records) <==> r in records && !Idle(r)
    decreases |records|
  {
    if records != [] {
      LastRecord(records);
      BusyHas(Front(records), r);
    }
  }

  /** Idle events can be left out of a run. */
  lemma {:induction false} BusyRun(t: Trees, records: seq<Record>, u: Trees)
    requires WellFormed(t.backup) && Rooted(t.backup) && Run(t, records, u)
    requires forall r :: r in records ==> r.event.kind != Delete
    ensures Run(t, Busy(records), u) && Rooted(u.backup)
    decreases |records|
  {
    if records != [] {
      var m :| Run(t, Front(records), m) && StepOf(m, u, Last(records));
      LastRecord(records);
      BusyRun(t, Front(records), m);
      KindStaysOverRun(t.backup, t, records, u, []);
      if Idle(Last(records)) {
        IdleStep(m, u, Last(records));
        assert Busy(records) == Busy(Front(records));
      } else {
        RunThen(t, Busy(Front(records)), m, Last(records), u);
      }
    }
  }

  /** The places below the root at which entries land. */
  ghost function Spots(root: Path, source: Tree): set<Path> {
    set q | q in source && q != [] && Spot(root, q).Some? :: Spot(root, q).value
  }

  ghost predicate LandsAt(root: Path, source: Tree, q: Path, x: Path) {
    Entry(source, q) && Spot(root, q) == Some(x)
  }

  /** Some entry that lands at `x`. */
  ghost function SomeEntry(root: Path, source: Tree, x: Path): (q: Path)
    requires exists q :: LandsAt(root, source, q, x)
    ensures LandsAt(root, source, q, x)
  {
    var q :| LandsAt(root, source, q, x);
    q
  }

  /** The entry that lands at `x`, or a directory if none does. */
  ghost function NodeAt(root: Path, source: Tree, x: Path): Node {
    if exists q :: LandsAt(root, source, q, x) then source[SomeEntry(root, source, x)] else Dir
  }

  /** The places and the directories above them. */
  ghost function Landed(root: Path, source: Tree): Tree {
    var spots := Spots(root, source);
    var keys := {[]} + set x, i | x in spots && 0 <= i <= |x| :: x[..i];
    map x | x in keys :: NodeAt(root, source, x)
  }

  lemma LandedAt(root: Path, source: Tree, x: Path)
    ensures x in Landed(root, source) <==> x == [] || Covered(Spots(root, source), x)
    ensures x in Landed(root, source) ==> Landed(root, source)[x] == NodeAt(root, source, x)
  {
    if Covered(Spots(root, source), x) {
      var y :| y in Spots(root, source) && x <= y;
      assert y[..|x|] == x;
    }
  }

  lemma NodeIsEntry(root: Path, source: Tree, q: Path, x: Path)
    requires Compatible(root, source) && LandsAt(root, source, q, x)
    ensures NodeAt(root, source, x) == source[q]
  {
    var p := SomeEntry(root, source, x);
    assert Entry(source, p) && Entry(source, q);
    assert Agree(source, p, x, q, x);
  }

  lemma NodeAbove(root: Path, source: Tree, x: Path, y: Path)
    requires Compatible(root, source) && y in Spots(root, source) && x <= y && x != y
    ensures NodeAt(root, source, x) == Dir
  {
    if p :| LandsAt(root, source, p, x) {
      NodeIsEntry(root, source, p, x);
      var q :| Entry(source, q) && Spot(root, q) == Some(y);
      assert Agree(source, p, x, q, y);
    }
  }

  lemma LandedIsTree(root: Path, source: Tree)
    requires Compatible(root, source)
    ensures WellFormed(Landed(root, source)) && Rooted(Landed(root, source))
  {
    var image := Landed(root, source);
    LandedAt(root, source, []);
    forall x | x in image && x != []
      ensures Parent(x) in image && image[Parent(x)] == Dir
    {
      LandedAt(root, source, x);
      LandedAt(root, source, Parent(x));
      var y :| y in Spots(root, source) && x <= y;
      assert Parent(x) <= y && Parent(x) != y;
      NodeAbove(root, source, Parent(x), y);
    }
    if exists q :: LandsAt(root, source, q, []) {
      assert false;
    }
  }

  lemma BusyTells(root: Path, source: Tree, r: Record)
    requires Compatible(root, source) && !Idle(r) && r.context.root == root && r.context.fits
    requires r.source == source && Entry(source, r.event.path) && r.event == SyncEvent(source, r.event.path)
    ensures Tells(Landed(root, source), r) && At(r).value in Spots(root, source)
  {
    var x := At(r).value;
    assert LandsAt(root, source, r.event.path, x);
    assert x in Spots(root, source) && x <= x;
    LandedAt(root, source, x);
    NodeIsEntry(root, source, r.event.path, x);
  }

  /** Over compatible entries every order ends with one tree. */
  lemma CompatibleOutcome(root: Path, source: Tree, t: Trees, records: seq<Record>, u: Trees)
    requires Compatible(root, source) && Sound(t) && t.backup == map[[] := Dir] && Sync(root, source, t, records, u)
    ensures u.backup == Outcome(Landed(root, source), t.backup, Spots(root, source), {})
  {
    var image, busy := Landed(root, source), Busy(records);
    LandedIsTree(root, source);
    BusyRun(t, records, u);
    forall r | r in busy
      ensures Tells(image, r) && At(r).Some? && At(r).value in Spots(root, source) && r.event.kind != Delete
      ensures Untroubled(r)
    {
      BusyHas(records, r);
      assert r.event.path in Paths(records);
      BusyTells(root, source, r);
    }
    UpsertsSucceed(image, t, busy, u);
    RunOutcome(image, t, busy, u);
    AllSpots(root, source, records);
  }

  lemma AllSpots(root: Path, source: Tree, records: seq<Record>)
    requires SyncRun(source, records)
    requires forall r :: r in records ==> r.context.root == root && r.context.fits
    ensures Upserts(Busy(records)) == Spots(root, source) && Deletes(Busy(records)) == {}
  {
    forall r ensures r in Busy(records) <==> r in records && !Idle(r) {
      BusyHas(records, r);
    }
    forall x ensures x in Spots(root, source) <==> x in Upserts(Busy(records)) {
      if x in Spots(root, source) {
        SpotIsReached(root, source, records, x);
      }
      if x in Upserts(Busy(records)) {
        ReachedIsSpot(root, source, records, x);
      }
    }
  }

  lemma SpotIsReached(root: Path, source: Tree, records: seq<Record>, x: Path)
    requires SyncRun(source, records) && x in Spots(root, source)
    requires forall r :: r in records ==> r.context.root == root && r.context.fits
    ensures x in Upserts(Busy(records))
  {
    var q :| q in source && q != [] && Spot(root, q) == Some(x);
    assert q in Paths(records);
    var r :| r in records && r.event.path == q;
    BusyHas(records, r);
    assert At(r) == Some(x);
  }

  lemma ReachedIsSpot(root: Path, source: Tree, records: seq<Record>, x: Path)
    requires SyncRun(source, records) && x in Upserts(Busy(records))
    requires forall r :: r in records ==> r.context.root == root && r.context.fits
    ensures x in Spots(root, source)
  {
    var r :| r in Busy(records) && At(r) == Some(x);
    BusyHas(records, r);
    assert r.event.path in Paths(records);
    assert Entry(source, r.event.path) && Spot(root, r.event.path) == Some(x);
  }

  // ---------------------------------------------------------------------------
  // Every order can be run
  // ---------------------------------------------------------------------------

  /** A call in which the system refuses nothing. */
  function Calm(root: Path): Context {
    Context("", 0, root, true, false)
  }

  ghost predicate Processes(root: Path, source: Tree, q: Path, r: Record) {
    q in source && r.source == source && r.event == SyncEvent(source, q) && r.context == Calm(root)
  }

  lemma DirStepExists(t: Trees, x: Path) returns (u: Trees, f: Effect)
    requires Sound(t)
    ensures Sound(u) && DirStep(t, u, x, f) && f.result != Invalid
    ensures f.result == OK <==> NoFileAbove(t.backup, x, |x|)
  {
    if NoFileAbove(t.backup, x, |x|) {
      AfterMkdirs(t.backup, x, |x|);
      u, f := Trees(WithDirs(t.backup, x, |x|), t.restore), Effect(OK, false, false, None);
    } else {
      u, f := t, Effect(Err, false, false, None);
    }
  }

  lemma PutIsTree(t: Tree, x: Path, file: Node)
    requires WellFormed(t) && file.File? && CanPut(t, x, file)
    ensures WellFormed(Put(t, x, file))
  {
    if x != [] {
      NoFileAboveParent(t, x);
      ParentsMade(t, x, file);
      WithDirsWellFormed(t, Parent(x), |x| - 1);
      WithDirsAt(t, Parent(x), |x| - 1, x);
    }
    if x != [] {
      PutWellFormed(WithDirs(t, Parent(x), |x| - 1), x, file);
    } else {
      PutWellFormed(t, x, file);
    }
  }

  lemma FileStepExists(source: Tree, t: Trees, p: Path, x: Path) returns (u: Trees, f: Effect)
    requires Sound(t) && IsFile(source, p)
    ensures Sound(u) && FileStep(source, t, u, p, x, f) && f.result != Invalid
    ensures f.result == OK <==> !Differs(source[p], t.backup, x) || CanPut(t.backup, x, source[p])
  {
    if !Differs(source[p], t.backup, x) {
      u, f := t, Effect(OK, false, true, None);
    } else if CanPut(t.backup, x, source[p]) {
      PutIsTree(t.backup, x, source[p]);
      u, f := Trees(Put(t.backup, x, source[p]), t.restore), Effect(OK, true, false, None);
    } else {
      u, f := t, Effect(Err, false, false, None);
    }
  }

  /** Every event of the walk can be processed in every state. */
  lemma StepExists(root: Path, source: Tree, t: Trees, q: Path) returns (r: Record, u: Trees)
    requires Canonical(root) && Sound(t) && q in source
    ensures Processes(root, source, q, r) && StepOf(t, u, r) && Sound(u)
  {
    var e, c, f := SyncEvent(source, q), Calm(root), Effect(Invalid, false, false, None);
    u := t;
    if Place(c, q).Some? {
      if e.directory {
        u, f := DirStepExists(t, Place(c, q).value);
      } else {
        u, f := FileStepExists(source, t, q, Place(c, q).value);
      }
    }
    r := Record(source, e, c, f);
  }

  /** The records process the paths in their order. */
  ghost predicate InOrder(root: Path, source: Tree, paths: seq<Path>, records: seq<Record>) {
    |records| == |paths| && forall i :: 0 <= i < |paths| ==> Processes(root, source, paths[i], records[i])
  }

  lemma {:induction false} RunExists(root: Path, source: Tree, t: Trees, paths: seq<Path>)
    returns (records: seq<Record>, u: Trees)
    requires Canonical(root) && Sound(t) && forall q :: q in paths ==> q in source
    ensures InOrder(root, source, paths, records) && Run(t, records, u) && Sound(u)
    decreases |paths|
  {
    records, u := [], t;
    if paths != [] {
      var before, m := RunExists(root, source, t, Front(paths));
      var r;
      r, u := StepExists(root, source, m, Last(paths));
      RunThen(t, before, m, r, u);
      records := before + [r];
      InOrderThen(root, source, paths, before, r);
    }
  }

  lemma InOrderThen(root: Path, source: Tree, paths: seq<Path>, before: seq<Record>, r: Record)
    requires paths != [] && InOrder(root, source, Front(paths), before) && Processes(root, source, Last(paths), r)
    ensures InOrder(root, source, paths, before + [r])
  {
    forall i | 0 <= i < |paths|
      ensures Processes(root, source, paths[i], (before + [r])[i])
    {
      if i < |before| {
        assert Processes(root, source, Front(paths)[i], before[i]);
      }
    }
  }

  lemma RunEnds(t: Trees, records: seq<Record>, n: Trees, u: Trees)
    requires records != [] && Run(t, Front(records), n) && StepOf(n, u, Last(records))
    ensures Run(t, records, u)
  {
  }

  /** A step in front of a run. */
  lemma {:induction false} RunAfter(t: Trees, r: Record, m: Trees, records: seq<Record>, u: Trees)
    requires StepOf(t, m, r) && Run(m, records, u)
    ensures Run(t, [r] + records, u)
    decreases |records|
  {
    if records == [] {
      assert Run(t, [], t);
      RunThen(t, [], t, r, m);
      assert [r] + records == [] + [r];
    } else {
      var n :| Run(m, Front(records), n) && StepOf(n, u, Last(records));
      RunAfter(t, r, m, Front(records), n);
      assert Front([r] + records) == [r] + Front(records) && Last([r] + records) == Last(records);
      RunEnds(t, [r] + records, n, u);
    }
  }

  /** All entries of the source, each once. */
  ghost predicate IsOrder(source: Tree, paths: seq<Path>) {
    && (forall q :: q in paths <==> Entry(source, q))
    && forall i, j :: 0 <= i < j < |paths| ==> paths[i] != paths[j]
  }

  lemma OrderIsSync(root: Path, source: Tree, t: Trees, paths: seq<Path>, records: seq<Record>, u: Trees)
    requires IsOrder(source, paths) && InOrder(root, source, paths, records) && Run(t, records, u)
    ensures Sync(root, source, t, records, u)
  {
    forall r | r in records
      ensures Entry(source, r.event.path) && Processes(root, source, r.event.path, r)
    {
      RecordInOrder(root, source, paths, records, r);
    }
    PathsInOrder(root, source, paths, records);
    forall i, j | 0 <= i < j < |records|
      ensures records[i].event.path != records[j].event.path
    {
      assert Processes(root, source, paths[i], records[i]) && Processes(root, source, paths[j], records[j]);
    }
  }

  lemma RecordInOrder(root: Path, source: Tree, paths: seq<Path>, records: seq<Record>, r: Record)
    requires InOrder(root, source, paths, records) && r in records
    ensures r.event.path in paths && Processes(root, source, r.event.path, r)
  {
    var i :| 0 <= i < |records| && records[i] == r;
    assert Processes(root, source, paths[i], r);
  }

  lemma PathsInOrder(root: Path, source: Tree, paths: seq<Path>, records: seq<Record>)
    requires InOrder(root, source, paths, records) && forall q :: q in paths <==> Entry(source, q)
    ensures Paths(records) == source.Keys - {[]}
  {
    forall q | q in source && q != []
      ensures q in Paths(records)
    {
      assert Entry(source, q);
      var i :| 0 <= i < |paths| && paths[i] == q;
      assert Processes(root, source, q, records[i]) && records[i] in records;
    }
    forall q | q in Paths(records)
      ensures q in source && q != []
    {
      var r :| r in records && r.event.path == q;
      RecordInOrder(root, source, paths, records, r);
      assert Entry(source, q);
    }
  }

  lemma {:induction false} ListOf(s: set<Path>) returns (list: seq<Path>)
    ensures (forall q :: q in list <==> q in s) && forall i, j :: 0 <= i < j < |list| ==> list[i] != list[j]
    decreases |s|
  {
    list := [];
    if s != {} {
      var q :| q in s;
      var rest := ListOf(s - {q});
      list := [q] + rest;
    }
  }

  // ---------------------------------------------------------------------------
  // What stays at a place
  // ---------------------------------------------------------------------------

  /** Creating and modifying leaves an existing entry alone, unless it copies a file there. */
  lemma KeepsExisting(t: Trees, u: Trees, r: Record, q: Path)
    requires StepOf(t, u, r) && r.event.kind != Delete && q in t.backup
    requires r.event.directory || At(r) != Some(q)
    ensures q in u.backup && u.backup[q] == t.backup[q]
  {
    if At(r).Some? && !r.event.directory {
      FileKeeps(r.source, t, u, r.event.path, At(r).value, r.effect, q);
    }
  }

  lemma FileKeeps(source: Tree, t: Trees, u: Trees, p: Path, x: Path, f: Effect, q: Path)
    requires FileStep(source, t, u, p, x, f) && q in t.backup && q != x
    ensures q in u.backup && u.backup[q] == t.backup[q]
  {
    if f.copied {
      PutAt(t.backup, x, source[p], q);
    }
  }

  lemma SameSignatureSkips(t: Trees, u: Trees, r: Record, x: Path)
    requires StepOf(t, u, r) && r.event.kind != Delete && !r.event.directory && At(r) == Some(x) && x in t.backup
    requires IsFile(r.source, r.event.path) ==> Signature(r.source[r.event.path]) == Signature(t.backup[x])
    ensures u == t
  {
  }

  /** While only files of the same signature come, the first one stays. */
  lemma {:induction false} FirstStays(m: Trees, records: seq<Record>, u: Trees, x: Path)
    requires Run(m, records, u) && IsFile(m.backup, x)
    requires forall r :: r in records ==>
               && r.event.kind != Delete
               && (!r.event.directory && At(r) == Some(x) && IsFile(r.source, r.event.path) ==>
                     Signature(r.source[r.event.path]) == Signature(m.backup[x]))
    ensures x in u.backup && u.backup[x] == m.backup[x]
    decreases |records|
  {
    if records != [] {
      var n :| Run(m, Front(records), n) && StepOf(n, u, Last(records));
      LastRecord(records);
      FirstStays(m, Front(records), n, x);
      var r := Last(records);
      if r.event.directory || At(r) != Some(x) {
        KeepsExisting(n, u, r, x);
      } else {
        SameSignatureSkips(n, u, r, x);
      }
    }
  }

  /** A file event at a place that holds a file leaves its own signature there. */
  lemma LastSignature(n: Trees, u: Trees, r: Record, x: Path)
    requires WellFormed(n.backup) && StepOf(n, u, r) && IsFile(n.backup, x) && At(r) == Some(x) && !r.context.fault
    requires r.event.kind != Delete && !r.event.directory && IsFile(r.source, r.event.path)
    ensures x in u.backup && Signature(u.backup[x]) == Signature(r.source[r.event.path])
  {
    forall i | 0 <= i < |x|
      ensures !IsFile(n.backup, x[..i])
    {
      AncestorIsDir(n.backup, x, i);
    }
    assert CanPut(n.backup, x, r.source[r.event.path]);
    if r.effect.copied {
      PutAt(n.backup, x, r.source[r.event.path], x);
    }
  }

  /** What the first event leaves in an empty backup. */
  lemma FirstStep(root: Path, source: Tree, t: Trees, p: Path, y: Path, r: Record, u: Trees, x: Path)
    requires t.backup == map[[] := Dir] && StepOf(t, u, r) && Processes(root, source, p, r)
    requires LandsAt(root, source, p, y) && x <= y
    ensures x in u.backup
    ensures if x == y && source[p].File? then u.backup[x] == source[p] else u.backup[x] == Dir
  {
    assert At(r) == Some(y) && y != [];
    forall i | 0 <= i < |y|
      ensures !IsFile(t.backup, y[..i])
    {
    }
    if source[p].File? {
      assert CanPut(t.backup, y, source[p]);
      PutAt(t.backup, y, source[p], x);
    } else {
      WithDirsAt(t.backup, y, |y|, x);
    }
  }

  // ---------------------------------------------------------------------------
  // Two orders
  // ---------------------------------------------------------------------------

  /** A synchronisation that starts with one entry and ends with another. */
  datatype Tour = Tour(first: Record, m: Trees, middle: seq<Record>, n: Trees, last: Record, u: Trees)

  ghost predicate IsTour(root: Path, source: Tree, t: Trees, p: Path, q: Path, tour: Tour) {
    && StepOf(t, tour.m, tour.first) && Run(tour.m, tour.middle, tour.n) && StepOf(tour.n, tour.u, tour.last)
    && Processes(root, source, p, tour.first) && Processes(root, source, q, tour.last)
    && Sound(tour.m) && Sound(tour.n)
    && (forall r :: r in tour.middle ==> Entry(source, r.event.path) && Processes(root, source, r.event.path, r))
  }

  ghost predicate ReachesBy(root: Path, source: Tree, t: Trees, u: Trees) {
    exists records :: Sync(root, source, t, records, u)
  }

  lemma TourExists(root: Path, source: Tree, t: Trees, p: Path, q: Path) returns (tour: Tour)
    requires Canonical(root) && Sound(t) && Entry(source, p) && Entry(source, q) && p != q
    ensures IsTour(root, source, t, p, q, tour) && ReachesBy(root, source, t, tour.u)
  {
    var rest := Remaining(source, p, q);
    var first, m := StepExists(root, source, t, p);
    var middle, n := RunExists(root, source, m, rest);
    var last, u := StepExists(root, source, n, q);
    tour := Tour(first, m, middle, n, last, u);
    InMiddle(root, source, rest, middle);
    TourIsRun(t, tour);
    TourIsSync(root, source, t, p, q, rest, tour);
  }

  lemma TourIsRun(t: Trees, tour: Tour)
    requires StepOf(t, tour.m, tour.first) && Run(tour.m, tour.middle, tour.n) && StepOf(tour.n, tour.u, tour.last)
    ensures Run(t, [tour.first] + (tour.middle + [tour.last]), tour.u)
  {
    RunThen(tour.m, tour.middle, tour.n, tour.last, tour.u);
    RunAfter(t, tour.first, tour.m, tour.middle + [tour.last], tour.u);
  }

  /** The other entries in some order. */
  lemma Remaining(source: Tree, p: Path, q: Path) returns (rest: seq<Path>)
    ensures forall x :: x in rest <==> Entry(source, x) && x != p && x != q
    ensures forall i, j :: 0 <= i < j < |rest| ==> rest[i] != rest[j]
    ensures forall x :: x in rest ==> x in source
  {
    rest := ListOf(source.Keys - {[], p, q});
  }

  lemma InMiddle(root: Path, source: Tree, rest: seq<Path>, middle: seq<Record>)
    requires InOrder(root, source, rest, middle) && forall x :: x in rest ==> Entry(source, x)
    ensures forall r :: r in middle ==> Entry(source, r.event.path) && Processes(root, source, r.event.path, r)
  {
    forall r | r in middle
      ensures Entry(source, r.event.path) && Processes(root, source, r.event.path, r)
    {
      var i :| 0 <= i < |middle| && middle[i] == r;
      assert Processes(root, source, rest[i], r) && rest[i] in rest;
    }
  }

  lemma TourIsSync(root: Path, source: Tree, t: Trees, p: Path, q: Path, rest: seq<Path>, tour: Tour)
    requires Entry(source, p) && Entry(source, q) && p != q
    requires (forall x :: x in rest <==> Entry(source, x) && x != p && x != q)
    requires forall i, j :: 0 <= i < j < |rest| ==> rest[i] != rest[j]
    requires Processes(root, source, p, tour.first) && Processes(root, source, q, tour.last)
    requires InOrder(root, source, rest, tour.middle) && Run(t, [tour.first] + (tour.middle + [tour.last]), tour.u)
    ensures ReachesBy(root, source, t, tour.u)
  {
    var paths, records := [p] + (rest + [q]), [tour.first] + (tour.middle + [tour.last]);
    TourInOrder(root, source, p, q, rest, tour.first, tour.middle, tour.last);
    TourIsOrder(source, p, q, rest);
    OrderIsSync(root, source, t, paths, records, tour.u);
  }

  lemma TourInOrder(root: Path, source: Tree, p: Path, q: Path, rest: seq<Path>,
                    first: Record, middle: seq<Record>, last: Record)
    requires Processes(root, source, p, first) && Processes(root, source, q, last)
    requires InOrder(root, source, rest, middle)
    ensures InOrder(root, source, [p] + (rest + [q]), [first] + (middle + [last]))
  {
    var paths, records := [p] + (rest + [q]), [first] + (middle + [last]);
    forall i | 0 <= i < |paths|
      ensures Processes(root, source, paths[i], records[i])
    {
      if 0 < i < |paths| - 1 {
        assert Processes(root, source, rest[i - 1], middle[i - 1]);
      }
    }
  }

  lemma TourIsOrder(source: Tree, p: Path, q: Path, rest: seq<Path>)
    requires Entry(source, p) && Entry(source, q) && p != q
    requires (forall x :: x in rest <==> Entry(source, x) && x != p && x != q)
    requires forall i, j :: 0 <= i < j < |rest| ==> rest[i] != rest[j]
    ensures IsOrder(source, [p] + (rest + [q]))
  {
    var paths := [p] + (rest + [q]);
    forall i, j | 0 <= i < j < |paths|
      ensures paths[i] != paths[j]
    {
      assert 0 < i < |paths| - 1 ==> paths[i] == rest[i - 1] && rest[i - 1] in rest;
      assert 0 < j < |paths| - 1 ==> paths[j] == rest[j - 1] && rest[j - 1] in rest;
    }
  }

  /** The kind of what the first event leaves stays. */
  lemma KindOfTour(root: Path, source: Tree, t: Trees, p: Path, q: Path, tour: Tour, x: Path)
    requires IsTour(root, source, t, p, q, tour) && x in tour.m.backup
    ensures x in tour.n.backup && tour.n.backup[x].Dir? == tour.m.backup[x].Dir?
    ensures x in tour.u.backup && tour.u.backup[x].Dir? == tour.m.backup[x].Dir?
  {
    KindStaysOverRun(tour.m.backup, tour.m, tour.middle, tour.n, x);
    KindStays(tour.n.backup, tour.n, tour.u, tour.last, x);
  }

  lemma TwoEnds(root: Path, source: Tree, t: Trees, u: Trees, v: Trees)
    requires ReachesBy(root, source, t, u) && ReachesBy(root, source, t, v) && u.backup != v.backup
    ensures !OrderFree(root, source, t)
  {
    var records :| Sync(root, source, t, records, u);
    var others :| Sync(root, source, t, others, v);
  }

  /** A file and a directory, or a file above another entry: whoever comes first decides the kind. */
  lemma KindsRace(root: Path, source: Tree, t: Trees, p: Path, x: Path, q: Path, y: Path)
    requires Canonical(root) && Sound(t) && t.backup == map[[] := Dir]
    requires LandsAt(root, source, p, x) && LandsAt(root, source, q, y) && x <= y
    requires source[p].File? && (x == y ==> source[q] == Dir)
    ensures !OrderFree(root, source, t)
  {
    var a := TourExists(root, source, t, p, q);
    var b := TourExists(root, source, t, q, p);
    FirstStep(root, source, t, p, x, a.first, a.m, x);
    FirstStep(root, source, t, q, y, b.first, b.m, x);
    KindOfTour(root, source, t, p, q, a, x);
    KindOfTour(root, source, t, q, p, b, x);
    TwoEnds(root, source, t, a.u, b.u);
  }

  /** Two files of different signature at one place: whoever comes last decides the signature. */
  lemma SignaturesRace(root: Path, source: Tree, t: Trees, p: Path, q: Path, x: Path)
    requires Canonical(root) && Sound(t) && t.backup == map[[] := Dir]
    requires LandsAt(root, source, p, x) && LandsAt(root, source, q, x)
    requires source[p].File? && source[q].File? && Signature(source[p]) != Signature(source[q])
    ensures !OrderFree(root, source, t)
  {
    var a := TourExists(root, source, t, p, q);
    var b := TourExists(root, source, t, q, p);
    EndsWith(root, source, t, p, q, x, a);
    EndsWith(root, source, t, q, p, x, b);
    TwoEnds(root, source, t, a.u, b.u);
  }

  lemma EndsWith(root: Path, source: Tree, t: Trees, p: Path, q: Path, x: Path, tour: Tour)
    requires t.backup == map[[] := Dir] && IsTour(root, source, t, p, q, tour)
    requires LandsAt(root, source, p, x) && LandsAt(root, source, q, x) && source[p].File? && source[q].File?
    ensures x in tour.u.backup && Signature(tour.u.backup[x]) == Signature(source[q])
  {
    FirstStep(root, source, t, p, x, tour.first, tour.m, x);
    KindOfTour(root, source, t, p, q, tour, x);
    LastSignature(tour.n, tour.u, tour.last, x);
  }

  /** Different files of one signature at one place: whoever comes first stays. */
  lemma ContentsRace(root: Path, source: Tree, t: Trees, p: Path, q: Path, x: Path)
    requires Canonical(root) && Sound(t) && t.backup == map[[] := Dir]
    requires LandsAt(root, source, p, x) && LandsAt(root, source, q, x)
    requires source[p].File? && source[q].File? && source[p] != source[q]
    requires forall s :: LandsAt(root, source, s, x) && source[s].File? ==> Signature(source[s]) == Signature(source[p])
    ensures !OrderFree(root, source, t)
  {
    var a := TourExists(root, source, t, p, q);
    var b := TourExists(root, source, t, q, p);
    StaysFirst(root, source, t, p, q, x, a);
    StaysFirst(root, source, t, q, p, x, b);
    TwoEnds(root, source, t, a.u, b.u);
  }

  lemma StaysFirst(root: Path, source: Tree, t: Trees, p: Path, q: Path, x: Path, tour: Tour)
    requires t.backup == map[[] := Dir] && IsTour(root, source, t, p, q, tour) && Entry(source, q)
    requires LandsAt(root, source, p, x) && source[p].File?
    requires forall s :: LandsAt(root, source, s, x) && source[s].File? ==> Signature(source[s]) == Signature(source[p])
    ensures x in tour.u.backup && tour.u.backup[x] == source[p]
  {
    FirstStep(root, source, t, p, x, tour.first, tour.m, x);
    var records := tour.middle + [tour.last];
    RunThen(tour.m, tour.middle, tour.n, tour.last, tour.u);
    forall r | r in records
      ensures r.event.kind != Delete
      ensures !r.event.directory && At(r) == Some(x) && IsFile(r.source, r.event.path) ==>
                Signature(r.source[r.event.path]) == Signature(tour.m.backup[x])
    {
      assert Entry(source, r.event.path) && Processes(root, source, r.event.path, r);
      if At(r) == Some(x) && !r.event.directory {
        assert LandsAt(root, source, r.event.path, x);
      }
    }
    FirstStays(tour.m, records, tour.u, x);
  }

  /** From an empty backup, every order of the events of the walk ends with the same backup if and only if the
      entries of the source are compatible where they land. */
  lemma OrderFreeIff(root: Path, source: Tree, t: Trees)
    requires Canonical(root) && Sound(t) && t.backup == map[[] := Dir]
    ensures OrderFree(root, source, t) <==> Compatible(root, source)
  {
    if Compatible(root, source) {
      forall records, u, others, v | Sync(root, source, t, records, u) && Sync(root, source, t, others, v)
        ensures u.backup == v.backup
      {
        CompatibleOutcome(root, source, t, records, u);
        CompatibleOutcome(root, source, t, others, v);
      }
    } else {
      var p, q :| Entry(source, p) && Entry(source, q) && Spot(root, p).Some? && Spot(root, q).Some?
                  && !Agree(source, p, Spot(root, p).value, q, Spot(root, q).value);
      Race(root, source, t, p, Spot(root, p).value, q, Spot(root, q).value);
    }
  }

  lemma Race(root: Path, source: Tree, t: Trees, p: Path, x: Path, q: Path, y: Path)
    requires Canonical(root) && Sound(t) && t.backup == map[[] := Dir]
    requires LandsAt(root, source, p, x) && LandsAt(root, source, q, y) && !Agree(source, p, x, q, y)
    ensures !OrderFree(root, source, t)
  {
    if x != y || source[q] == Dir {
      KindsRace(root, source, t, p, x, q, y);
    } else if source[p] == Dir {
      KindsRace(root, source, t, q, y, p, x);
    } else if s :| LandsAt(root, source, s, x) && source[s].File? && Signature(source[s]) != Signature(source[p]) {
      SignaturesRace(root, source, t, p, s, x);
    } else {
      ContentsRace(root, source, t, p, q, x);
    }
  }
}
