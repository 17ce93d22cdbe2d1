/**
 Processing one event (`syseba_app_process_event`, src/app.c): the backup tree
 follows the source, and what a deletion takes out of backup goes to restore.
 `Step` says what one call may do to the two trees; `App.ProcessEvent` is the
 code, proved to do only that.
 */
module Engine {
  import opened Wrappers
  import opened PathText
  import opened PathReal
  import opened Joining
  import opened FileTree
  import opened Transfer
  import opened Events
  import Decimal

  datatype Result = OK | Err | Invalid | NotFound

  // ---------------------------------------------------------------------------
  // Names in the restore area
  // ---------------------------------------------------------------------------

  const MAX_CANDIDATES := 100000

  /** The name tried with a given counter once the plain one is taken. */
  function CandidateName(name: Name, stamp: string, counter: nat): Name {
    if counter == 0 then name + "." + stamp else name + "." + stamp + "." + Decimal.Print(counter)
  }

  function Candidate(p: Path, stamp: string, counter: nat): (q: Path)
    requires p != []
    ensures q != []
  {
    Parent(p) + [CandidateName(p[|p| - 1], stamp, counter)]
  }

  function LastLength(p: Path): nat
    requires p != []
  {
    |p[|p| - 1]|
  }

  lemma CandidatesDiffer(p: Path, stamp: string, c: nat, d: nat)
    requires p != [] && c != d
    ensures Candidate(p, stamp, c) != Candidate(p, stamp, d)
  {
    var stem := p[|p| - 1] + "." + stamp;
    var x, y := CandidateName(p[|p| - 1], stamp, c), CandidateName(p[|p| - 1], stamp, d);
    if x == y {
      assert c == 0 ==> x == stem && y == stem + "." + Decimal.Print(d);
      assert d == 0 ==> y == stem && x == stem + "." + Decimal.Print(c);
      assert c != 0 && d != 0;
      assert Decimal.Print(c) == x[|stem| + 1..];
      assert Decimal.Print(d) == y[|stem| + 1..];
      Decimal.PrintInjective(c, d);
      assert false;
    }
    assert Candidate(p, stamp, c)[|p| - 1] == x && Candidate(p, stamp, d)[|p| - 1] == y;
  }

  /** The first `c` candidates fit in the buffer and are taken. */
  ghost predicate AllTaken(restore: Tree, p: Path, stamp: string, room: nat, c: nat)
    requires p != []
  {
    forall d: nat :: d < c ==> Candidate(p, stamp, d) in restore && LastLength(Candidate(p, stamp, d)) < room
  }

  /** A place in the same directory that is free in `restore`: `p` itself, or the
      first stamped name that is not taken. */
  ghost predicate Picks(restore: Tree, p: Path, stamp: string, room: nat, dest: Path)
    requires p != []
  {
    && dest != [] && dest !in restore && Parent(dest) == Parent(p) && LastLength(dest) < room
    && if p !in restore then dest == p
       else exists c: nat :: c < MAX_CANDIDATES && dest == Candidate(p, stamp, c)
                             && AllTaken(restore, p, stamp, room, c)
  }

  /** The search gives up: a name does not fit in the buffer before a free one is
      met, or every candidate is taken. */
  ghost predicate NoName(restore: Tree, p: Path, stamp: string, room: nat)
    requires p != []
  {
    if p !in restore then LastLength(p) >= room
    else
      || AllTaken(restore, p, stamp, room, MAX_CANDIDATES)
      || exists c: nat :: c < MAX_CANDIDATES && LastLength(Candidate(p, stamp, c)) >= room
                          && AllTaken(restore, p, stamp, room, c)
  }

  /** The search either finds a name or gives up for one of these reasons, never both. */
  lemma PickOrGiveUp(restore: Tree, p: Path, stamp: string, room: nat, dest: Path)
    requires p != [] && Picks(restore, p, stamp, room, dest)
    ensures !NoName(restore, p, stamp, room)
  {
    if p in restore {
      var c: nat :| c < MAX_CANDIDATES && dest == Candidate(p, stamp, c) && AllTaken(restore, p, stamp, room, c);
      forall d: nat | d < MAX_CANDIDATES && LastLength(Candidate(p, stamp, d)) >= room
        ensures !AllTaken(restore, p, stamp, room, d)
      {
        assert d != c;
      }
    }
  }

  /** The search gives up only when a name does not fit or all of the 100000 stamped names are taken. */
  lemma GivesUpOnlyWhenAllTaken(restore: Tree, p: Path, stamp: string, room: nat)
    requires p != [] && NoName(restore, p, stamp, room) && LastLength(p) < room
    requires forall c: nat :: c < 100000 ==> LastLength(Candidate(p, stamp, c)) < room
    ensures p in restore && forall c: nat :: c < 100000 ==> Candidate(p, stamp, c) in restore
  {
  }

  /** `syseba_unique_restore_path`.  `room` is what the buffer leaves for the last
      component and its terminator. */
  method UniqueRestorePath(restore: Tree, p: Path, stamp: string, room: nat)
    returns (ok: bool, dest: Path)
    requires p != []
    ensures ok ==> Picks(restore, p, stamp, room, dest)
    ensures !ok ==> NoName(restore, p, stamp, room)
  {
    if p !in restore {
      return LastLength(p) < room, p;
    }
    dest := p;
    var counter := 0;
    while counter < MAX_CANDIDATES
      invariant 0 <= counter <= MAX_CANDIDATES
      invariant AllTaken(restore, p, stamp, room, counter)
    {
      dest := Candidate(p, stamp, counter);
      if LastLength(dest) >= room {
        return false, dest;
      }
      if dest !in restore {
        return true, dest;
      }
      counter := counter + 1;
    }
    return false, dest;
  }

  // ---------------------------------------------------------------------------
  // One event
  // ---------------------------------------------------------------------------

  /** What `syseba_files_need_copy` compares. */
  function Signature(n: Node): (bool, nat, int) {
    if n == Dir then (true, 0, 0) else (false, |n.content|, n.mtime)
  }

  /** Whether a copy of `node` at `x` is missing or differs in signature. */
  predicate Differs(node: Node, backup: Tree, x: Path) {
    x in backup ==> Signature(node) != Signature(backup[x])
  }

  predicate NeedsCopy(source: Tree, backup: Tree, p: Path) {
    p in source && Differs(source[p], backup, p)
  }

  /** What happened: the code returned, whether a file was copied or skipped, and
      where a deletion put the subtree; `beside` if that was beside the restore area. */
  datatype Effect = Effect(result: Result, copied: bool, skipped: bool, dest: Option<Path>, beside: bool := false)

  datatype Trees = Trees(backup: Tree, restore: Tree)

  ghost predicate DirStep(t: Trees, u: Trees, p: Path, f: Effect) {
    && u.restore == t.restore && f == Effect(f.result, false, false, None)
    && OnlyDirsAdded(t.backup, u.backup, p)
    && (f.result == OK ==> NoFileAbove(t.backup, p, |p|) && u.backup == WithDirs(t.backup, p, |p|))
  }

  /** The file at `p` in the source has its copy at `x`. */
  ghost predicate FileStep(source: Tree, t: Trees, u: Trees, p: Path, x: Path, f: Effect) {
    && u.restore == t.restore && f.dest == None
    && if !IsFile(source, p) || !Differs(source[p], t.backup, x) then
         u == t && f == Effect(OK, false, true, None)
       else if f.result == OK then
         && f == Effect(OK, true, false, None)
         && CanPut(t.backup, x, source[p]) && u.backup == Put(t.backup, x, source[p])
       else
         && f == Effect(f.result, false, false, None)
         && OldOrWhole(t.backup, u.backup, x, source[p])
  }

  /** A deletion at the root of backup takes the whole tree away, to a stamped name beside the restore area: the
      restore area itself exists. */
  ghost predicate RootDeleteStep(t: Trees, u: Trees, f: Effect) {
    && u.restore == t.restore && f.dest == None && !f.copied && !f.skipped
    && if [] !in t.backup then u == t && f == Effect(OK, false, false, None)
       else
         && PartlyRemoved(t.backup, u.backup, [])
         && f.beside == (f.result == OK) && (f.result == OK ==> u.backup == map[])
  }

  /** Where a deletion finds a name, the subtree moves there; the whole of it, if its names are plain. */
  ghost predicate DeleteStep(t: Trees, u: Trees, x: Path, stamp: string, room: nat, f: Effect)
    requires x != []
  {
    && !f.copied && !f.skipped && !f.beside
    && if x !in t.backup then u == t && f == Effect(OK, false, false, None)
       else if f.dest == None then u == t && f.result != OK
       else
         && Picks(t.restore, x, stamp, room, f.dest.value)
         && MoveSafe(t.backup, t.restore, u.backup, u.restore, x, f.dest.value)
         && (f.result == OK ==> u.backup == Without(t.backup, x))
         && (f.result == OK && PlainBelow(t.backup, x) ==>
               Moved(t.backup, t.restore, u.backup, u.restore, x, f.dest.value))
  }

  /** Reasons for an event to fail that lie in the trees and not in the environment. */
  ghost predicate Blocked(source: Tree, t: Trees, e: Event, x: Path, stamp: string, room: nat)
    requires e.kind == Delete ==> x != []
  {
    if e.kind == Delete then
      x in t.backup && (NoName(t.restore, x, stamp, room) || !NoFileAbove(t.restore, x, |x|))
    else if e.directory then !NoFileAbove(t.backup, x, |x|)
    else
      && IsFile(source, e.path) && Differs(source[e.path], t.backup, x)
      && !CanPut(t.backup, x, source[e.path])
  }

  /** What the call is given besides the trees: the time stamp, the room for a name, the absolute path of
      the source, whether the texts of the paths fit in their buffers, and whether the system refused a
      call. */
  datatype Context = Context(stamp: string, room: nat, root: Path, fits: bool, fault: bool)

  /** Where in backup and restore an event at `p` takes effect. */
  function Place(c: Context, p: Path): Option<Path> {
    if c.fits then Landing(c.root, p) else None
  }

  /** What processing an event does when it takes effect at `x`. */
  ghost predicate StepAt(source: Tree, t: Trees, u: Trees, e: Event, x: Path, stamp: string, room: nat,
                         fault: bool, f: Effect) {
    && WellFormed(u.backup) && WellFormed(u.restore) && f.result != Invalid
    && (f.result != OK && !fault && (e.kind == Delete ==> x != [] && PlainBelow(t.backup, x)) ==>
          Blocked(source, t, e, x, stamp, room))
    && match e.kind
       case Delete => if x == [] then RootDeleteStep(t, u, f) else DeleteStep(t, u, x, stamp, room, f)
       case _ => if e.directory then DirStep(t, u, x, f) else FileStep(source, t, u, e.path, x, f)
  }

  ghost predicate Step(source: Tree, t: Trees, u: Trees, e: Event, c: Context, f: Effect) {
    && Canonical(c.root)
    && match Place(c, e.path)
       case None => u == t && f == Effect(Invalid, false, false, None)
       case Some(x) => StepAt(source, t, u, e, x, c.stamp, c.room, c.fault, f)
  }

  /** An event may fail on a system that refuses nothing: it has no place, something stands in its way, names that are
      not plain would be copied across devices, or no name is found beside the restore area. */
  ghost predicate ExcusedAt(source: Tree, t: Trees, e: Event, c: Context, named: bool) {
    match Place(c, e.path)
    case None => true
    case Some(x) =>
      if e.kind == Delete && x == [] then !named
      else Blocked(source, t, e, x, c.stamp, c.room) || (e.kind == Delete && !PlainBelow(t.backup, x))
  }

  /** On a system that refuses nothing, a file event whose place is not in the way leaves the file of the source there,
      or found it up to date; and an event about no regular file changes nothing and succeeds. */
  lemma FileArrives(source: Tree, t: Trees, u: Trees, e: Event, c: Context, f: Effect, x: Path)
    requires Step(source, t, u, e, c, f) && e.kind != Delete && !e.directory && Place(c, e.path) == Some(x) && !c.fault
    ensures IsFile(source, e.path) && CanPut(t.backup, x, source[e.path]) ==>
              && f.result == OK && x in u.backup && Signature(u.backup[x]) == Signature(source[e.path])
              && (Differs(source[e.path], t.backup, x) ==> f.copied && u.backup[x] == source[e.path])
    ensures !IsFile(source, e.path) ==> f.result == OK && f.skipped && u == t
  {
    if f.copied {
      PutAt(t.backup, x, source[e.path], x);
    }
  }

  /** An event is invalid exactly when it has no place. */
  lemma InvalidIff(source: Tree, t: Trees, u: Trees, e: Event, c: Context, f: Effect)
    requires Step(source, t, u, e, c, f)
    ensures f.result == Invalid <==> Place(c, e.path) == None
    ensures f.result == Invalid ==> u == t
  {
  }

  /** The path texts of an event, in the source and in the two other trees, fit in their buffers. */
  predicate PathsFit(source: Path, backup: Path, restore: Path, p: Path) {
    && |Text(source + p)| < PATH_MAX
    && match Landing(source, p)
       case None => true
       case Some(x) =>
         && |Text(backup)| + 1 + |RelativeText(x)| < PATH_MAX
         && |Text(restore)| + 1 + |RelativeText(x)| < PATH_MAX
  }

  /** What the buffer for the restore path leaves for the last component and its terminator. */
  function Room(restore: Path, x: Path): nat
    requires x != []
  {
    var above := |Slashed(restore + Parent(x))| + 1;
    if above < PATH_MAX then PATH_MAX - above else 0
  }

  /** A name has room exactly when the text of the whole path fits. */
  lemma RoomIsLength(restore: Path, x: Path, dest: Path)
    requires x != [] && dest != [] && Parent(dest) == Parent(x)
    ensures LastLength(dest) < Room(restore, x) <==> |Text(restore + dest)| < PATH_MAX
  {
    var all := restore + dest;
    assert all[..|all| - 1] == restore + Parent(dest);
  }

  /** The texts that `syseba_relative_path` and `syseba_safe_join` compute for an event are those of its
      place below the two roots, and both exist exactly when the event has a place. */
  lemma PlaceIsTarget(c: Context, backup: Path, restore: Path, p: Path, cwd: Option<string>)
    requires Canonical(c.root) && Canonical(backup) && Canonical(restore)
    requires c.root + p != [] && c.fits == PathsFit(c.root, backup, restore, p)
    ensures var b, r := TargetText(c.root, backup, Text(c.root + p), cwd),
                        TargetText(c.root, restore, Text(c.root + p), cwd);
            && (Place(c, p).Some? <==> b.Some? && r.Some?)
            && (Place(c, p).Some? ==> b == Some(Text(backup + Place(c, p).value))
                                      && r == Some(Text(restore + Place(c, p).value)))
  {
    EventText(c.root, p, cwd);
  }

  // ---------------------------------------------------------------------------
  // Counters
  // ---------------------------------------------------------------------------

  datatype Stats = Stats(copied: nat, updated: nat, deleted: nat, skipped: nat,
                         initialDone: nat, initialCopied: nat, initialSkipped: nat)

  function One(b: bool): nat {
    if b then 1 else 0
  }

  function StatsAfter(s: Stats, e: Event, f: Effect): Stats {
    var progress := e.initial && !e.directory && f.result != Invalid;
    Stats(s.copied + One(f.copied && e.kind == Create),
          s.updated + One(f.copied && e.kind == Modify),
          s.deleted + One(f.result == OK && (f.dest.Some? || f.beside)),
          s.skipped + One(f.skipped),
          s.initialDone + One(progress),
          s.initialCopied + One(progress && f.copied),
          s.initialSkipped + One(progress && f.skipped))
  }

  class App {
    const source: Volume
    const backup: Volume
    const restore: Volume
    var stats: Stats

    constructor (source: Volume, backup: Volume, restore: Volume)
      ensures this.source == source && this.backup == backup && this.restore == restore
      ensures stats == Stats(0, 0, 0, 0, 0, 0, 0)
    {
      this.source, this.backup, this.restore := source, backup, restore;
      stats := Stats(0, 0, 0, 0, 0, 0, 0);
    }

    ghost predicate Valid()
      reads source, backup, restore
    {
      && source != backup && backup != restore && source != restore
      && Canonical(source.root) && Canonical(backup.root) && Canonical(restore.root)
      && WellFormed(source.tree) && WellFormed(backup.tree) && WellFormed(restore.tree) && [] in restore.tree
    }

    function PathContext(stamp: string, fault: bool, p: Path): Context {
      var x := Landing(source.root, p);
      var room := if x == None || x.value == [] then 0 else Room(restore.root, x.value);
      Context(stamp, room, source.root, PathsFit(source.root, backup.root, restore.root, p), fault)
    }

    ghost function State(): Trees
      reads backup, restore
    {
      Trees(backup.tree, restore.tree)
    }

    /** `crossDevice` says whether backup and restore are on different devices, `mayFail` whether the system may refuse
        a call, and `named` whether a name beside the restore area is found
        when the whole of backup is moved there. */
    method ProcessEvent(e: Event, stamp: string, crossDevice: bool, mayFail: bool, named: bool)
      returns (f: Effect, fault: bool)
      requires Valid()
      modifies `stats, backup, restore
      ensures Valid() && source.tree == old(source.tree)
      ensures Step(source.tree, old(State()), State(), e, PathContext(stamp, fault, e.path), f)
      ensures stats == StatsAfter(old(stats), e, f)
      ensures fault ==> mayFail
      ensures f.result != OK && !mayFail ==>
                ExcusedAt(source.tree, old(State()), e, PathContext(stamp, fault, e.path), named)
    {
      fault := false;
      var c := PathContext(stamp, false, e.path);
      var x := Place(c, e.path);
      if x == None {
        return Effect(Invalid, false, false, None), false;
      }
      LandsAtHome(source.root, e.path);
      f, fault := ProcessAt(e, x.value, stamp, c.room, crossDevice, mayFail, named);
      Count(e, f);
    }

    /** The event takes effect at `x`. */
    method ProcessAt(e: Event, x: Path, stamp: string, room: nat, crossDevice: bool, mayFail: bool, named: bool)
      returns (f: Effect, fault: bool)
      requires Valid() && Canonical(x)
      modifies backup, restore
      ensures Valid() && f.result != Invalid
      ensures StepAt(source.tree, old(State()), State(), e, x, stamp, room, fault, f)
      ensures fault ==> mayFail
      ensures e.kind == Delete && x == [] && f.result != OK ==> mayFail || !named
    {
      if e.kind == Delete {
        if x == [] {
          f, fault := DeleteRoot(e, stamp, room, crossDevice, mayFail, named);
        } else {
          f, fault := DeleteBackup(e, x, stamp, room, crossDevice, mayFail);
        }
      } else if e.directory {
        f, fault := UpsertDir(e, x, stamp, room, mayFail);
      } else {
        f, fault := UpsertFile(e, x, stamp, room, mayFail);
      }
    }

    /** The counters an event moves, in the order in which the code moves them. */
    method Count(e: Event, f: Effect)
      requires f.result != Invalid
      modifies `stats
      ensures stats == StatsAfter(old(stats), e, f)
    {
      if f.skipped {
        stats := stats.(skipped := stats.skipped + 1);
      }
      if f.copied && e.kind == Create {
        stats := stats.(copied := stats.copied + 1);
      }
      if f.copied && e.kind == Modify {
        stats := stats.(updated := stats.updated + 1);
      }
      if f.result == OK && (f.dest.Some? || f.beside) {
        stats := stats.(deleted := stats.deleted + 1);
      }
      if e.initial && !e.directory {
        stats := stats.(initialDone := stats.initialDone + 1);
        if f.copied {
          stats := stats.(initialCopied := stats.initialCopied + 1);
        }
        if f.skipped {
          stats := stats.(initialSkipped := stats.initialSkipped + 1);
        }
      }
    }

    method UpsertDir(e: Event, x: Path, ghost stamp: string, ghost room: nat, mayFail: bool)
      returns (f: Effect, fault: bool)
      requires Valid() && e.kind != Delete && e.directory
      modifies backup
      ensures Valid() && f.result != Invalid
      ensures StepAt(source.tree, old(State()), State(), e, x, stamp, room, fault, f)
      ensures fault ==> mayFail
    {
      var ok;
      ok, fault := backup.Mkdirs(x, mayFail);
      f := Effect(if ok then OK else Err, false, false, None);
    }

    method UpsertFile(e: Event, x: Path, ghost stamp: string, ghost room: nat, mayFail: bool)
      returns (f: Effect, fault: bool)
      requires Valid() && e.kind != Delete && !e.directory
      modifies backup
      ensures Valid() && f.result != Invalid
      ensures StepAt(source.tree, old(State()), State(), e, x, stamp, room, fault, f)
      ensures fault ==> mayFail
    {
      var p := e.path;
      fault := false;
      if !IsFile(source.tree, p) || !Differs(source.tree[p], backup.tree, x) {
        return Effect(OK, false, true, None), false;
      }
      var ok;
      ok, fault := backup.CopyFile(source.tree[p], x, mayFail);
      if !ok {
        var missing: bool := *;
        return Effect(if missing then NotFound else Err, false, false, None), fault;
      }
      f := Effect(OK, true, false, None);
    }

    /** The name that is found lies beside the restore area. */
    method DeleteRoot(e: Event, ghost stamp: string, ghost room: nat, crossDevice: bool, mayFail: bool, named: bool)
      returns (f: Effect, fault: bool)
      requires Valid() && e.kind == Delete
      modifies backup
      ensures Valid() && f.result != Invalid
      ensures StepAt(source.tree, old(State()), State(), e, [], stamp, room, fault, f)
      ensures fault ==> mayFail
      ensures f.result != OK ==> mayFail || !named
    {
      fault := false;
      if [] !in backup.tree {
        return Effect(OK, false, false, None), false;
      }
      if !named {
        return Effect(Err, false, false, None), false;
      }
      var ok;
      ghost var removing;
      ok, removing := MoveAside(backup, crossDevice, mayFail);
      fault := !ok;
      f := Effect(if ok then OK else Err, false, false, None, beside := ok);
    }

    method DeleteBackup(e: Event, x: Path, stamp: string, room: nat, crossDevice: bool, mayFail: bool)
      returns (f: Effect, fault: bool)
      requires Valid() && x != [] && e.kind == Delete && Canonical(x)
      modifies backup, restore
      ensures Valid() && f.result != Invalid
      ensures StepAt(source.tree, old(State()), State(), e, x, stamp, room, fault, f)
      ensures fault ==> mayFail
    {
      if x !in backup.tree {
        return Effect(OK, false, false, None), false;
      }
      var named, dest := UniqueRestorePath(restore.tree, x, stamp, room);
      if !named {
        return Effect(Err, false, false, None), false;
      }
      ghost var t := State();
      var ok;
      ghost var copying, removing, listing;
      ok, fault, copying, removing, listing := MovePath(backup, restore, x, dest, crossDevice, mayFail);
      f := Effect(if ok then OK else Err, false, false, Some(dest));
      DeleteMoves(source.tree, t, State(), e, x, stamp, room, fault, f);
    }
  }

  lemma DeleteMoves(source: Tree, t: Trees, u: Trees, e: Event, x: Path, stamp: string, room: nat, fault: bool,
                    f: Effect)
    requires e.kind == Delete && x != [] && x in t.backup
    requires f.dest.Some? && f == Effect(f.result, false, false, f.dest) && f.result in {OK, Err}
    requires Picks(t.restore, x, stamp, room, f.dest.value)
    requires MoveSafe(t.backup, t.restore, u.backup, u.restore, x, f.dest.value)
    requires f.result == OK ==> u.backup == Without(t.backup, x)
    requires f.result == OK && PlainBelow(t.backup, x) ==>
               Moved(t.backup, t.restore, u.backup, u.restore, x, f.dest.value)
    requires f.result == Err && !fault && PlainBelow(t.backup, x) ==>
               !NoFileAbove(t.restore, f.dest.value, |f.dest.value|)
    ensures StepAt(source, t, u, e, x, stamp, room, fault, f)
  {
    SameDirectory(t.restore, x, f.dest.value);
  }

  lemma SameDirectory(t: Tree, p: Path, q: Path)
    requires p != [] && q != [] && Parent(p) == Parent(q)
    ensures NoFileAbove(t, p, |p|) <==> NoFileAbove(t, q, |q|)
  {
    NoFileAboveParent(t, p);
    NoFileAboveParent(t, q);
  }
}
