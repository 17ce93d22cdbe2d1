/** What processing an event writes, and that it stays apart from the source (src/app.c, src/fs.c, src/config.c). */
module Footprint {
  import opened Wrappers
  import opened PathText
  import opened PathReal
  import opened Containment
  import opened Joining
  import opened FileTree
  import opened Transfer
  import opened Events
  import opened Engine
  import opened EngineRuns
  import opened Decimal
  import Separation

  // ---------------------------------------------------------------------------
  // Names with a suffix
  // ---------------------------------------------------------------------------

  /** What may be glued to a file name: the mark of a temporary file, a time stamp, a counter. */
  predicate FileSuffix(s: string) {
    '/' !in s && '\\' !in s
  }

  function TemporarySuffix(pid: nat, now: nat, attempt: nat): string {
    ".syseba-tmp." + Print(pid) + "." + Print(now) + "." + Print(attempt)
  }

  lemma TemporaryIsSuffix(pid: nat, now: nat, attempt: nat)
    ensures FileSuffix(TemporarySuffix(pid, now, attempt))
  {
    assert '/' !in ".syseba-tmp." && '\\' !in ".syseba-tmp.";
    assert forall n: nat :: '/' !in Print(n) && '\\' !in Print(n);
  }

  function CandidateSuffix(stamp: string, counter: nat): string {
    if counter == 0 then "." + stamp else "." + stamp + "." + Print(counter)
  }

  function Suffixed(parts: seq<string>, s: string): (r: seq<string>)
    requires parts != []
    ensures r != []
  {
    parts[..|parts| - 1] + [parts[|parts| - 1] + s]
  }

  lemma NotDots(name: string, s: string)
    requires IsComponent(name)
    ensures name + s != "." && name + s != ".."
  {
    assert (name + s)[..|name|] == name;
    assert ".."[..1] == "." && ".."[..2] == ".." && "."[..1] == ".";
  }

  /** Gluing a suffix to the text of a path renames its last component and stays in its directory. */
  lemma SuffixStaysInDirectory(parts: seq<string>, s: string)
    requires Canonical(parts) && parts != [] && FileSuffix(s)
    ensures Canonical(Suffixed(parts, s)) && Components(Text(parts) + s) == Suffixed(parts, s)
  {
    var n := |parts| - 1;
    assert IsComponent(parts[n]);
    var renamed := Suffixed(parts, s);
    forall i | 0 <= i < |renamed|
      ensures IsComponent(renamed[i])
    {
      if i < n {
        assert renamed[i] == parts[i];
      } else {
        NotDots(parts[n], s);
      }
    }
    assert renamed[..n] == parts[..n];
    assert Text(renamed) == Slashed(parts[..n]) + "/" + (parts[n] + s);
    assert Text(parts) + s == Slashed(parts[..n]) + "/" + (parts[n] + s);
    ComponentsOfText(renamed);
  }

  lemma SuffixBelow(root: Path, y: Path, s: string)
    requires Canonical(root) && Canonical(y) && y != [] && FileSuffix(s)
    ensures Components(Text(root + y) + s) == root + Suffixed(y, s)
  {
    SuffixStaysInDirectory(root + y, s);
    assert Suffixed(root + y, s) == root + Suffixed(y, s);
  }

  /** The text that the search for a restore name prints is that of the candidate below the restore root. */
  lemma CandidateText(restore: Path, x: Path, stamp: string, counter: nat)
    requires Canonical(restore) && Canonical(x) && x != [] && FileSuffix(stamp)
    ensures Components(Text(restore + x) + CandidateSuffix(stamp, counter)) == restore + Candidate(x, stamp, counter)
  {
    CandidateIsSuffix(stamp, counter);
    CandidateIsSuffixed(x, stamp, counter);
    SuffixBelow(restore, x, CandidateSuffix(stamp, counter));
  }

  lemma CandidateIsSuffix(stamp: string, counter: nat)
    requires FileSuffix(stamp)
    ensures FileSuffix(CandidateSuffix(stamp, counter))
  {
    assert '/' !in Print(counter) && '\\' !in Print(counter);
  }

  lemma CandidateIsSuffixed(x: Path, stamp: string, counter: nat)
    requires x != []
    ensures Candidate(x, stamp, counter) == Suffixed(x, CandidateSuffix(stamp, counter))
  {
    var name := x[|x| - 1];
    assert name + "." + stamp == name + ("." + stamp);
    assert name + "." + stamp + "." + Print(counter) == name + ("." + stamp + "." + Print(counter));
  }

  // ---------------------------------------------------------------------------
  // What a step changes
  // ---------------------------------------------------------------------------

  /** Processing an event changes backup only at, above or below the place of the event. */
  lemma BackupChangesNear(t: Trees, u: Trees, r: Record, q: Path)
    requires StepOf(t, u, r) && !SameAt(t.backup, u.backup, q)
    ensures At(r).Some? && Near(q, At(r).value)
  {
    if r.event.kind != Delete {
      UpsertTouches(t, u, r, q);
    } else {
      assert At(r).value <= q;
    }
  }

  /** It changes restore only when it deletes, and only at, above or below the name that was found: the place of the
      event or a stamped name beside it. */
  lemma RestoreChangesNear(t: Trees, u: Trees, r: Record, q: Path)
    requires StepOf(t, u, r) && !SameAt(t.restore, u.restore, q)
    ensures r.event.kind == Delete && At(r).Some? && At(r).value != [] && r.effect.dest.Some?
    ensures Near(q, r.effect.dest.value) && r.effect.dest.value != []
    ensures var x, dest := At(r).value, r.effect.dest.value;
            dest == x || exists c: nat :: c < MAX_CANDIDATES && dest == Candidate(x, r.context.stamp, c)
  {
  }

  // ---------------------------------------------------------------------------
  // On the disk
  // ---------------------------------------------------------------------------

  /** `p` is a temporary file for the file at `y` below `root`. */
  ghost predicate Temporary(root: Path, y: Path, p: Path) {
    exists pid, now, attempt :: p == Components(Text(root + y) + TemporarySuffix(pid, now, attempt))
  }

  /** The event copies its file, whether it succeeds or not. */
  ghost predicate Copies(t: Trees, r: Record) {
    && r.event.kind != Delete && !r.event.directory && At(r).Some?
    && IsFile(r.source, r.event.path) && Differs(r.source[r.event.path], t.backup, At(r).value)
  }

  /** The event moves the whole of backup away. */
  ghost predicate MovesAll(t: Trees, r: Record) {
    r.event.kind == Delete && At(r) == Some([]) && [] in t.backup
  }

  /** The absolute paths in backup that the step writes: what is different afterwards, and the temporaries of the
      copy. */
  ghost predicate WritesBackup(root: Path, t: Trees, u: Trees, r: Record, p: Path) {
    || (exists q :: p == root + q && !SameAt(t.backup, u.backup, q))
    || (Copies(t, r) && Temporary(root, At(r).value, p))
  }

  /** A name that the search tries for the restore area itself. */
  ghost predicate StampedRoot(root: Path, stamp: string, p: Path) {
    exists c: nat :: c < MAX_CANDIDATES && p == Components(Text(root) + CandidateSuffix(stamp, c))
  }

  /** The absolute paths that the step writes for restore: what is different afterwards, the temporaries of the files
      below the name that was found, which are copied when the move crosses devices, and the place of the whole of
      backup when that is moved. */
  ghost predicate WritesRestore(root: Path, t: Trees, u: Trees, r: Record, p: Path) {
    || (exists q :: p == root + q && !SameAt(t.restore, u.restore, q))
    || (r.event.kind == Delete && r.effect.dest.Some?
        && exists y :: r.effect.dest.value <= y && y != [] && Canonical(y) && Temporary(root, y, p))
    || (MovesAll(t, r) && StampedRoot(root, r.context.stamp, p))
  }

  lemma TemporaryIsBelow(root: Path, y: Path, p: Path)
    requires Canonical(root) && Canonical(y) && y != [] && Temporary(root, y, p)
    ensures root + Parent(y) <= p && |p| == |root + y|
  {
    var pid, now, attempt :| p == Components(Text(root + y) + TemporarySuffix(pid, now, attempt));
    TemporaryIsSuffix(pid, now, attempt);
    SuffixBelow(root, y, TemporarySuffix(pid, now, attempt));
  }

  /** A suffix on the root of an area leads out of the area. */
  lemma SuffixOnRoot(root: Path, s: string)
    requires Canonical(root) && root != [] && FileSuffix(s) && s != []
    ensures !(root <= Components(Text(root) + s))
  {
    SuffixStaysInDirectory(root, s);
    var p, n := Suffixed(root, s), |root| - 1;
    assert p[n] == root[n] + s;
    assert |p[n]| != |root[n]|;
  }

  /** So do the temporaries of a copy whose target is the root. */
  lemma TemporaryOfRoot(root: Path, p: Path)
    requires Canonical(root) && root != [] && Temporary(root, [], p)
    ensures !(root <= p)
  {
    assert root + [] == root;
    var pid, now, attempt :| p == Components(Text(root + []) + TemporarySuffix(pid, now, attempt));
    TemporaryIsSuffix(pid, now, attempt);
    SuffixOnRoot(root, TemporarySuffix(pid, now, attempt));
  }

  lemma StampedRootIsOutside(root: Path, stamp: string, p: Path)
    requires Canonical(root) && root != [] && FileSuffix(stamp) && StampedRoot(root, stamp, p)
    ensures !(root <= p)
  {
    var c: nat :| c < MAX_CANDIDATES && p == Components(Text(root) + CandidateSuffix(stamp, c));
    CandidateIsSuffix(stamp, c);
    SuffixOnRoot(root, CandidateSuffix(stamp, c));
  }

  lemma NearOnDisk(root: Path, q: Path, x: Path)
    requires x != [] && Near(q, x)
    ensures root <= root + q && (root + q <= root + x || root + Parent(x) <= root + q)
  {
    if q <= x {
      assert root + x == root + q + x[|q|..];
    } else {
      assert q == Parent(x) + q[|x| - 1..];
      assert root + q == root + Parent(x) + q[|x| - 1..];
    }
  }

  /** In backup an event below the root writes at or above its target, or in the directory of its target. */
  lemma BackupWrites(root: Path, t: Trees, u: Trees, r: Record, p: Path)
    requires Canonical(root) && StepOf(t, u, r) && WritesBackup(root, t, u, r, p) && At(r) != Some([])
    ensures At(r).Some? && root <= p
    ensures p <= root + At(r).value || root + Parent(At(r).value) <= p
  {
    AtIsPlain(r);
    if q :| p == root + q && !SameAt(t.backup, u.backup, q) {
      BackupChangesNear(t, u, r, q);
      NearOnDisk(root, q, At(r).value);
    } else {
      TemporaryIsBelow(root, At(r).value, p);
    }
  }

  /** Everything that an event writes for backup lies in backup if and only if it does not copy a file to the root. */
  lemma BackupWritesInsideIff(root: Path, t: Trees, u: Trees, r: Record)
    requires Canonical(root) && root != [] && StepOf(t, u, r)
    ensures (forall p :: WritesBackup(root, t, u, r, p) ==> root <= p) <==> !(Copies(t, r) && At(r) == Some([]))
  {
    if Copies(t, r) && At(r) == Some([]) {
      var p := Components(Text(root + []) + TemporarySuffix(0, 0, 0));
      assert Temporary(root, [], p);
      TemporaryOfRoot(root, p);
      assert WritesBackup(root, t, u, r, p);
    } else {
      forall p | WritesBackup(root, t, u, r, p)
        ensures root <= p
      {
        if At(r) != Some([]) {
          BackupWrites(root, t, u, r, p);
        }
      }
    }
  }

  /** In restore an event writes at or above the name that was found, or in its directory. */
  lemma RestoreWrites(root: Path, t: Trees, u: Trees, r: Record, p: Path)
    requires Canonical(root) && StepOf(t, u, r) && WritesRestore(root, t, u, r, p) && !MovesAll(t, r)
    ensures r.event.kind == Delete && r.effect.dest.Some? && r.effect.dest.value != [] && root <= p
    ensures p <= root + r.effect.dest.value || root + Parent(r.effect.dest.value) <= p
  {
    if q :| p == root + q && !SameAt(t.restore, u.restore, q) {
      RestoreChangesNear(t, u, r, q);
      NearOnDisk(root, q, r.effect.dest.value);
    } else {
      DestinationIsBelow(t, u, r);
      TemporariesBelow(root, r.effect.dest.value, p);
    }
  }

  lemma DestinationIsBelow(t: Trees, u: Trees, r: Record)
    requires StepOf(t, u, r) && r.event.kind == Delete && r.effect.dest.Some?
    ensures r.effect.dest.value != []
  {
  }

  lemma TemporariesBelow(root: Path, dest: Path, p: Path)
    requires Canonical(root) && dest != []
    requires exists y :: dest <= y && y != [] && Canonical(y) && Temporary(root, y, p)
    ensures root <= p && root + Parent(dest) <= p
  {
    var y :| dest <= y && y != [] && Canonical(y) && Temporary(root, y, p);
    TemporaryIsBelow(root, y, p);
    assert Parent(dest) <= Parent(y);
    assert root + Parent(dest) <= root + Parent(y);
  }

  /** Everything that an event writes for restore lies in restore if and only if it does not move the whole of backup
      away. */
  lemma RestoreWritesInsideIff(root: Path, t: Trees, u: Trees, r: Record)
    requires Canonical(root) && root != [] && StepOf(t, u, r) && FileSuffix(r.context.stamp)
    ensures (forall p :: WritesRestore(root, t, u, r, p) ==> root <= p) <==> !MovesAll(t, r)
  {
    if MovesAll(t, r) {
      var p := Components(Text(root) + CandidateSuffix(r.context.stamp, 0));
      assert StampedRoot(root, r.context.stamp, p);
      StampedRootIsOutside(root, r.context.stamp, p);
      assert WritesRestore(root, t, u, r, p);
    } else {
      forall p | WritesRestore(root, t, u, r, p)
        ensures root <= p
      {
        RestoreWrites(root, t, u, r, p);
      }
    }
  }

  /** With an accepted configuration, whatever any event below the root writes, by whichever step of whichever run, lies
      under backup or under restore; it is neither in, nor above, the source; and what one event writes in backup is
      neither in, nor above, what another writes in restore. */
  lemma WritesStayApart(disk: Disk, c: Separation.Config, t: Trees, u: Trees, r: Record, p: Path,
                        t': Trees, u': Trees, r': Record, p': Path)
    requires LinkFree(disk) && Separation.Normalized(c) && Separation.Acceptable(disk, c)
    requires StepOf(t, u, r) && WritesBackup(Components(c.backup), t, u, r, p)
    requires StepOf(t', u', r') && WritesRestore(Components(c.restore), t', u', r', p')
    requires !(Copies(t, r) && At(r) == Some([])) && !MovesAll(t', r')
    ensures Components(c.backup) <= p && Components(c.restore) <= p'
    ensures Separation.Apart(Components(c.source), p) && Separation.Apart(Components(c.source), p')
    ensures Separation.Apart(p, p')
  {
    var source, backup, restore := Components(c.source), Components(c.backup), Components(c.restore);
    Separation.RootsApart(disk, c);
    NormalIsCanonical(c.backup);
    NormalIsCanonical(c.restore);
    assert backup != [] && restore != [];
    BackupWritesInsideIff(backup, t, u, r);
    RestoreWrites(restore, t', u', r', p');
    Separation.ApartBelow(source, backup, source, p);
    Separation.ApartBelow(source, restore, source, p');
    Separation.ApartBelow(backup, restore, p, p');
  }

  /** The file `x\..` of the source: copying it writes beside backup, and deleting it moves backup beside restore. */
  lemma DotDotWritesOutside(backup: Path, restore: Path, t: Trees, u: Trees, r: Record, x: Name)
    requires Canonical(backup) && backup != [] && Canonical(restore) && restore != [] && FileSuffix(r.context.stamp)
    requires StepOf(t, u, r) && r.event.path == [x + "\\" + ".."] && IsComponent(x) && r.context.fits
    requires !r.event.directory && Rooted(t.backup) && (r.event.kind != Delete ==> IsFile(r.source, r.event.path))
    ensures r.event.kind != Delete ==> exists p :: WritesBackup(backup, t, u, r, p) && !(backup <= p)
    ensures r.event.kind == Delete ==> exists p :: WritesRestore(restore, t, u, r, p) && !(restore <= p)
  {
    RootIsATarget(r.context.root, x);
    if r.event.kind != Delete {
      BackupWritesInsideIff(backup, t, u, r);
    } else {
      RestoreWritesInsideIff(restore, t, u, r);
    }
  }
}
