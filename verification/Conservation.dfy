/** Deletions only move data: nothing in restore is ever changed or removed, and
    nothing leaves backup except into restore or under a newer copy. */
module Conservation {
  import opened Wrappers
  import opened PathText
  import opened Joining
  import opened FileTree
  import opened Transfer
  import opened Events
  import opened Engine
  import opened EngineRuns

  /** Over every run, with any names, any faults and any changes of the source in
      between, restore keeps all it has. */
  lemma {:induction false} RestoreKeepsAll(t: Trees, records: seq<Record>, u: Trees)
    requires Run(t, records, u)
    ensures Keeps(t.restore, u.restore)
  {
    if records != [] {
      var m :| Run(t, Front(records), m) && StepOf(m, u, Last(records));
      RestoreKeepsAll(t, Front(records), m);
      StepKeepsRestore(m, u, Last(records));
    }
  }

  lemma StepKeepsRestore(t: Trees, u: Trees, r: Record)
    requires StepOf(t, u, r)
    ensures Keeps(t.restore, u.restore)
  {
  }

  /** A successful delete below the root takes out of backup exactly the subtree of its place, and adds
      to restore exactly that subtree, at a free place in the same directory, together
      with the missing directories above it. */
  lemma DeleteMovesExactly(t: Trees, u: Trees, r: Record, x: Path, q: Path)
    requires StepOf(t, u, r) && r.event.kind == Delete && r.effect.result == OK
    requires At(r) == Some(x) && x in t.backup && x != [] && PlainBelow(t.backup, x)
    ensures r.effect.dest.Some?
    ensures var dest := r.effect.dest.value;
            && dest != [] && Parent(dest) == Parent(x) && dest !in t.restore
            && (q in u.backup <==> q in t.backup && !(x <= q))
            && (q in u.backup ==> u.backup[q] == t.backup[q])
            && (q in u.restore <==>
                  q in t.restore || q <= Parent(dest) || Grafted(t.backup, x, dest, q))
            && (Grafted(t.backup, x, dest, q) ==> u.restore[q] == t.backup[Rebase(dest, x, q)])
            && (q in u.restore && q !in t.restore && !Grafted(t.backup, x, dest, q) ==> u.restore[q] == Dir)
  {
    var dest := r.effect.dest.value;
    GraftAt(Base(t.restore, dest), t.backup, x, dest, q);
    WithDirsAt(t.restore, Parent(dest), |dest| - 1, q);
  }

  /** The event was to put a file at `q`, and did not find it up to date. */
  ghost predicate PutsFile(r: Record, q: Path) {
    && r.event.kind != Delete && !r.event.directory && At(r) == Some(q)
    && IsFile(r.source, r.event.path) && !r.effect.skipped
  }

  /** At some point of the run an event put the whole file of the source at `q`. */
  ghost predicate Replaced(t: Trees, records: seq<Record>, q: Path) {
    exists k: nat, m :: ReplacedBy(t, records, k, m, q)
  }

  /** Event `k` did so, and led to `m`. */
  ghost predicate ReplacedBy(t: Trees, records: seq<Record>, k: nat, m: Trees, q: Path) {
    && k < |records| && Run(t, records[..k + 1], m) && PutsFile(records[k], q)
    && q in m.backup && m.backup[q] == records[k].source[records[k].event.path]
  }

  ghost predicate Archived(restore: Tree, file: Node) {
    exists q :: q in restore && restore[q] == file
  }

  lemma ReplacedStays(t: Trees, records: seq<Record>, q: Path)
    requires records != [] && Replaced(t, Front(records), q)
    ensures Replaced(t, records, q)
  {
    var k: nat, m :| ReplacedBy(t, Front(records), k, m, q);
    SameFront(records, k);
    SameReplacement(t, Front(records), records, k, m, q);
  }

  lemma SameFront(records: seq<Record>, k: nat)
    requires k + 1 < |records|
    ensures records[..k + 1] == Front(records)[..k + 1] && records[k] == Front(records)[k]
  {
  }

  lemma SameReplacement(t: Trees, a: seq<Record>, b: seq<Record>, k: nat, m: Trees, q: Path)
    requires ReplacedBy(t, a, k, m, q) && k < |b| && a[..k + 1] == b[..k + 1] && a[k] == b[k]
    ensures ReplacedBy(t, b, k, m, q)
  {
  }

  lemma ReplacedNow(t: Trees, records: seq<Record>, u: Trees, q: Path)
    requires records != [] && Run(t, records, u) && PutsFile(Last(records), q)
    requires q in u.backup && u.backup[q] == Last(records).source[Last(records).event.path]
    ensures Replaced(t, records, q)
  {
    var k := |records| - 1;
    assert records[..k + 1] == records && records[k] == Last(records);
    assert ReplacedBy(t, records, k, u, q);
  }

  /** No delete of the run takes effect at the root of backup. */
  ghost predicate SparesRoot(records: seq<Record>) {
    forall r :: r in records && r.event.kind == Delete ==> At(r) != Some([])
  }

  /** What was a file in backup is still there, or is in restore, or an event put the whole newer file of the
      source in its place.  This holds after every run without a delete at the root. */
  lemma {:induction false} NothingIsLost(t: Trees, records: seq<Record>, u: Trees, q: Path)
    requires Sound(t) && Run(t, records, u) && Movable(t.backup, records) && SparesRoot(records)
    requires IsFile(t.backup, q)
    ensures || (q in u.backup && u.backup[q] == t.backup[q])
            || Archived(u.restore, t.backup[q])
            || Replaced(t, records, q)
  {
    if records != [] {
      var before, r := Front(records), Last(records);
      var m :| Run(t, before, m) && StepOf(m, u, r);
      LastRecord(records);
      NothingIsLost(t, before, m, q);
      StepKeepsRestore(m, u, r);
      if Replaced(t, before, q) {
        ReplacedStays(t, records, q);
      } else if !Archived(m.restore, t.backup[q]) {
        if r.event.kind == Delete && At(r).Some? {
          StaysPlainBelow(t, before, m, At(r).value);
        }
        StepLosesNothing(m, u, r, q);
        if PutsFile(r, q) && q in u.backup && u.backup[q] == r.source[r.event.path] {
          ReplacedNow(t, records, u, q);
        }
      }
    }
  }

  lemma StepLosesNothing(t: Trees, u: Trees, r: Record, q: Path)
    requires StepOf(t, u, r) && IsFile(t.backup, q)
    requires r.event.kind == Delete && At(r).Some? ==> At(r).value != [] && PlainBelow(t.backup, At(r).value)
    ensures || (q in u.backup && u.backup[q] == t.backup[q])
            || Archived(u.restore, t.backup[q])
            || (PutsFile(r, q) && q in u.backup && u.backup[q] == r.source[r.event.path])
  {
    if At(r).Some? {
      if r.event.kind == Delete {
        DeleteLosesNothing(t, u, At(r).value, r.context.stamp, r.context.room, r.effect, q);
      } else if !r.event.directory {
        FileLosesNothing(r.source, t, u, r.event.path, At(r).value, r.effect, q);
      }
    }
  }

  lemma DeleteLosesNothing(t: Trees, u: Trees, x: Path, stamp: string, room: nat, f: Effect, q: Path)
    requires x != [] && DeleteStep(t, u, x, stamp, room, f) && PlainBelow(t.backup, x) && IsFile(t.backup, q)
    ensures (q in u.backup && u.backup[q] == t.backup[q]) || Archived(u.restore, t.backup[q])
  {
    if q !in u.backup {
      var y := Rebase(x, f.dest.value, q);
      assert y in u.restore && u.restore[y] == t.backup[q];
    }
  }

  lemma FileLosesNothing(source: Tree, t: Trees, u: Trees, p: Path, x: Path, f: Effect, q: Path)
    requires FileStep(source, t, u, p, x, f) && IsFile(t.backup, q)
    ensures || (q in u.backup && u.backup[q] == t.backup[q])
            || (q == x && IsFile(source, p) && !f.skipped && q in u.backup && u.backup[q] == source[p])
  {
    if f.copied {
      PutAt(t.backup, x, source[p], q);
    }
  }

  // ---------------------------------------------------------------------------
  // Deletes at the root
  // ---------------------------------------------------------------------------

  /** After a successful delete at the root backup is gone and restore is as it was: the tree lies beside restore. */
  lemma RootDeleteTakesAll(t: Trees, u: Trees, r: Record)
    requires StepOf(t, u, r) && r.event.kind == Delete && At(r) == Some([]) && r.effect.result == OK
    ensures u.restore == t.restore && ([] in t.backup ==> u.backup == map[] && r.effect.beside)
  {
  }

  /** Every file that backup had is still there or is in restore. */
  ghost predicate Conserved(t: Trees, u: Trees) {
    forall q :: IsFile(t.backup, q) ==>
      (q in u.backup && u.backup[q] == t.backup[q]) || Archived(u.restore, t.backup[q])
  }

  /** Every file of backup is in restore already. */
  ghost predicate AllArchived(t: Trees) {
    forall q :: IsFile(t.backup, q) ==> Archived(t.restore, t.backup[q])
  }

  /** A successful delete conserves the files of backup if and only if it is not at the root, or restore had them all
      before. */
  lemma DeleteConservesIff(t: Trees, u: Trees, r: Record, x: Path)
    requires StepOf(t, u, r) && r.event.kind == Delete && r.effect.result == OK && At(r) == Some(x)
    requires x in t.backup && PlainBelow(t.backup, x)
    ensures Conserved(t, u) <==> x != [] || AllArchived(t)
  {
    if x != [] {
      forall q | IsFile(t.backup, q)
        ensures (q in u.backup && u.backup[q] == t.backup[q]) || Archived(u.restore, t.backup[q])
      {
        DeleteLosesNothing(t, u, x, r.context.stamp, r.context.room, r.effect, q);
      }
    } else {
      RootDeleteTakesAll(t, u, r);
    }
  }

  /** Deleting the file `x\..` from the source is such a delete. */
  lemma DotDotTakesAll(t: Trees, u: Trees, r: Record, x: Name)
    requires StepOf(t, u, r) && r.event.kind == Delete && r.event.path == [x + "\\" + ".."] && IsComponent(x)
    requires r.context.fits && r.effect.result == OK && [] in t.backup
    ensures u.backup == map[] && u.restore == t.restore
  {
    RootIsATarget(r.context.root, x);
    RootDeleteTakesAll(t, u, r);
  }
}
