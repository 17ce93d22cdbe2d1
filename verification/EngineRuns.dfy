/**
 Whole runs of the engine.  Events are taken in some order by any number of
 workers, each event is processed in one step, and the run is the sequence of
 those steps.  The backup tree after a run over a standing source depends on
 the set of events only, and has a closed form.

 An event takes effect where the normal form of its path lies, which is its own
 path exactly when its names are plain.  What backup follows is therefore the
 image of the source: the tree of the places at which its entries land.
 */
module EngineRuns {
  import opened Wrappers
  import opened PathText
  import opened Joining
  import opened FileTree
  import opened Transfer
  import opened Events
  import opened Engine

  /** One processed event, with the source tree as it was at that moment. */
  datatype Record = Record(source: Tree, event: Event, context: Context, effect: Effect)

  function At(r: Record): Option<Path> {
    Place(r.context, r.event.path)
  }

  ghost predicate StepOf(t: Trees, u: Trees, r: Record) {
    Step(r.source, t, u, r.event, r.context, r.effect)
  }

  /** The steps `records` lead from `t` to `u`. */
  ghost predicate Run(t: Trees, records: seq<Record>, u: Trees)
    decreases |records|
  {
    if records == [] then u == t
    else exists m :: Run(t, Front(records), m) && StepOf(m, u, Last(records))
  }

  lemma RunThen(t: Trees, records: seq<Record>, m: Trees, r: Record, u: Trees)
    requires Run(t, records, m) && StepOf(m, u, r)
    ensures Run(t, records + [r], u)
  {
    assert Front(records + [r]) == records && Last(records + [r]) == r;
  }

  /** All names in the tree are plain components, without backslashes. */
  ghost predicate PlainTree(t: Tree) {
    forall q :: q in t ==> Canonical(q)
  }

  ghost predicate Sound(t: Trees) {
    WellFormed(t.backup) && WellFormed(t.restore)
  }

  lemma AtIsPlain(r: Record)
    requires Canonical(r.context.root)
    ensures At(r).Some? ==> Canonical(At(r).value)
    ensures At(r).Some? && Canonical(r.event.path) ==> At(r).value == r.event.path
  {
    LandsAtHome(r.context.root, r.event.path);
  }

  /** Creating and modifying changes backup only at, or on the way to, the place of the event. */
  lemma UpsertTouches(t: Trees, u: Trees, r: Record, q: Path)
    requires StepOf(t, u, r) && r.event.kind != Delete && !SameAt(t.backup, u.backup, q)
    ensures At(r).Some? && q <= At(r).value && Canonical(q)
  {
    AtIsPlain(r);
    var x := At(r).value;
    if !r.event.directory {
      FileTouches(r.source, t, u, r.event.path, x, r.effect, q);
    }
    assert q == x[..|q|];
  }

  lemma FileTouches(source: Tree, t: Trees, u: Trees, p: Path, x: Path, f: Effect, q: Path)
    requires FileStep(source, t, u, p, x, f) && !SameAt(t.backup, u.backup, q)
    ensures q <= x
  {
    if f.copied {
      PutAt(t.backup, x, source[p], q);
    }
  }

  /** Whatever backup gains lies at, or on the way to, the place of the event, and has plain names. */
  lemma NewInBackup(t: Trees, u: Trees, r: Record, q: Path)
    requires StepOf(t, u, r) && q in u.backup && q !in t.backup
    ensures r.event.kind != Delete && At(r).Some? && q <= At(r).value && Canonical(q)
  {
    if r.event.kind != Delete {
      UpsertTouches(t, u, r, q);
    }
  }

  /** Every run keeps the trees well formed, and all names it adds to backup are plain. */
  lemma {:induction false} RunSound(t: Trees, records: seq<Record>, u: Trees)
    requires Sound(t) && Run(t, records, u)
    ensures Sound(u) && forall q :: q in u.backup ==> q in t.backup || Canonical(q)
  {
    if records != [] {
      var m :| Run(t, Front(records), m) && StepOf(m, u, Last(records));
      RunSound(t, Front(records), m);
      forall q | q in u.backup
        ensures q in t.backup || Canonical(q)
      {
        if q !in m.backup {
          NewInBackup(m, u, Last(records), q);
        }
      }
    }
  }

  /** Deletes move only what has plain names below their place. */
  ghost predicate Movable(backup: Tree, records: seq<Record>) {
    forall r :: r in records && r.event.kind == Delete && At(r).Some? ==> PlainBelow(backup, At(r).value)
  }

  lemma PlainIsPlainBelow(t: Tree, x: Path)
    requires PlainTree(t)
    ensures PlainBelow(t, x)
  {
  }

  lemma StaysPlainBelow(t: Trees, records: seq<Record>, u: Trees, x: Path)
    requires Sound(t) && Run(t, records, u) && PlainBelow(t.backup, x)
    ensures PlainBelow(u.backup, x)
  {
    RunSound(t, records, u);
  }

  // ---------------------------------------------------------------------------
  // The closed form
  // ---------------------------------------------------------------------------

  /** Where the events of the run took effect. */
  ghost function Upserts(records: seq<Record>): set<Path> {
    set r | r in records && r.event.kind != Delete && At(r).Some? :: At(r).value
  }

  ghost function Deletes(records: seq<Record>): set<Path> {
    set r | r in records && r.event.kind == Delete && At(r).Some? :: At(r).value
  }

  ghost predicate Covered(ups: set<Path>, q: Path) {
    exists u :: u in ups && q <= u
  }

  ghost predicate Gone(dels: set<Path>, q: Path) {
    exists d :: d in dels && d <= q
  }

  ghost predicate Present(backup: Tree, ups: set<Path>, dels: set<Path>, q: Path) {
    (q in backup && !Gone(dels, q)) || Covered(ups, q)
  }

  ghost function ValueAt(source: Tree, backup: Tree, ups: set<Path>, q: Path): Node {
    if q in ups && IsFile(source, q) && NeedsCopy(source, backup, q) then source[q]
    else if q in backup then backup[q]
    else Dir
  }

  /** What `backup` becomes when the paths `ups` are created or modified and the
      paths `dels` are deleted, whatever the order. */
  ghost function Outcome(source: Tree, backup: Tree, ups: set<Path>, dels: set<Path>): Tree {
    var keys := backup.Keys + set u, i | u in ups && 0 <= i <= |u| :: u[..i];
    map q | q in keys && Present(backup, ups, dels, q) :: ValueAt(source, backup, ups, q)
  }

  lemma OutcomeAt(source: Tree, backup: Tree, ups: set<Path>, dels: set<Path>, q: Path)
    ensures var o := Outcome(source, backup, ups, dels);
            && (q in o <==> Present(backup, ups, dels, q))
            && (q in o ==> o[q] == ValueAt(source, backup, ups, q))
  {
    if Covered(ups, q) {
      var u :| u in ups && q <= u;
      assert u[..|q|] == q;
    }
  }

  /** The event tells the truth about the tree that backup is to follow: what is created or modified is there,
      as it is in the source, and what is deleted is not. */
  ghost predicate Tells(image: Tree, r: Record) {
    match At(r)
    case None => true
    case Some(x) =>
      if r.event.kind == Delete then x !in image
      else
        && r.event.path in r.source && x in image && image[x] == r.source[r.event.path]
        && r.event.directory == image[x].Dir?
  }

  ghost predicate Tame(source: Tree, ups: set<Path>, dels: set<Path>) {
    && WellFormed(source)
    && (forall u :: u in ups ==> u in source)
    && (forall d :: d in dels ==> d !in source)
  }

  lemma StillThere(source: Tree, ups: set<Path>, dels: set<Path>, q: Path)
    requires Tame(source, ups, dels) && q in source
    ensures !Gone(dels, q)
  {
    if Gone(dels, q) {
      var d :| d in dels && d <= q;
      if d != q {
        PrefixIsDir(source, d, q);
      }
      assert false;
    }
  }

  lemma CoveredInSource(source: Tree, ups: set<Path>, dels: set<Path>, q: Path)
    requires Tame(source, ups, dels) && Covered(ups, q)
    ensures q in source && (q !in ups ==> source[q] == Dir)
  {
    var u :| u in ups && q <= u;
    if q != u {
      PrefixIsDir(source, q, u);
    }
  }

  lemma CoveredMore(ups: set<Path>, p: Path, q: Path)
    ensures Covered(ups + {p}, q) <==> Covered(ups, q) || q <= p
  {
    if q <= p {
      assert p in ups + {p};
    }
    if Covered(ups, q) {
      var u :| u in ups && q <= u;
      assert u in ups + {p};
    }
  }

  lemma GoneMore(dels: set<Path>, p: Path, q: Path)
    ensures Gone(dels + {p}, q) <==> Gone(dels, q) || p <= q
  {
    if p <= q {
      assert p in dels + {p};
    }
    if Gone(dels, q) {
      var d :| d in dels && d <= q;
      assert d in dels + {p};
    }
  }

  /** A file is copied by the first event on it, if its original state calls for it. */
  lemma CopyIsDecidedAtTheStart(source: Tree, backup: Tree, ups: set<Path>, dels: set<Path>, p: Path)
    requires Tame(source, ups, dels) && IsFile(source, p)
    ensures NeedsCopy(source, Outcome(source, backup, ups, dels), p)
            <==> p !in ups && NeedsCopy(source, backup, p)
  {
    OutcomeAt(source, backup, ups, dels, p);
    StillThere(source, ups, dels, p);
    if p in ups {
      assert Covered(ups, p);
    } else if Covered(ups, p) {
      CoveredInSource(source, ups, dels, p);
    }
  }

  lemma UpsertDirAt(source: Tree, backup: Tree, ups: set<Path>, dels: set<Path>, p: Path, q: Path)
    requires Tame(source, ups, dels) && p in source && source[p] == Dir
    ensures SameAt(WithDirs(Outcome(source, backup, ups, dels), p, |p|),
                   Outcome(source, backup, ups + {p}, dels), q)
  {
    var b := Outcome(source, backup, ups, dels);
    OutcomeAt(source, backup, ups, dels, q);
    OutcomeAt(source, backup, ups + {p}, dels, q);
    CoveredMore(ups, p, q);
    WithDirsAt(b, p, |p|, q);
    if q <= p {
      if q != p {
        PrefixIsDir(source, q, p);
      }
      StillThere(source, ups, dels, q);
    }
    if q in ups {
      assert Covered(ups, q);
    }
  }

  lemma UpsertFileAt(source: Tree, backup: Tree, ups: set<Path>, dels: set<Path>, p: Path, q: Path)
    requires Tame(source, ups, dels) && IsFile(source, p)
    requires NeedsCopy(source, Outcome(source, backup, ups, dels), p)
    ensures SameAt(Put(Outcome(source, backup, ups, dels), p, source[p]), Outcome(source, backup, ups + {p}, dels), q)
  {
    var b := Outcome(source, backup, ups, dels);
    OutcomeAt(source, backup, ups, dels, q);
    OutcomeAt(source, backup, ups + {p}, dels, q);
    CoveredMore(ups, p, q);
    CopyIsDecidedAtTheStart(source, backup, ups, dels, p);
    PutAt(b, p, source[p], q);
    if q <= p {
      if q != p {
        PrefixIsDir(source, q, p);
      }
      StillThere(source, ups, dels, q);
    }
    if q in ups {
      assert Covered(ups, q);
    }
  }

  lemma SkipFileAt(source: Tree, backup: Tree, ups: set<Path>, dels: set<Path>, p: Path, q: Path)
    requires Tame(source, ups, dels) && IsFile(source, p) && WellFormed(Outcome(source, backup, ups, dels))
    requires !NeedsCopy(source, Outcome(source, backup, ups, dels), p)
    ensures SameAt(Outcome(source, backup, ups, dels), Outcome(source, backup, ups + {p}, dels), q)
  {
    var b := Outcome(source, backup, ups, dels);
    OutcomeAt(source, backup, ups, dels, q);
    OutcomeAt(source, backup, ups + {p}, dels, q);
    CoveredMore(ups, p, q);
    CopyIsDecidedAtTheStart(source, backup, ups, dels, p);
    if q <= p && q != p {
      PrefixIsDir(b, q, p);
    }
  }

  lemma DeleteAt(source: Tree, backup: Tree, ups: set<Path>, dels: set<Path>, p: Path, q: Path)
    requires Tame(source, ups, dels) && p !in source
    requires WellFormed(Outcome(source, backup, ups, dels))
    ensures SameAt(Without(Outcome(source, backup, ups, dels), p),
                   Outcome(source, backup, ups, dels + {p}), q)
  {
    OutcomeAt(source, backup, ups, dels, q);
    OutcomeAt(source, backup, ups, dels + {p}, q);
    GoneMore(dels, p, q);
    if p <= q && Covered(ups, q) {
      CoveredInSource(source, ups, dels, q);
      StillThere(source, ups, dels + {p}, q);
      assert false;
    }
  }

  /** One successful event moves the closed form to the next one. */
  lemma OutcomeStep(source: Tree, backup: Tree, ups: set<Path>, dels: set<Path>, t: Trees, u: Trees, r: Record,
                    x: Path)
    requires Tame(source, ups, dels) && Tells(source, r) && At(r) == Some(x)
    requires WellFormed(t.backup) && t.backup == Outcome(source, backup, ups, dels)
    requires StepOf(t, u, r) && r.effect.result == OK
    ensures u.backup == if r.event.kind == Delete then Outcome(source, backup, ups, dels + {x})
                        else Outcome(source, backup, ups + {x}, dels)
  {
    if r.event.kind == Delete {
      DeleteOutcome(source, backup, ups, dels, t, u, r, x);
    } else {
      forall q ensures SameAt(u.backup, Outcome(source, backup, ups + {x}, dels), q) {
        if r.event.directory {
          UpsertDirAt(source, backup, ups, dels, x, q);
        } else if NeedsCopy(source, t.backup, x) {
          UpsertFileAt(source, backup, ups, dels, x, q);
        } else {
          SkipFileAt(source, backup, ups, dels, x, q);
        }
      }
      SameTree(u.backup, Outcome(source, backup, ups + {x}, dels));
    }
  }

  lemma DeleteOutcome(source: Tree, backup: Tree, ups: set<Path>, dels: set<Path>, t: Trees, u: Trees, r: Record,
                      x: Path)
    requires Tame(source, ups, dels) && x !in source && At(r) == Some(x)
    requires WellFormed(t.backup) && t.backup == Outcome(source, backup, ups, dels)
    requires StepOf(t, u, r) && r.event.kind == Delete && r.effect.result == OK
    ensures u.backup == Outcome(source, backup, ups, dels + {x})
  {
    if x !in t.backup {
      NothingThere(t.backup, x);
    }
    assert u.backup == Without(t.backup, x) by {
      if x == [] && x in t.backup {
        assert Without(t.backup, x) == map[];
      }
    }
    forall q ensures SameAt(u.backup, Outcome(source, backup, ups, dels + {x}), q) {
      DeleteAt(source, backup, ups, dels, x, q);
    }
    SameTree(u.backup, Outcome(source, backup, ups, dels + {x}));
  }

  lemma LastRecord(records: seq<Record>)
    requires records != []
    ensures forall r :: r in records <==> r in Front(records) || r == Last(records)
    ensures At(Last(records)).Some? ==>
              var x := At(Last(records)).value;
              if Last(records).event.kind == Delete then
                Upserts(records) == Upserts(Front(records)) && Deletes(records) == Deletes(Front(records)) + {x}
              else
                Upserts(records) == Upserts(Front(records)) + {x} && Deletes(records) == Deletes(Front(records))
  {
    assert records == Front(records) + [Last(records)];
  }

  lemma RecordsTame(source: Tree, records: seq<Record>)
    requires WellFormed(source) && forall r :: r in records ==> Tells(source, r)
    ensures Tame(source, Upserts(records), Deletes(records))
  {
  }

  lemma NoEvents(source: Tree, backup: Tree)
    ensures Outcome(source, backup, {}, {}) == backup
  {
    forall q ensures SameAt(Outcome(source, backup, {}, {}), backup, q) {
      OutcomeAt(source, backup, {}, {}, q);
    }
    SameTree(Outcome(source, backup, {}, {}), backup);
  }

  /** Every event succeeded, and told the truth about the same tree. */
  ghost predicate Smooth(image: Tree, records: seq<Record>) {
    forall r :: r in records ==> Tells(image, r) && r.effect.result == OK
  }

  lemma SuccessHasPlace(t: Trees, u: Trees, r: Record)
    requires StepOf(t, u, r) && r.effect.result == OK
    ensures At(r).Some?
  {
  }

  /** The backup tree after a run of successful events is the closed form. */
  lemma {:induction false} RunOutcome(image: Tree, t: Trees, records: seq<Record>, u: Trees)
    requires WellFormed(image) && Sound(t) && Run(t, records, u) && Smooth(image, records)
    ensures u.backup == Outcome(image, t.backup, Upserts(records), Deletes(records))
  {
    if records == [] {
      NoEvents(image, t.backup);
    } else {
      var before, r := Front(records), Last(records);
      var m :| Run(t, before, m) && StepOf(m, u, r);
      LastRecord(records);
      RunOutcome(image, t, before, m);
      RunSound(t, before, m);
      RecordsTame(image, before);
      SuccessHasPlace(m, u, r);
      OutcomeStep(image, t.backup, Upserts(before), Deletes(before), m, u, r, At(r).value);
    }
  }

  /** Confluence: the order of the events, and repeating some, does not matter, as long as there is one tree
      that all of them tell the truth about. */
  lemma Confluence(image: Tree, t: Trees, first: seq<Record>, u: Trees, second: seq<Record>, v: Trees)
    requires WellFormed(image) && Sound(t)
    requires Run(t, first, u) && Smooth(image, first)
    requires Run(t, second, v) && Smooth(image, second)
    requires Upserts(first) == Upserts(second) && Deletes(first) == Deletes(second)
    ensures u.backup == v.backup
  {
    RunOutcome(image, t, first, u);
    RunOutcome(image, t, second, v);
  }

  // ---------------------------------------------------------------------------
  // Files that share a place
  // ---------------------------------------------------------------------------

  /** A file event whose file goes into an existing directory succeeds in one way. */
  lemma CopyStep(t: Trees, r: Record, x: Path)
    requires Sound(t) && Canonical(r.context.root) && At(r) == Some(x) && x != []
    requires r.event.kind != Delete && !r.event.directory && IsFile(r.source, r.event.path)
    requires Parent(x) in t.backup && t.backup[Parent(x)] == Dir && (x in t.backup ==> IsFile(t.backup, x))
    requires Differs(r.source[r.event.path], t.backup, x) && r.effect == Effect(OK, true, false, None)
    ensures StepOf(t, Trees(t.backup[x := r.source[r.event.path]], t.restore), r)
  {
    NoFileAboveDir(t.backup, x);
    DirsInPlace(t.backup, Parent(x));
    PutWellFormed(t.backup, x, r.source[r.event.path]);
    assert Put(t.backup, x, r.source[r.event.path]) == t.backup[x := r.source[r.event.path]];
  }

  /** Two file events of different signature at one place, in the order given: the last one stays. */
  lemma CopyTwice(t: Trees, r: Record, s: Record, x: Path) returns (u: Trees)
    requires Sound(t) && Canonical(r.context.root) && Canonical(s.context.root)
    requires At(r) == At(s) == Some(x) && x != [] && r.source == s.source
    requires r.event.kind != Delete && !r.event.directory && s.event.kind != Delete && !s.event.directory
    requires IsFile(r.source, r.event.path) && IsFile(s.source, s.event.path)
    requires Signature(r.source[r.event.path]) != Signature(s.source[s.event.path])
    requires r.effect == s.effect == Effect(OK, true, false, None)
    requires x !in t.backup && Parent(x) in t.backup && t.backup[Parent(x)] == Dir
    ensures Run(t, [r, s], u) && x in u.backup && u.backup[x] == s.source[s.event.path]
  {
    CopyStep(t, r, x);
    var m := Trees(t.backup[x := r.source[r.event.path]], t.restore);
    CopyStep(m, s, x);
    u := Trees(m.backup[x := s.source[s.event.path]], m.restore);
    assert Run(t, [], t);
    RunThen(t, [], t, r, m);
    assert [] + [r] == [r] && [r] + [s] == [r, s];
    RunThen(t, [r], m, s, u);
  }

  /** Without such a tree order matters: two files of different signature that share their place leave the one
      that came last, and both orders are possible. */
  lemma OrderMatters(t: Trees, r: Record, s: Record, x: Path) returns (u: Trees, v: Trees)
    requires Sound(t) && Canonical(r.context.root) && Canonical(s.context.root)
    requires At(r) == At(s) == Some(x) && x != [] && r.source == s.source
    requires r.event.kind != Delete && !r.event.directory && s.event.kind != Delete && !s.event.directory
    requires IsFile(r.source, r.event.path) && IsFile(s.source, s.event.path)
    requires Signature(r.source[r.event.path]) != Signature(s.source[s.event.path])
    requires r.effect == s.effect == Effect(OK, true, false, None)
    requires x !in t.backup && Parent(x) in t.backup && t.backup[Parent(x)] == Dir
    ensures Run(t, [r, s], u) && Run(t, [s, r], v)
    ensures Upserts([r, s]) == Upserts([s, r]) && Deletes([r, s]) == Deletes([s, r]) && u.backup != v.backup
  {
    u := CopyTwice(t, r, s, x);
    v := CopyTwice(t, s, r, x);
    SameRecords([r, s], [s, r]);
  }

  lemma SameRecords(first: seq<Record>, second: seq<Record>)
    requires forall r :: r in first <==> r in second
    ensures Upserts(first) == Upserts(second) && Deletes(first) == Deletes(second)
  {
  }

  // ---------------------------------------------------------------------------
  // Creating and modifying never fails on its own
  // ---------------------------------------------------------------------------

  /** No path is a file in one tree and a directory in the other. */
  ghost predicate NoClash(source: Tree, backup: Tree) {
    forall q :: q in source && q in backup ==> source[q].Dir? == backup[q].Dir?
  }

  /** The event succeeded, or it creates or modifies, its path texts fit in their buffers and the system refused
      nothing. */
  predicate Untroubled(r: Record) {
    r.effect.result == OK || (r.event.kind != Delete && r.context.fits && !r.context.fault)
  }

  /** Every event takes effect at its own path. */
  ghost predicate AtHome(records: seq<Record>) {
    forall r :: r in records ==> At(r) == Some(r.event.path)
  }

  lemma PlainAtHome(t: Trees, u: Trees, r: Record)
    requires StepOf(t, u, r) && Untroubled(r) && Canonical(r.event.path)
    ensures At(r) == Some(r.event.path)
  {
    LandsAtHome(r.context.root, r.event.path);
  }

  lemma UpsertNotBlocked(source: Tree, backup: Tree, ups: set<Path>, dels: set<Path>, t: Trees, r: Record, x: Path)
    requires Tame(source, ups, dels) && NoClash(source, backup)
    requires t.backup == Outcome(source, backup, ups, dels)
    requires At(r) == Some(x) && r.event.kind != Delete && Tells(source, r)
    ensures !Blocked(r.source, t, r.event, x, r.context.stamp, r.context.room)
  {
    forall i | 0 <= i < |x|
      ensures !IsFile(t.backup, x[..i])
    {
      AncestorIsDir(source, x, i);
      OutcomeAt(source, backup, ups, dels, x[..i]);
    }
    if !r.event.directory && x in t.backup {
      OutcomeAt(source, backup, ups, dels, x);
      if x !in ups && Covered(ups, x) {
        CoveredInSource(source, ups, dels, x);
      }
    }
  }

  lemma {:induction false} UpsertsSucceed(image: Tree, t: Trees, records: seq<Record>, u: Trees)
    requires WellFormed(image) && Sound(t) && NoClash(image, t.backup) && Run(t, records, u)
    requires forall r :: r in records ==> Tells(image, r) && At(r).Some? && Untroubled(r)
    ensures Smooth(image, records)
  {
    if records != [] {
      var before, r := Front(records), Last(records);
      var m :| Run(t, before, m) && StepOf(m, u, r);
      LastRecord(records);
      UpsertsSucceed(image, t, before, m);
      RunOutcome(image, t, before, m);
      RecordsTame(image, before);
      if r.event.kind != Delete {
        UpsertNotBlocked(image, t.backup, Upserts(before), Deletes(before), m, r, At(r).value);
      }
    }
  }

  /** The event deletes nothing that is in the tree. */
  ghost predicate Spares(image: Tree, r: Record) {
    r.event.kind == Delete && At(r).Some? ==> At(r).value !in image
  }

  /** An event that deletes nothing in the tree leaves the kind of every path of the tree that backup has. */
  lemma KindStays(image: Tree, t: Trees, u: Trees, r: Record, q: Path)
    requires WellFormed(image) && StepOf(t, u, r) && Spares(image, r)
    requires q in image && q in t.backup
    ensures q in u.backup && u.backup[q].Dir? == t.backup[q].Dir?
  {
    if At(r).Some? {
      var x := At(r).value;
      if r.event.kind == Delete {
        if x <= q && x != q {
          PrefixIsDir(image, x, q);
        }
      } else if !r.event.directory && r.effect.copied {
        PutAt(t.backup, x, r.source[r.event.path], q);
      }
    }
  }

  /** In every run, with any faults, whose deletes spare the tree: what backup has of the tree stays, and
      stays of its kind. */
  lemma {:induction false} KindStaysOverRun(image: Tree, t: Trees, records: seq<Record>, u: Trees, q: Path)
    requires WellFormed(image) && Run(t, records, u) && q in image && q in t.backup
    requires forall r :: r in records ==> Spares(image, r)
    ensures q in u.backup && u.backup[q].Dir? == t.backup[q].Dir?
  {
    if records != [] {
      var m :| Run(t, Front(records), m) && StepOf(m, u, Last(records));
      LastRecord(records);
      KindStaysOverRun(image, t, Front(records), m, q);
      KindStays(image, m, u, Last(records), q);
    }
  }

  // ---------------------------------------------------------------------------
  // Initial synchronisation
  // ---------------------------------------------------------------------------

  function SyncEvent(source: Tree, q: Path): Event
    requires q in source
  {
    Event(Create, q, source[q].Dir?, true)
  }

  /** The paths of the events in the source. */
  ghost function Paths(records: seq<Record>): set<Path> {
    set r | r in records :: r.event.path
  }

  /** The run processed exactly one CREATE for each entry of the source, in some order. */
  ghost predicate SyncRun(source: Tree, records: seq<Record>) {
    && (forall r :: r in records ==>
          r.source == source && r.event.path in source && r.event == SyncEvent(source, r.event.path))
    && Paths(records) == source.Keys - {[]}
    && forall i, j :: 0 <= i < j < |records| ==> records[i].event.path != records[j].event.path
  }

  ghost function EventsOf(records: seq<Record>): seq<Event> {
    seq(|records|, i requires 0 <= i < |records| => records[i].event)
  }

  /** What the second walk of `syseba_app_initial_sync` enqueues. */
  ghost function SyncEvents(source: Tree, listing: seq<Path>): seq<Event>
    requires forall q :: q in listing ==> q in source
  {
    seq(|listing|, i requires 0 <= i < |listing| => SyncEvent(source, listing[i]))
  }

  lemma CountTwice(s: seq<Event>, i: nat, j: nat)
    requires i < j < |s| && s[i] == s[j]
    ensures multiset(s)[s[i]] >= 2
  {
    assert s == s[..j] + s[j..];
    assert s[i] in s[..j] && s[j] in s[j..];
  }

  lemma {:induction false} CountOnce(s: seq<Event>, e: Event)
    requires forall i, j :: 0 <= i < j < |s| ==> s[i] != s[j]
    ensures multiset(s)[e] <= 1
  {
    if s != [] {
      CountOnce(s[1..], e);
      assert s == [s[0]] + s[1..];
      assert s[0] !in s[1..];
    }
  }

  /** Whenever the processed events are those of the walk, in any order, the run is a
      synchronisation run. */
  lemma AnyOrderOfTheWalk(source: Tree, listing: seq<Path>, records: seq<Record>)
    requires IsListing(source, [], listing)
    requires forall q :: q in listing ==> q in source
    requires forall r :: r in records ==> r.source == source
    requires multiset(EventsOf(records)) == multiset(SyncEvents(source, listing))
    ensures SyncRun(source, records)
  {
    forall e ensures e in EventsOf(records) <==> e in SyncEvents(source, listing) {
      assert e in multiset(EventsOf(records)) <==> e in multiset(SyncEvents(source, listing));
    }
    SameEventsSync(source, listing, records);
    forall i, j | 0 <= i < j < |records|
      ensures records[i].event.path != records[j].event.path
    {
      NoEventTwice(source, listing, records, i, j);
    }
  }

  lemma SameEventsSync(source: Tree, listing: seq<Path>, records: seq<Record>)
    requires IsListing(source, [], listing)
    requires forall q :: q in listing ==> q in source
    requires forall e :: e in EventsOf(records) <==> e in SyncEvents(source, listing)
    ensures forall r :: r in records ==> r.event.path in source && r.event == SyncEvent(source, r.event.path)
    ensures Paths(records) == source.Keys - {[]}
  {
    var done, queued := EventsOf(records), SyncEvents(source, listing);
    forall r | r in records
      ensures r.event.path in source && r.event == SyncEvent(source, r.event.path) && r.event.path != []
    {
      var i :| 0 <= i < |records| && records[i] == r;
      assert done[i] in queued;
      var k :| 0 <= k < |queued| && queued[k] == r.event;
      assert listing[k] in listing;
    }
    forall q | q in source && q != []
      ensures q in Paths(records)
    {
      assert Below(source, [], q);
      var k :| 0 <= k < |listing| && listing[k] == q;
      assert queued[k] in done;
      var i :| 0 <= i < |done| && done[i] == queued[k];
      assert records[i] in records;
    }
  }

  lemma NoEventTwice(source: Tree, listing: seq<Path>, records: seq<Record>, i: nat, j: nat)
    requires ParentsFirst(listing) && (forall q :: q in listing ==> q in source) && i < j < |records|
    requires multiset(EventsOf(records)) == multiset(SyncEvents(source, listing))
    requires forall r :: r in records ==> r.event.path in source && r.event == SyncEvent(source, r.event.path)
    ensures records[i].event.path != records[j].event.path
  {
    var done, queued := EventsOf(records), SyncEvents(source, listing);
    assert records[i] in records && records[j] in records;
    if records[i].event.path == records[j].event.path {
      CountTwice(done, i, j);
      CountOnce(queued, done[i]);
    }
  }

  /** Backup follows the source: every entry of the source is there with the same
      signature, and with the same content unless its copy was found up to date;
      nothing else changed. */
  ghost predicate Follows(source: Tree, before: Tree, after: Tree) {
    && (forall q :: q in source ==> q in after && Signature(after[q]) == Signature(source[q]))
    && (forall q :: q in source && NeedsCopy(source, before, q) ==> after[q] == source[q])
    && (forall q :: q in source && !NeedsCopy(source, before, q) ==> q in before && after[q] == before[q])
    && (forall q :: q !in source ==> SameAt(before, after, q))
  }

  /** `image` is the tree of the places at which the entries of the source land, and of the directories above
      them: it exists when every entry lands somewhere, entries that land together are equal, and no file lands
      above another entry. */
  ghost predicate IsImage(root: Path, source: Tree, image: Tree) {
    && WellFormed(image) && Rooted(image)
    && (forall q :: q in source && q != [] ==> LandsIn(root, source, image, q))
    && (forall x :: x in image && x != [] ==> OnTheWay(root, source, x))
  }

  ghost predicate LandsIn(root: Path, source: Tree, image: Tree, q: Path)
    requires q in source
  {
    match Landing(root, q)
    case None => false
    case Some(x) => x in image && image[x] == source[q]
  }

  ghost predicate OnTheWay(root: Path, source: Tree, x: Path) {
    exists q :: q in source && q != [] && Landing(root, q).Some? && x <= Landing(root, q).value
  }

  /** A source with plain names is its own image. */
  lemma PlainIsOwnImage(root: Path, source: Tree)
    requires Canonical(root) && WellFormed(source) && Rooted(source) && PlainTree(source)
    ensures IsImage(root, source, source)
  {
    forall q | q in source && q != []
      ensures LandsIn(root, source, source, q) && OnTheWay(root, source, q)
    {
      LandsAtHome(root, q);
    }
  }

  lemma SyncTells(root: Path, source: Tree, image: Tree, r: Record)
    requires IsImage(root, source, image) && r.context.root == root && Untroubled(r)
    requires r.source == source && r.event.path in source && r.event.path != []
    requires r.event == SyncEvent(source, r.event.path)
    requires r.effect.result == OK ==> At(r).Some?
    ensures At(r).Some? && Tells(image, r)
  {
    assert LandsIn(root, source, image, r.event.path);
  }

  lemma {:induction false} EachStep(t: Trees, records: seq<Record>, u: Trees, r: Record)
    requires Run(t, records, u) && r in records
    ensures exists m, n :: StepOf(m, n, r)
  {
    var m :| Run(t, Front(records), m) && StepOf(m, u, Last(records));
    LastRecord(records);
    if r != Last(records) {
      EachStep(t, Front(records), m, r);
    }
  }

  lemma AllTell(root: Path, source: Tree, image: Tree, t: Trees, records: seq<Record>, u: Trees)
    requires IsImage(root, source, image) && Run(t, records, u) && SyncRun(source, records)
    requires forall r :: r in records ==> r.context.root == root && Untroubled(r)
    ensures forall r :: r in records ==> At(r).Some? && Tells(image, r)
  {
    forall r | r in records
      ensures At(r).Some? && Tells(image, r)
    {
      EachStep(t, records, u, r);
      var m, n :| StepOf(m, n, r);
      assert r.event.path in Paths(records);
      SyncTells(root, source, image, r);
    }
  }

  lemma SyncCovers(root: Path, source: Tree, image: Tree, records: seq<Record>)
    requires IsImage(root, source, image) && SyncRun(source, records)
    requires forall r :: r in records ==> r.context.root == root && At(r).Some? && Tells(image, r)
    ensures forall x :: x in image && x != [] ==> Covered(Upserts(records), x)
    ensures Deletes(records) == {}
  {
    forall x | x in image && x != []
      ensures Covered(Upserts(records), x)
    {
      assert OnTheWay(root, source, x);
      var q :| q in source && q != [] && Landing(root, q).Some? && x <= Landing(root, q).value;
      assert q in Paths(records);
      var r :| r in records && r.event.path == q;
      assert At(r).value in Upserts(records);
    }
  }

  /** Any number of workers, in any order, bring backup to the one tree that follows the image of the source:
      the source itself, if its names are plain. */
  lemma InitialSyncConverges(root: Path, source: Tree, image: Tree, t: Trees, records: seq<Record>, u: Trees)
    requires IsImage(root, source, image) && Sound(t) && [] in t.backup && NoClash(image, t.backup)
    requires Run(t, records, u) && SyncRun(source, records)
    requires forall r :: r in records ==> r.context.root == root && Untroubled(r)
    ensures Smooth(image, records)
    ensures Follows(image, t.backup, u.backup)
    ensures u.restore == t.restore
  {
    AllTell(root, source, image, t, records, u);
    SyncCovers(root, source, image, records);
    UpsertsSucceed(image, t, records, u);
    RunOutcome(image, t, records, u);
    RecordsTame(image, records);
    OutcomeFollows(image, t.backup, Upserts(records));
    RestoreUntouched(t, records, u);
  }

  /** Backup does not already hold an up-to-date entry under a name that is not plain: something else would have
      put it there. */
  ghost predicate NoForeignCopy(source: Tree, backup: Tree) {
    forall q :: q in source && !Canonical(q) ==> NeedsCopy(source, backup, q)
  }

  /** It brings backup to the source itself exactly when the names of the source are plain and no path was a file
      on one side and a directory on the other: existing entries are never turned from one kind into the other,
      and other names are never written. */
  lemma InitialSyncConvergesIff(root: Path, source: Tree, t: Trees, records: seq<Record>, u: Trees)
    requires WellFormed(source) && Rooted(source) && Sound(t) && [] in t.backup && Canonical(root)
    requires Run(t, records, u) && SyncRun(source, records) && NoForeignCopy(source, t.backup)
    requires forall r :: r in records ==> r.context.root == root && Untroubled(r)
    ensures Follows(source, t.backup, u.backup) <==> NoClash(source, t.backup) && PlainTree(source)
  {
    if PlainTree(source) {
      if NoClash(source, t.backup) {
        PlainIsOwnImage(root, source);
        InitialSyncConverges(root, source, source, t, records, u);
      } else {
        var q :| q in source && q in t.backup && source[q].Dir? != t.backup[q].Dir?;
        KindStaysOverRun(source, t, records, u, q);
      }
    } else {
      var q :| q in source && !Canonical(q);
      ForeignUntouched(t, records, u, q);
    }
  }

  /** Creating and modifying leaves alone what has names that are not plain. */
  lemma {:induction false} ForeignUntouched(t: Trees, records: seq<Record>, u: Trees, q: Path)
    requires Run(t, records, u) && !Canonical(q) && forall r :: r in records ==> r.event.kind != Delete
    ensures SameAt(t.backup, u.backup, q)
  {
    if records != [] {
      var m :| Run(t, Front(records), m) && StepOf(m, u, Last(records));
      LastRecord(records);
      ForeignUntouched(t, Front(records), m, q);
      if !SameAt(m.backup, u.backup, q) {
        UpsertTouches(m, u, Last(records), q);
      }
    }
  }

  /** Such a foreign copy hides the failure: the file `x\y` and what is at its place were both up to date before. */
  lemma ForeignCopyHides(x: Name, y: Name, name: Name, file: Node, t: Trees, r: Record)
    requires IsComponent(x) && IsComponent(y) && name == x + "\\" + y && file.File? && Canonical(r.context.root)
    requires r.context.fits && r.effect == Effect(OK, false, true, None)
    requires r.source == map[[] := Dir, [name] := file] && r.event == Event(Create, [name], false, true)
    requires t.backup == map[[] := Dir, [name] := file, [x] := Dir, [x, y] := file]
    requires WellFormed(t.restore)
    ensures WellFormed(t.backup) && StepOf(t, t, r) && !PlainTree(r.source) && Follows(r.source, t.backup, t.backup)
  {
    BackslashCollides(r.context.root, x, y);
    BackslashIsNotPlain(x, y, name);
    TwoBranches(x, y, name, file, t.backup);
    ForeignFollows(x, y, name, file, r.source, t.backup);
    SkipStep(t, r, [x, y]);
  }

  lemma ForeignFollows(x: Name, y: Name, name: Name, file: Node, source: Tree, backup: Tree)
    requires source == map[[] := Dir, [name] := file] && [name] != [x]
    requires backup == map[[] := Dir, [name] := file, [x] := Dir, [x, y] := file]
    ensures Follows(source, backup, backup) && [name] in source && source[[name]] == file
    ensures [x, y] in backup && backup[[x, y]] == file
  {
    FollowsItself(source, backup);
  }

  lemma SkipStep(t: Trees, r: Record, x: Path)
    requires Sound(t) && Canonical(r.context.root) && At(r) == Some(x)
    requires r.event.kind != Delete && !r.event.directory && IsFile(r.source, r.event.path)
    requires !Differs(r.source[r.event.path], t.backup, x) && r.effect == Effect(OK, false, true, None)
    ensures StepOf(t, t, r)
  {
  }

  lemma FollowsItself(source: Tree, backup: Tree)
    requires forall q :: q in source ==> q in backup && backup[q] == source[q]
    ensures Follows(source, backup, backup)
  {
  }

  lemma TwoBranches(x: Name, y: Name, name: Name, file: Node, backup: Tree)
    requires backup == map[[] := Dir, [name] := file, [x] := Dir, [x, y] := file] && [name] != [x]
    ensures WellFormed(backup)
  {
    assert Parent([x, y]) == [x] && Parent([x]) == [] && Parent([name]) == [];
  }

  lemma BackslashIsNotPlain(x: Name, y: Name, name: Name)
    requires name == x + "\\" + y
    ensures !Canonical([name])
  {
    assert name[|x|] == '\\' && name[|x|] in name;
    assert !IsComponent([name][0]);
  }

  /** The tree with one file, and its image when that lands one level down. */
  lemma ImageOfFile(root: Path, x: Name, y: Name, name: Name, file: Node)
    requires Landing(root, [name]) == Some([x, y])
    ensures IsImage(root, map[[] := Dir, [name] := file], map[[] := Dir, [x] := Dir, [x, y] := file])
  {
    OneBranch(x, y, file);
    ImageOfOne(root, map[[] := Dir, [name] := file], map[[] := Dir, [x] := Dir, [x, y] := file], [name], [x, y]);
  }

  lemma OneBranch(x: Name, y: Name, file: Node)
    ensures WellFormed(map[[] := Dir, [x] := Dir, [x, y] := file])
    ensures forall z :: z in map[[] := Dir, [x] := Dir, [x, y] := file] ==> z <= [x, y]
  {
    assert Parent([x, y]) == [x] && Parent([x]) == [];
  }

  /** The image of a source with one entry is the branch that leads to where it lands. */
  lemma ImageOfOne(root: Path, source: Tree, image: Tree, q: Path, x: Path)
    requires WellFormed(image) && Rooted(image) && q in source && q != [] && Landing(root, q) == Some(x)
    requires x in image && image[x] == source[q]
    requires (forall p :: p in source ==> p == [] || p == q) && forall z :: z in image ==> z <= x
    ensures IsImage(root, source, image)
  {
    assert LandsIn(root, source, image, q);
    forall z | z in image
      ensures OnTheWay(root, source, z)
    {
    }
  }

  /** The file `x\y` of an otherwise empty source ends up as `y` in the directory `x`, and nothing has its name. */
  lemma BackslashDoesNotConverge(root: Path, x: Name, y: Name, name: Name, file: Node,
                                 t: Trees, records: seq<Record>, u: Trees)
    requires Canonical(root) && IsComponent(x) && IsComponent(y) && name == x + "\\" + y && file.File?
    requires Sound(t) && t.backup == map[[] := Dir] && Run(t, records, u)
    requires SyncRun(map[[] := Dir, [name] := file], records)
    requires forall r :: r in records ==> r.context.root == root && Untroubled(r)
    ensures [x, y] in u.backup && u.backup[[x, y]] == file && [name] !in u.backup
    ensures !Follows(map[[] := Dir, [name] := file], t.backup, u.backup)
  {
    var source, image := map[[] := Dir, [name] := file], map[[] := Dir, [x] := Dir, [x, y] := file];
    BackslashCollides(root, x, y);
    BackslashIsNotPlain(x, y, name);
    ImageOfFile(root, x, y, name, file);
    InitialSyncConverges(root, source, image, t, records, u);
    assert [x, y] in image && NeedsCopy(image, t.backup, [x, y]);
    RunSound(t, records, u);
    assert [name] in source;
  }

  /** A file in backup where the source has a directory stays. */
  lemma ClashDoesNotConverge(root: Path, x: Name, file: Node, t: Trees, records: seq<Record>, u: Trees)
    requires Canonical(root) && file.File? && Sound(t) && t.backup == map[[] := Dir, [x] := file]
    requires Run(t, records, u) && SyncRun(map[[] := Dir, [x] := Dir], records)
    requires forall r :: r in records ==> r.context.root == root && Untroubled(r)
    ensures [x] in u.backup && u.backup[[x]].File? && !Follows(map[[] := Dir, [x] := Dir], t.backup, u.backup)
  {
    var source := map[[] := Dir, [x] := Dir];
    assert WellFormed(source) by {
      assert Parent([x]) == [];
    }
    KindStaysOverRun(source, t, records, u, [x]);
  }

  lemma OutcomeFollows(image: Tree, backup: Tree, ups: set<Path>)
    requires Tame(image, ups, {}) && Rooted(image) && [] in backup && NoClash(image, backup)
    requires forall q :: q in image && q != [] ==> Covered(ups, q)
    ensures Follows(image, backup, Outcome(image, backup, ups, {}))
  {
    var o := Outcome(image, backup, ups, {});
    forall q
      ensures q in image ==> q in o && Signature(o[q]) == Signature(image[q])
      ensures q in image && NeedsCopy(image, backup, q) ==> o[q] == image[q]
      ensures q in image && !NeedsCopy(image, backup, q) ==> q in backup && o[q] == backup[q]
      ensures q !in image ==> SameAt(backup, o, q)
    {
      OutcomeAt(image, backup, ups, {}, q);
      if Covered(ups, q) {
        CoveredInSource(image, ups, {}, q);
      }
    }
  }

  lemma {:induction false} RestoreUntouched(t: Trees, records: seq<Record>, u: Trees)
    requires Run(t, records, u) && forall r :: r in records ==> r.event.kind != Delete
    ensures u.restore == t.restore
  {
    if records != [] {
      var m :| Run(t, Front(records), m) && StepOf(m, u, Last(records));
      LastRecord(records);
      RestoreUntouched(t, Front(records), m);
    }
  }
}
