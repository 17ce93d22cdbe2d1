/**
 The polling watcher (src/watcher_poll.c): scans are kept in a table of hash
 buckets, two successive tables are reconciled, and the differences become
 events.  Nothing here depends on which hash function is used.
 */
module Snapshot {
  import opened Wrappers
  import opened FileTree
  import opened Events

  class Entry {
    const path: Path
    const meta: Meta
    var seen: bool

    constructor (path: Path, meta: Meta)
      ensures this.path == path && this.meta == meta && !seen
    {
      this.path, this.meta, seen := path, meta, false;
    }
  }

  /** What a search along a chain answers: the first entry with the path. */
  ghost function Lookup(chain: seq<Entry>, p: Path): Option<Meta> {
    if chain == [] then None
    else if chain[0].path == p then Some(chain[0].meta)
    else Lookup(chain[1..], p)
  }

  ghost function Slot(hash: Path -> nat, n: nat, p: Path): nat
    requires n > 0
  {
    hash(p) % n
  }

  /** The buckets stand for the plain map `view`. */
  ghost predicate Represents(hash: Path -> nat, buckets: seq<seq<Entry>>, view: Scan) {
    if buckets == [] then view == map[]
    else forall p ::
      Lookup(buckets[Slot(hash, |buckets|, p)], p) == if p in view then Some(view[p]) else None
  }

  /** Every entry hangs in the bucket of its path, and no path occurs twice. */
  ghost predicate Tidy(hash: Path -> nat, buckets: seq<seq<Entry>>) {
    && (forall b, i :: 0 <= b < |buckets| && 0 <= i < |buckets[b]| ==>
          Slot(hash, |buckets|, buckets[b][i].path) == b)
    && forall b :: 0 <= b < |buckets| ==> DistinctPaths(buckets[b])
  }

  ghost predicate DistinctPaths(entries: seq<Entry>) {
    forall i, j :: 0 <= i < j < |entries| ==> entries[i].path != entries[j].path
  }

  lemma {:induction false} LookupMisses(chain: seq<Entry>, p: Path)
    requires Lookup(chain, p) == None
    ensures forall i :: 0 <= i < |chain| ==> chain[i].path != p
  {
    if chain != [] {
      LookupMisses(chain[1..], p);
      assert forall i :: 0 < i < |chain| ==> chain[i] == chain[1..][i - 1];
    }
  }

  lemma {:induction false} LookupHits(chain: seq<Entry>, i: nat)
    requires DistinctPaths(chain) && i < |chain|
    ensures Lookup(chain, chain[i].path) == Some(chain[i].meta)
  {
    if i > 0 {
      assert chain[0].path != chain[i].path;
      assert chain[1..][i - 1] == chain[i];
      LookupHits(chain[1..], i - 1);
    }
  }

  ghost function AllEntries(buckets: seq<seq<Entry>>): set<Entry> {
    set b, i | 0 <= b < |buckets| && 0 <= i < |buckets[b]| :: buckets[b][i]
  }

  lemma InsertKeeps(hash: Path -> nat, before: seq<seq<Entry>>, view: Scan, e: Entry)
    requires before != [] && Represents(hash, before, view)
    ensures var slot := Slot(hash, |before|, e.path);
            var after := before[slot := [e] + before[slot]];
            && Represents(hash, after, view[e.path := e.meta])
            && (Tidy(hash, before) && e.path !in view ==> Tidy(hash, after))
            && AllEntries(after) == AllEntries(before) + {e}
  {
    var slot := Slot(hash, |before|, e.path);
    var chain := [e] + before[slot];
    var after := before[slot := chain];
    assert chain[1..] == before[slot];
    forall p
      ensures Lookup(after[Slot(hash, |after|, p)], p) ==
              if p in view[e.path := e.meta] then Some(view[e.path := e.meta][p]) else None
    {
      assert Lookup(before[Slot(hash, |before|, p)], p) == if p in view then Some(view[p]) else None;
    }
    if Tidy(hash, before) && e.path !in view {
      assert Lookup(before[slot], e.path) == None;
      LookupMisses(before[slot], e.path);
      assert DistinctPaths(before[slot]);
      assert forall i :: 0 < i < |chain| ==> chain[i] == before[slot][i - 1];
    }
    InsertedEntries(before, slot, e);
  }

  lemma InsertedEntries(before: seq<seq<Entry>>, slot: nat, e: Entry)
    requires slot < |before|
    ensures AllEntries(before[slot := [e] + before[slot]]) == AllEntries(before) + {e}
  {
    var after := before[slot := [e] + before[slot]];
    assert after[slot][0] == e;
    forall b, i | 0 <= b < |before| && 0 <= i < |before[b]|
      ensures before[b][i] in AllEntries(after)
    {
      assert before[b][i] == if b == slot then after[b][i + 1] else after[b][i];
    }
  }

  /** Bucket chains, newest entry first.  `view` is the plain map the table stands for. */
  class Table {
    const hash: Path -> nat
    const buckets: array<seq<Entry>>
    ghost var view: Scan

    constructor (hash: Path -> nat, bucketCount: nat)
      ensures Valid() && Tidy(hash, buckets[..])
      ensures this.hash == hash && buckets.Length == bucketCount && view == map[]
      ensures fresh(buckets) && Entries() == {}
    {
      this.hash := hash;
      this.buckets := new seq<Entry>[bucketCount](_ => []);
      this.view := map[];
      new;
      assert forall b :: 0 <= b < |buckets[..]| ==> buckets[..][b] == [];
    }

    ghost predicate Valid()
      reads this, buckets
    {
      Represents(hash, buckets[..], view)
    }

    ghost function Entries(): set<Entry>
      reads buckets
    {
      AllEntries(buckets[..])
    }

    /** Lookup agrees with the plain map. */
    method Find(p: Path) returns (e: Entry?)
      requires Valid()
      ensures e == null <==> p !in view
      ensures e != null ==> e in Entries() && e.path == p && e.meta == view[p]
    {
      if buckets.Length == 0 {
        return null;
      }
      var slot := hash(p) % buckets.Length;
      var chain := buckets[slot];
      assert slot == Slot(hash, |buckets[..]|, p) && buckets[..][slot] == chain;
      assert chain[0..] == chain;
      for i := 0 to |chain|
        invariant Lookup(chain[i..], p) == Lookup(chain, p)
      {
        assert chain[i..][1..] == chain[i + 1..];
        if chain[i].path == p {
          assert buckets[..][slot][i] in Entries();
          return chain[i];
        }
      }
      return null;
    }

    /** Insertion at the head of a chain is a map update. */
    method Insert(p: Path, meta: Meta) returns (ghost e: Entry)
      requires Valid() && buckets.Length > 0
      modifies this, buckets
      ensures Valid() && view == old(view)[p := meta]
      ensures old(Tidy(hash, buckets[..])) && p !in old(view) ==> Tidy(hash, buckets[..])
      ensures fresh(e) && !e.seen && Entries() == old(Entries()) + {e}
    {
      var slot := hash(p) % buckets.Length;
      var entry := new Entry(p, meta);
      InsertKeeps(hash, buckets[..], view, entry);
      assert slot == Slot(hash, |buckets[..]|, p);
      buckets[slot] := [entry] + buckets[slot];
      view := view[p := meta];
      e := entry;
      assert buckets[..] == old(buckets[..])[slot := [entry] + old(buckets[slot])];
    }
  }

  // ---------------------------------------------------------------------------
  // The difference of two tables
  // ---------------------------------------------------------------------------

  /** The entries in the order in which the loops over buckets and chains meet them. */
  ghost function Flat(buckets: seq<seq<Entry>>): seq<Entry> {
    if buckets == [] then [] else Flat(buckets[..|buckets| - 1]) + buckets[|buckets| - 1]
  }

  ghost function Paths(entries: seq<Entry>): set<Path> {
    set e | e in entries :: e.path
  }

  lemma {:induction false} FlatHas(buckets: seq<seq<Entry>>, e: Entry)
    ensures e in Flat(buckets) <==> e in AllEntries(buckets)
  {
    if buckets != [] {
      var n := |buckets| - 1;
      FlatHas(buckets[..n], e);
      if e in buckets[n] {
        var i :| 0 <= i < |buckets[n]| && buckets[n][i] == e;
        assert buckets[n][i] in AllEntries(buckets);
      }
      if e in AllEntries(buckets[..n]) {
        var b, i :| 0 <= b < n && 0 <= i < |buckets[..n][b]| && buckets[..n][b][i] == e;
        assert buckets[b][i] in AllEntries(buckets);
      }
      if e in AllEntries(buckets) && e !in buckets[n] {
        var b, i :| 0 <= b < |buckets| && 0 <= i < |buckets[b]| && buckets[b][i] == e;
        assert buckets[..n][b][i] == e;
      }
    }
  }

  lemma {:induction false} FlatDistinct(hash: Path -> nat, buckets: seq<seq<Entry>>, n: nat)
    requires Tidy(hash, buckets) && n <= |buckets|
    ensures DistinctPaths(Flat(buckets[..n]))
  {
    if n > 0 {
      FlatDistinct(hash, buckets, n - 1);
      assert buckets[..n][..n - 1] == buckets[..n - 1];
      var front, last := Flat(buckets[..n - 1]), buckets[n - 1];
      var all := front + last;
      forall i, j | 0 <= i < j < |all|
        ensures all[i].path != all[j].path
      {
        if i < |front| <= j {
          FlatHas(buckets[..n - 1], front[i]);
          var b, k :| 0 <= b < n - 1 && 0 <= k < |buckets[..n - 1][b]| && buckets[..n - 1][b][k] == front[i];
          assert Slot(hash, |buckets|, buckets[b][k].path) == b;
          assert Slot(hash, |buckets|, last[j - |front|].path) == n - 1;
        } else if j < |front| {
          assert all[i] == front[i] && all[j] == front[j];
        } else {
          assert all[i] == last[i - |front|] && all[j] == last[j - |front|];
          assert DistinctPaths(last);
        }
      }
      assert Flat(buckets[..n]) == all;
    }
  }

  /** The table holds exactly the paths of its map, with the metadata of the map. */
  lemma FlatIsView(hash: Path -> nat, buckets: seq<seq<Entry>>, view: Scan)
    requires Tidy(hash, buckets) && Represents(hash, buckets, view)
    ensures DistinctPaths(Flat(buckets)) && Paths(Flat(buckets)) == view.Keys
    ensures forall e :: e in AllEntries(buckets) ==> e.path in view && e.meta == view[e.path]
    ensures forall e :: e in Flat(buckets) ==> e.path in view && e.meta == view[e.path]
  {
    FlatDistinct(hash, buckets, |buckets|);
    assert buckets[..|buckets|] == buckets;
    forall e | e in AllEntries(buckets)
      ensures e.path in view && e.meta == view[e.path]
    {
      var b, i :| 0 <= b < |buckets| && 0 <= i < |buckets[b]| && buckets[b][i] == e;
      LookupHits(buckets[b], i);
      assert Slot(hash, |buckets|, e.path) == b;
    }
    forall e | e in Flat(buckets) {
      FlatHas(buckets, e);
    }
    forall p | p in view
      ensures p in Paths(Flat(buckets))
    {
      var b := Slot(hash, |buckets|, p);
      assert Lookup(buckets[b], p).Some?;
      var i := LookupIndex(buckets[b], p);
      assert buckets[b][i] in AllEntries(buckets);
      FlatHas(buckets, buckets[b][i]);
    }
  }

  lemma {:induction false} LookupIndex(chain: seq<Entry>, p: Path) returns (i: nat)
    requires Lookup(chain, p).Some?
    ensures i < |chain| && chain[i].path == p
  {
    if chain[0].path == p {
      i := 0;
    } else {
      i := LookupIndex(chain[1..], p);
      i := i + 1;
    }
  }

  function UpsertFor(e: Entry, previous: Option<Meta>): seq<Event> {
    if previous == None then [Event(Create, e.path, e.meta.directory, false)]
    else if !e.meta.directory && (e.meta.size != previous.value.size || e.meta.mtime != previous.value.mtime) then
      [Event(Modify, e.path, false, false)]
    else []
  }

  ghost function Get(view: Scan, p: Path): Option<Meta> {
    if p in view then Some(view[p]) else None
  }

  ghost function UpsertsFor(entries: seq<Entry>, previous: Scan): seq<Event> {
    if entries == [] then []
    else
      var e := entries[|entries| - 1];
      UpsertsFor(entries[..|entries| - 1], previous) + UpsertFor(e, Get(previous, e.path))
  }

  ghost function DeletesFor(entries: seq<Entry>, current: set<Path>): seq<Event> {
    if entries == [] then []
    else
      var e := entries[|entries| - 1];
      DeletesFor(entries[..|entries| - 1], current)
      + if e.path in current then [] else [Event(Delete, e.path, e.meta.directory, false)]
  }

  lemma PathsNext(entries: seq<Entry>)
    requires entries != [] && DistinctPaths(entries)
    ensures var front, e := entries[..|entries| - 1], entries[|entries| - 1];
            DistinctPaths(front) && e.path !in Paths(front) && Paths(entries) == Paths(front) + {e.path}
  {
    var front, e := entries[..|entries| - 1], entries[|entries| - 1];
    assert entries == front + [e];
  }

  lemma {:induction false} CountUpserts(entries: seq<Entry>, previous: Scan, current: Scan, x: Event)
    requires DistinctPaths(entries)
    requires forall e :: e in entries ==> e.path in current && e.meta == current[e.path]
    ensures multiset(UpsertsFor(entries, previous))[x] ==
            if x.path in Paths(entries) && x.kind != Delete && InDiff(previous, current, x) then 1 else 0
  {
    if entries != [] {
      var front, e := entries[..|entries| - 1], entries[|entries| - 1];
      PathsNext(entries);
      CountUpserts(front, previous, current, x);
      assert e in entries;
      CountUpsert(e, previous, current, x);
    }
  }

  lemma CountUpsert(e: Entry, previous: Scan, current: Scan, x: Event)
    requires e.path in current && e.meta == current[e.path]
    ensures multiset(UpsertFor(e, Get(previous, e.path)))[x] ==
            if x.path == e.path && x.kind != Delete && InDiff(previous, current, x) then 1 else 0
  {
  }

  lemma {:induction false} CountDeletes(entries: seq<Entry>, previous: Scan, current: Scan, x: Event)
    requires DistinctPaths(entries)
    requires forall e :: e in entries ==> e.path in previous && e.meta == previous[e.path]
    ensures multiset(DeletesFor(entries, current.Keys))[x] ==
            if x.path in Paths(entries) && x.kind == Delete && InDiff(previous, current, x) then 1 else 0
  {
    if entries != [] {
      var front, e := entries[..|entries| - 1], entries[|entries| - 1];
      PathsNext(entries);
      CountDeletes(front, previous, current, x);
      assert e in entries;
      var last := if e.path in current then [] else [Event(Delete, e.path, e.meta.directory, false)];
      assert multiset(last)[x] ==
             if x.path == e.path && x.kind == Delete && InDiff(previous, current, x) then 1 else 0;
    }
  }

  /** `events` holds each event of the difference exactly once and nothing else. */
  ghost predicate ExactDiff(previous: Scan, current: Scan, events: seq<Event>) {
    forall x :: multiset(events)[x] == if InDiff(previous, current, x) then 1 else 0
  }

  lemma DiffIsExact(older: seq<Entry>, previous: Scan, newer: seq<Entry>, current: Scan)
    requires Lists(older, previous) && Lists(newer, current)
    ensures ExactDiff(previous, current, UpsertsFor(newer, previous) + DeletesFor(older, current.Keys))
  {
    forall x
      ensures multiset(UpsertsFor(newer, previous) + DeletesFor(older, current.Keys))[x] ==
              if InDiff(previous, current, x) then 1 else 0
    {
      CountUpserts(newer, previous, current, x);
      CountDeletes(older, previous, current, x);
    }
  }

  ghost function Visited(buckets: seq<seq<Entry>>, b: nat, i: nat): seq<Entry>
    requires b < |buckets| && i <= |buckets[b]|
  {
    Flat(buckets[..b]) + buckets[b][..i]
  }

  lemma VisitNext(buckets: seq<seq<Entry>>, b: nat, i: nat)
    requires b < |buckets| && i < |buckets[b]|
    ensures var v := Visited(buckets, b, i + 1);
            && v == Visited(buckets, b, i) + [buckets[b][i]]
            && v[..|v| - 1] == Visited(buckets, b, i) && v[|v| - 1] == buckets[b][i]
            && Paths(v) == Paths(Visited(buckets, b, i)) + {buckets[b][i].path}
  {
  }

  lemma VisitBucket(buckets: seq<seq<Entry>>, b: nat)
    requires b < |buckets|
    ensures Visited(buckets, b, 0) == Flat(buckets[..b])
    ensures Visited(buckets, b, |buckets[b]|) == Flat(buckets[..b + 1])
  {
    assert buckets[..b + 1][..b] == buckets[..b];
    assert buckets[b][..|buckets[b]|] == buckets[b];
  }

  /** The entries of a table whose paths are in `paths` are the ones marked as seen. */
  ghost predicate SeenAre(entries: set<Entry>, paths: set<Path>)
    reads entries
  {
    forall e :: e in entries ==> (e.seen <==> e.path in paths)
  }

  ghost predicate SamePathSameEntry(entries: set<Entry>) {
    forall e, f :: e in entries && f in entries && e.path == f.path ==> e == f
  }

  /** The table lists each path of its map once, with the metadata of the map. */
  ghost predicate Faithful(buckets: seq<seq<Entry>>, view: Scan) {
    && SamePathSameEntry(AllEntries(buckets))
    && (forall e :: e in AllEntries(buckets) ==> e.path in view)
    && Lists(Flat(buckets), view)
  }

  ghost predicate Lists(entries: seq<Entry>, view: Scan) {
    && DistinctPaths(entries) && Paths(entries) == view.Keys
    && forall e :: e in entries ==> e.path in view && e.meta == view[e.path]
  }

  lemma TidyIsFaithful(hash: Path -> nat, buckets: seq<seq<Entry>>, view: Scan)
    requires Tidy(hash, buckets) && Represents(hash, buckets, view)
    ensures Faithful(buckets, view)
  {
    FlatIsView(hash, buckets, view);
    forall e, f | e in AllEntries(buckets) && f in AllEntries(buckets) && e.path == f.path
      ensures e == f
    {
      var b, i :| 0 <= b < |buckets| && 0 <= i < |buckets[b]| && buckets[b][i] == e;
      var c, j :| 0 <= c < |buckets| && 0 <= j < |buckets[c]| && buckets[c][j] == f;
      assert b == c && DistinctPaths(buckets[b]);
    }
  }

  /** One entry of the new table: what it matches in the old table is marked as seen. */
  method EmitUpsert(previous: Table, entry: Entry, ghost paths: set<Path>) returns (events: seq<Event>)
    requires previous.Valid() && SamePathSameEntry(previous.Entries())
    requires forall e :: e in previous.Entries() ==> e.path in previous.view
    requires SeenAre(previous.Entries(), paths)
    modifies previous.Entries()
    ensures events == UpsertFor(entry, Get(previous.view, entry.path))
    ensures SeenAre(previous.Entries(), paths + {entry.path})
  {
    var found := previous.Find(entry.path);
    if found == null {
      events := UpsertFor(entry, None);
    } else {
      found.seen := true;
      events := UpsertFor(entry, Some(found.meta));
    }
  }

  /** First half of `syseba_snapshot_reconcile`: the entries of the new table. */
  method EmitUpserts(previous: Table, current: Table) returns (events: seq<Event>)
    requires previous.Valid() && Faithful(previous.buckets[..], previous.view)
    requires SeenAre(previous.Entries(), {})
    modifies previous.Entries()
    ensures events == UpsertsFor(Flat(current.buckets[..]), previous.view)
    ensures SeenAre(previous.Entries(), Paths(Flat(current.buckets[..])))
  {
    ghost var bs := current.buckets[..];
    events := [];
    for b := 0 to current.buckets.Length
      invariant events == UpsertsFor(Flat(bs[..b]), previous.view)
      invariant SeenAre(previous.Entries(), Paths(Flat(bs[..b])))
    {
      VisitBucket(bs, b);
      events := EmitChain(previous, current.buckets[b], events, bs, b);
    }
    assert bs[..current.buckets.Length] == bs;
  }

  /** The entries of one bucket; `sofar` are the events of the buckets before it. */
  method EmitChain(previous: Table, chain: seq<Entry>, sofar: seq<Event>, ghost bs: seq<seq<Entry>>, ghost b: nat)
    returns (events: seq<Event>)
    requires previous.Valid() && SamePathSameEntry(previous.Entries())
    requires forall e :: e in previous.Entries() ==> e.path in previous.view
    requires b < |bs| && bs[b] == chain && sofar == UpsertsFor(Visited(bs, b, 0), previous.view)
    requires SeenAre(previous.Entries(), Paths(Visited(bs, b, 0)))
    modifies previous.Entries()
    ensures events == UpsertsFor(Visited(bs, b, |chain|), previous.view)
    ensures SeenAre(previous.Entries(), Paths(Visited(bs, b, |chain|)))
  {
    events := sofar;
    for i := 0 to |chain|
      invariant events == UpsertsFor(Visited(bs, b, i), previous.view)
      invariant SeenAre(previous.Entries(), Paths(Visited(bs, b, i)))
    {
      VisitNext(bs, b, i);
      var more := EmitUpsert(previous, chain[i], Paths(Visited(bs, b, i)));
      events := events + more;
    }
  }

  /** Second half: entries of the old table that nothing matched. */
  method EmitDeletes(previous: Table, ghost kept: set<Path>) returns (events: seq<Event>)
    requires SeenAre(previous.Entries(), kept)
    ensures events == DeletesFor(Flat(previous.buckets[..]), kept)
  {
    ghost var bs := previous.buckets[..];
    events := [];
    for b := 0 to previous.buckets.Length
      invariant events == DeletesFor(Flat(bs[..b]), kept)
    {
      VisitBucket(bs, b);
      var chain := previous.buckets[b];
      for i := 0 to |chain|
        invariant events == DeletesFor(Visited(bs, b, i), kept)
      {
        var entry := chain[i];
        assert bs[b][i] in AllEntries(bs);
        VisitNext(bs, b, i);
        if !entry.seen {
          events := events + [Event(Delete, entry.path, entry.meta.directory, false)];
        }
      }
    }
    assert bs[..previous.buckets.Length] == bs;
  }

  /** `syseba_snapshot_reconcile` emits exactly the difference. */
  method Reconcile(previous: Table, current: Table) returns (events: seq<Event>)
    requires Ready(previous) && Faithful(current.buckets[..], current.view)
    modifies previous.Entries()
    ensures ExactDiff(previous.view, current.view, events)
    ensures SeenAre(previous.Entries(), current.view.Keys)
  {
    DiffIsExact(Flat(previous.buckets[..]), previous.view, Flat(current.buckets[..]), current.view);
    assert Paths(Flat(current.buckets[..])) == current.view.Keys;
    var upserts := EmitUpserts(previous, current);
    var deletes := EmitDeletes(previous, current.view.Keys);
    events := upserts + deletes;
  }

  // ---------------------------------------------------------------------------
  // The poll loop
  // ---------------------------------------------------------------------------

  const BUCKET_COUNT := 4093

  /** What a walk of the source reports, in its order. */
  type Listing = seq<(Path, Meta)>

  ghost predicate OnceEach(listing: Listing) {
    forall i, j :: 0 <= i < j < |listing| ==> listing[i].0 != listing[j].0
  }

  ghost function ScanOf(listing: Listing): Scan {
    if listing == [] then map[]
    else
      var last := listing[|listing| - 1];
      ScanOf(listing[..|listing| - 1])[last.0 := last.1]
  }

  lemma {:induction false} ScanKeys(listing: Listing, p: Path)
    ensures p in ScanOf(listing) <==> exists i :: 0 <= i < |listing| && listing[i].0 == p
  {
    if listing != [] {
      var n := |listing| - 1;
      ScanKeys(listing[..n], p);
      assert listing[n].0 == p || (p in ScanOf(listing) <==> p in ScanOf(listing[..n]));
      if exists i :: 0 <= i < n && listing[i].0 == p {
        var i :| 0 <= i < n && listing[i].0 == p;
        assert listing[..n][i].0 == p;
      }
    }
  }

  /** The table holds what the first `i` entries of the walk say, and no entry is marked. */
  ghost predicate Holds(table: Table, listing: Listing, i: nat)
    requires i <= |listing|
    reads table, table.buckets, table.Entries()
  {
    && table.buckets.Length > 0 && table.Valid() && Tidy(table.hash, table.buckets[..])
    && table.view == ScanOf(listing[..i]) && SeenAre(table.Entries(), {})
  }

  /** One entry of the walk goes into the table. */
  method InsertListed(table: Table, listing: Listing, i: nat) returns (ghost e: Entry)
    requires OnceEach(listing) && i < |listing| && Holds(table, listing, i)
    modifies table, table.buckets
    ensures Holds(table, listing, i + 1)
    ensures fresh(e) && table.Entries() == old(table.Entries()) + {e}
  {
    ScanKeys(listing[..i], listing[i].0);
    assert listing[..i + 1][..i] == listing[..i];
    e := table.Insert(listing[i].0, listing[i].1);
  }

  method NewTable(hash: Path -> nat, listing: Listing) returns (table: Table)
    ensures fresh(table) && fresh(table.buckets) && table.Entries() == {}
    ensures Holds(table, listing, 0)
  {
    table := new Table(hash, BUCKET_COUNT);
    assert listing[..0] == [];
  }

  method Fill(hash: Path -> nat, listing: Listing) returns (table: Table)
    requires OnceEach(listing)
    ensures fresh(table) && fresh(table.buckets) && fresh(table.Entries())
    ensures Holds(table, listing, |listing|)
  {
    table := NewTable(hash, listing);
    for i := 0 to |listing|
      invariant fresh(table) && fresh(table.buckets) && fresh(table.Entries())
      invariant Holds(table, listing, i)
    {
      ghost var e := InsertListed(table, listing, i);
    }
  }

  /** A table ready to be the previous one of a round: no entry is marked. */
  ghost predicate Ready(table: Table)
    reads table, table.buckets, table.Entries()
  {
    table.Valid() && Faithful(table.buckets[..], table.view) && SeenAre(table.Entries(), {})
  }

  /** `syseba_snapshot_build` over what the walk reports. */
  method Build(hash: Path -> nat, listing: Listing) returns (table: Table)
    requires OnceEach(listing)
    ensures fresh(table) && fresh(table.buckets) && fresh(table.Entries())
    ensures Ready(table) && table.view == ScanOf(listing)
  {
    table := Fill(hash, listing);
    assert listing[..|listing|] == listing;
    TidyIsFaithful(table.hash, table.buckets[..], table.view);
  }

  /** One round: a failed scan leaves the previous table, unmarked, for the next round. */
  method Round(hash: Path -> nat, previous: Table, scan: Option<Listing>)
    returns (next: Table, events: seq<Event>)
    requires Ready(previous) && (scan.Some? ==> OnceEach(scan.value))
    modifies previous.Entries()
    ensures Ready(next)
    ensures scan.None? ==> next == previous && events == [] && next.view == old(previous.view)
    ensures scan.None? ==> next.Entries() == old(previous.Entries())
    ensures scan.Some? ==> fresh(next) && fresh(next.Entries()) && next.view == ScanOf(scan.value)
    ensures scan.Some? ==> ExactDiff(old(previous.view), next.view, events)
  {
    if scan.None? {
      return previous, [];
    }
    next, events := Advance(hash, previous, scan.value);
  }

  method Advance(hash: Path -> nat, previous: Table, listing: Listing) returns (next: Table, events: seq<Event>)
    requires Ready(previous) && OnceEach(listing)
    modifies previous.Entries()
    ensures fresh(next) && fresh(next.Entries()) && Ready(next) && next.view == ScanOf(listing)
    ensures ExactDiff(old(previous.view), next.view, events)
  {
    next := Build(hash, listing);
    assert next.Entries() !! previous.Entries();
    events := Reconcile(previous, next);
  }

  /** The last successful scan before round `k`; a failed scan leaves it in place. */
  ghost function Reference(first: Listing, scans: seq<Option<Listing>>, k: nat): Scan
    requires k <= |scans|
  {
    if k == 0 then ScanOf(first)
    else if scans[k - 1].Some? then ScanOf(scans[k - 1].value)
    else Reference(first, scans, k - 1)
  }

  /** Round `k` emitted nothing if its scan failed, and else exactly the difference to the
      last successful scan. */
  ghost predicate GoodRound(first: Listing, scans: seq<Option<Listing>>, k: nat, events: seq<Event>)
    requires k < |scans|
  {
    if scans[k].None? then events == []
    else ExactDiff(Reference(first, scans, k), ScanOf(scans[k].value), events)
  }

  ghost predicate GoodRounds(first: Listing, scans: seq<Option<Listing>>, rounds: seq<seq<Event>>) {
    && |rounds| <= |scans|
    && (rounds == [] || var k := |rounds| - 1;
                        GoodRounds(first, scans, rounds[..k]) && GoodRound(first, scans, k, rounds[k]))
  }

  lemma {:induction false} GoodRoundAt(first: Listing, scans: seq<Option<Listing>>, rounds: seq<seq<Event>>, k: nat)
    requires GoodRounds(first, scans, rounds) && k < |rounds|
    ensures GoodRound(first, scans, k, rounds[k])
  {
    if k < |rounds| - 1 {
      GoodRoundAt(first, scans, rounds[..|rounds| - 1], k);
    }
  }

  /** `syseba_watcher_poll_main` over a sequence of scans, some of which may have failed. */
  method Poll(hash: Path -> nat, first: Listing, scans: seq<Option<Listing>>) returns (rounds: seq<seq<Event>>)
    requires OnceEach(first) && forall k :: 0 <= k < |scans| && scans[k].Some? ==> OnceEach(scans[k].value)
    ensures |rounds| == |scans| && GoodRounds(first, scans, rounds)
  {
    var previous := Build(hash, first);
    rounds := [];
    for k := 0 to |scans|
      invariant |rounds| == k && GoodRounds(first, scans, rounds)
      invariant fresh(previous) && fresh(previous.Entries())
      invariant Ready(previous) && previous.view == Reference(first, scans, k)
    {
      var events;
      previous, events := Round(hash, previous, scans[k]);
      assert (rounds + [events])[..k] == rounds;
      rounds := rounds + [events];
    }
  }
}
