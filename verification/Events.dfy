/** Events, and the difference between two scans that the polling watcher turns into events. */
module Events {
  import opened FileTree

  datatype Kind = Create | Modify | Delete

  datatype Event = Event(kind: Kind, path: Path, directory: bool, initial: bool)

  /** What a scan records about an entry; a directory counts as size 0. */
  datatype Meta = Meta(size: nat, mtime: int, directory: bool)

  type Scan = map<Path, Meta>

  /** One CREATE for an added path, one MODIFY for a kept path that is a file now and
      whose size or time changed, one DELETE for a vanished path. */
  predicate InDiff(previous: Scan, current: Scan, e: Event) {
    && !e.initial
    && match e.kind
       case Create => e.path in current && e.path !in previous && e.directory == current[e.path].directory
       case Modify =>
         && e.path in current && e.path in previous && !e.directory && !current[e.path].directory
         && (current[e.path].size != previous[e.path].size || current[e.path].mtime != previous[e.path].mtime)
       case Delete => e.path in previous && e.path !in current && e.directory == previous[e.path].directory
  }

  /** The scan of a tree that stands still, which succeeds only from a directory.  The times of directories
      are never compared. */
  ghost predicate IsScan(t: Tree, s: Scan) {
    && Rooted(t)
    && (forall p :: p in s <==> p in t && p != [])
    && forall p :: p in s ==>
         && s[p].directory == t[p].Dir?
         && (t[p].File? ==> s[p].size == |t[p].content| && s[p].mtime == t[p].mtime)
  }

  /** Scans that differ at most in what they record about directories give no events. */
  lemma NothingChangedNothingEmitted(previous: Scan, current: Scan, e: Event)
    requires previous.Keys == current.Keys
    requires forall q :: q in current ==> current[q].directory == previous[q].directory
    requires forall q :: q in current && !current[q].directory ==> current[q] == previous[q]
    ensures !InDiff(previous, current, e)
  {
  }

  /** Every added, changed or vanished path gives exactly one event, of its own kind. */
  lemma OneEventEach(previous: Scan, current: Scan, e: Event, f: Event)
    requires InDiff(previous, current, e) && InDiff(previous, current, f) && e.path == f.path
    ensures e == f
  {
  }
}
