# SySeBa backup engine in Dafny

A model of the POSIX build of SySeBa and proofs about it. `dafny verify dfyconfig.toml` checks everything.

## What is modelled

**Trees and moves.** `FileTree` is a directory tree as a finite map from component paths to directories and
files, with the system calls reduced to their effect; `Volume` is such a tree changed in place. `Transfer`
walks, copies, removes and moves whole subtrees. The parameter `mayFail` says whether the operating system may refuse
calls, and the out-parameter `fault` whether it did: on a system that refuses nothing there are no faults.

**Where an event takes effect.** The target of an event is computed on normalised text, and normalising turns
backslashes into slashes. `Joining.Landing` is the place below backup and restore that belongs to an entry of the
source: its own path exactly when its names are plain components (`LandsAtHome`). The engine, the runs and the
copying of trees all go through it.

**The event engine.** `Engine` has the processing of one event, as the code of class `App` and as the relation
`Step`, which says what one call may do to backup and restore. `EngineRuns` is about sequences of such steps:
events are processed one step each, in any order, by any number of workers. The central fact is that the backup
tree after a run of successful events is a closed form (`Outcome`) of the first backup tree, the places that were
created, modified and deleted, and one tree that all events tell the truth about. For the initial synchronisation
that tree is the image of the source: the entries at the places where they land. Confluence, convergence,
mirroring by the polling watcher (`Mirroring`, `PollPipeline`), conservation (`Conservation`) and the progress
counters (`Counters`) follow; `Orders` says when the order matters. `WorkerLoop` ties the code to runs, and `SyncPipeline` ties queue, shutdown and
engine together.

**The watcher.** `Snapshot` has the bucket table, for any hash function, the reconciliation of two tables with
its `seen` marks, and the poll loop with failed scans. `Events` says what the difference of two scans is.

**Queue and shutdown.** `WorkQueue` is the linked list on the heap, refining a first-in first-out sequence.
`Shutdown` is a transition system of producers, workers and the stopping thread around it.

**File commit.** `CopyProtocol` is a transition system of the copier's system calls, interleaved with a writer
that changes or replaces the source. Every change is assumed to give size and time together a value they never
had before.

**Paths and configuration.** `PathText` relates path text and component lists, `PathReal` is the normaliser on C
buffers, `Containment` and `Joining` are containment, safe joins and relative paths, `Separation` is the
validation of a configuration, `Footprint` is what an event writes on the disk, `ConfigText` prints and reads
the configuration file, and `ConfigReading` says what reading it means.

**Small parts.** `LogTail`, `SystemdEscape`, `RestoreListing`, `Decimal`, `Ascii`, `Wrappers`.

## What turned out to hold only under a condition

Each condition is exact.

- Names are plain when they have no backslash. The file `x\y` is backed up as `y` in the directory `x`; two paths
  share their target if and only if their normal forms are equal (`SharedTarget`, `BackslashCollides`).
- A file named `x\..` has the root as its target (`RootIsATarget`). A successful delete conserves the files of backup in
  backup or restore if and only if it is not at the root, or restore had them all before (`DeleteConservesIff`): at the
  root it moves the whole of backup beside the restore area (`RootDeleteTakesAll`, `DotDotTakesAll`). What an event
  writes stays inside backup and restore if and only if it neither copies a file to the root nor moves all of backup away
  (`BackupWritesInsideIff`, `RestoreWritesInsideIff`, failing at `DotDotWritesOutside`).
- Initial synchronisation brings backup to the source if and only if all names of the source are plain and no path is
  a file on one side and a directory on the other (`InitialSyncConvergesIff`, failing at `BackslashDoesNotConverge` and
  `ClashDoesNotConverge`), provided that backup does not already hold an up-to-date entry under a name that is not plain;
  such an entry can hide the failure (`ForeignCopyHides`). For other names it brings backup to the image of the source,
  where there is one (`InitialSyncConverges`).
- From an empty backup all orders of the walk's events end with the same backup if and only if entries that land at one
  place are equal and only directories land above other entries (`OrderFreeIff`). Two files of different signature that
  share a free place are the simplest failure (`OrderMatters`).
- A poll round mirrors the current scan if and only if all names are plain and no kept path changed its kind
  (`RoundMirrorsIff`, failing at `FlipIsMissed`).
- A move across devices has every file at its destination when the removal starts, if and only if no two different
  files of the subtree land at the same place (`MoveKeepsFilesIff`, failing at `TwoFilesOneLanding`). The engine itself
  never writes such names (`RunSound`).
- A delete succeeds, system calls permitting, if and only if a name is found and no ancestor of the path is a
  regular file in restore (`DeleteSucceedsIff`); otherwise backup stays as it is (`BlockedDelete`,
  `DeleteCanBeStuck`).
- Copying always leaves another file of the directory alone if and only if its name is none that the copier may make up
  for a temporary (`OtherFilesSafeIff`); a file with such a name is deleted, because a failed exclusive creation is
  followed by an unlink (`TempNameInUseIsDeleted`).
- A shutdown drains the queue if wait-empty returned true (`ShutdownDrains`). In general it does if and only if after
  the close the list was empty, or a worker was active, or a waiting one was woken before its timeout
  (`ShutdownDrainsIff`); it is certain to do so if and only if one of the first two holds (`DrainsForCertainIff`,
  failing at `TimeoutCanLeaveEvents`).
- Saving and loading a configuration is the identity if and only if no path ends in white space
  (`SaveThenLoad`, failing at `SpaceIsLost`).
- The log tail returns one line more than asked for if and only if the file has enough newlines and all segments
  from there on are non-empty, which needs a file that does not end in a newline (`OneLineTooMany`).
- Pages fetched by separate calls show every item once, however each call sorts, if and only if no page boundary
  separates two different items that tie (`SeparateCallsIff`, failing at `TieCanHideAnItem`).
- The relative path of a file inside a base leads from the base to the file if and only if the file has the components
  of the base in front; a link can bring it inside without that (`RelativePath`, `CutIsRightIff`, failing at
  `CutGoesWrong`).
- Every successful copy is a version that the source path named, if and only if the writer does not write to a file that
  was replaced between the copier's open and its first look (`AlwaysNamedIff`, failing at `DetachedCopy`).

The documentation says that the initial scan precedes the watcher (docs/ARCHITECTURE.md); the code starts the
watcher first (src/app.c:660-669). The model follows the code: events of both kinds may be mixed in a run.

## Model

| member | source | states |
|---|---|---|
| `FileTree.Volume.Mkdirs` | src/platform.c:577-626 | Makes exactly the missing ancestors; without a system error it fails only when a proper ancestor is a regular file; an existing entry of either kind counts as success |
| `FileTree.Volume.CopyFile` | src/fs.c:636-687 | Success means the parents and the whole file and nothing else; on a system that refuses nothing it fails only when a file is above or a directory in its place; after a reported failure the destination is old or the whole new file, never a replaced directory |
| `Transfer.Walk` | src/fs.c:694-790 | Lists every entry below the root exactly once and each directory before its contents, for every order of `readdir` |
| `Transfer.CopyEntry` | src/fs.c:810-838 | Success puts exactly that entry and the missing directories above it; without a system error it fails only when a file or a directory is in the way; nothing already there changes and nothing new appears away from the destination |
| `Transfer.CopyTree` | src/fs.c:840-857 | Success is the walked entries put one after the other where they land, which for plain names is exactly the subtree at the destination; at every point what was there stays and new entries lie at, below or above the destination |
| `Transfer.CopyIsCompleteIff` | src/fs.c:810-857 | A copied tree has every file of the original if and only if no two different files land at the same place |
| `Transfer.NextIsEmpty` | src/fs.c:909-917 | Deleting a parents-first listing from its end always meets an entry that is there and has nothing inside |
| `Transfer.RemovePath` | src/fs.c:897-929 | Success removes exactly the subtree; every intermediate tree is well formed and lacks only entries at or below the path |
| `Transfer.MovePath` | src/fs.c:931-956 | With plain names a finished move takes the subtree out of one tree and puts it at the free place in the other, a failed one loses nothing, and without a system error it fails only below a regular file; with any names nothing else leaves the one tree, and the other keeps all and is new only around the destination; the removal starts only after the full copy, and across devices a finished move did both |
| `Transfer.MoveLosesNothing` | src/fs.c:948-956 | With plain names, at every intermediate state of a move across devices each file is whole at its old or its new place and nothing else is lost |
| `Transfer.MoveAside` | src/fs.c:931-956 | Moving a whole tree away leaves nothing behind, or failed and left a part of it |
| `Transfer.MoveKeepsFilesIff` | src/fs.c:948-956 | With any names, every file is whole where it lands when the removal starts if and only if no two different files land at the same place |
| `Transfer.TwoFilesOneLanding` | src/fs.c:819-828 | A directory with a file `x\y` and a different file `x/y` fails that condition |
| `Engine.CandidatesDiffer` | src/fs.c:977-985 | Stamped candidate names with different counters are different |
| `Engine.UniqueRestorePath` | src/fs.c:970-995 | Returns the plain name or the first unused candidate, in the same directory; gives up only if a name does not fit or all 100000 candidates are taken |
| `Engine.PickOrGiveUp` | src/fs.c:973-994 | Finding a name and the reasons for giving up exclude each other |
| `Engine.GivesUpOnlyWhenAllTaken` | src/fs.c:977-994 | If names fit, the search gives up only when all 100000 stamped names are taken |
| `Engine.RoomIsLength` | src/fs.c:973-989 | A restore name has room exactly when the text of the whole path fits in its buffer |
| `Engine.PlaceIsTarget` | src/app.c:352-365 | The texts computed for an event are those of its place below the two roots, and both exist exactly when it has a place |
| `Engine.App.UpsertDir` | src/app.c:369-386 | A directory event is a `Step`: on success exactly the missing directories are made |
| `Engine.App.UpsertFile` | src/app.c:387-409 | A file event is a `Step`: skipped exactly when the source is no regular file or kind, size and time agree, else copied whole or failed |
| `Engine.App.DeleteBackup` | src/app.c:426-448 | A delete event below the root is a `Step`: the subtree moves to a free restore name, or nothing is lost, and restore is new only around that name |
| `Engine.App.DeleteRoot` | src/app.c:426-434 | A delete event at the root is a `Step`: all of backup goes away and restore stays as it is, or it failed |
| `Engine.App.ProcessEvent` | src/app.c:342-455 | Every call is a `Step` at the place where the event lands, keeps all trees well formed and the source unchanged; on a system that refuses nothing it fails only for a reason that lies in the trees or names; the counters move by `StatsAfter`, whose meaning is `Counters.CountersTally` |
| `Engine.FileArrives` | src/app.c:387-409 | On a system that refuses nothing, a file event whose place is not blocked leaves the source's file there or found it up to date, and an event about no regular file is skipped |
| `Engine.InvalidIff` | src/app.c:352-365 | An event is invalid exactly when it has no place |
| `EngineRuns.RunSound` | src/app.c:342-455 | Every run keeps both trees well formed, and every name it adds to backup is plain |
| `EngineRuns.CopyIsDecidedAtTheStart` | src/app.c:395-404 | In any run a file is copied by the first event on it, and only if its first state called for it |
| `EngineRuns.RunOutcome` | src/app.c:367-448 | After every run of successful events that tell the truth about one tree, backup is the closed form `Outcome` |
| `EngineRuns.Confluence` | src/app.c:342-492 | Two such runs with the same places created, modified and deleted end with the same backup tree, whatever the order and repetitions |
| `EngineRuns.OrderMatters` | src/app.c:352-404 | Two files of different signature that share a free place: both orders are runs, and they end differently |
| `Orders.OrderFreeIff` | src/app.c:342-568 | From an empty backup every order of the walk's events ends with the same backup if and only if entries that land together are equal and only directories land above others |
| `Orders.RunExists` | src/app.c:494-513 | The events of the walk can be processed in every order, from every state |
| `EngineRuns.UpsertsSucceed` | src/app.c:367-424 | Without clashes of kind with that tree and without system errors every create and modify event succeeds |
| `EngineRuns.KindStaysOverRun` | src/platform.c:611-623 | In every run, with any faults, whose deletes land outside a tree, what backup has of the tree stays and stays of its kind |
| `EngineRuns.AnyOrderOfTheWalk` | src/app.c:494-513 | Processing the events of the walk in any order is a synchronisation run: each entry once |
| `EngineRuns.InitialSyncConverges` | src/app.c:515-568 | In every order every event succeeds and backup becomes the tree with each entry of the image of the source in equal signature, equal content if copied, and no other path changed |
| `EngineRuns.PlainIsOwnImage` | src/config.c:374-432 | A source with plain names is its own image |
| `EngineRuns.InitialSyncConvergesIff` | src/app.c:515-568 | Unless backup already holds an up-to-date entry under a name that is not plain, it ends as the source itself if and only if no path clashes in kind at the start and all names of the source are plain |
| `EngineRuns.ForeignCopyHides` | src/platform.c:469-483 | Such an entry makes backup agree with a source whose names are not plain |
| `EngineRuns.BackslashDoesNotConverge` | src/platform.c:469-483 | The file `x\y` of an otherwise empty source ends as `y` in `x`, and nothing has its name |
| `EngineRuns.ClashDoesNotConverge` | src/platform.c:611-623 | A file in backup where the source has a directory stays a file |
| `Mirroring.RoundMirrors` | src/watcher_poll.c:117-157 | With plain names the events of a round in any order make backup mirror the current scan; changed files are the source's, others are as before |
| `Mirroring.RoundMirrorsIff` | src/watcher_poll.c:132-141 | A round mirrors the current scan if and only if no kept path changed its kind and all names of the source are plain |
| `Mirroring.FlipIsMissed` | src/watcher_poll.c:132-141 | A file that became a directory stays a file in backup |
| `Mirroring.WatcherMirrors` | src/watcher_poll.c:198-227 | After every round of every run of the watcher backup mirrors the scan of that round |
| `Mirroring.RoundCopiesExactly` | src/watcher_poll.c:134-141 | When every change shows in size or time, a backup equal to the old source becomes equal to the new one, content included |
| `Mirroring.NeverTakenAway` | src/watcher_poll.c:145-156 | At no point of any run, whatever fails, does a delete that lands outside the source take away a path still in the source |
| `Mirroring.DeleteSucceedsIff` | src/app.c:426-434 | Without system errors a delete below the root succeeds if and only if there is nothing to move, or a name is found and no ancestor is a file in restore |
| `Mirroring.BlockedDelete` | src/fs.c:931-946 | With a file above the restore path a delete fails, leaves backup unchanged and stays blocked, whatever the environment does |
| `Mirroring.DeleteCanBeStuck` | src/fs.c:931-946 | A concrete pair of trees in which a delete is blocked |
| `Mirroring.DeletesSucceed` | src/app.c:426-448 | Without faults all deletes succeed in every order, if at the start nothing is in the way in restore and the stamped names fit and are new |
| `Mirroring.FaultlessRoundMirrors` | src/watcher_poll.c:117-157 | From conditions at the start of a round alone: every event succeeds and backup mirrors the current scan |
| `PollPipeline.WalkGivesScan` | src/watcher_poll.c:63-98 | The table built from a walk describes the source |
| `PollPipeline.EmittedAreTheRound` | src/watcher_poll.c:117-157 | The emitted events, processed in any order, are the events of the round |
| `PollPipeline.PollRoundMirrors` | src/watcher_poll.c:207-212 | From walk to mirror, with plain names: after the round backup has exactly the paths of the source with equal signatures |
| `PollPipeline.RoundCounts` | src/watcher_poll.c:117-157 | In every order a round counts the added files as copied and the changed files as updated |
| `PollPipeline.PollLoopMirrors` | src/watcher_poll.c:198-227 | Over every run of the poll loop, with scans that fail in between, backup mirrors the last successful scan after each round |
| `SyncPipeline.QueuedDrainedConverged` | src/app.c:515-568 | When the events of the walk were accepted, in any interleaving with the workers, and the stopping thread saw the queue empty, backup follows the image of the source and every file was counted |
| `Conservation.RestoreKeepsAll` | src/app.c:426-448 | Over every run, with any names, faults and changes of the source, nothing in restore changes or disappears |
| `Conservation.DeleteMovesExactly` | src/app.c:426-435 | A successful delete below the root takes exactly its subtree out of backup and adds exactly it, and missing parent directories, to restore at a free place in the same directory |
| `Conservation.RootDeleteTakesAll` | src/app.c:426-435 | A successful delete at the root empties backup and leaves restore as it is |
| `Conservation.DeleteConservesIff` | src/app.c:426-435 | A successful delete keeps every file of backup in backup or restore if and only if it is not at the root, or restore had them all before |
| `Conservation.DotDotTakesAll` | src/platform.c:532-541 | Deleting the file `x\..` from the source empties backup |
| `Conservation.NothingIsLost` | src/app.c:367-448 | After every run without a delete at the root, a file of backup is still there, is in restore, or at some step an event put the whole file of the source in its place |
| `Counters.CountFiles` | src/app.c:538-545 | `initial_total` is the number of files of the source |
| `Counters.CountersTally` | src/app.c:387-436 | Over every run, told from the trees: `copied` and `updated` count the CREATE and MODIFY events that brought a file that was missing or differed, `deleted` the events that took something away, `skipped` the file events that left backup alone |
| `Counters.WatchingIsNoProgress` | src/app.c:450-453 | Events of the watcher do not move the progress of the synchronisation |
| `Counters.ProgressAddsUp` | src/app.c:327-340 | Over every run of the walk's events `initial_done` counts each file once and is copied plus skipped plus failed, even with failing system calls |
| `Counters.DoneIsTotal` | src/app.c:544-568 | In a drained synchronisation `initial_done` equals `initial_total` |
| `Counters.CopiesExactlyTheStale` | src/app.c:23-47 | With plain names exactly the files whose copy was missing or differed are copied, exactly the others skipped, in every order |
| `Counters.SecondSyncCopiesNothing` | src/app.c:387-404 | A second synchronisation over the same source, whose names have an image, copies nothing, skips every file and changes nothing |
| `WorkerLoop.Work` | src/app.c:457-492 | A worker takes events from the front of the queue until the list is empty or a wait times out; processing them is a run with exactly those events in that order, each is reported done, and the counters are those of the run |
| `Snapshot.Table.Find` | src/watcher_poll.c:14-34 | Lookup along the bucket agrees with the plain map, for any hash function |
| `Snapshot.Table.Insert` | src/watcher_poll.c:36-61 | Insertion at the head of the bucket is an update of the map |
| `Snapshot.DiffIsExact` | src/watcher_poll.c:127-155 | The events of both loops are, with multiplicity one, the creations, modifications and deletions of the difference and nothing else |
| `Events.NothingChangedNothingEmitted` | src/watcher_poll.c:132-141 | Scans that differ only in what they record about directories give no events |
| `Events.OneEventEach` | src/watcher_poll.c:127-155 | No path gives two events |
| `Snapshot.EmitUpserts` | src/watcher_poll.c:121-144 | The first loop emits in bucket order and marks exactly the old entries whose path is still there |
| `Snapshot.EmitDeletes` | src/watcher_poll.c:145-156 | The second loop emits one DELETE for each unmarked entry |
| `Snapshot.Reconcile` | src/watcher_poll.c:117-157 | Emits exactly the difference of the two maps |
| `Snapshot.Build` | src/watcher_poll.c:81-98 | The table of a walk stands for the map of the walk and no entry is marked |
| `Snapshot.Round` | src/watcher_poll.c:207-226 | A failed scan leaves the old table unmarked; a successful one emits exactly the difference |
| `Snapshot.Poll` | src/watcher_poll.c:159-230 | Every round starts with no entry marked and emits exactly the difference to the last successful scan |
| `WorkQueue.LinkedQueue.Push` | src/queue.c:56-81 | Appends to the sequence and counts it as unfinished, unless the queue is closed; the list stays linked head to tail |
| `WorkQueue.LinkedQueue.Pop` | src/queue.c:83-115 | Takes the first of the sequence, or nothing exactly when it is empty or the wait timed out; `unfinished` stays |
| `WorkQueue.LinkedQueue.TaskDone` | src/queue.c:117-127 | One less unfinished, and whether that was the last |
| `WorkQueue.LinkedQueue.Close` | src/queue.c:21-28 | Only closes |
| `Shutdown.StepInv` | src/app.c:457-492 | Every step of every thread keeps: accepted is taken plus queued in order, unfinished is queued plus taken but not done, taken is processed or held |
| `Shutdown.EveryRun` | src/queue.c:56-127 | In every reachable state the queue is first in first out, each accepted event is processed at most once, and `unfinished` counts exactly the events not done |
| `Shutdown.GuardNeverBites` | src/queue.c:117-127 | Whenever `task_done` is called `unfinished` is positive |
| `Shutdown.WaitEmptyIff` | src/queue.c:129-152 | Wait-empty reports true if and only if every accepted event was processed and no worker owes its `task_done` |
| `Shutdown.StopAdmitsNoMore` | src/app.c:63-66 | After a stop request no more events are accepted than producers had looked at the flag before |
| `Shutdown.StoppingRequestsStop` | src/app.c:702-704 | Stopping requests a stop |
| `Shutdown.NothingAcceptedLater` | src/app.c:704-710 | Once the producers are joined no event is accepted |
| `Shutdown.ShutdownDrains` | src/app.c:702-720 | If wait-empty returned true, the list is empty when the workers are joined and every accepted event was processed exactly once |
| `Shutdown.DrainedShutdownExists` | src/app.c:702-720 | For all numbers of producers and workers and all events there is a run that accepts exactly them and in which wait-empty reports true |
| `Shutdown.ShutdownDrainsIff` | src/app.c:702-720 | Whatever it returned: every accepted event was processed exactly once if and only if after the close the list was empty, or a worker was active, or a waiting one was woken before its timeout |
| `Shutdown.DrainsForCertainIff` | src/app.c:457-492 | Every way to go on from the close drains the list if and only if it is empty or a worker is active |
| `Shutdown.TimeoutCanLeaveEvents` | src/app.c:461-466 | A run in which the wait times out and an accepted event is never processed |
| `CopyProtocol.StepInv` | src/fs.c:385-447 | Every step of copier and writer keeps the invariant that ties the temporary file to the version first seen |
| `CopyProtocol.NeverPartial` | src/fs.c:636-687 | Under every interleaving, across chunks and retries, the destination is old or a complete version of the source |
| `CopyProtocol.SuccessIsComplete` | src/fs.c:411-447 | Success means content, size and time of one version that the file opened as the source had during the call |
| `CopyProtocol.SuccessWasNamed` | src/fs.c:411-447 | If no replaced file is written to before the first look, it is a version that the source path named |
| `CopyProtocol.DetachedCopy` | src/fs.c:411-447 | Otherwise a version that the path never named can be copied with success |
| `CopyProtocol.AlwaysNamedIff` | src/fs.c:385-447 | Every successful copy is a version that the path named if and only if the writer writes to no replaced file before the first look |
| `CopyProtocol.QuietCopyIsExact` | src/fs.c:636-687 | Over a standing source a successful copy equals the source |
| `CopyProtocol.CopySucceeds` | src/fs.c:636-687 | For every content and unused temporary name, whenever an attempt is left, a run without writer and trouble ends with the source at the destination and no temporary file |
| `CopyProtocol.QuietRunNeverFails` | src/fs.c:385-447 | Every run without writer and trouble never cleans up and never fails |
| `CopyProtocol.FailsOnlyAfterAll` | src/fs.c:647-685 | Unless it gives up, the call fails if and only if every attempt ended in a clean-up |
| `CopyProtocol.RetrySucceeds` | src/fs.c:647-685 | After fewer troubled attempts than there are, the copy can still succeed |
| `CopyProtocol.NoTempLeft` | src/fs.c:677-681 | If every clean-up removes its file, no temporary file is left |
| `CopyProtocol.OtherFilesSafe` | src/fs.c:649-680 | Other files of the directory are untouched if the temporary names were unused |
| `CopyProtocol.OtherFilesSafeIff` | src/fs.c:649-680 | Every run leaves another file of the directory alone if and only if its name is none that may be made up for a temporary |
| `CopyProtocol.TempNameInUseIsDeleted` | src/fs.c:372-384 | A file that has the temporary name is deleted |
| `PathText.TokensAreTokens` | src/platform.c:529-547 | Tokens are non-empty and slash-free, and at most half as many as characters |
| `PathText.TokensOfJoin` | src/config.c:390-395 | Text on both sides of a slash is tokenised separately |
| `PathText.ResolveIsCancelling` | src/platform.c:532-541 | The stack of parts is what is left when each `..` cancels the nearest uncancelled component on its left |
| `PathText.ResolveIsFollowing` | src/platform.c:532-541 | Resolving is following the tokens one after the other from where the first ones lead |
| `PathText.NormalIsCanonical` | src/platform.c:522-574 | For every text the result has no empty, `.` or `..` component and means what `..` means |
| `PathText.NormalIdempotent` | src/platform.c:485-575 | Normalising twice is normalising once |
| `PathText.NormalShrinks` | src/platform.c:485-575 | Normalising never makes an absolute path longer |
| `PathReal.SplitParts` | src/platform.c:529-547 | The token loop leaves the resolved components and never indexes past the parts array |
| `PathReal.WriteParts` | src/platform.c:556-574 | Succeeds exactly when the text fits, writes exactly it, and nothing at or beyond `size` |
| `PathReal.FitsIff` | src/platform.c:503-517 | The limits in characters: 4095 for the text, one less than the buffer for the result |
| `PathReal.Real` | src/platform.c:485-575 | Succeeds exactly when both texts fit and then holds the text of where the path leads, from the root or from the working directory, also when input and output are one buffer |
| `Containment.ParentOfText` | src/platform.c:628-649 | The parent of a canonical path drops its last component and differs from it, except at the root |
| `Containment.Climb` | src/config.c:282-289 | The climbing loop ends at the nearest existing ancestor, or finds that there is none |
| `Containment.ExistingIsNearest` | src/config.c:282-289 | That ancestor exists, and nothing between it and the path does |
| `Containment.ResolveLinks` | src/config.c:269-342 | The result is the real path of the nearest existing ancestor with the rest below it, normalised |
| `Containment.LinkFreeResolves` | src/config.c:269-342 | Without links a path resolves to its own normal form |
| `Containment.BoundaryIsComponentPrefix` | src/config.c:358-371 | On canonical paths the text prefix with boundary check is the prefix order on component lists |
| `Containment.IsWithin` | src/config.c:344-372 | True exactly when the resolved base is a component prefix of the resolved candidate |
| `Joining.SafeJoin` | src/config.c:374-401 | What is accepted is the canonical join and leads at or below the base; refusal has one of three reasons |
| `Joining.JoinIsUnderBase` | src/config.c:374-401 | Without links an accepted join has the components of the base as a prefix |
| `Joining.RelativePath` | src/config.c:403-432 | Without links it is defined exactly below the base and is the text of the remaining components; with links it is the normal path with as many characters cut off as the base has, which leads to the path if and only if the path has the components of the base in front |
| `Joining.CutIsRightIff` | src/config.c:419-423 | Cutting off the length of the base and joining again gives the path if and only if its components begin with those of the base |
| `Joining.CutGoesWrong` | src/config.c:419-423 | A disk with a link on which a path inside the base is cut in the middle of a name, and one on which it is too short |
| `Joining.Target` | src/app.c:352-365 | For any event text: the other root followed by what the normal form of the text has beyond the source, exactly when it is below the source and fits |
| `Joining.JoinRelative` | src/config.c:374-432 | Joining the relative path of a descendant gives the descendant back exactly when the joined text fits |
| `Joining.LandsAtHome` | src/config.c:374-432 | An entry lands at its own path if and only if its names are plain components |
| `Joining.SharedTarget` | src/config.c:374-432 | Two event paths share their target if and only if their normal forms have the same components |
| `Joining.BackslashCollides` | src/platform.c:469-483 | For any components the entry `x\y` lands where `y` in `x` does |
| `Joining.RootIsATarget` | src/platform.c:532-541 | The entry `x\..` lands at the root itself |
| `Separation.Validate` | src/config.c:434-491 | Accepts exactly the configurations that meet all tests; not-found exactly for a missing source |
| `Separation.AcceptedIff` | src/config.c:434-491 | Without links a configuration is accepted if and only if the source is a directory, no tree lies in another, the log is not in the source, there are 1 to 64 threads and every path is one line |
| `Separation.RootsApart` | src/config.c:460-478 | Without links the three roots of an accepted configuration are pairwise no ancestors of each other |
| `Footprint.SuffixStaysInDirectory` | src/fs.c:649-655 | A temporary or stamped name renames the last component and stays in its directory |
| `Footprint.CandidateText` | src/fs.c:977-985 | The text printed in the search for a restore name is that of the candidate below the restore root |
| `Footprint.BackupChangesNear` | src/app.c:367-448 | Every step changes backup only at, above or below the place of its event |
| `Footprint.RestoreChangesNear` | src/app.c:426-448 | Only deletes below the root change restore, and only at, above or below the name found, which is the place of the event or a stamped name beside it |
| `Footprint.BackupWritesInsideIff` | src/fs.c:649-655 | What an event writes for backup, temporaries included, lies in backup if and only if it does not copy a file to the root |
| `Footprint.RestoreWritesInsideIff` | src/fs.c:970-995 | What an event writes for restore lies in restore if and only if it does not move all of backup away |
| `Footprint.DotDotWritesOutside` | src/platform.c:532-541 | The file `x\..` makes the engine write beside backup when it is created and beside restore when it is deleted |
| `Footprint.WritesStayApart` | src/config.c:468-478 | Apart from those two cases, whatever any step changes, temporaries included, lies under backup or restore, apart from the source, and what is written in backup is apart from what is written in restore |
| `Decimal.ParsePrint` | src/config.c:594-599 | Reading a printed number gives it back |
| `ConfigText.Trim` | src/config.c:17-28 | Cuts white space at both ends |
| `ConfigText.ParsePrintedThreads` | src/config.c:212-227 | A printed thread count is read back |
| `ConfigText.ReadSetting` | src/config.c:177-188 | A printed setting is read back as its value without trailing white space |
| `ConfigText.Load` | src/config.c:94-258 | The line loop computes the reading of the whole text, then resolves and validates |
| `ConfigReading.LoadedPaths` | src/config.c:65-92 | Each loaded path leads where its setting leads from the root or, if relative, from the directory of the configuration file; no setting was empty and the section was there |
| `ConfigReading.ReadInParts` | src/config.c:129-230 | Reading a text is reading its first lines and then the others |
| `ConfigReading.CommentsAreIgnored` | src/config.c:151-154 | Blank lines and comments change nothing, wherever they stand |
| `ConfigReading.OtherSectionsAreIgnored` | src/config.c:174-176 | Outside of the section nothing but a header matters |
| `ConfigReading.HeaderSwitches` | src/config.c:155-173 | A header opens the section exactly if its name is `settings` in any case |
| `ConfigReading.NoEqualsIsRefused` | src/config.c:177-185 | A line of the section without an equals sign is refused |
| `ConfigReading.SettingIsRead` | src/config.c:177-188 | A setting is read by its key in lower case and its value, both trimmed |
| `ConfigReading.KeysMatchInAnyCase` | src/config.c:199-212 | Keys that differ only in case do the same |
| `ConfigReading.LastSettingWins` | src/config.c:190-227 | Of two settings of the same key the last one wins |
| `ConfigReading.UnsetStays` | src/config.c:102-105 | A path that no part of the text sets keeps its default |
| `ConfigReading.DefaultsStay` | src/config.c:102-106 | The section alone gives the default values |
| `ConfigReading.NoSectionIsRefused` | src/config.c:238-241 | A file without the section is refused |
| `ConfigReading.BomIsSkipped` | src/config.c:147-150 | A byte order mark in front is skipped |
| `ConfigReading.LongLineIsRefused` | src/config.c:135-146 | A line that does not fit in the buffer is refused |
| `ConfigReading.ThreadsRange` | src/config.c:212-227 | A number of threads is accepted if and only if it lies between 1 and 64 |
| `ConfigReading.SignedThreads` | src/config.c:212-227 | A plus sign does not matter and a minus sign wraps around at 64 bits |
| `ConfigReading.OnlyNumbers` | src/config.c:212-227 | What is no number is refused |
| `ConfigReading.OtherKeysAreIgnored` | src/config.c:204-227 | Other keys change nothing |
| `ConfigReading.OpenHeaderIsRefused` | src/config.c:155-164 | A header without its closing bracket is refused |
| `ConfigReading.TrimmedCuts` | src/config.c:17-28 | Trimming cuts off exactly the white space at both ends |
| `ConfigText.SaveThenLoad` | src/config.c:550-599 | For valid normalised configurations loading the printed text gives the same configuration if and only if no path ends in white space |
| `ConfigText.SpaceIsLost` | src/config.c:17-28 | An accepted configuration that does not come back |
| `LogTail.FindStart` | src/log.c:260-279 | For any chunk size the scan stops just after the newline that is one too many, or at byte 0 |
| `LogTail.StartIsUnique` | src/log.c:260-279 | That position is unique |
| `LogTail.ChompLine` | src/log.c:223-225 | Cuts carriage returns and newlines off the end of a line |
| `LogTail.Tail` | src/log.c:236-316 | Returns in order the non-empty segments from that position on, without trailing line ends |
| `LogTail.SegmentsAreTheText` | src/log.c:294-312 | The segments put together with newlines are the text, and none has a newline inside |
| `LogTail.NonEmptyInParts` | src/log.c:297-312 | Exactly the empty segments are left out, in order |
| `LogTail.ChompCuts` | src/log.c:223-225 | Exactly the carriage returns and newlines at the end are cut off |
| `LogTail.ExactlyTheLastLines` | src/log.c:260-279 | With more newlines than lines asked for, exactly that many lines and what follows them are looked at |
| `LogTail.TailLength` | src/log.c:261-279 | No more lines than asked for if the file ends in a newline, at most one more otherwise |
| `LogTail.OneLineTooMany` | src/log.c:261-279 | Exactly when one line more is returned |
| `LogTail.OneLineTooManyExample` | src/log.c:261-279 | A file of two lines without a final newline gives both for one line asked |
| `SystemdEscape.EscapeInto` | src/service_linux.c:60-86 | Succeeds exactly on control-free input whose escaped text fits, writes exactly it, and always fits 4095 bytes into 8192 |
| `SystemdEscape.ControlFreeIff` | src/service_linux.c:73-73 | Exactly the characters below 32 and 127 are refused |
| `SystemdEscape.UnescapeEscape` | src/service_linux.c:71-82 | Unescaping gives the input back |
| `SystemdEscape.EscapeProtectsQuotes` | src/service_linux.c:71-82 | No quote stands unprotected in the escaped text |
| `SystemdEscape.EscapedCharacters` | src/service_linux.c:71-82 | What becomes of each character |
| `SystemdEscape.ShellEscape` | scripts/syseba-maintenance.sh:507-514 | The shell function gives what the C loop gives |
| `SystemdEscape.FourSubstitutions` | scripts/syseba-maintenance.sh:509-512 | Four successive whole-string substitutions equal the character-wise escape |
| `RestoreListing.TotalPreorder` | src/fs.c:1096-1173 | Each of the six comparators is antisymmetric in sign, total and transitive, and puts directories first |
| `RestoreListing.OrderMeans` | src/fs.c:1096-1173 | What each of the six orders puts first, told from the fields of the items |
| `RestoreListing.Paginate` | src/fs.c:1409-1432 | Page number clamped, flags right, and the array starts with exactly the page of the sorted list |
| `RestoreListing.PageSizes` | src/fs.c:1331-1339 | 100 items unless asked otherwise, 250 at most |
| `RestoreListing.PagesNeeded` | src/fs.c:1410-1415 | As many pages as it takes, at least one |
| `RestoreListing.PagesPartition` | src/fs.c:1410-1425 | For every list and page size the pages concatenate to the list |
| `RestoreListing.SeparateCallsIff` | src/fs.c:1396-1432 | The pages of separate calls show every item exactly once, however each call sorts, if and only if no page boundary separates two different items that tie |
| `RestoreListing.SortIsUniqueIff` | src/fs.c:1407-1407 | There is only one sorted list if and only if no two different items tie |
| `RestoreListing.TieCanHideAnItem` | src/fs.c:1128-1137 | With a tie two calls can show one item twice and the other never |

## Left out

- HTTP, JSON, tokens, SQLite, dashboard, command line, service installation, packaging: plumbing over libraries.
- Windows and macOS branches, and native inotify translation.
- Symbolic links, special files, permissions and durability; links appear only as the abstract `realpath`.
- Restoring items to the source, the ring of recent log lines, and the log writer.
- FileTree.Volume.CopyFile: one step with a standing source. It leaves out the temporary file that stays behind when its unlink fails, and the deletion of a file that already has the temporary name; the steps inside are the subject of `CopyProtocol`, which has both.
- Engine.App.ProcessEvent: one step, so that two workers inside the same path at once are not modelled; the time stamp is a parameter; counters are unbounded, and `queued_events` is not modelled.
- Engine.App.DeleteRoot: the tree that is moved beside the restore area is not followed, and the search for a free name there is a choice; the restore area itself exists.
- Transfer.CopyTree: stated for a free destination, as the move uses it; overwriting on restore is not modelled.
- Transfer.MovePath: stated for a free destination, which is what the search for a restore name provides.
- Snapshot.Table.Insert: chains are sequences of entry objects instead of linked entries, and allocation failure is not modelled.
- Snapshot.Build: the walk is given as a listing that names each path once, which `Transfer.Walk` guarantees; the FNV hash itself is not modelled.
- WorkQueue.LinkedQueue.Pop: the part after the wait loop; waiting, waking and timing out are steps of `Shutdown`.
- WorkerLoop.Work: one worker until its pop gives nothing; interleavings of several workers are runs in `EngineRuns` and `Shutdown`.
- Joining.RelativePath: with links, nothing is said when the normal path is shorter than the base, where the code reads behind the end of the text.
- ConfigText.Load: refusals are not told apart by code or message, and read errors of the file are not modelled.
- Containment.ResolveLinks: buffers are strings with explicit length checks; only `PathReal` works on arrays.
- LogTail.FindStart: the newline count does not wrap at 32 bits, and read errors are not modelled.
- RestoreListing.Paginate: takes the array as `qsort` left it; reading the directory and the search filter are not modelled.
