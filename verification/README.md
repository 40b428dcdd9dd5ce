# Process, buffer and path models of the kernel

This project models the concurrent and the loop-heavy parts of the kernel in Dafny and proves what
they promise.

- **Process tree** (`Processes`, `ProcessProtocol`, `ProcessRuns`, `CpuTime`, `ExitPath`,
  `SubreaperFlags`, `ProcessEffects`): clone, exit and wait over parent links and optional `children` maps. A step is one
  critical section under a `children` lock or one atomic load, and a run is any interleaving of steps.
  Proved over all runs: the shape of the tree, exactly which step can panic, the bounds of both retry
  loops, the process table, single reaping and the conservation of CPU time. The bounds count failed
  attempts to link a child or to move children; how often a walk to a reaper starts over is not bounded
  by rank, since it waits for the exit of another process. An exit that nobody interferes with finishes
  and hands over exactly its children; a clone puts its child below the parent of that very moment; CPU
  time goes to the one who waited. On a tree nobody else changes, orphans go to the nearest live subreaper, and `set_child_subreaper` and the exit path keep the flags that make this
  work; between clones and exits the flags are handed down exactly as long as no process strays.
- **Ring buffer** (`BitMasks`, `RingLayout`, `RingBuffer`, `RingSpsc`, `RingSpscFlow`, `UserBuffers`): the wrapping
  counters and masked offsets refine a plain sequence, with scatter/gather copies that may fault; one
  producer and one consumer are interleaved load by load, slot by slot and store by store. What either
  side sees of the other is exact, and what was pushed is popped, in order.
- **Path resolution** (`PathStrings`, `PathLookup`, `PathLaws`, `PathWalks`): the loop that rewrites the path string
  and splices links refines a recursive resolver over components (pathname resolution, section 4.13 of
  the Base Definitions of POSIX.1-2017). Walks compose, and splitting agrees with lookup.
  Where a path leads, and with which error it stops, is told by the nodes its names look up to.
- **Threads and execve** (`TaskSets`, `ExecveHandover`, `ExecveRuns`): the task vector and the wait/wake protocol that
  leaves the execve thread alone and makes it the main thread, for every interleaving with clones,
  exits and SIGKILL.
- **C strings** (`Words`, `ReadCString`): the word-at-a-time reader equals a byte-at-a-time scan.
- **Observers** (`SyncSubject`, `SubjectRuns`): the lock-free fast path of a notification drops no event.
- **Directory entries, vectored reads, CPU bitmaps** (`Dirents`, `VectoredRead`, `CpuSets`).

`Wrappers` holds options, results and error codes, `Sequences` facts about sequences.

Objects that the source updates in place are classes with a specification on values; mutable reader and
buffer arguments of the C-string reader are in- and out-parameters. Clocks, memory faults, the answers of
`read_at`, the file system and the scheduling are inputs.

Where a documented or expected property does not hold, the model follows the code, a lemma gives the
failing input, and another lemma the exact condition:

- A step of clone, exit or wait panics if and only if it reads the parent link of a process that was
  reaped already and whose parent is gone (`PanicExactly`); `ReapedParentHandleCanDrop` is a run that
  gets there.
- The reaper picked is the nearest live subreaper, or init when there is none, if and only if no live
  subreaper is above or the flags reach up to the nearest one (`PickedIsNearestIff`);
  `PickedCanMissSubreaper` is a state in which they do not.
- While clones and exits go on, `set_child_subreaper` may miss a descendant. At all times only processes
  in a queue owe the flag to a child if and only if no exit hands an unflagged child to a flagged reaper
  that is in no queue any more (`HandedIffNoneStrays`); then all flags are handed down when the
  propagations have ended (`PropagationsHandDown`). The `children` lock of the process that propagates is
  held from its first visit to the end, so such a reaper is never a process whose own propagation is under
  way (`StrayReaperIsIdle`). In the run of `StrayLosesReaper` a process is reaped while it still owns a
  child, its parent becomes a subreaper and finds no child to flag, and only then is the child handed over:
  all propagations have ended and a child of the subreaper is without the flag.
- A directory entry whose name is longer than 65508 bytes gets a truncated record length; a walk of the
  buffer finds an accepted entry if and only if its name is not longer (`VisitParses`, `LongNameLost`).
- For a lone relative name, looking up the split-off `.` leads to what is mounted over the start and not
  to the start itself (`SplitAgreesWithLookup`, `MountedStartDiffers`).
- Reading a CPU bitmap back gives the same set if and only if the set is not empty and none of its CPUs
  lies beyond the user's buffer (`RoundTripIff`, `EmptySetRejected`, `CpuBeyondBufferLost`).

## Model

| member | source | states |
|---|---|---|
| `Processes.ExactlyOneParent` | kernel/src/process/clone.rs:739-785 | an unreaped process lies in the children map of the process its parent link names and in no other |
| `Processes.ChainEndsAtInit` | kernel/src/process/clone.rs:739-785 | the chain of parents of every process strictly descends in creation rank and ends at init |
| `Processes.AttachWellFormed` | kernel/src/process/clone.rs:743-783 | linking a new child keeps children maps and parent links inverse and ranks descending |
| `Processes.ReparentWellFormed` | kernel/src/process/exit.rs:92-116 | handing the children of a zombie to an earlier process keeps the tree well formed |
| `Processes.ReapWellFormed` | kernel/src/process/wait.rs:205-211 | removing a zombie from its waiter's children keeps the tree well formed |
| `CpuTime.TickTime` | kernel/src/process/wait.rs:235-237 | a tick of an unreaped process adds exactly its time to the total over unreaped processes |
| `CpuTime.TickTimeLost` | kernel/src/process/wait.rs:235-237 | a tick after reaping changes no total |
| `CpuTime.ReapConservesTime` | kernel/src/process/wait.rs:235-238 | reaping moves own and inherited time of the child to the waiter and keeps the total |
| `ProcessProtocol.ReadRealParentInv` | kernel/src/process/clone.rs:787-795 | under CLONE_PARENT the parent handle still upgrades, and the real parent is a known process |
| `ProcessProtocol.RetryMeansEarlierParent` | kernel/src/process/clone.rs:746-751 | cleared children of the real parent mean CLONE_PARENT and a cloner that already has an earlier-created parent |
| `ProcessProtocol.WalkExitOk` | kernel/src/process/exit.rs:60-87 | every step of the walk to a reaper stays at earlier processes, never at a reaper that failed before, and init never fails |
| `ProcessProtocol.WalkInv` | kernel/src/process/exit.rs:60-87 | a step of the walk panics exactly when it reads the parent link of an already reaped process whose parent is gone, and keeps the invariant |
| `ProcessProtocol.ReparentLowers` | kernel/src/process/exit.rs:104-113 | reparenting moves parent links only to earlier processes |
| `ProcessProtocol.ActionInv` | kernel/src/process/exit.rs:18-136 | every step of clone, exit and wait keeps the invariant, and panics exactly in that one case |
| `ProcessProtocol.RestartMeansReaped` | kernel/src/process/exit.rs:78-85 | a walk starts over only at a reaped ancestor whose own parent is gone; if that is still the parent of an unreaped process, its exit is under way |
| `ProcessProtocol.RunInv` | kernel/src/process/exit.rs:18-136 | the invariant holds in every state of every interleaving |
| `ProcessRuns.TreeSafety` | kernel/src/process/exit.rs:92-136 | over all runs: one children map per unreaped process, none for reaped ones, cleared maps only for zombies other than init, descending parent chains to init |
| `ProcessRuns.PanicExactly` | kernel/src/process/exit.rs:60-84 | over all runs: a step panics if and only if it reads the parent link of an already reaped process whose parent is gone; clones, waits and exits of unreaped processes never do |
| `ProcessRuns.RetriesBounded` | kernel/src/process/exit.rs:119-136 | over all runs: a clone retries fewer times than its cloner's rank, an exit fails to move its children at most as often as its own rank; the reaper to be locked is earlier and has not failed before |
| `ProcessRuns.FailureIsProgress` | kernel/src/process/clone.rs:740-751 | a failed attempt leaves the cloner below an earlier parent, or met a reaper that is a zombie and is never tried again |
| `ProcessRuns.ParentHandleLive` | kernel/src/process/exit.rs:60-61 | the parent of an unreaped process is never dropped |
| `ProcessRuns.ReapedParentHandleCanDrop` | kernel/src/process/exit.rs:60-61 | a run in which a process reaped early has lost its parent, so its next step panics |
| `ProcessRuns.BooksBalance` | kernel/src/process/wait.rs:205-241 | over all runs: the table holds exactly the unreaped processes, nothing is reaped twice, and time summed over unreaped processes equals the time ticked while unreaped |
| `ProcessRuns.AttachFlags` | kernel/src/process/clone.rs:756-761 | a new child inherits the flag, so closure under descendants stays |
| `ProcessRuns.ReparentFlags` | kernel/src/process/exit.rs:107-113 | reparenting below a process whose flag the old parent shares keeps closure |
| `ProcessRuns.WalkFlags` | kernel/src/process/exit.rs:60-87 | along the walk, a flag at the current ancestor implies the flag at the exiting process |
| `ProcessRuns.FlagsPreserved` | kernel/src/process/clone.rs:756-761 | every step of clone, exit and wait keeps the flag closed under descendants |
| `ProcessRuns.FlagsStayClosed` | kernel/src/process/clone.rs:756-761 | closure lasts over any stretch of a run without an explicit flag change |
| `ExitPath.NearestReaperOnChain` | kernel/src/process/exit.rs:63-86 | the recursive nearest reaper is the first eligible process on the ancestor chain |
| `ExitPath.ClosedFlagsReach` | kernel/src/process/exit.rs:68-70 | flags of subreapers and their descendants reach up to the nearest reaper |
| `ExitPath.LinkedFlagsReach` | kernel/src/process/exit.rs:68-70 | the same for flags handed down along children maps when no exit is under way |
| `ExitPath.PickedIsNearestIff` | kernel/src/process/exit.rs:119-135 | the picked reaper is the nearest one exactly when no live subreaper is above or the flags reach it |
| `ExitPath.PickedCanMissSubreaper` | kernel/src/process/process/mod.rs:748-749 | a reachable state in which init is picked although a live subreaper is nearer |
| `ExitPath.PickedIsNearest` | kernel/src/process/exit.rs:119-135 | on a settled tree with handed-down flags orphans go to the nearest live subreaper, else init |
| `ExitPath.FlagsReachDown` | kernel/src/process/process/mod.rs:765-792 | a flag anywhere above an unreaped process is also at that process |
| `ExitPath.ReparentKeepsFlags` | kernel/src/process/exit.rs:107-113 | handing children to the picked reaper keeps the flags handed down |
| `ExitPath.ProcessForest.FindReaperProcess` | kernel/src/process/exit.rs:60-87 | returns the nearest eligible ancestor if the flags reach it, nothing otherwise |
| `ExitPath.ProcessForest.MoveProcessChildren` | kernel/src/process/exit.rs:92-116 | moves all children and clears the own map, or fails without a change when the reaper has lost its map |
| `ExitPath.ProcessForest.FlagNext` | kernel/src/process/process/mod.rs:778-791 | one process leaves the queue, its children are flagged, and the work left strictly shrinks |
| `ExitPath.ProcessForest.PropagateHasChildSubreaper` | kernel/src/process/process/mod.rs:765-792 | terminates with no child of a flagged process unflagged and nothing but descendants newly flagged |
| `ExitPath.ProcessForest.SetChildSubreaper` | kernel/src/process/process/mod.rs:747-753 | afterwards flags are handed down everywhere again, kept where they were, and new only at and below the process |
| `ExitPath.ProcessForest.MoveChildrenToReaperProcess` | kernel/src/process/exit.rs:119-136 | the children end up at the picked reaper, init keeps its own, tree and flags stay well formed |
| `SubreaperFlags.ReparentOwes` | kernel/src/process/exit.rs:107-113 | handing over children leaves only queued processes owing the flag exactly when no unflagged child goes to a flagged reaper that is in no queue |
| `SubreaperFlags.AttachOwes` | kernel/src/process/clone.rs:753-761 | linking a child leaves nobody new owing the flag |
| `SubreaperFlags.VisitOwes` | kernel/src/process/process/mod.rs:778-791 | flagging the children of a queued process settles what it owes, and the newly flagged ones are queued |
| `SubreaperFlags.VisitProgress` | kernel/src/process/process/mod.rs:778-791 | a visit leaves fewer processes without the flag, or as many and a shorter queue, so a propagation ends |
| `SubreaperFlags.HandedExactly` | kernel/src/process/process/mod.rs:747-792 | a step of propagation, clone, exit or wait that finds its `children` locks free keeps that only queued processes owe the flag if and only if it lets no process stray |
| `SubreaperFlags.HandedIffNoneStrays` | kernel/src/process/process/mod.rs:765-792 | over every interleaving that the `children` locks allow: that holds in all states exactly when no step lets a process stray |
| `SubreaperFlags.PropagationsHandDown` | kernel/src/process/process/mod.rs:765-792 | when all propagations have ended and no process strayed, every child of a flagged process has the flag |
| `SubreaperFlags.SubreaperReaches` | kernel/src/process/process/mod.rs:747-792 | once all propagations have ended and none strayed, the caller is a subreaper and every unreaped process below it has the flag, on a settled tree |
| `SubreaperFlags.RunReaches` | kernel/src/process/process/mod.rs:747-792 | propagations take the kernel only to states of the process protocol, so all its results hold |
| `SubreaperFlags.OwnersHaveChildren` | kernel/src/process/process/mod.rs:766-768 | the children map of a propagating process is there to be unwrapped |
| `SubreaperFlags.StrayReaperIsIdle` | kernel/src/process/exit.rs:96-102 | since the owner's `children` lock is held to the end of its propagation, no process strays to a reaper whose own propagation is under way |
| `SubreaperFlags.StrayLosesReaper` | kernel/src/process/process/mod.rs:765-792 | a run in which a process hands over its child after it was reaped and after its parent has propagated: the child of a subreaper stays without the flag, and orphans below it go to init |
| `ProcessEffects.ReparentHandsOver` | kernel/src/process/exit.rs:92-116 | exactly the unreaped processes whose parent link named the exiting process get the reaper as parent and join its children; nothing else changes |
| `ProcessEffects.ExitBegins` | kernel/src/process/exit.rs:18-30 | setting the zombie flag begins the search and does not change which reaper will be found |
| `ProcessEffects.ExitHandsOver` | kernel/src/process/exit.rs:60-136 | an exit that searches a reaper, for the first time or after one was gone, and meets no interference hands exactly its children to init or to the nearest live subreaper, and to the nearest whenever flags are handed down on a settled tree |
| `ProcessEffects.ExitFinishes` | kernel/src/process/exit.rs:119-136 | such an exit finishes |
| `ProcessEffects.RunTargets` | kernel/src/process/clone.rs:740-795 | over all runs: a clone whose target still has its children map aims at the current real parent |
| `ProcessEffects.LinkPlacesChild` | kernel/src/process/clone.rs:739-785 | over all runs: the child ends below the cloner, or under CLONE_PARENT below what is the parent of the cloner at that moment, with its flag; a failed attempt changes nothing |
| `ProcessEffects.CloneLinks` | kernel/src/process/clone.rs:740-785 | a clone that has to read the parent, also after a failed attempt, succeeds at once without interference |
| `ProcessEffects.CloneSucceeds` | kernel/src/process/clone.rs:739-785 | the same for the whole call |
| `ProcessEffects.BooksExact` | kernel/src/process/wait.rs:205-241 | over all runs: the clock of a process is the time it has ticked, its children time the sum of what each child it reaped had used and been credited with |
| `ProcessEffects.WaitReaps` | kernel/src/process/wait.rs:205-211 | over all runs: a wait takes exactly the zombie out of the children of the waiter, its parent |
| `ProcessEffects.ZombieIsReapable` | kernel/src/process/wait.rs:205-211 | over all runs: a zombie child of a live process can be reaped by it |
| `BitMasks.MaskIsMod` | kernel/src/util/ring_buffer.rs:262-262 | masking with a power of two minus one is the remainder |
| `UserBuffers.CopyFallible` | osxtd/src/mm/io.rs:382-409 | copies cells up to the first that faults and changes no other memory |
| `UserBuffers.VmReaderArray.Read` | kernel/src/util/iovec.rs:227-238 | delivers the first min(sum of lengths, limit) cells of the concatenation in order and advances past them, or fails exactly when one of them faults |
| `UserBuffers.VmReaderArray.SumLens` | kernel/src/util/iovec.rs:240-242 | is the length of the concatenation |
| `UserBuffers.VmReaderArray.SkipSome` | kernel/src/util/iovec.rs:244-254 | advances the array by that many cells, or to the end |
| `UserBuffers.AdvanceConcat` | kernel/src/util/iovec.rs:244-254 | advancing the array drops that many cells of the concatenation |
| `UserBuffers.AdvanceAdvance` | kernel/src/util/iovec.rs:244-254 | advancing twice is advancing by the sum |
| `UserBuffers.DeliverInOrder` | kernel/src/util/iovec.rs:286-297 | data delivered to writers is gained in order, every writer before a touched one is full, the room shrinks by its length |
| `UserBuffers.DeliverDeliver` | kernel/src/util/iovec.rs:286-297 | delivering in two portions is delivering at once |
| `UserBuffers.VmWriterArray.Write` | kernel/src/util/iovec.rs:286-297 | delivers the first min(room, length) values in order, or fails exactly when one of those cells cannot be written |
| `RingLayout.StoreAppends` | kernel/src/util/ring_buffer.rs:288-298 | writing into the free slots, in one part or two, appends to the stored items |
| `RingLayout.StoredParts` | kernel/src/util/ring_buffer.rs:404-414 | the stored items read in one part or two |
| `RingLayout.StoredDrop` | kernel/src/util/ring_buffer.rs:217-220 | moving the head drops the oldest items |
| `RingLayout.FreeSlotsOnly` | kernel/src/util/ring_buffer.rs:327-344 | a change confined to free slots leaves the stored items alone |
| `RingBuffer.CountersAdvance` | kernel/src/util/ring_buffer.rs:212-220 | the wrapped counters keep the right difference across 2^64 |
| `RingBuffer.TailSlot` | kernel/src/util/ring_buffer.rs:261-262 | the masked tail is the slot behind the last item, also after wrap-around |
| `RingBuffer.RingBuffer.Len` | kernel/src/util/ring_buffer.rs:127-133 | the number of items |
| `RingBuffer.RingBuffer.FreeLen` | kernel/src/util/ring_buffer.rs:136-138 | capacity minus items, without underflow |
| `RingBuffer.RingBuffer.AdvanceTail` | kernel/src/util/ring_buffer.rs:212-215 | publishes exactly the items written behind the tail |
| `RingBuffer.RingBuffer.AdvanceHead` | kernel/src/util/ring_buffer.rs:217-220 | gives up exactly the oldest items |
| `RingBuffer.RingBuffer.Push` | kernel/src/util/ring_buffer.rs:255-271 | appends the item exactly when there is room |
| `RingBuffer.RingBuffer.PushSlice` | kernel/src/util/ring_buffer.rs:277-302 | appends all items or, if they do not fit, none |
| `RingBuffer.RingBuffer.Pop` | kernel/src/util/ring_buffer.rs:371-387 | takes the oldest item, or nothing from an empty buffer |
| `RingBuffer.RingBuffer.PopSlice` | kernel/src/util/ring_buffer.rs:393-418 | takes the oldest items in order, or none if there are fewer |
| `RingBuffer.RingBuffer.Fill` | kernel/src/util/ring_buffer.rs:327-344 | a copy in two parts equals one copy; a fault in either touches free slots only |
| `RingBuffer.RingBuffer.WriteFallibleWithMaxLen` | kernel/src/util/ring_buffer.rs:316-348 | appends and consumes exactly the first min(reader, free, max) bytes; on a fault the queue is unchanged |
| `RingBuffer.RingBuffer.Drain` | kernel/src/util/ring_buffer.rs:443-460 | a delivery in two parts equals one delivery |
| `RingBuffer.RingBuffer.ReadFallibleWithMaxLen` | kernel/src/util/ring_buffer.rs:432-464 | delivers and removes exactly the first min(items, room, max) bytes; on a fault the queue is unchanged |
| `RingBuffer.RingBuffer.Skip` | kernel/src/util/ring_buffer.rs:473-480 | removes exactly the oldest items |
| `RingSpsc.CounterDifference` | kernel/src/util/ring_buffer.rs:127-133 | the wrapped difference of counters is the difference of the counts |
| `RingSpsc.LoadHeadInv` | kernel/src/util/ring_buffer.rs:127-138 | loading tail and head at different moments, neither side computes a length above the capacity |
| `RingSpsc.WriteSlotInv` | kernel/src/util/ring_buffer.rs:261-267 | writing one slot disturbs no unread item and stays in bounds |
| `RingSpsc.PublishInv` | kernel/src/util/ring_buffer.rs:212-215 | publishing written items keeps the invariant |
| `RingSpsc.ReadSlotInv` | kernel/src/util/ring_buffer.rs:377-383 | reading one slot yields the next published item |
| `RingSpsc.ReleaseInv` | kernel/src/util/ring_buffer.rs:217-220 | releasing the slots read keeps the invariant |
| `RingSpsc.InvNoRace` | kernel/src/util/ring_buffer.rs:255-302 | the slot about to be written holds no unread item and is not the one being read |
| `RingSpsc.ActionInv` | kernel/src/util/ring_buffer.rs:212-302 | every step of either side keeps the invariant and computes no overlong length |
| `RingSpsc.RunInv` | kernel/src/util/ring_buffer.rs:255-418 | the invariant holds in every interleaving |
| `RingSpsc.SpscSafety` | kernel/src/util/ring_buffer.rs:255-418 | over all interleavings: consumed is a prefix of produced, at most the capacity is outstanding, no race on a slot, no underflow |
| `RingSpscFlow.FirstInFirstOut` | kernel/src/util/ring_buffer.rs:255-418 | over all runs: what was released is a prefix of what the publishing actions published, and what is being read continues it |
| `RingSpscFlow.ConsumerLength` | kernel/src/util/ring_buffer.rs:127-133 | the length the consumer computes is what was published at its load of the tail less what it had released at its load of the head |
| `RingSpscFlow.ProducerFree` | kernel/src/util/ring_buffer.rs:127-138 | the free length the producer computes is exact |
| `RingSpscFlow.PushIsSeen` | kernel/src/util/ring_buffer.rs:212-215 | a consumer that loads the counters after a push, without a release since, sees at least its items |
| `RingSpscFlow.PushIsRead` | kernel/src/util/ring_buffer.rs:393-418 | and if it then reads everything it saw, it gets exactly those items last |
| `RingSpscFlow.PopIsSeen` | kernel/src/util/ring_buffer.rs:217-220 | after a release the next load of the producer finds at least that many more free slots |
| `RingSpscFlow.NextReadIsLater` | kernel/src/util/ring_buffer.rs:371-387 | what is read after a release are later items |
| `RingSpscFlow.PushSucceeds` | kernel/src/util/ring_buffer.rs:277-302 | a push that fits succeeds if the producer runs alone, and appends its items |
| `RingSpscFlow.PopSucceeds` | kernel/src/util/ring_buffer.rs:393-418 | a pop of items that are there succeeds if the consumer runs alone, and takes the oldest |
| `PathStrings.FirstComponent` | kernel/src/fs/fs_resolver.rs:183-189 | one split takes the first component off and keeps the rest and the trailing slash |
| `PathStrings.ComponentsJoin` | kernel/src/fs/fs_resolver.rs:218-223 | a slash separates components and nothing else does |
| `PathLookup.TakeFirst` | kernel/src/fs/fs_resolver.rs:183-192 | the name taken is a non-empty name, the rest is shorter, and a directory is demanded exactly when more or a slash follows |
| `PathLookup.SpliceComponents` | kernel/src/fs/fs_resolver.rs:213-225 | splicing a link concatenates components and settles the trailing slash |
| `PathLookup.FollowLink` | kernel/src/fs/fs_resolver.rs:209-235 | the rewritten string is walked as the component resolver prescribes |
| `PathLookup.StepInto` | kernel/src/fs/fs_resolver.rs:236-243 | stepping into a node keeps the walk |
| `PathLookup.LookupFromParent` | kernel/src/fs/fs_resolver.rs:160-247 | the string-rewriting loop terminates and returns what the component resolver returns with SYMLINKS_MAX links to spend; no empty name is looked up |
| `PathLaws.WalkComposes` | kernel/src/fs/fs_resolver.rs:182-246 | walks compose over concatenated components, including the count of links |
| `PathLaws.LimitOnlyStops` | kernel/src/fs/fs_resolver.rs:208-212 | the link limit matters only when it is exceeded |
| `PathLaws.TrailingSlashMeansDir` | kernel/src/fs/fs_resolver.rs:237-240 | a path ending in a slash resolves only to a directory |
| `PathLaws.SlashPathMeansDir` | kernel/src/fs/fs_resolver.rs:150-151 | the same for whole paths |
| `PathLaws.SlashOnlyRestricts` | kernel/src/fs/fs_resolver.rs:237-240 | dropping the trailing slash does not change where a resolvable path leads |
| `PathLaws.LookupInner` | kernel/src/fs/fs_resolver.rs:122-146 | absolute and relative paths, with the empty and the overlong path rejected |
| `PathLaws.SpellingIrrelevant` | kernel/src/fs/fs_resolver.rs:160-247 | spellings with the same start, components and trailing slash resolve alike |
| `PathLaws.SplitComponents` | kernel/src/fs/fs_resolver.rs:439-458 | splits exactly the paths with a component; the base name is the last one, the directory name spells the others |
| `PathLaws.FilenameSplits` | kernel/src/fs/fs_resolver.rs:431-437 | for a file name a trailing slash gives EISDIR, and any other non-empty path splits as before |
| `PathLaws.StopsAtDirname` | kernel/src/fs/fs_resolver.rs:195-204 | a walk that stops at a missing name stopped where the other components lead |
| `PathLaws.SplitAgreesWithLookup` | kernel/src/fs/fs_resolver.rs:431-458 | when lookup stops at a missing name, splitting returns that name and a directory name that resolves to the same parent, with one exact exception |
| `PathLaws.MountedStartDiffers` | kernel/src/fs/fs_resolver.rs:455-457 | the exception occurs |
| `PathWalks.PassesDirs` | kernel/src/fs/fs_resolver.rs:236-243 | directories are passed through whatever `follow` and the trailing slash say |
| `PathWalks.PathResolves` | kernel/src/fs/fs_resolver.rs:182-246 | a path whose names look up one after the other, through directories, resolves to the node of its last name, of whatever kind, unless that is a link to follow or a trailing slash meets no directory |
| `PathWalks.FirstErrorStops` | kernel/src/fs/fs_resolver.rs:195-207 | the error of the first failing lookup is returned, except that a missing last name stops at its parent |
| `PathWalks.NotDirStops` | kernel/src/fs/fs_resolver.rs:237-240 | a node that is no directory, followed by more path or a slash, gives ENOTDIR |
| `PathWalks.LookupIsGuarded` | kernel/src/fs/path/mod.rs:73-100 | a directory that may not be searched and a name of more than 255 characters stop the walk with their errors |
| `PathWalks.LinkIsReplaced` | kernel/src/fs/fs_resolver.rs:208-235 | a link that is followed is replaced by its text, from the root or from its own directory, or stops the walk with its error |
| `PathWalks.SelfLinkLoops` | kernel/src/fs/fs_resolver.rs:208-212 | a link to itself gives ELOOP, whatever the limit |
| `PathWalks.DotDotReturns` | kernel/src/fs/path/mod.rs:73-100 | going into a directory and back by `..` leads to what is mounted over the start, and so does `.` |
| `PathWalks.NeverHidden` | kernel/src/fs/path/mod.rs:73-100 | no path leads to a node hidden under a mount |
| `TaskSets.SwapRemoved` | kernel/src/process/task_set.rs:73-73 | `swap_remove` takes out exactly one task and keeps the first in place |
| `TaskSets.InsertLive` | kernel/src/process/task_set.rs:44-51 | inserting adds one live task, or is refused |
| `TaskSets.RemoveExitedLive` | kernel/src/process/task_set.rs:63-83 | exiting removes exactly that task from the live ones, index 0 stays the main task, and the report is true exactly when no task is live |
| `TaskSets.LastIffNoneLive` | kernel/src/process/task_set.rs:82-82 | the last-exit test says that no task is live |
| `TaskSets.OthersExitedIffAlone` | kernel/src/process/execve.rs:183-189 | the execve thread's test says that it is the only live task |
| `TaskSets.SwapMainLive` | kernel/src/process/task_set.rs:93-102 | the surviving thread becomes the only task and the main one |
| `TaskSets.TaskSet.InsertTask` | kernel/src/process/task_set.rs:44-51 | appends, or is refused after exit_group and during execve |
| `TaskSets.TaskSet.RemoveExitedTask` | kernel/src/process/task_set.rs:63-83 | removes the task, notifies observers of any exit but the main one, wakes a registered waker, reports true exactly when none is live |
| `TaskSets.TaskSet.SwapMainTask` | kernel/src/process/task_set.rs:93-102 | only the surviving thread is left, and observers are notified of both ids |
| `ExecveHandover.ThreadExitInv` | kernel/src/process/posix_thread/exit.rs:40-70 | an exit panics nowhere, takes exactly that thread from the live ones and keeps the invariant |
| `ExecveHandover.PromoteInv` | kernel/src/process/posix_thread/thread_table.rs:25-49 | the promotion's assertions and unwraps hold, and the thread is registered under the process id |
| `ExecveHandover.ActionInv` | kernel/src/process/execve.rs:54-210 | no step panics and each keeps the invariant |
| `ExecveHandover.RunInv` | kernel/src/process/execve.rs:54-210 | the invariant holds in every interleaving |
| `ExecveHandover.HandoverSafety` | kernel/src/process/execve.rs:178-210 | over all interleavings: no panic, index 0 is the task of the process id, all others have been sent SIGKILL, a parked thread without a wake-up still waits for a live thread, and a successful wait means being alone |
| `ExecveHandover.NoInsertionDuringExecve` | kernel/src/process/task_set.rs:44-51 | during execve the live threads only become fewer, and the last one to leave wakes the waiter |
| `ExecveHandover.LastExitOnce` | kernel/src/process/task_set.rs:63-83 | the last exit is reported exactly when the live count reaches zero, once per process |
| `ExecveRuns.CallProceeds` | kernel/src/process/execve.rs:54-210 | over all runs: execve starts exactly if neither it nor exit_group is under way and then has sent SIGKILL to all others, succeeds in its test exactly when alone, fails to park exactly after SIGKILL, and opens the process again at its end |
| `ExecveRuns.PromoteHandsOver` | kernel/src/process/posix_thread/thread_table.rs:25-49 | over all runs: the promotion leaves the thread as the only and main task under the process id, removes its old id and keeps all other entries |
| `ExecveRuns.FailsOnlyIf` | kernel/src/process/execve.rs:196-200 | over all runs: a call fails only after SIGKILL or a failed load |
| `ExecveRuns.AloneSucceeds` | kernel/src/process/execve.rs:178-210 | once the others have exited, the own steps of the thread lead to its promotion |
| `ExecveRuns.NeverStuck` | kernel/src/process/execve.rs:178-210 | over all runs: the thread has a step of its own, or some other live thread was sent SIGKILL and may exit |
| `ExecveRuns.LiveChanges` | kernel/src/process/task_set.rs:44-83 | over all runs: a clone adds a live thread unless refused, an exit takes one away, nothing else changes who is alive |
| `ExecveRuns.WhoIsKilled` | kernel/src/process/execve.rs:54-78 | over all runs: a live thread is sent SIGKILL exactly by a direct signal, by the exit_group or execve of another thread, or by its own failed execve |
| `ExecveRuns.GroupExitLasts` | kernel/src/process/posix_thread/exit.rs:40-70 | over all runs: after exit_group no thread joins, and whoever is alive was sent SIGKILL |
| `ExecveRuns.TableChanges` | kernel/src/process/posix_thread/thread_table.rs:8-22 | over all runs: a clone adds its id to the thread table, removal takes exactly one id, nothing but the promotion changes it otherwise |
| `ExecveRuns.ExitIsUnlisted` | kernel/src/process/posix_thread/exit.rs:40-70 | over all runs: an exited thread other than the main one still leaves the table, and a registered execve waker is woken |
| `ExecveRuns.KillWakes` | kernel/src/process/execve.rs:192-205 | over all runs: a signal to the parked thread ends its wait |
| `Words.BytesOfWordOf` | kernel/src/util/read_cstring.rs:135-146 | the bytes of a word read from memory are those of memory |
| `Words.HasZeroIff` | kernel/src/util/read_cstring.rs:159-164 | the bit trick is true exactly when some byte is zero, for every word |
| `ReadCString.ScanMeaning` | kernel/src/util/read_cstring.rs:98-104 | the reference scan takes the longest readable prefix up to a nul or the limit, and says why it stops |
| `ReadCString.WordRead` | kernel/src/util/read_cstring.rs:130-135 | a word read is the next eight bytes, and the test tells whether one is a nul |
| `ReadCString.TakeUntilNul` | kernel/src/util/read_cstring.rs:134-143 | the loop over a word with a nul returns; the branch behind it is never reached |
| `ReadCString.ReadUntilNulByte` | kernel/src/util/read_cstring.rs:105-153 | same buffer, cursor and result as the byte scan for every address, limit, length and set of faults; words are read at aligned addresses only |
| `ReadCString.ScanShape` | kernel/src/util/read_cstring.rs:50-66 | the buffer has its single nul last or none at all, so the C string constructors accept it |
| `ReadCString.ScanDelivers` | kernel/src/util/read_cstring.rs:42-67 | the delivered string followed by its nul is exactly the values of the cells taken, or all cells up to the limit hold no nul, or the next cell faults |
| `ReadCString.ReadCStringUntilNul` | kernel/src/util/read_cstring.rs:42-55 | the C string whose bytes and nul are exactly the cells taken, nothing without a nul up to the limit, or the fault |
| `ReadCString.ReadCStringUntilEnd` | kernel/src/util/read_cstring.rs:57-67 | the same up to a nul or the end, with the number of cells taken |
| `ReadCString.ScanConcat` | kernel/src/util/read_cstring.rs:74-78 | scanning two stretches one after the other is scanning their concatenation |
| `ReadCString.AddressedReaders.ReadUntilNul` | kernel/src/util/read_cstring.rs:74-91 | reading an array of readers is scanning the concatenation of their cells under one limit |
| `ReadCString.AddressedReaders.ReadCStringUntilNul` | kernel/src/util/read_cstring.rs:71-81 | the C string whose bytes and nul are exactly the cells taken, nothing without a nul up to the limit, or the fault, over the concatenation of the readers |
| `ReadCString.AddressedReaders.ReadCStringUntilEnd` | kernel/src/util/read_cstring.rs:83-95 | the same up to a nul or the end, with the number of cells taken, over the concatenation of the readers |
| `SyncSubject.FastPathOwesNothing` | kernel/src/events/subject.rs:131-133 | a counter of zero means that no completed registration is missed |
| `SyncSubject.ActionInv` | kernel/src/events/subject.rs:90-152 | every step keeps the invariant |
| `SyncSubject.RunInv` | kernel/src/events/subject.rs:90-152 | the invariant holds in every interleaving |
| `SyncSubject.CounterExact` | kernel/src/events/subject.rs:90-152 | the counter equals the table size whenever the lock is free and never underflows |
| `SyncSubject.NotifyReaches` | kernel/src/events/subject.rs:125-152 | over all interleavings: a finished notification has reached every observer registered before it began that stayed registered, alive and interested |
| `SubjectRuns.RegisteredUntil` | kernel/src/events/subject.rs:90-101 | over all runs: a registered observer is in the table with its filter until it is touched again |
| `SubjectRuns.RegisteredIsNotified` | kernel/src/events/subject.rs:90-152 | over all runs: an observer registered for an event before the notification began, and not touched since, has been told when the notification returns |
| `SubjectRuns.OnlyListenersTold` | kernel/src/events/subject.rs:138-148 | over all runs: exactly observers that are registered, alive and interested when visited are told |
| `SubjectRuns.UnregisteredUntil` | kernel/src/events/subject.rs:108-121 | over all runs: an unregistered observer stays out of the table until registered again |
| `SubjectRuns.OthersKept` | kernel/src/events/subject.rs:90-152 | over all runs: other entries keep their filters; only freed observers are dropped |
| `SubjectRuns.EmptyTableSkipsLock` | kernel/src/events/subject.rs:126-133 | a notification of an empty table returns without the lock |
| `SubjectRuns.NotifyReturns` | kernel/src/events/subject.rs:136-151 | a notification returns once the lock is free |
| `Dirents.AlignUpIsLeast` | kernel/src/syscall/getdents64.rs:261-263 | the least multiple of the alignment that is large enough |
| `Dirents.DirentTypeIsMode` | kernel/src/syscall/getdents64.rs:233-259 | the entry type is the file type of the mode shifted down by 12 bits, and reads back as that type only |
| `Dirents.RecLenFits` | kernel/src/syscall/getdents64.rs:185-188 | the record length is a multiple of 8 and holds header, name and nul exactly for names up to 65508 bytes |
| `Dirents.WalkAppend` | kernel/src/syscall/getdents64.rs:104-105 | walking two filled stretches finds the entries of both |
| `Dirents.RecordParses` | kernel/src/syscall/getdents64.rs:205-227 | a record reads back as its entry, whatever the padding holds |
| `Dirents.TruncatedFails` | kernel/src/syscall/getdents64.rs:185-188 | a record cut by the 16-bit length cannot be read back |
| `Dirents.AcceptedIffFits` | kernel/src/syscall/getdents64.rs:98-108 | an entry with a name up to 65508 bytes is accepted exactly when the name has no nul and the record, rounded up to 8 bytes, fits |
| `Dirents.VisitParses` | kernel/src/syscall/getdents64.rs:99-107 | an accepted visit appends its entry to what a walk finds exactly for names up to 65508 bytes; any other visit changes nothing |
| `Dirents.VisitsRoundTrip` | kernel/src/syscall/getdents64.rs:98-108 | after any visits the walk recovers the accepted entries in order, and their record lengths sum to the filled length |
| `Dirents.TotalLenAligned` | kernel/src/syscall/getdents64.rs:185-188 | the filled length is a multiple of 8 |
| `Dirents.LongNameLost` | kernel/src/syscall/getdents64.rs:185-188 | one byte more and the entry is accepted with length 0 and lost |
| `Dirents.LongNameExists` | kernel/src/syscall/getdents64.rs:185-188 | such an entry and buffer exist |
| `Dirents.DirentBufferReader.Visit` | kernel/src/syscall/getdents64.rs:98-108 | accepts, rejects without a trace, or runs off the end, exactly as specified |
| `VectoredRead.ClipIsPrefix` | kernel/src/util/iovec.rs:98-103 | cutting lengths to the limit keeps min(sum, limit) bytes and cuts nothing earlier than needed |
| `VectoredRead.ClippedAt` | kernel/src/util/iovec.rs:98-103 | buffer i starts where the user said and has min(its length, what those before leave of the limit) |
| `VectoredRead.NonEmptyIsFilter` | kernel/src/util/iovec.rs:105-107 | exactly the buffers without base or length are left out, in order |
| `VectoredRead.FirstFailureDecides` | kernel/src/util/iovec.rs:91-113 | the call succeeds if every entry is readable, non-negative and convertible or empty, and otherwise reports the error of the first that is not |
| `VectoredRead.CopyIovsAndConvert` | kernel/src/util/iovec.rs:76-114 | the loop gives the recursive result, first error first |
| `VectoredRead.ConvertedKeeps` | kernel/src/util/iovec.rs:91-113 | success converts exactly the non-empty buffers of the cut vector, in order |
| `VectoredRead.BuffersWithinLimit` | kernel/src/util/iovec.rs:86-107 | the buffers used are non-empty and together at most min(sum, limit) |
| `VectoredRead.WriterRoomsOk` | kernel/src/util/iovec.rs:157-164 | every writer has room, and all together at most isize::MAX |
| `VectoredRead.WriterRoomsExact` | kernel/src/util/iovec.rs:76-114 | writers for exactly the non-empty cut buffers, or EINVAL for too many entries, or the error of the first entry that is unreadable, negative or outside of user space |
| `VectoredRead.ReadIntoWriters` | kernel/src/syscall/preadv.rs:85-113 | one contiguous stretch of the file of the returned length, each buffer before the last touched one full, stopping only at a short or failing read |
| `VectoredRead.FullAnswersFill` | kernel/src/syscall/preadv.rs:85-113 | if every `read_at` gives all it can, the buffers are filled up to the end of the file |
| `VectoredRead.DoSysPreadv` | kernel/src/syscall/preadv.rs:61-114 | the same for the whole call, with its error cases in order, and without overflow of the offset |
| `CpuSets.NrPartsExact` | kernel/src/syscall/sched_affinity.rs:115-115 | the parts fit the buffer, none lies wholly beyond the CPUs, and there are as many as that allows |
| `CpuSets.WriteCpuSetTo` | kernel/src/syscall/sched_affinity.rs:103-138 | bit i of the output is set exactly when i is in the set, for all parts the buffer and the machine share; a fault stops it |
| `CpuSets.ReadCpuSetFrom` | kernel/src/syscall/sched_affinity.rs:68-100 | exactly the existing CPUs whose bits are set; empty input, empty result and faults are errors |
| `CpuSets.ReadBack` | kernel/src/syscall/sched_affinity.rs:68-138 | reading a written bitmap gives the CPUs of the set within the parts written |
| `CpuSets.BitsSurviveIff` | kernel/src/syscall/sched_affinity.rs:68-138 | the bits survive exactly when no CPU of the set lies beyond the buffer |
| `CpuSets.RoundTripIff` | kernel/src/syscall/sched_affinity.rs:68-138 | reading back returns the set exactly when it is not empty and none of its CPUs lies beyond the buffer |
| `CpuSets.RoundTrip` | kernel/src/syscall/sched_affinity.rs:68-138 | it does for a non-empty set and a buffer that covers all CPUs |
| `CpuSets.EmptySetRejected` | kernel/src/syscall/sched_affinity.rs:95-97 | the empty set is written and rejected when read back |
| `CpuSets.CpuBeyondBufferLost` | kernel/src/syscall/sched_affinity.rs:115-127 | a CPU beyond a short buffer is lost |

## Left out

- Memory orderings: atomics are sequentially consistent steps.
- Interleaving inside a critical section: `move_process_children` and linking a child are one step each, since both hold the `children` locks involved.
- Interleaving inside one visit of `propagate_has_child_subreaper`: flagging the children of one process is one step, under its `children` lock. The lock of the owner is held from its first visit to the end of its propagation, and steps that need it wait.
- A panic ends no run: a handle that may be gone may also be kept by someone else, and the results hold for runs that go on.
- PID recycling: PIDs come from a counter, as in the source, which warns and does not recycle.
- Process groups, sessions, cgroups, signals other than SIGKILL during execve, parent-death and child-death signals: called from the core and defined elsewhere.
- ProcessProtocol.WaitInv: a wait step reaps some zombie child; filters only narrow the choice, and WNOWAIT, stopped and continued children change no state of the model.
- SIGKILL sent to the whole process: only thread-directed SIGKILL is modelled, and the thread that runs execve does not dequeue it meanwhile.
- The rest of execve after the promotion: loading the program may fail, and nothing else of it is modelled.
- A clone's `add_thread` and its insertion into the task set are one step.
- Item sizes and byte offsets in the ring buffer: a slot holds one item; page allocation is left out.
- UserBuffers.VmReaderArray.Read: the position of the readers after a fault is left open, as the source's documentation does.
- UserBuffers.VmWriterArray.Write: the same for the writers.
- `sum_lens` and `skip_some` of writers: the same loops as for readers.
- Paths as bytes: path strings are sequences of characters, and lengths count characters.
- The file system below one name lookup: entries, link texts, permissions, mounts and `..` are inputs.
- `FsPath` from a descriptor alone, invalid descriptors, `LookupResult` conversions: finite case distinctions.
- VectoredRead.ReadIntoWriters: what a failing `read_at` leaves in its buffer is not modelled.
- `readv`: the loop of `preadv` with the file's own position.
- The legacy `Dirent` layout of `getdents`: the same serializer without a type byte.
- Dirents.DirentBufferReader.Visit: what was written before running off the end is not stated, since the source panics there.
- `Subject` without inner lock, observers that call back into the subject: the first has no race, the second would deadlock.
- Other system calls, the vDSO, `poll`, `select`, the command-line tools: argument checks and forwarding, or code that is not part of this model.
