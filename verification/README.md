# A Dafny model of Archis

Archis is a small operating system: a Rust kernel with a C user space. This project models the parts of it whose
correctness rests on invariants over whole runs, and proves those invariants. `dafny verify dfyconfig.toml` checks the
whole project.

## What is modelled

**Synchronisation.** `Semaphore` holds the semaphores and events as values and as a class whose methods refine those
values. `SemaphoreRuns` is the machine of all interleavings of waits, signals, timeouts, interruptions and kills.
`Pipe`/`PipeRuns` (anonymous pipes on two auto-reset events), `Pnp` (the plug-and-play queue and its fences) and
`CondVar` (the condition variables of the C library) are machines over the same objects: each atomic section of the
source is one action, each thread has a program counter, and `Run` ranges over every possible sequence of actions.
`PipeLosses` decides when a pipe loses a wakeup. `RingBuffer` is the ring behind a pipe, refined to the queue the pipe
machine uses.

**File system.** `Paths` (path strings), `VfsTree` (the node tree and its lookups), `VfsHandles` (open handles that pin
their ancestors), `VfsProbe` (the symlink-aware lookup), `Mounts` (the mount table), `Following` and `Resolve` (bounded
symlink resolution across mounts), `Namespace` and `NamespaceRuns` (file operations by path, and every run of them with
mounts and unmounts) and `NamespaceEffects` (what later lookups by path show after such an operation) are pure. `Vfs` is
the mutable node graph; each of its methods is proved to do what the pure step does.

**Allocators.** `PageRuns` is the run-list arithmetic shared by `FrameAllocator` (physical frames, set up from the boot
memory map of `BootMemory`) and `VirtualAllocator` (address spaces; `PageMap` is the partial map its descriptors stand
for). `HeapAllocator` is the kernel heap. `MallocBlocks`, `MallocMemory` and `Malloc` are the user-space heap, down to
header words and link words in memory.

**Logging, ordering, loading.** `Kring` (with `Utf8`) is the kernel log ring, `DriverOrder` the depth-first driver order of
the build script, `UserLoader` the loading and sharing of user images, `LoadedImage` what a loaded image then holds.

Conventions: `Run`, `Possible` and `Legal` quantify over every sequence of actions; a method whose contract equates the
new state with a function of the old one is the source's in-place form, and the properties are proved about that function.
Addresses and sizes are unbounded integers except where wrap-around matters (`Malloc`, relocation words, the condition
variable's permit limit), where it is written out. What an operation means is stated apart from how it is computed:
contracts write sizes, limits and addresses as literals, and history is read off the actions of a run.

Where the code does not meet a property, the code is kept and the condition under which it does is proved, with the
failure beside it:

- A rename whose destination directory is the directory to be moved never returns, because it waits for a lock it holds:
  `RenameHangsIff`. One whose destination lies strictly below it succeeds and detaches it: `RenameKeepsTreeIff`.
- A rename of a directory with a mount point below it succeeds, although the comment at kernel/src/fs/mod.rs:218 says it
  is refused: `RenameSoundIff`, `RenameOrphans`.
- A signal that meets a task between its kill and the clean-up is lost: `SemaphoreRuns.RunKeepsInvIff`, `SignalDuringKillIsLost`.
- The last writer's drop wakes one of several readers: `EofReachesAllIff`, `SecondReaderMissesEof`.
- A failed copy-in can swallow a writer's wakeup: `FailedCopyInLosesIff`, `FailedCopyInLosesWakeup`.
- A failed copy-out is reported as a successful read: `ClaimsAreHonestIff`.
- Reserving a range off a page boundary makes the pieces overlap: `SplitOverlapsIff`, `ReserveVirtualSpace`.
- Freeing a zero-sized run can leave an empty run in the free list: `EmptyGiveIff`.
- Memory is counted in bytes and handed out in pages: `BytesArePagesIff`.
- A shrinking `realloc` rewrites the size before it splits, so the split never happens: `ShrinkKeepsTiledIff`, `Realloc`.
- A request within 15 bytes of 2^64 is rounded to an empty block: `HoldsRequestIff`.
- A heap request aligned beyond a page can fail although pages were granted: `GrowingSufficesIff`.
- Whether an empty segment that starts where another one does is accepted depends on the header order: `ParseAcceptsIff`,
  `EmptySegmentOrder`.
- A cold image load panics where a warm one succeeds, when a read-only segment overruns its chunk: `OutcomeDiffersIff`.

The model follows the code where it differs from its references: `R_X86_64_GLOB_DAT` adds the addend, which section 4.4.1
of the AMD64 psABI does not.

## Model

| member | source | states |
|---|---|---|
| Semaphore.WaitKeepsConsistent | kernel/src/sync/semaphore.rs:46-169 | a wait keeps the counter equal to the number of parked tasks; it parks exactly when it reports so, and every failing path (zero timeout, refused or rolled back enqueue) leaves the object as it was |
| Semaphore.SignalUndoesWait | kernel/src/sync/semaphore.rs:46-213 | a wait succeeds at once exactly when a unit is free or the event is raised, and lowers an event exactly if it is auto-reset; each other outcome exactly by its cause; a signal undoes it, and wakes the task that had to park |
| Semaphore.SignalDelivers | kernel/src/sync/semaphore.rs:178-213 | a signal wakes exactly the oldest parked task, or all of them in order for a manual-reset event; only that event, or an object nobody was parked on, can be had afterwards |
| Semaphore.LeaveKeepsConsistent | kernel/src/sync/semaphore.rs:226-274 | a task that times out, is interrupted or dies gives its unit back and is on no list afterwards |
| Semaphore.SignalKeepsConsistentIff | kernel/src/sync/semaphore.rs:178-213 | a signal keeps the object consistent exactly when no dying task is in its way |
| Semaphore.KSemInner.Semaphore | kernel/src/sync/semaphore.rs:283-292 | a new semaphore holds its initial count and nobody is parked on it |
| Semaphore.KSemInner.NewEvent | kernel/src/sync/semaphore.rs:373-381 | a new event is lowered and nobody is parked on it |
| Semaphore.KSemInner.DoWait | kernel/src/sync/semaphore.rs:46-169 | the locked sections of a wait do the specified wait and report its outcome |
| Semaphore.KSemInner.WakeHead | kernel/src/sync/semaphore.rs:226-274 | without a task id the head leaves the list if and only if it can be woken |
| Semaphore.KSemInner.DoSignal | kernel/src/sync/semaphore.rs:178-213 | the signal loop wakes exactly the tasks the specification wakes, in order |
| Semaphore.KSemInner.RemoveTask | kernel/src/sync/semaphore.rs:226-274 | with a task id exactly that task leaves the list, and its presence is reported |
| Semaphore.KSemInner.DoSignalOnTask | kernel/src/sync/semaphore.rs:215-224 | a timeout or interruption removes its task unless it is being killed or may not be interrupted |
| Semaphore.KSemInner.DropTask | kernel/src/sync/semaphore.rs:320-350 | clean-up of a killed task gives its unit back |
| Semaphore.KSemInner.ResetEvent | kernel/src/sync/semaphore.rs:395-400 | reset lowers an event and leaves semaphores alone |
| SemaphoreRuns.RunKeepsInvIff | kernel/src/sync/semaphore.rs:46-274 | over every possible interleaving, consistency and arrival order hold all the way exactly when no signal lands between a kill and its clean-up |
| SemaphoreRuns.CounterCountsBlocked | kernel/src/sync/semaphore.rs:46-274 | on every run the counter is at most its maximum, a negative counter is the number of parked tasks, otherwise nobody is parked |
| SemaphoreRuns.SignalIsFifo | kernel/src/sync/semaphore.rs:178-213 | whoever a signal wakes arrived before everybody still parked |
| SemaphoreRuns.RunKeepsBalance | kernel/src/sync/semaphore.rs:46-213 | units free plus acquisitions outstanding is constant over disciplined runs |
| SemaphoreRuns.AtMostInitHolders | kernel/src/sync/semaphore.rs:46-213 | a semaphore that starts with n units never has more than n acquisitions outstanding; tasks are parked only when all n are out |
| SemaphoreRuns.WhoLeaves | kernel/src/sync/semaphore.rs:215-274 | after every run an interruption ends a parked wait exactly when that wait was made interruptible and the task is not being killed, a timeout exactly when it is not being killed; nobody else is touched |
| SemaphoreRuns.OnePassPerSignal | kernel/src/sync/semaphore.rs:46-213 | over every run an auto-reset event lets at most one task pass for each signal |
| SemaphoreRuns.RaisedUntilReset | kernel/src/sync/semaphore.rs:46-213 | a raised manual-reset event stays raised, with nobody parked, until it is reset |
| SemaphoreRuns.StraySignalBreaksExclusion | kernel/src/sync/semaphore.rs:178-213 | a signal without an acquisition admits two holders |
| SemaphoreRuns.SignalDuringKillIsLost | kernel/src/sync/semaphore.rs:178-213 | a run from a fresh semaphore in which such a signal leaves a live task parked with no holder left |
| RingBuffer.Ring.constructor | lib/kernel_intf/src/ds/ring_buffer.rs:8-14 | a new ring is an empty queue |
| RingBuffer.Ring.Push | lib/kernel_intf/src/ds/ring_buffer.rs:16-22 | push appends, across wrap-around, and a full ring ignores it |
| RingBuffer.Ring.PushAll | kernel/src/pipe.rs:158-163 | the write loop appends the longest prefix that fits |
| RingBuffer.Ring.PeekInto | lib/kernel_intf/src/ds/ring_buffer.rs:34-41 | peek yields the oldest items in order and removes nothing |
| RingBuffer.Ring.Advance | lib/kernel_intf/src/ds/ring_buffer.rs:43-47 | advance removes exactly the oldest items |
| RingBuffer.Ring.DequeueInto | lib/kernel_intf/src/ds/ring_buffer.rs:49-52 | what is taken followed by what stays is what was there |
| RingBuffer.Ring.PopBack | lib/kernel_intf/src/ds/ring_buffer.rs:64-70 | the newest item comes off, or nothing on an empty ring |
| Pipe.StepKeepsSane | kernel/src/pipe.rs:104-176 | every atomic section keeps bytes conserved, the buffer within 512, the writer count right and both events consistent |
| PipeLosses.StepKeepsInvIff | kernel/src/pipe.rs:104-176 | an atomic section keeps the no-lost-wakeup invariant exactly unless it is a failed copy-in by the only thread that could wake a waiting writer |
| PipeLosses.RunKeepsInvIff | kernel/src/pipe.rs:104-176 | no state of a run has lost a wakeup exactly when no such step occurs in it |
| PipeRuns.NoLostWakeup | kernel/src/pipe.rs:104-176 | on every run, data in the pipe means a raised event, a reader about to look, or no waiting reader; the same for room and writers |
| PipeRuns.NeverAllAsleep | kernel/src/pipe.rs:104-176 | a reader and a writer are never both blocked with nobody left to run |
| PipeRuns.BytesConserved | kernel/src/pipe.rs:104-176 | delivered bytes followed by buffered bytes are the accepted bytes; at most 512 are buffered; the writer count is the number of live write ends |
| PipeRuns.ReadIsMaximal | kernel/src/pipe.rs:112-134 | a read hands out the oldest bytes and stops only at the end of the request or of the data; with a failed copy-out it returns the same count and delivers nothing |
| PipeRuns.ClaimsAreHonestIff | kernel/src/pipe.rs:112-134 | over every run the counts returned add up to the bytes delivered exactly when every copy-out succeeds |
| PipeRuns.WriteIsMaximal | kernel/src/pipe.rs:157-175 | a write appends a prefix of the data its thread carries and stops only at the end of it or at a full pipe of 512 bytes |
| PipeRuns.WriteDoesItsCall | kernel/src/pipe.rs:145-176 | on every run, however often it waited, a write that finds room appends and returns the first bytes of the data its call was made with: all of them or as many as fit in 512 |
| PipeRuns.ReadDoesItsCall | kernel/src/pipe.rs:104-143 | the same for a read: the oldest bytes, as many as its call asked for or as are there |
| PipeRuns.EmptyCalls | kernel/src/pipe.rs:104-149 | an empty read or write returns 0 at once and leaves the pipe alone |
| PipeRuns.RunEndsIff | kernel/src/pipe.rs:104-176 | a call ends exactly with end of file, a failed copy-in, a refused or interrupted sleep, or the last signal it owes after moving bytes; an empty pipe with a writer and a full pipe make it wait |
| PipeRuns.ZeroMeansEof | kernel/src/pipe.rs:104-143 | a non-empty read returns 0 exactly on an empty pipe without writers |
| PipeRuns.SoleReaderSeesEof | kernel/src/pipe.rs:72-84 | a sole reader is never left blocked after the last writer is gone |
| PipeLosses.LastDropWakesFirst | kernel/src/pipe.rs:72-84 | the last drop wakes the reader parked longest and no other |
| PipeLosses.EofReachesAllIff | kernel/src/pipe.rs:72-84 | once the last writer is gone, all readers can return undisturbed exactly when as many wakeups are on their way as readers wait |
| PipeLosses.LastDropReachesAllIff | kernel/src/pipe.rs:72-84 | with parked readers only, that is at most one of them |
| PipeLosses.ParkedStayParked | kernel/src/pipe.rs:72-84 | when no wakeup is left, a parked reader stays parked on every undisturbed run |
| PipeLosses.SecondReaderMissesEof | kernel/src/pipe.rs:72-84 | a run from the empty pipe that ends with two such readers, of whom one never returns |
| PipeLosses.FailedCopyInLosesIff | kernel/src/pipe.rs:155-163 | a failed copy-in loses a wakeup exactly when its thread was the only hope of a waiting writer |
| PipeLosses.FailedCopyInLosesWakeup | kernel/src/pipe.rs:155-163 | a run from the empty pipe that leaves a writer asleep on an empty pipe with nobody left |
| Pnp.StepKeepsInv | kernel/src/io/pnp.rs:52-86 | every action keeps queue order, the worker's wakeup and every fence's event right |
| Pnp.HandledInOrder | kernel/src/io/pnp.rs:79-86 | requests are handled once each, in the order posted |
| Pnp.EveryRequestOnce | kernel/src/io/pnp.rs:52-86 | over every run the requests asked for are those handled, the one in hand and those queued, once each and in order |
| Pnp.FenceHoldsItsCaller | kernel/src/io/pnp.rs:73-77 | over every run a fence caller that is no longer inside its call has seen its fence and everything asked for before it handled |
| Pnp.WorkerNotStranded | kernel/src/io/pnp.rs:137-152 | the worker sleeps on a non-empty queue only while some poster still owes its signal |
| Pnp.FenceReturnsAfterPredecessors | kernel/src/io/pnp.rs:73-77 | a fence returns only after everything posted before it has been handled |
| Pnp.FenceNeverStuck | kernel/src/io/pnp.rs:73-77 | when the worker is idle and no signal is owed, no fence caller is blocked |
| CondVar.StepKeepsInv | userspace/libc/pthread.c:137-214 | every section of wait, timedwait, signal and broadcast keeps the account |
| CondVar.AccountBalances | userspace/libc/pthread.c:137-214 | waiters plus permits plus owed posts cover the registered threads on every run; the surplus is at most the number of timed waits that expire with nobody counted any more, so the account is exact if none expires |
| CondVar.SignalDelivers | userspace/libc/pthread.c:187-198 | in every reachable state a signal with nobody counted does nothing; otherwise it releases the thread that has slept longest and no other, or leaves one permit |
| CondVar.BroadcastDelivers | userspace/libc/pthread.c:200-214 | a broadcast posts once for each thread counted, and every sleeper returns if no other post is on its way |
| CondVar.SleeperIsCovered | userspace/libc/pthread.c:137-214 | a sleeper implies a positive waiter count or an owed post |
| CondVar.NoSleeperForgotten | userspace/libc/pthread.c:137-214 | with no waiters counted and no post owed, nobody sleeps, and a registered thread finds a permit |
| Paths.NormalizePath | kernel/src/fs/vfs.rs:110-129 | the loop computes the specified normalisation |
| Paths.NormalizeIsNormal | kernel/src/fs/vfs.rs:110-129 | any input normalises to a slash-led path without empty, "." or ".." components |
| Paths.NormalizeLeads | kernel/src/fs/vfs.rs:110-129 | the result is where the pieces of the path lead from the root, read from the right: a name stands unless a later ".." undoes it |
| Paths.DotDotIsParent | kernel/src/fs/vfs.rs:110-129 | ".." goes to the parent, and the root is its own parent |
| Paths.AbsoluteLeads | kernel/src/fs/vfs.rs:131-137 | a relative path leads on from the current directory, an absolute one from the root |
| Paths.SymlinkLeads | kernel/src/fs/vfs.rs:304-316 | a relative link target leads on from the directory of the link, an absolute one from the root, and what is left of the path follows |
| Paths.PlainTargetLeads | kernel/src/fs/vfs.rs:304-316 | a target of plain names is put behind that directory name by name |
| Paths.NormalizeFixesNormal | kernel/src/fs/vfs.rs:110-129 | normal paths are fixed points |
| Paths.NormalizeIdempotent | kernel/src/fs/vfs.rs:110-129 | normalisation is idempotent |
| Paths.CompsRender | kernel/src/fs/vfs.rs:150-160 | a rendered path splits back into its components |
| Paths.RenderInjective | kernel/src/fs/vfs.rs:150-160 | different components render differently |
| Paths.SplitParentRender | kernel/src/fs/vfs.rs:140-148 | split_parent takes off exactly the last component |
| Paths.JoinUndoesSplit | kernel/src/fs/mod.rs:75-77 | join_rel inverts split_parent on every normal path but the root |
| Paths.UnderIffPrefix | kernel/src/fs/mount.rs:138-143 | the string prefix test is the component prefix test |
| VfsTree.UniquePath | kernel/src/fs/vfs.rs:221-235 | no node has two paths |
| VfsTree.CreateOkIff | kernel/src/fs/vfs.rs:398-440 | a creation succeeds exactly where the directory resolves and the name does not |
| VfsTree.DeleteOkIff | kernel/src/fs/vfs.rs:442-469 | a deletion succeeds exactly for a name that is neither open nor a directory with entries |
| VfsTree.RenameOkIff | kernel/src/fs/vfs.rs:471-529 | a rename succeeds exactly for a source that is not open, a destination name that is free or the same, and a destination directory other than the source |
| VfsTree.RenameHangsIff | kernel/src/fs/vfs.rs:495-529 | a rename never returns exactly when both lookups succeed and the destination directory is the directory to be moved, whose lock it holds |
| VfsTree.WalkStops | kernel/src/fs/vfs.rs:221-235 | a lookup fails at its first piece that is under no directory or is no name of it, with the matching error |
| VfsTree.CreateErrors | kernel/src/fs/vfs.rs:398-440 | each error of a creation exactly by the lookup that explains it |
| VfsTree.DeleteErrors | kernel/src/fs/vfs.rs:442-469 | each error of a deletion exactly: a directory with entries is not empty whether open or not, anything else open is busy |
| VfsTree.RenameErrors | kernel/src/fs/vfs.rs:471-529 | each refusal of a rename in the order of its checks |
| VfsTree.FailureChangesNothing | kernel/src/fs/vfs.rs:398-529 | a failing create, delete or rename leaves the tree as it was |
| VfsTree.RenameMovesOneSubtree | kernel/src/fs/vfs.rs:471-529 | after a rename every path under the new name finds what the old name found, the old name is gone, every other lookup is unchanged |
| VfsTree.OldNameGone | kernel/src/fs/vfs.rs:471-529 | nothing resolves under the old name, even for a rename strictly below itself |
| VfsTree.RenameKeepsTreeIff | kernel/src/fs/vfs.rs:471-529 | a rename that returns keeps a well-formed tree well-formed exactly when it does not succeed with a destination strictly below the source |
| VfsTree.SubtreeCutOff | kernel/src/fs/vfs.rs:471-529 | moved strictly below itself, no node of the subtree can be reached from the root |
| VfsTree.RenameIntoItselfDetaches | kernel/src/fs/vfs.rs:471-529 | with "/a/b" present, renaming "/a" to "/a/b/c" succeeds and detaches "/a", and renaming it to "/a/c" never returns |
| VfsTree.CreateAddsOneName | kernel/src/fs/vfs.rs:398-440 | a creation adds one name and changes no other lookup |
| VfsTree.CreateKeepsTree | kernel/src/fs/vfs.rs:398-440 | a creation keeps the tree well-formed |
| VfsTree.DeleteRemovesOneName | kernel/src/fs/vfs.rs:442-469 | a deletion removes one name and changes no other lookup |
| VfsTree.DeleteKeepsTree | kernel/src/fs/vfs.rs:442-469 | a deletion keeps the tree well-formed |
| VfsHandles.OpenKeepsInv | kernel/src/fs/vfs.rs:322-366 | opening counts every node on the path once |
| VfsHandles.CloseNeverSaturates | kernel/src/fs/vfs.rs:368-388 | every node a close decrements has a positive count |
| VfsHandles.CloseKeepsInv | kernel/src/fs/vfs.rs:368-388 | closing takes exactly one handle's counts away |
| VfsHandles.HandlesAvoidIdle | kernel/src/fs/vfs.rs:590-597 | no handle's path goes through a node that is not busy |
| VfsHandles.RenameKeepsInv | kernel/src/fs/vfs.rs:471-529 | a rename outside itself leaves every handle a real path and every count right |
| VfsHandles.DeleteKeepsInv | kernel/src/fs/vfs.rs:442-469 | a deletion does too |
| VfsHandles.CreateKeepsInv | kernel/src/fs/vfs.rs:398-440 | a creation does too |
| VfsHandles.RunKeepsInv | kernel/src/fs/vfs.rs:322-529 | the invariant survives every run of the seven operations |
| VfsHandles.CountsMatchHandles | kernel/src/fs/vfs.rs:322-529 | from a fresh file system, each open count is the number of handles through the node, and each handle records a root-to-node path of the current tree |
| VfsHandles.RootBusyIffOpen | kernel/src/fs/vfs.rs:390-396 | root_busy holds exactly when some handle is open |
| VfsProbe.ProbeMeaning | kernel/src/fs/vfs.rs:237-298 | probe answers for every path: the first symlink that must be followed, the node found, or the right error |
| VfsProbe.LinkIsUnique | kernel/src/fs/vfs.rs:237-298 | at most one symlink on a path is to be followed next |
| VfsProbe.LinkSplitsPath | kernel/src/fs/vfs.rs:237-298 | a Symlink answer splits the path into link-free directory, link and rest |
| VfsProbe.FoundCanBeOpened | kernel/src/fs/vfs.rs:322-366 | a Found answer with the final link followed means open_at reaches that same node |
| Vfs.Vfs.RawGet | kernel/src/fs/vfs.rs:221-235 | the walk over the node graph is the lookup of the tree |
| Vfs.Vfs.Probe | kernel/src/fs/vfs.rs:237-298 | the in-place probe answers as specified |
| Vfs.Vfs.OpenAt | kernel/src/fs/vfs.rs:322-366 | opening pins node and ancestors and returns them |
| Vfs.Vfs.Close | kernel/src/fs/vfs.rs:368-388 | closing unpins them |
| Vfs.Vfs.RootBusy | kernel/src/fs/vfs.rs:390-396 | busy exactly when a handle is open |
| Vfs.Vfs.CreateFileIn | kernel/src/fs/vfs.rs:398-410 | a fresh empty file appears under the name, or the specified error |
| Vfs.Vfs.MkdirIn | kernel/src/fs/vfs.rs:412-424 | a fresh empty directory |
| Vfs.Vfs.CreateSymlinkIn | kernel/src/fs/vfs.rs:426-440 | a fresh symlink |
| Vfs.Vfs.DeleteIn | kernel/src/fs/vfs.rs:442-469 | the entry goes, or the specified error with nothing changed |
| Vfs.Vfs.CheckMove | kernel/src/fs/vfs.rs:471-522 | the checks decide the outcome of the specification: refused, never returning, or going ahead |
| Vfs.Vfs.RenameIn | kernel/src/fs/vfs.rs:471-529 | the entry moves in place, or nothing changes; the file system stays valid exactly unless a rename into itself succeeds |
| Mounts.LookupMp | kernel/src/fs/mount.rs:145-172 | the loop finds the best entry |
| Mounts.CoversIffPrefix | kernel/src/fs/mount.rs:145-172 | a mount point covers a normal path exactly when its components are a prefix |
| Mounts.LookupIsDeepest | kernel/src/fs/mount.rs:145-182 | every normal path has a unique deepest mount point, which is found, and the absolute path is rebuilt from it |
| Mounts.RelOfRender | kernel/src/fs/mount.rs:174-182 | to_absolute undoes the split into mount point and relative path |
| Mounts.InsideIffExtends | kernel/src/fs/mount.rs:138-143 | strictly inside is strict extension of the components |
| Mounts.PushKeepsTable | kernel/src/fs/mount.rs:79-93 | mounting keeps the table rooted, normal and without repeats |
| Mounts.RemoveKeepsTable | kernel/src/fs/mount.rs:106-129 | so does unmounting; the root goes last |
| Following.FollowMeaning | kernel/src/fs/mod.rs:80-106 | bounded following either stops where unbounded following stops or has used up its bound |
| Following.GiveUpIffTooLong | kernel/src/fs/mod.rs:80-106 | giving up means exactly that the bound was hit |
| Resolve.HopMeaning | kernel/src/fs/mod.rs:80-106 | one turn on any normal path: its deepest mount is asked; at a link the next path is where the target leads from the directory of the link, with the rest of the path behind it; otherwise the answer of that tree |
| Resolve.ResolveLoop | kernel/src/fs/mod.rs:80-106 | the loop takes such turns from the absolute path until one answers or nine have been taken, and terminates |
| Resolve.TooManyIffMoreThanEight | kernel/src/fs/mod.rs:80-106 | TooManySymlinks is reported exactly when unbounded following would expand more than eight links |
| Resolve.ResolveAgreesWithUnbounded | kernel/src/fs/mod.rs:80-106 | within eight expansions the answer is that of unbounded following |
| Resolve.ResolvedIsCanonical | kernel/src/fs/mod.rs:80-106 | a resolved path is normal and no link is left on it |
| Resolve.ResolveIdempotent | kernel/src/fs/mod.rs:244-247 | the canonical name of a path resolves to itself |
| Resolve.OpenAfterResolve | kernel/src/fs/mod.rs:116-132 | after a successful resolve, open_at succeeds on the node that was described |
| Resolve.DeleteAfterResolve | kernel/src/fs/mod.rs:180-202 | after a successful resolve, a delete fails only for an open or non-empty target |
| Resolve.MountKeepsFs | kernel/src/fs/mount.rs:48-93 | a mount keeps the table and every tree well-formed |
| Resolve.UnmountKeepsFs | kernel/src/fs/mount.rs:106-129 | an unmount does too |
| Resolve.MountRunKeepsFs | kernel/src/fs/mount.rs:48-129 | over every run of mounts and unmounts the table is empty or holds "/", with distinct points |
| Namespace.CreateKeepsSound | kernel/src/fs/mod.rs:144-178 | creating a file, directory or symlink by path keeps every tree well-formed and every mount point but "/" on a directory of the file system below it |
| Namespace.DeleteKeepsSound | kernel/src/fs/mod.rs:180-202 | so does deleting by path: its two mount tests are enough |
| Namespace.OpenKeepsSound | kernel/src/fs/mod.rs:116-132 | so does opening |
| Namespace.RenameSoundIff | kernel/src/fs/mod.rs:204-242 | renaming by path does exactly unless it succeeds and either moves a directory strictly below itself or changes the name of a directory with a mount point below it |
| NamespaceEffects.CreateShows | kernel/src/fs/mod.rs:144-178 | after a creation by path the name is found in the directory that its parent resolves to, with the kind, mode and contents asked for |
| NamespaceEffects.DeleteShows | kernel/src/fs/mod.rs:180-202 | after a deletion by path the canonical name is not found |
| NamespaceEffects.RenameShows | kernel/src/fs/mod.rs:204-242 | after a rename by path the new canonical name shows what the old one showed, and the old one is not found |
| NamespaceEffects.OpenActs | kernel/src/fs/mod.rs:116-132 | an open by path opens the canonical path in its own file system and touches no other |
| NamespaceEffects.MountAnswers | kernel/src/fs/mount.rs:48-93 | each answer of a mount by the canonical path: a taken point, a mount below it, no directory, or the mount added |
| NamespaceEffects.MountShows | kernel/src/fs/mount.rs:48-93 | after it every path at or below the mount point is looked up in the new file system, every other path as before |
| NamespaceEffects.UnmountAnswers | kernel/src/fs/mount.rs:106-129 | each answer of an unmount; a success takes out exactly that mount |
| NamespaceEffects.UnmountUndoesMount | kernel/src/fs/mount.rs:48-129 | unmounting an unused file system undoes its mount |
| NamespaceRuns.MountKeepsSound | kernel/src/fs/mount.rs:48-93 | mounting does: the new mount point is a directory, and none lies below it |
| NamespaceRuns.UnmountKeepsSound | kernel/src/fs/mount.rs:106-129 | unmounting does |
| NamespaceRuns.RunSoundIff | kernel/src/fs/mod.rs:144-242 | over every run of creations, deletions, renames, opens, closes, mounts and unmounts, this holds in all states exactly when no rename of the run is such a one |
| NamespaceRuns.AncestorsAreVisible | kernel/src/fs/mod.rs:80-106 | in such a state every ancestor of a path that is found is found too, across any number of mounts |
| NamespaceRuns.RenameOrphans | kernel/src/fs/mod.rs:218-242 | after a rename above mount points each of them is still found although the old name above it is not |
| NamespaceRuns.RenameAboveMount | kernel/src/fs/mod.rs:218-242 | with a file system mounted at "/a/b", renaming "/a" to "/z" is such a rename |
| PageRuns.FindBestFit | kernel/src/mem/frame_allocator.rs:35-54 | the search finds the first smallest qualifying block, or none exists |
| PageRuns.GiveBack | kernel/src/mem/frame_allocator.rs:139-180 | the two merge passes compute the specified list |
| PageRuns.GivenCovers | kernel/src/mem/frame_allocator.rs:139-180 | exactly the returned pages become free |
| PageRuns.GivenPages | kernel/src/mem/frame_allocator.rs:139-180 | the free page count grows by the returned pages, with at most two merges |
| PageRuns.GivenCoalesced | kernel/src/mem/frame_allocator.rs:139-180 | a fully coalesced list stays fully coalesced |
| PageRuns.TakenCovers | kernel/src/mem/frame_allocator.rs:52-74 | exactly the granted pages stop being free |
| PageRuns.TakenCoalesced | kernel/src/mem/frame_allocator.rs:52-74 | taking from a coalesced list leaves it coalesced |
| PageRuns.GiveUndoesTake | kernel/src/mem/frame_allocator.rs:96-184 | allocate then deallocate restores the set of free pages |
| PageRuns.EmptyGiveIff | kernel/src/mem/frame_allocator.rs:139-180 | freeing an empty run leaves no empty entry exactly when it touches a free run |
| BootMemory.SortedMap | kernel/src/mem/frame_allocator.rs:191-251 | a disjoint memory map of whole pages yields free, used and boot loader runs that are disjoint and apart from one another, page 0 left out |
| BootMemory.ListsCoverMap | kernel/src/mem/frame_allocator.rs:191-251 | each list covers exactly the memory of its kinds of map entries, page 0 left out |
| BootMemory.BytesArePagesIff | kernel/src/mem/frame_allocator.rs:191-251 | the bytes counted are the pages listed exactly when every region kept is made of whole pages; otherwise they are fewer |
| FrameAllocator.PhyMemConBlk.AddDescriptor | kernel/src/mem/frame_allocator.rs:191-251 | one map entry goes to the list and the totals of its kind |
| FrameAllocator.PhyMemConBlk.constructor | kernel/src/mem/frame_allocator.rs:191-251 | the loop over the map lists exactly its runs; from a disjoint map of whole pages it builds a partition whose boot loader regions can be reclaimed |
| FrameAllocator.PhyMemConBlk.TakeBestFit | kernel/src/mem/frame_allocator.rs:35-74 | the smallest block within the limits is cut, or none fits |
| FrameAllocator.PhyMemConBlk.Allocate | kernel/src/mem/frame_allocator.rs:96-110 | each error exactly when specified; otherwise a best fit moves from free to allocated, lies between the two limits, and the partition, the accounting and coalescing hold; out of memory means that every block large enough breaks a limit |
| FrameAllocator.PhyMemConBlk.Deallocate | kernel/src/mem/frame_allocator.rs:112-184 | an exact allocated block moves back to free; anything else is refused unchanged |
| FrameAllocator.PhyMemConBlk.ReclaimPages | kernel/src/mem/frame_allocator.rs:253-287 | boot loader regions join the managed memory as free pages |
| PageMap.TranslatesUnique | kernel/src/mem/virtual_allocator.rs:317-327 | disjoint blocks make translation a function |
| PageMap.SplitTiles | kernel/src/mem/virtual_allocator.rs:207-233 | on page boundaries the three parts tile the block |
| PageMap.SplitOverlapsIff | kernel/src/mem/virtual_allocator.rs:207-233 | the first part stays apart from the middle, and the last part inside the block, exactly when the range starts on a page boundary of the block |
| VirtualAllocator.CutOutMoves | kernel/src/mem/virtual_allocator.rs:198-251 | reserving moves exactly the middle part from free to reserved |
| VirtualAllocator.CutOutCoalesced | kernel/src/mem/virtual_allocator.rs:198-251 | reserving a non-empty range keeps the free list coalesced |
| VirtualAllocator.RecutKeeps | kernel/src/mem/virtual_allocator.rs:388-424 | splitting a reserved block changes no coverage |
| VirtualAllocator.RemappedTranslates | kernel/src/mem/virtual_allocator.rs:364-436 | mapping adds exactly the range to the page map |
| VirtualAllocator.UnmapTranslates | kernel/src/mem/virtual_allocator.rs:439-474 | unmapping removes exactly the range |
| VirtualAllocator.UnmapUndoesMap | kernel/src/mem/virtual_allocator.rs:364-474 | unmapping the block that a mapping made restores every translation |
| VirtualAllocator.ExactBlockIsUnique | kernel/src/mem/virtual_allocator.rs:439-474 | the search of unmap_memory finds that block and no other |
| VirtualAllocator.RunsStayInOneHalf | kernel/src/mem/virtual_allocator.rs:51-79 | no run that starts in the user half reaches beyond it |
| VirtualAllocator.NoneAdjacent | kernel/src/mem/virtual_allocator.rs:147-190 | in a coalesced list of a real address space no two free runs meet, although runs are never joined at the kernel half |
| VirtualAllocator.VirtMemConBlk.constructor | kernel/src/mem/virtual_allocator.rs:51-79 | the kernel address space starts as two coalesced free runs, one below and one from 0xffff_8000_0000_0000 on, page 0 and the page-table window left out |
| VirtualAllocator.VirtMemConBlk.Clone | kernel/src/mem/virtual_allocator.rs:503-568 | a process gets exactly the runs below 0xffff_8000_0000_0000 that the kernel left free, coalesced if they were, and nothing reserved |
| VirtualAllocator.VirtMemConBlk.TakeBestFit | kernel/src/mem/virtual_allocator.rs:109-145 | the smallest fitting block is cut, below 0xffff_8000_0000_0000 for the user and from there on for the kernel, or no block on that side fits |
| VirtualAllocator.VirtMemConBlk.Allocate | kernel/src/mem/virtual_allocator.rs:254-274 | each error exactly when specified; otherwise a best fit is reserved, whole below 0xffff_8000_0000_0000 for the user and whole from there on for the kernel, and no translation changes |
| VirtualAllocator.VirtMemConBlk.Deallocate | kernel/src/mem/virtual_allocator.rs:278-315 | a block of exactly that address and length that is not mapped is released and coalesced; without one the call is refused and nothing changes |
| VirtualAllocator.VirtMemConBlk.ReserveVirtualSpace | kernel/src/mem/virtual_allocator.rs:198-251 | a range is reserved exactly if one free run contains it, and no translation changes; the address space stays valid exactly if the call is refused or the address is on a page boundary, and then coalesced too |
| VirtualAllocator.VirtMemConBlk.MapMemory | kernel/src/mem/virtual_allocator.rs:364-436 | a reserved unmapped range maps to consecutive physical addresses, every other translation and all reservations unchanged; refused exactly off a page boundary or when no unmapped block contains the range |
| VirtualAllocator.VirtMemConBlk.UnmapMemory | kernel/src/mem/virtual_allocator.rs:439-474 | a block mapped at exactly that address and length stops translating, its physical address is returned, it stays reserved; refused exactly without one |
| VirtualAllocator.VirtMemConBlk.GetPhysAddress | kernel/src/mem/virtual_allocator.rs:317-327 | the lookup is the partial map |
| HeapAllocator.AddedScattered | kernel/src/mem/heap_allocator.rs:54-102 | free regions stay 8-aligned, node-sized, disjoint and never adjacent |
| HeapAllocator.AddedCovers | kernel/src/mem/heap_allocator.rs:54-102 | exactly the released bytes become free |
| HeapAllocator.AddedTotal | kernel/src/mem/heap_allocator.rs:54-102 | merging neither loses nor invents bytes |
| HeapAllocator.AddedHead | kernel/src/mem/heap_allocator.rs:54-102 | the new region lies inside the region at the head |
| HeapAllocator.LeftoverCovers | kernel/src/mem/heap_allocator.rs:105-125 | behind an allocation nothing is lost but a rest too small for a node |
| HeapAllocator.ServedCovers | kernel/src/mem/heap_allocator.rs:29-125 | what is handed out was free and is no longer; nothing becomes free, and all that is lost beside it is padding and a rest too small for a node |
| HeapAllocator.GrowingMakesRoom | kernel/src/mem/heap_allocator.rs:145-151 | after growing, also when the pages merge leftwards, some region fits every request aligned to at most a page |
| HeapAllocator.FailsOnlyIfRefused | kernel/src/mem/heap_allocator.rs:130-161 | up to page alignment an allocation fails only if the page allocator refuses |
| HeapAllocator.GrowingSufficesIff | kernel/src/mem/heap_allocator.rs:130-161 | growing an empty heap makes room wherever the pages are granted exactly for alignments up to a page |
| HeapAllocator.LargeAlignmentCanFail | kernel/src/mem/heap_allocator.rs:130-161 | for every size and every larger alignment a grant in the kernel half does not fit the request |
| HeapAllocator.SkipIsSafe | kernel/src/mem/heap_allocator.rs:136-141 | skipping the search when too little is accounted for misses no fit |
| HeapAllocator.LinkedListAllocator.FindFit | kernel/src/mem/heap_allocator.rs:29-50 | the first fitting region in list order |
| HeapAllocator.LinkedListAllocator.AddFreeRegion | kernel/src/mem/heap_allocator.rs:54-102 | the merge loop terminates with the specified list |
| HeapAllocator.LinkedListAllocator.UseListNode | kernel/src/mem/heap_allocator.rs:105-125 | the allocation is cut out, a node-sized rest goes back, the accounting never saturates |
| HeapAllocator.LinkedListAllocator.Alloc | kernel/src/mem/heap_allocator.rs:130-161 | 0 exactly when nothing fits before and after growing; otherwise an aligned address whose requested bytes are neither free nor in another live allocation, and the whole new state |
| HeapAllocator.LinkedListAllocator.Dealloc | kernel/src/mem/heap_allocator.rs:163-169 | exactly the allocation's bytes, at least those requested, become free |
| MallocBlocks.TilingCovers | userspace/libc/malloc.c:64-95 | every usable byte of a chunk belongs to a block of it |
| MallocBlocks.TilingUnique | userspace/libc/malloc.c:64-95 | ... and to only one |
| MallocBlocks.SplitKeepsTiled | userspace/libc/malloc.c:64-72 | splitting keeps chunks tiled |
| MallocBlocks.MergeKeepsTiled | userspace/libc/malloc.c:148-165 | joining keeps chunks tiled |
| MallocBlocks.ChunkKeepsTiled | userspace/libc/malloc.c:75-95 | a new chunk is tiled by its one block |
| MallocBlocks.SplitKeepsPairs | userspace/libc/malloc.c:64-72 | the rest of a split has no free follower |
| MallocBlocks.FreedFacts | userspace/libc/malloc.c:139-168 | joining both ways leaves chunks tiled and no two free neighbours |
| MallocMemory.NextInList | userspace/libc/malloc.c:148-153 | the next list entry is the following block exactly when that block is free |
| MallocMemory.HeadersKeepPayload | userspace/libc/malloc.c:13-29 | writes to header words change no payload |
| Malloc.RoundUp | userspace/libc/malloc.c:44-46 | the next multiple, unless the sum wraps |
| Malloc.HoldsRequestIff | userspace/libc/malloc.c:100-104 | a block holds its request exactly when rounding does not wrap |
| Malloc.FailsOnlyIfKernelRefuses | userspace/libc/malloc.c:100-137 | for sizes that do not wrap a request fails only if no block fits and the kernel refuses |
| Malloc.ChunkIsSnug | userspace/libc/malloc.c:75-78 | whole pages that hold the data and both headers, at least 64 KiB and otherwise less than a page more, unless the sum wraps |
| Malloc.ClearedWords | userspace/libc/malloc.c:170-176 | clearing makes exactly the bytes asked for read zero |
| Malloc.ProductOverflowsIff | userspace/libc/malloc.c:170-172 | the overflow test of calloc is exact |
| Malloc.LivePayloads | userspace/libc/malloc.c:13-29 | live payloads are 16-aligned, inside their chunk, disjoint, and hold no header word of a block or chunk |
| Malloc.PayloadWritesAreSafe | userspace/libc/malloc.c:13-29 | a program that writes only its own payload breaks no invariant and no other payload |
| Malloc.ShrinkKeepsTiledIff | userspace/libc/malloc.c:199-207 | overwriting the size first leaves the chunk tiled exactly when the size does not change |
| Malloc.ShrunkKeepsRest | userspace/libc/malloc.c:199-207 | a shrink by 32 bytes or more breaks the tiling, but no live payload, no header word and not the free list |
| Malloc.Heap.constructor | userspace/libc/malloc.c:31-32 | the empty heap satisfies the invariant |
| Malloc.Heap.FreeListInsert | userspace/libc/malloc.c:49-54 | the block enters the linked list in address order |
| Malloc.Heap.FreeListRemove | userspace/libc/malloc.c:57-61 | exactly that block leaves the linked list |
| Malloc.Heap.SplitBlock | userspace/libc/malloc.c:64-72 | a rest of at least 16 bytes is split off and listed; only header words change |
| Malloc.Heap.NewChunk | userspace/libc/malloc.c:75-95 | a granted chunk becomes one listed free block; a refusal changes nothing |
| Malloc.Heap.TakeFit | userspace/libc/malloc.c:106-117 | the lowest free block that fits is handed out and split |
| Malloc.Heap.Malloc | userspace/libc/malloc.c:100-137 | one more live, 16-aligned block less than 32 bytes larger than the rounded request, every live payload unchanged; 0 exactly when size is 0 or the request is refused |
| Malloc.Heap.Free | userspace/libc/malloc.c:139-168 | exactly that block stops being live, neighbours are joined, every other payload is unchanged |
| Malloc.Heap.Calloc | userspace/libc/malloc.c:170-176 | 0 exactly for an overflowing or empty product or a refused request; otherwise zeroed, and as malloc of the product unless rounding it wraps |
| Malloc.Heap.FindChunk | userspace/libc/malloc.c:178-187 | the chunk that holds the block |
| Malloc.Heap.GrowInPlace | userspace/libc/malloc.c:210-222 | the block swallows its free follower, keeps its contents and gives back the rest |
| Malloc.Heap.Shrink | userspace/libc/malloc.c:199-207 | the size is rewritten, then the split test compares it with itself and never splits |
| Malloc.Heap.Realloc | userspace/libc/malloc.c:189-230 | the old contents are at the result, only this block changes, and 0 means nothing was lost; the invariant survives exactly when the block is not shrunk by 32 bytes or more |
| Kring.KeepIsLongest | kernel/src/logger/kring.rs:47-62 | eviction keeps the longest suffix that leaves the room needed |
| Kring.RunKeepsLongest | kernel/src/logger/kring.rs:47-62 | after any pushes the ring holds the longest suffix of accepted messages that fits in 64 KiB |
| Kring.ReadersSeeTheLatest | kernel/src/logger/kring.rs:47-92 | after logging any strings of at most 1024 bytes a reader sees the latest of them in order, as many as fit in 64 KiB with two bytes of length each |
| Kring.VisibleAppend | kernel/src/logger/kring.rs:64-92 | a skipped message disturbs no other |
| Kring.SkippedIffSplitChar | kernel/src/logger/kring.rs:64-92 | a message is skipped exactly when the cut at 1024 bytes falls inside a character |
| Utf8.ValidIff | kernel/src/logger/kring.rs:84-88 | the bytes accepted are exactly the encodings of sequences of Unicode scalar values |
| Utf8.CutIsValidIff | kernel/src/logger/kring.rs:84-88 | a cut of valid UTF-8 is valid exactly at a character boundary |
| Kring.KernelRingBuf.PushByte | kernel/src/logger/kring.rs:21-25 | a byte is appended across wrap-around |
| Kring.KernelRingBuf.ReadByte | kernel/src/logger/kring.rs:27-30 | the byte at an offset from the head |
| Kring.KernelRingBuf.DropOldest | kernel/src/logger/kring.rs:32-45 | exactly the oldest message goes |
| Kring.KernelRingBuf.MakeRoom | kernel/src/logger/kring.rs:53-55 | the eviction loop terminates with enough room and drops no message needlessly |
| Kring.KernelRingBuf.PushStr | kernel/src/logger/kring.rs:47-62 | a message that fits at all is added after evicting as few as possible; others are ignored |
| Kring.KernelRingBuf.ForEachMsg | kernel/src/logger/kring.rs:64-92 | the held messages in order, each cut to 1024 bytes, those with an invalid cut left out |
| DriverOrder.Dfs | kernel/build.rs:436-489 | a visit that succeeds lists the node after its imports; a circular error means a real cycle, an unknown import a real one |
| DriverOrder.OrderDrivers | kernel/build.rs:491-507 | success exactly when every import is a driver and there is no cycle, for any key order; then each driver once, imports first |
| DriverOrder.OrderedMeansAcyclic | kernel/build.rs:436-507 | an imports-first order leaves no room for a cycle |
| UserLoader.ParseUserElf | kernel/src/loader/user_loader.rs:163-219 | the parsing loops compute the specified segments or refuse |
| UserLoader.ParseAccepts | kernel/src/loader/user_loader.rs:163-219 | accepted images have sorted, page-aligned, pairwise disjoint chunks, one per loadable header, inside the file |
| UserLoader.WindowsOkIff | kernel/src/loader/user_loader.rs:200-209 | on sorted segments the check of neighbours is the layout condition on all pairs |
| UserLoader.SortKeepsLayout | kernel/src/loader/user_loader.rs:200-209 | the stable sort neither makes nor mends a conflict |
| UserLoader.ParsedDescribe | kernel/src/loader/user_loader.rs:163-198 | every segment of an accepted image is that of a loadable header, and every loadable header has one: its addresses, sizes and file offset, its write permission, and the fewest whole pages around it |
| UserLoader.ParseAcceptsIff | kernel/src/loader/user_loader.rs:163-219 | an image is accepted exactly when its loadable headers are supported and inside the file, there is one, and no two of them conflict in header order |
| UserLoader.EmptySegmentOrder | kernel/src/loader/user_loader.rs:200-209 | an empty segment that starts where another does is accepted before it and refused after it, though nothing overlaps |
| UserLoader.StagedByte | kernel/src/loader/user_loader.rs:286-297 | a staged chunk is the memory image: file bytes at their addresses, zeros elsewhere |
| UserLoader.StagedMatchesFile | kernel/src/loader/user_loader.rs:131-135 | an address with a file offset shows the byte at that offset |
| UserLoader.PatchMovesWithBase | kernel/src/loader/user_loader.rs:386-413 | loaded higher, relative words and own symbols move with the base, imported ones do not |
| UserLoader.StoreReadsBack | kernel/src/loader/user_loader.rs:419-424 | a relocation changes exactly eight bytes of one chunk, which read back as the word |
| UserLoader.ProcessRelaEntries | kernel/src/loader/user_loader.rs:359-428 | the loop relocates entry by entry or refuses; the LoadedImage rows say what the chunks then hold |
| LoadedImage.PatchMeaning | kernel/src/loader/user_loader.rs:386-413 | the word of a patching entry modulo 2^64: base plus addend, symbol plus addend, or for a jump slot the symbol, which is base plus value for an own symbol and the dependency's address for an import; refused exactly if the symbol does not resolve |
| LoadedImage.RelocationApplies | kernel/src/loader/user_loader.rs:430-459 | after a successful relocation every entry of both tables whose target no later entry overlaps reads back as its word, and bytes that no entry targets are unchanged |
| LoadedImage.EveryWordReadsBack | kernel/src/loader/user_loader.rs:430-459 | with targets that do not overlap this is so for every entry |
| LoadedImage.RelocationOkIff | kernel/src/loader/user_loader.rs:359-459 | relocation succeeds exactly when both tables are in the file, every target lies in a writable segment, and every patching entry resolves and has its eight bytes in one chunk |
| LoadedImage.ColdLoadShows | kernel/src/loader/user_loader.rs:286-459 | a cold load commits the file's bytes at their addresses and zeros elsewhere, except where an entry wrote |
| UserLoader.TargetIsWritable | kernel/src/loader/user_loader.rs:380-418 | the chunk a relocation writes is writable |
| UserLoader.RelocationAgrees | kernel/src/loader/user_loader.rs:430-459 | relocation never changes a read-only chunk and accepts all chunks exactly if it accepts the writable ones |
| UserLoader.WarmAgreesWithCold | kernel/src/loader/user_loader.rs:622-653 | a warm load accepts the same images and commits the same writable chunks as a cold load |
| UserLoader.SharedChunksAreStable | kernel/src/loader/user_loader.rs:622-653 | shared chunks depend neither on base nor on dependencies |
| UserLoader.WarmViewIsColdView | kernel/src/loader/user_loader.rs:622-653 | the process sees the same bytes after a warm load as after a cold load at the same base |
| UserLoader.FitsWithinMemory | kernel/src/loader/user_loader.rs:286-297 | p_filesz at most p_memsz means every file part fits its chunk |
| UserLoader.OutcomeDiffersIff | kernel/src/loader/user_loader.rs:286-297 | warm and cold loads end differently exactly on images with a read-only segment that overruns its chunk; then the cold load panics and the warm one does not |
| UserLoader.OverrunningImage | kernel/src/loader/user_loader.rs:286-297 | an image of one read-only page that does |

## Left out

- Scheduler, task switching, page tables, HAL and driver dispatch: a task is on a wait list exactly when it is parked there, waking it succeeds unless it is being killed, and list nodes can always be allocated.
- Module-backed file systems, FAT32 and device mounts: mounts here hold in-memory trees only.
- readdir, populate, stat and the file contents of the in-memory file system: they would only add easy members.
- Namespace.RenameSoundIff: each call by path is one step; the lock is released between its lookups, its mount tests and its change.
- stop_fs and the operation guard of the file system.
- aligned_alloc (userspace/libc/malloc.c:232-289): it drops bytes from the tiling.
- Malloc.Heap.Realloc: the moving path is one step here, although the lock is released between its malloc, its copy and its free.
- Malloc.Heap.Calloc: for products from 2^64 - 15 up to 2^64 - 1, which round to an empty block, says only that the result is zeroed.
- Malloc.Heap.Malloc: assumes that a chunk request that wraps to zero bytes is refused by the kernel.
- Malloc.Heap.Clear: memory is modelled in aligned 8-byte words, whose bytes are read off them.
- HeapAllocator.LinkedListAllocator.AddFreeRegion: the list is a sequence, the links inside free regions are not modelled; sizes are unbounded.
- VirtualAllocator.VirtMemConBlk.ReserveVirtualSpace: the pages it does not debit from the available memory are counted apart.
- VirtualAllocator.VirtMemConBlk.Deallocate: coalescing of the free list is promised for non-empty blocks only (`PageRuns.EmptyGiveIff`).
- get_virt_address, user-copy range checks and the locking of address spaces.
- Pipe.StepKeepsInv: leaves a failed copy-in to `PipeLosses.StepKeepsInvIff`.
- PipeRuns.SoleReaderSeesEof: one reader only; `PipeLosses.EofReachesAllIff` decides the general case.
- SemaphoreRuns.CounterCountsBlocked: for runs without a signal between a kill and its clean-up (`SemaphoreRuns.RunKeepsInvIff`).
- CondVar.AccountBalances: assumes fewer threads than the largest permit count.
- UserLoader.ParseUserElf: works on decoded program headers; decoding records from bytes, the dynamic section scan, dependency search and out-of-memory while committing are not modelled.
- Boot loader, ACPI, consoles, shell, core utilities, stdio and string functions.
