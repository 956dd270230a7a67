# Verified model of the namrbd iSCSI gateway core

This project models, in Dafny, the parts of namrbd where a mistake loses data or
lets two writers in: the adapter that presents a byte-addressed LUN over a
block-addressed backend, the live reload of exports from the registry, the
leader lease of the service, and six smaller mechanisms around them. The main
results are statements about all inputs, all runs or all interleavings; where a
claim about the code fails, a concrete input or run shows it beside the exact
condition under which the claim holds.

`dafny verify dfyconfig.toml` checks the whole project.

## What is modelled

**The SBS backend adapter** (`Geometry`, `Calls`, `Plans`, `FlatLun`, `Adapter`,
`SbsAdapter`, `AdapterConcurrency`). Capacity rounding to a common multiple of
two block sizes, widening of ranges, chunking, the aligned fast path and the
read-modify-write path, and UNMAP's head, middle and tail. Each operation has a
*plan*, the list of backend calls it makes; the class `SBSBackendAdapter` makes
those calls in loops over a backend whose calls may fail. The reference it is
compared with is a flat byte array, and `MemoryLUN`, which works on an array in
place. Interleaved callers are a state machine whose steps are single backend
calls.

**Live reload** (`Text`, `Registry`, `RegistryFetch`, `ReloadBudget`,
`Supervisor`, `RuntimeLedger`, `LiveReload`). The registry is a change log; what
a log means is defined by replaying it. Paged fetches, collapsing of changes,
staging, atomic publication and closing of replaced runtimes are loops and
classes as in the source. A ledger of Prepare and Close calls makes leaks and
double closes visible; it is ordinary state of the model, not of the source.

**The leader lease** (`LeaderLease`). Any number of nodes, one transactional
key, one clock; begin, commit, install, release and local clear are separate
steps, and a transaction may be applied although it was reported as failed.

**Compact cores.** In-flight accounting with compare-and-swap loops
(`IoAccounting`), failover write admission (`Failover`), fence projection by
concurrent goroutines (`FenceProjection`), the allocation-page checker
(`ExtentPages`), the base64 fast path (`ZeroBase64`) and resumable extent
bootstrap (`Bootstrap`).

`Words` holds machine integers and a little divisibility theory. 64-bit sums,
products and complements that may wrap go through `Words.Wrap`.

## Claims that fail, and exactly when they hold

- The advertised capacity is the largest common multiple of both block sizes
  exactly when their least common multiple fits 64 bits, or the volume is empty
  or smaller than the wrapped unit: `Geometry.CapacityCorrectIff`, and the input
  `Geometry.CapacityExample`.
- Every accepted logical range widens to one the backend validator accepts
  exactly when there is no such range, or the two fallbacks for a missing block
  size agree on alignment and the last logical block, rounded up to a backend
  block, ends inside the volume: `Geometry.WideningAcceptedIff`, and the input
  `Geometry.FallbackExample`.
- `IsLeader` is not exclusive, because it ignores expiry
  (`LeaderLease.IsLeaderIsNotExclusive`). For a node that has not begun to
  release, being flagged with an unexpired record is being ready to mutate, so
  of two flagged nodes one has expired (`LeaderLease.IsLeaderUnexpiredIff`).
  Inside the window of `Release` even readiness is not exclusive
  (`LeaderLease.ReleaseWindowIsNotExclusive`).
- Nodes agree on the current leader unless one of them names a node that began
  to release (`LeaderLease.LeaderAgreement`); after a release a cached record
  still names the old leader (`LeaderLease.CacheOutlivesRelease`).
- The comment on `Run` (iscsi/live_reload.go:215-217) says start-up fails if no
  generation can be loaded. A resync that reports revision 0 and generation 0
  is skipped as unchanged, start-up succeeds, and nothing is published:
  `LiveReload.EmptyResyncExample`. The contract of `ReloadOnce` says that this
  is the only way.
- The memory counter and its peak are the true load and the true maximum
  exactly while these fit 64 bits: `IoAccounting.MemoryExactIff`,
  `IoAccounting.PeakExactIff`, and the run `IoAccounting.PeakMissesOverflow`.
- An accepted volume with distinct page numbers maps no chunk twice if the page
  count is known or pages hold one chunk (`ExtentPages.NoOverlap`); for every
  other geometry there are two accepted pages that overlap, because the page
  start wraps (`ExtentPages.OverlapOtherwise`).
- A bootstrap run that gets through leaves an exact tiling when the end of the
  last full-length extent fits 64 bits; otherwise it has gone past the volume's
  extents. The loop can stop at all exactly when the size leaves room below
  2^64 for the greatest common divisor of the extent length and 2^64
  (`Bootstrap.LandsIff`); with a length that divides 2^64 a loop that misses
  its end runs for ever (`Bootstrap.NeverLands`, `Bootstrap.WrapExample`), with
  other lengths it may stop rounds later (`Bootstrap.OvershootExample`).

## Model

| member | source | states |
|---|---|---|
| `Geometry.GcdLoop` | iscsi/sbs_adapter.go:1402-1407 | the Euclidean loop computes the greatest common divisor defined recursively |
| `Geometry.Bezout` | iscsi/sbs_adapter.go:1402-1407 | that divisor divides both arguments and is an integer combination of them, so every common divisor divides it |
| `Geometry.LcmIsLeast` | iscsi/sbs_adapter.go:1388-1400 | the unit without machine width is a common multiple and divides every common multiple |
| `Geometry.CapacityCorrectIff` | iscsi/sbs_adapter.go:1380-1400 | advertised capacity is the largest common multiple of both block sizes within the volume, exactly when the unit does not wrap or the volume is below the wrapped unit |
| `Geometry.CapacityExample` | iscsi/sbs_adapter.go:1388-1400 | an input for which the unit wraps and the capacity is no multiple of the backend block |
| `Geometry.AdvertisedCapacity` | iscsi/sbs_adapter.go:1380-1386 | never above the volume, and the trim flag says exactly whether something was cut off |
| `Geometry.WidenedRange` | iscsi/sbs_adapter.go:815-832 | a range inside the capacity widens, without overflow, to the smallest block-aligned range around it inside the capacity, and an aligned one is left alone |
| `Geometry.WideningAcceptedIff` | iscsi/sbs_adapter.go:815-827 | for every geometry: all accepted logical ranges widen to ranges the backend validator accepts, exactly when there are none, or the fallback block sizes agree and the last logical block rounded up ends inside the volume |
| `Geometry.FallbackExample` | iscsi/sbs_adapter.go:1436-1448 | a geometry whose only logical block is accepted by the logical validator and refused by the backend one |
| `Geometry.WidenedAccepted` | iscsi/sbs_adapter.go:1436-1448 | under a sound geometry every widened range passes the backend validator |
| `Geometry.SoundWhenDivides` | iscsi/sbs_adapter.go:1388-1418 | a backend block that is a multiple of the logical block gives a sound geometry, and the capacity is the volume rounded down to backend blocks |
| `Geometry.EffectiveMaxIO` | iscsi/sbs_adapter.go:1041-1065 | the limit is the largest block multiple within both limits, and zero exactly when one of them is below a block |
| `Geometry.TransferChunks` | iscsi/sbs_adapter.go:791-813 | the loop refuses exactly what the validator refuses and otherwise returns the chunk list |
| `Geometry.ChunksCorrect` | iscsi/sbs_adapter.go:791-813 | chunks are block-aligned, within the limit, contiguous and in order, and cover the range; a zero limit gives one chunk |
| `Geometry.TilesCoverOnce` | iscsi/sbs_adapter.go:791-813 | every address of the range lies in exactly one chunk |
| `Calls.ReadCallsEffect` | iscsi/sbs_adapter.go:834-859 | reading chunk by chunk collects exactly the range |
| `Calls.WriteCallsEffect` | iscsi/sbs_adapter.go:861-886 | writing chunk by chunk lays the buffer over exactly the range |
| `Calls.ClearCallsEffect` | iscsi/sbs_adapter.go:906-948 | zeroing or discarding chunk by chunk clears exactly the range |
| `Plans.PatchedBlockPrefix` | iscsi/sbs_adapter.go:888-904 | writing back part of a patched block changes only bytes of the request |
| `Plans.WriteSplit` | iscsi/sbs_adapter.go:861-904 | wherever a write stops, on either path, there is one split point: new bytes before it, old bytes after it, nothing outside the request changed |
| `Plans.ZeroSplit` | iscsi/sbs_adapter.go:383-441 | the same for ZERO, and every call is one a healthy backend takes |
| `Plans.UnmapPartsCorrect` | iscsi/sbs_adapter.go:955-996 | head, middle and tail cover the range exactly once; the middle is whole blocks and holds every whole block of the range; edges are shorter than a block |
| `Plans.UnmapSplit` | iscsi/sbs_adapter.go:955-996 | wherever an UNMAP stops, a prefix of the range is zero and nothing else changed |
| `Plans.MutationSplit` | iscsi/sbs_adapter.go:337-441 | the split-point property for every mutation in one statement |
| `Plans.MutationEffect` | iscsi/sbs_adapter.go:337-518 | a completed mutation lays its payload over its range and nothing else, so the fast path and read-modify-write are indistinguishable |
| `FlatLun.ReadBack` | iscsi/memory.go:138-164 | after a write and any requests that avoid its range, the range reads back as written |
| `FlatLun.MemoryLUN.ReadAt` | iscsi/memory.go:138-152 | copies the available bytes in place, leaves the rest of the caller's buffer, reports the short read |
| `FlatLun.MemoryLUN.WriteAt` | iscsi/memory.go:154-164 | copies into the array in place when it fits and refuses otherwise |
| `FlatLun.MemoryLUN.Zero` | iscsi/memory.go:177-188 | clears the range of the array in place when it fits and refuses otherwise |
| `FlatLun.MemoryMatchesFlat` | iscsi/memory.go:138-188 | on accepted reads, writes and zeros the memory LUN and the blocked flat array agree |
| `Adapter.ReadEffect` | iscsi/sbs_adapter.go:291-335 | reading whole blocks and slicing gives exactly the requested bytes and changes nothing |
| `Adapter.ServeMatchesFlat` | iscsi/sbs_adapter.go:291-518 | one request on a healthy backend: same reply and same contents as a flat array of the advertised size, bytes beyond it untouched |
| `Adapter.RunMatchesFlat` | iscsi/sbs_adapter.go:291-518 | the same for every sequence of requests |
| `Adapter.ServeMatchesMemory` | iscsi/sbs_adapter.go:291-441 | reads, writes and zeros of an active adapter agree with the memory LUN |
| `SbsAdapter.SBSBackendAdapter.ReadBackendRange` | iscsi/sbs_adapter.go:834-859 | the chunk loop returns the range, and always on a healthy backend |
| `SbsAdapter.SBSBackendAdapter.WriteBackendRange` | iscsi/sbs_adapter.go:861-886 | the chunk loop executes a prefix of the planned calls, all of them on success |
| `SbsAdapter.SBSBackendAdapter.WriteLogicalRange` | iscsi/sbs_adapter.go:888-904 | a prefix of the data reaches exactly its place, all of it on success |
| `SbsAdapter.SBSBackendAdapter.ClearBackendRange` | iscsi/sbs_adapter.go:906-948 | a prefix of the range is cleared, and the discards sent are exactly that prefix |
| `SbsAdapter.SBSBackendAdapter.UnmapLogicalRange` | iscsi/sbs_adapter.go:955-996 | a prefix of the range is cleared; discards cover exactly the whole blocks in it, the rest is cleared by write |
| `SbsAdapter.SBSBackendAdapter.Admit` | iscsi/sbs_adapter.go:1420-1434 | the checks before the first backend call answer as the flat array does, and let through only ranges inside the capacity on the active path |
| `SbsAdapter.SBSBackendAdapter.ReadAt` | iscsi/sbs_adapter.go:291-335 | fills the buffer with what a flat array returns, or fails only because a backend call failed and leaves the buffer |
| `SbsAdapter.SBSBackendAdapter.WriteAt` | iscsi/sbs_adapter.go:337-381 | acts as a flat array, or a backend call failed and one split point remains; byte counter |
| `SbsAdapter.SBSBackendAdapter.Zero` | iscsi/sbs_adapter.go:383-441 | the same for ZERO; nothing is discarded |
| `SbsAdapter.SBSBackendAdapter.Unmap` | iscsi/sbs_adapter.go:474-518 | the same for UNMAP; on success exactly the whole blocks inside the range were discarded, and after a failure exactly those inside the cleared prefix |
| `AdapterConcurrency.Serializable` | iscsi/sbs_adapter.go:358-361 | in every interleaving of backend calls, failing ones included, the contents equal the mutations run one after another in lock order, each caller recorded once |
| `AdapterConcurrency.HistoryOfCallers` | iscsi/sbs_adapter.go:358-361 | what is recorded is what the callers asked for |
| `AdapterConcurrency.SerialIsLastWriter` | iscsi/sbs_adapter.go:404-414 | whichever calls failed, there is one split point per mutation such that every byte is the one its last writer in lock order wrote up to its split point |
| `AdapterConcurrency.NoLostUpdate` | iscsi/sbs_adapter.go:888-904 | for any callers, interleaving and failures, in every reachable state: a completed mutation is there in full unless a later one, finished or under way, overlaps its range, although each rewrites whole backend blocks |
| `LeaderLease.CommitIsClaim` | cmd/sbs-service/leader.go:80-122 | what a committed acquire hands to its node is backed by what it wrote to the key |
| `LeaderLease.RunKeepsInv` | cmd/sbs-service/leader.go:65-186 | in every run a node's unexpired claim is backed by the stored key with an expiry at least as late |
| `LeaderLease.MutualExclusion` | cmd/sbs-service/leader.go:188-194 | in every interleaving at most one node that has not begun to release is ready to mutate |
| `LeaderLease.IsLeaderIsNotExclusive` | cmd/sbs-service/leader.go:124-126 | a run in which two nodes both say they lead |
| `LeaderLease.IsLeaderUnexpiredIff` | cmd/sbs-service/leader.go:124-126 | in every run, for a node that has not begun to release, flagged with an unexpired record is ready to mutate; of two flagged nodes one has expired |
| `LeaderLease.ReleaseWindowIsNotExclusive` | cmd/sbs-service/leader.go:156-186 | a run in which a releasing node is still ready beside its successor |
| `LeaderLease.LeaderAgreement` | cmd/sbs-service/leader.go:134-154 | in every run all nodes that name a current leader name the same one unless one names a node that began to release in the run; the ready node is the one named under the same exception |
| `LeaderLease.CacheOutlivesRelease` | cmd/sbs-service/leader.go:134-186 | a run in which, after a release, a cached record names the old leader beside the new one |
| `LeaderLease.LeaderLeaseManager.AcquireOrRenew` | cmd/sbs-service/leader.go:80-122 | the transaction and its effect on the key for each way it can end |
| `LeaderLease.LeaderLeaseManager.Refresh` | cmd/sbs-service/leader.go:65-78 | one refresh is the begin, commit and install steps of the machine |
| `LeaderLease.LeaderLeaseManager.Release` | cmd/sbs-service/leader.go:156-186 | clears key and local state only for the leader, and keeps the local state when the transaction failed |
| `LeaderLease.LeaderLeaseManager.MutationReady` | cmd/sbs-service/leader.go:188-194 | ready exactly as the machine defines it |
| `LeaderLease.LeaderLeaseManager.State` | cmd/sbs-service/leader.go:196-208 | "leader" exactly when ready to mutate, and what the other states imply |
| `Text.TrimKeepsStretch` | iscsi/live_reload.go:508-519 | trimming keeps one stretch of the text without white space at its ends, and only white space lies outside it |
| `Registry.BetweenSplits` | iscsi/live_reload.go:249-306 | in an ordered log the entries up to a revision are those up to an earlier one and those in between |
| `Registry.AtAdvances` | iscsi/live_reload.go:249-306 | catching up is replaying the entries in between |
| `Registry.CollapseRegistryChanges` | iscsi/live_reload.go:489-506 | succeeds exactly when every change names an export and each export's changes come in order, and keeps the last change of each |
| `Registry.CollapseIsReplay` | iscsi/live_reload.go:308-342 | acting on only the last change of each export, in any order, serves what replaying all changes serves |
| `RegistryFetch.FetchChanges` | iscsi/live_reload.go:249-306 | the paging loop computes the recursive fetch, page checks in the source's order |
| `RegistryFetch.FetchInRange` | iscsi/live_reload.go:264-286 | for any source, accepted changes lie in (after, checkpoint] |
| `RegistryFetch.FetchFaithful` | iscsi/live_reload.go:287-305 | a source that delivers exactly the log entries, however paged, is fetched as exactly those entries |
| `RegistryFetch.ResyncPageFaithful` | iscsi/live_reload.go:288-292 | a resync request, whatever revision it names, claims nothing about the log |
| `RegistryFetch.FetchSnapshotPages` | iscsi/live_reload.go:405-447 | the nested loops compute the recursive snapshot fetch |
| `RegistryFetch.SnapshotSelects` | iscsi/live_reload.go:405-447 | an accepted snapshot holds exactly the assigned exports listed, within the cap |
| `RegistryFetch.SnapshotFaithful` | iscsi/live_reload.go:405-447 | from a faithful source it is the served part of the registry at its revision |
| `ReloadBudget.ReloadState.Decide` | iscsi/reload_budget.go:55-93 | apply exactly when lexicographically later, skip exactly when equal; the checkpoint does not move |
| `ReloadBudget.ReloadState.Applied` | iscsi/reload_budget.go:101-105 | moves the checkpoint to the given pair |
| `Supervisor.MultiExportSupervisor.Install` | iscsi/supervisor.go:100-142 | accepts exactly a list that fits, is valid and pairwise distinct in id, target and device, on an empty supervisor; installs all of it or nothing |
| `Supervisor.ClashIff` | iscsi/supervisor.go:111-131 | the three lookups find exactly the clashes with earlier specs |
| `Supervisor.OrderIrrelevant` | iscsi/live_reload.go:592-599 | whether a set of exports installs does not depend on the order of its specs |
| `Supervisor.MultiExportSupervisor.MarkServing` | iscsi/supervisor.go:186-195 | afterwards every runtime is serving, and the exports and their specs are those from before |
| `Supervisor.MultiExportSupervisor.MarkStopped` | iscsi/supervisor.go:197-206 | afterwards every runtime is stopped, and the exports and their specs are those from before |
| `Supervisor.MultiExportSupervisor.SetStates` | iscsi/supervisor.go:186-206 | the loop over the runtimes, in any order: every one ends in the given state, none is added, lost or changed otherwise |
| `Supervisor.AtomicSupervisorGeneration.Apply` | iscsi/live_reload.go:584-606 | publishes one serving runtime per export or changes nothing; the replaced generation is stopped |
| `RuntimeLedger.ClosePreparedRuntimes` | iscsi/live_reload.go:545-555 | closes each runtime of the map once and none that is published |
| `RuntimeLedger.CloseReplacedRuntimes` | iscsi/live_reload.go:557-567 | closes exactly the old runtimes whose store was not kept, once each, and none that is published |
| `RuntimeLedger.PrepareOne` | iscsi/live_reload.go:325-335 | yields a runtime exactly when the preparer succeeds with a matching spec; a mismatch is closed at once |
| `RuntimeLedger.StageChanges` | iscsi/live_reload.go:308-342 | in any order: the serving map with the changed exports replaced by newly prepared ones, or a fault with everything prepared closed again |
| `RuntimeLedger.StageSnapshot` | iscsi/live_reload.go:373-387 | a newly prepared runtime for exactly the selected exports, or a fault with everything prepared closed again |
| `LiveReload.LiveReloadController.constructor` | iscsi/live_reload.go:165-169 | a new controller serves nothing, is in step with every log at revision 0, and its books balance |
| `LiveReload.LiveReloadController.ApplyChanges` | iscsi/live_reload.go:308-361 | all changes or none: on success the map is the updated registry, unchanged exports keep their runtime, replaced ones are closed once; on failure nothing visible changes, and each kind of failure has its cause |
| `LiveReload.LiveReloadController.ApplyResync` | iscsi/live_reload.go:363-403 | applies exactly when later than what is served; then the map is the snapshot and all old runtimes are closed; otherwise nothing visible changes |
| `LiveReload.LiveReloadController.ReplaceAll` | iscsi/live_reload.go:373-402 | every selected export is prepared anew and published and every old runtime closed once, or nothing visible changes and what was prepared is closed |
| `LiveReload.LiveReloadController.ReloadOnce` | iscsi/live_reload.go:172-213 | for any source and preparer: failures and skips change nothing visible and have their cause; an apply publishes a complete generation under a later checkpoint (or the first one), with changes in (old, new]; with a faithful source the served map stays the registry's, and an applied resync makes it so from any state |
| `LiveReload.LiveReloadController.Run` | iscsi/live_reload.go:218-237 | over a whole run: the checkpoint never moves back, an error of the first poll changes nothing, the books balance, and with a faithful source the served map is the registry's if it was at the start or a resync was applied |
| `LiveReload.CatchUp` | iscsi/live_reload.go:192-207 | collapsed changes from a faithful source take the served part of the registry from one revision to the next |
| `LiveReload.EmptyResyncExample` | iscsi/live_reload.go:369-372 | a new controller whose first poll succeeds and publishes nothing |
| `LiveReload.LiveReloadController.PublishedDistinct` | iscsi/live_reload.go:584-606 | what is published fits the cap and has distinct ids, targets and devices |
| `LiveReload.LiveReloadController.PublishedIsOpen` | iscsi/live_reload.go:557-567 | every store behind the published generation belongs to the serving map and has not been closed |
| `LiveReload.LiveReloadController.ServesRegistry` | iscsi/live_reload.go:308-403 | in step with a log, the published generation has a serving runtime for exactly the assigned exports, with the registry's identity, lease and epoch, on a store that was never closed |
| `IoAccounting.WrapAdds` | iscsi/supervisor.go:375-380 | adding the complement of one less is exact subtraction modulo 2^64 |
| `IoAccounting.CountersExact` | iscsi/supervisor.go:309-380 | in every interleaving the in-flight count is the number of I/Os in progress, the session count is opens minus closes and not negative, and when all is idle memory is back at its initial value |
| `IoAccounting.MemoryExactIff` | iscsi/supervisor.go:364-380 | the memory counter is initial plus in-flight bytes exactly when that fits 64 bits |
| `IoAccounting.HighIsMaximum` | iscsi/supervisor.go:364-373 | the recorded high mark is reached in the run and never exceeded |
| `IoAccounting.PeakExactIff` | iscsi/supervisor.go:364-373 | once no begin is in its loop the peak is the high mark exactly when that fits 64 bits |
| `IoAccounting.PeakMissesOverflow` | iscsi/supervisor.go:294-305 | two large unmaps at once for which the counter wraps and the peak is wrong |
| `IoAccounting.RetryMeansProgress` | iscsi/supervisor.go:367-372 | a compare-and-swap retry happens only because another thread raised the peak |
| `Text.UniqueNonEmptyStrings` | iscsi/control.go:772-787 | the loop with its map of seen values computes the list of first occurrences |
| `Text.UniqueMembers` | iscsi/control.go:772-787 | that list holds exactly the non-empty trimmed values |
| `Text.UniqueClean` | iscsi/control.go:772-787 | it has no duplicates, blanks or untrimmed values |
| `Failover.FilterInPlace` | iscsi/control.go:703-717 | the in-place filter leaves exactly the other ids, in order, at the front of the array |
| `Failover.NormalizeIdempotent` | iscsi/control.go:573-597 | normalising twice is normalising once |
| `Failover.NormalizeFills` | iscsi/control.go:573-597 | every mode ends up set, what was set is kept, and implicit ALUA is marked as supported |
| `Failover.RejectionReasons` | iscsi/control.go:748-759 | which reason a rejected request is given and which flag it raises, each by a condition on the request alone |
| `Failover.RemoveUndoesAdd` | iscsi/control.go:689-717 | removing a gateway undoes adding it |
| `Failover.EvaluateDecides` | iscsi/control.go:719-770 | one request: admitted exactly for the active, unrevoked gateway at the export's epoch; status, reason and flags fit the decision |
| `Failover.AdmissionSafety` | iscsi/control.go:719-770 | the same for every request of every run; active gateway, epoch and revocation never change, rejection flags never clear, standbys stay clean, grow in place and never gain the active gateway |
| `Failover.OneWriter` | iscsi/control.go:719-770 | all writes admitted in one run come from one gateway at one epoch |
| `Failover.StandbysAfter` | iscsi/control.go:689-701 | the standby list after a run is the old one and every gateway turned away as standby, once each |
| `FenceProjection.CollectEndpoints` | cmd/sbs-service/main_iscsi_fencing.go:33-45 | the loop collects the distinct trimmed endpoints of members not removed |
| `FenceProjection.NoReceivers` | cmd/sbs-service/main_iscsi_fencing.go:46-49 | there is no endpoint exactly when no remaining member has one |
| `FenceProjection.BoundedConcurrency` | cmd/sbs-service/main_iscsi_fencing.go:51-69 | in every interleaving at most 16 calls are in flight |
| `FenceProjection.NoDeadlock` | cmd/sbs-service/main_iscsi_fencing.go:55-85 | until all goroutines are finished one of them can move |
| `FenceProjection.ProjectionExact` | cmd/sbs-service/main_iscsi_fencing.go:55-91 | once the wait group is down, the error list is empty exactly when every distinct endpoint of every remaining member that has one acknowledged exactly this fence |
| `FenceProjection.SucceedsIff` | cmd/sbs-service/main_iscsi_fencing.go:46-91 | the call reports success exactly when some remaining member has an endpoint and every such endpoint acknowledged exactly this fence |
| `ExtentPages.CheckExtent` | cmd/namrbd-debug/main.go:3536-3566 | one round reports nothing exactly when the extent continues the page |
| `ExtentPages.ValidateExtentPage` | cmd/namrbd-debug/main.go:3508-3570 | silent exactly on a page with a valid header whose extents tile its chunks in order and have valid kinds |
| `ExtentPages.ValidateExtents` | cmd/namrbd-debug/main.go:3463-3506 | OK exactly when geometry and every page are valid |
| `ExtentPages.TilesOnce` | cmd/namrbd-debug/main.go:3535-3569 | a tiling covers exactly its range, every chunk once |
| `ExtentPages.NoOverlap` | cmd/namrbd-debug/main.go:3463-3570 | with distinct page numbers and a known page count or one-chunk pages no two extents of an accepted volume overlap |
| `ExtentPages.OverlapOtherwise` | cmd/namrbd-debug/main.go:3487-3490 | for every other valid geometry two accepted pages overlap |
| `ZeroBase64.RoundTrip` | cmd/namrbd-debug/main.go:3145-3148 | decoding an encoding gives every byte string back |
| `ZeroBase64.NoOverflow` | cmd/namrbd-debug/main.go:2782-2793 | within the guard the length computation stays in the int range |
| `ZeroBase64.BuiltIsEncoding` | cmd/namrbd-debug/main.go:2793-2801 | the built string is the encoding of that many zero bytes |
| `ZeroBase64.ZeroStrings.CanonicalForLength` | cmd/namrbd-debug/main.go:2782-2804 | answers exactly within the guard with that encoding, and the memo never holds anything else |
| `ZeroBase64.ZeroStrings.DecodeReadOperation` | cmd/namrbd-debug/main.go:3131-3157 | accepts exactly what decoding and comparing the length accepts: the fast path adds nothing |
| `ZeroBase64.CanonicalAcceptedFor` | cmd/namrbd-debug/main.go:3142-3144 | the canonical string is accepted for its own length and no other |
| `Bootstrap.ExtentLength` | cmd/namrbd-gateway/main.go:3083-3092 | the extent length is within the volume and not zero unless the volume is empty |
| `Bootstrap.ExtentStore.BootstrapExtents` | cmd/namrbd-gateway/main.go:3130-3155 | a run interrupted at any store call changes nothing stored and adds only extents that belong; getting through leaves all of them, or has gone past them when the end wraps; an uninterrupted run gets through exactly when the loop variable ever lands outside the volume |
| `Bootstrap.ExtentStore.Recover` | cmd/namrbd-gateway/main.go:3130-3155 | after any number of interrupted runs and one that gets through the store is complete, and later runs leave it so |
| `Bootstrap.CompleteTiles` | cmd/namrbd-gateway/main.go:3132-3151 | a complete store has consecutive ids and tiles the volume, only the last extent short |
| `Bootstrap.OneExtentPerByte` | cmd/namrbd-gateway/main.go:3132-3151 | every byte of the volume lies in exactly one extent |
| `Bootstrap.CompleteStays` | cmd/namrbd-gateway/main.go:3137-3150 | there is one complete store, so further runs change nothing |
| `Bootstrap.LandsIff` | cmd/namrbd-gateway/main.go:3132 | exactly when the loop can stop: some multiple of the extent length falls between the size and 2^64 |
| `Bootstrap.NeverLands` | cmd/namrbd-gateway/main.go:3132 | when the extent length divides 2^64 and the end wraps, the loop never stops |
| `Bootstrap.WrapExample` | cmd/namrbd-gateway/main.go:3132 | a volume for which the loop never stops |
| `Bootstrap.OvershootExample` | cmd/namrbd-gateway/main.go:3132 | a volume for which the loop misses its end and stops later |

## Left out

- Backend semantics: a failed backend call is taken to have no effect, a read to return the requested length, and a discarded range to read as zero, as the adapter's own self-test demands.
- Operation records, idempotency keys, volume revisions, Sync, Close and the summaries of the adapter: reporting and request context; only the byte counters are kept.
- Geometries whose unit wraps or whose fallbacks disagree: class `SBSBackendAdapter` requires a sound geometry, since `Geometry.CapacityCorrectIff` and `Geometry.WideningAcceptedIff` show where the claims fail otherwise.
- Adapter reads racing with writes: reads take no lock in the source; the interleaving model lets them happen but states nothing about what they return.
- Registry sources are finite sequences of replies; running out of replies counts as a source error, so the paging loops always end.
- Prepare is taken to open a backing store of its own each time, or none; a preparer that handed out one store twice would leave the older runtime open.
- The log is taken to be written with each change's export id equal to that of its export, because the source does not compare them.
- `LiveReloadController.Close`, the observed error texts, page, change and failure counters, and the checks and defaults of the two constructors: reporting and argument checks.
- Standby gateway ids of a registry export are a multiset: the source sorts them and only searches them. The sort of specs before Install is an arbitrary order, which `Supervisor.OrderIrrelevant` justifies.
- The stopping of the listener around a swap, sessions and SCSI handling: properties are about the published supervisor pointer.
- Leader lease: one shared monotone clock; clock skew, renewal timing and the ticker are not modelled, and the window inside `Release` is excluded from the exclusion claim by name.
- Read, write, flush, unmap and error counters of an export runtime and its failed state: counters with one-line claims.
- In-flight and session counters are unbounded integers; 64-bit wrap-around is modelled for the memory counters only.
- ALUA reporting, promotion, demotion and MPIO status around write admission: wide records with shallow claims.
- Fence validation, the listing error of memberships and the per-call timeout: a timeout is one of the call failures; receivers' own fencing is not part of this model.
- The messages of the page checker: only its codes are kept. The sort of pages by number does not affect the verdict.
- JSON decoding around the base64 check, and 32-bit platforms: the largest int is 2^63 - 1.
- Bootstrap of nodes, volumes and replica sets: presence checks without arithmetic. Only the extent loop is modelled.
