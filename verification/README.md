# RamShared: a verified model

RamShared exposes GPU memory as a swap block device backed by a durable origin and arbitrates that memory
between tenants.  This project models its hard parts in Dafny and proves what they promise.  The environment (origin
file, VRAM driver, cache worker, unit manager, runtime directory, child process, client stream) is always
adversarial: it answers from an arbitrary script, so every theorem holds for every way it can misbehave.  State that
the program updates in place is a class; what a run must satisfy is stated over a ghost history of the whole run and
kept as an invariant by every operation.

| file | part of the system |
|---|---|
| `Bytes.dfy`, `Arithmetic.dfy`, `Wire.dfy` | bytes and machine integers; quotients and products; big-endian codec |
| `Device.dfy` | the durable origin and the VRAM driver |
| `MediumLaw.dfy` | what a block device over a fallible medium promises over whole runs |
| `CacheChunks.dfy`, `CachePolicy.dfy`, `OriginCache.dfy` | the write-through cache: coherence, durability, recovery, GPU budget policy |
| `IsolatedOrigin.dfy` | the bounded client, its concurrent worker, and the authoritative backend |
| `Request.dfy` | NBD requests served end to end by the cache |
| `SparseVram.dfy` | the sparse device as a flat zero-filled disk |
| `Pressure.dfy`, `Supervisor.dfy` | pressure states over sample histories; TERM/KILL and freeze/thaw with crashes |
| `Slices.dfy`, `Lease.dfy`, `ArbiterLaw.dfy`, `Arbiter.dfy`, `Broker.dfy` | layout check, slice map, lease book, arbiter, and the broker core that ties them together |
| `Handshake.dfy` | the NBD negotiation and the client that parses it |
| `Reaping.dfy` | process-group termination and reaping |

## What the proofs found

- A FUA write of no bytes is acknowledged without a sync (crates/ramshared-block/src/origin_cache.rs:716-720), so an
  acknowledged FUA write leaves everything durable if and only if it carried a byte or everything already was durable
  (`OriginCache.WriteThroughCache.WriteAtWithOptions`); `OriginCache.EmptyFuaIsNotDurable` is a run in which it does
  not.
- A failing origin probe does not invalidate the in-process cache.  If its sync loses dirty pages, the cache stays
  coherent if and only if no trusted byte was dirty (`OriginCache.LosingProbe`, `CacheChunks.FallbackExact`); a clean
  dirty flag is enough.  `OriginCache.LosingProbeRun` reaches a state where it does not.  The isolated backend revokes
  its cache on that path and needs no such condition (`IsolatedOrigin.RunIsolated`).
- The sparse device tests its commit cap against a saturating sum, so committed bytes stay within the cap if and only
  if the cap is below the largest 64-bit value or all chunks together fit one (`SparseVram.WithinCap`,
  `SparseVram.CommitEverything`).  A cap from the environment is always below it, so the bound fails only when the cap
  is configured explicitly as the largest word, for a device of that size whose chunks do not divide it
  (`SparseVram.CapHoldsExactly`); `SparseVram.OverTheCap` is the smallest such device.
- KILL is decided exactly when the grace of a recorded TERM has elapsed, except at the last representable millisecond
  since start, where the rebuilt deadline saturates.  The executor measures the wall clock and turns that KILL down
  (`Supervisor.Loop.ExecuteActions`); `Supervisor.KillDecidedWithinGrace` is such a run.
- A leased slice records no tenant, so the arbiter answers any leased slice with a conflict.  The broker never sees
  that answer, because a request can be pending only while nothing is leased (`Broker.BrokerCore.ServeLease`).
- The broker counts draining slices as held, so the arbiter's rule never to take a pressured donor's last slice keeps
  it an active slice if and only if it had two active ones (`Broker.NeverZeroExact`, `Broker.LastActiveLost`).
- The round-robin cursor is a machine word.  Handouts are fair over every stretch of every run if and only if the
  number of tenants divides 2^64 (`ArbiterLaw.FairExactly`, `ArbiterLaw.UnfairAcrossWrap`).
- With a configured streak of zero the arbiter moves without any over-threshold tick; the movement law is stated for
  every configuration, this one included.
- A failed group signal goes uncontained if and only if only the stderr worker could not be started, the signal failed
  before the stdout worker refused to join, and the guard then terminated the child without a fault
  (`Reaping.Child.RunCaptureCommand`, `Reaping.UncontainedRun`).  A capture thread only drops its locals after it has
  sent its result (crates/ramshared-cli/src/bounded_process.rs:399), so a join that fails means that the thread
  panicked.

## Model

| member | source | states |
|---|---|---|
| `Device.Origin.ReadExactAt` | crates/ramshared-block/src/origin_cache.rs:28-43 | success returns the readable bytes of the whole range; failure only after an answer that is an error, no progress or too long |
| `Device.Origin.WriteAllAt` | crates/ramshared-block/src/origin_cache.rs:45-60 | whatever happens a prefix of the data has been applied; success means all of it; failure only after a bad answer; every byte on disk is its old one or the one just written, and none outside the range changes |
| `Device.Origin.SyncData` | crates/ramshared-block/src/origin_cache.rs:22-26 | success makes durable equal to readable; failure leaves every byte as it was readable or as it was on disk, and never touches clean ones |
| `Device.Origin.ReadAndSync` | crates/ramshared-block/src/origin_cache.rs:389-398 | a probe succeeds only if read and sync both do, and then everything is durable |
| `OriginCache.WriteThroughCache.constructor` | crates/ramshared-block/src/origin_cache.rs:241-289 | a new cache trusts nothing and satisfies every invariant exactly when the origin has the stated length and no unsynced bytes |
| `OriginCache.NewCache` | crates/ramshared-block/src/origin_cache.rs:241-289 | refuses exactly the geometries that are empty or not made of whole blocks; the result is lawful exactly when the origin has that length and no unsynced bytes |
| `OriginCache.WriteThroughCache.SetPhysicalCap` | crates/ramshared-block/src/origin_cache.rs:305-307 | the cap is limited by the device size; all invariants kept |
| `OriginCache.WriteThroughCache.InvalidateChunk` | crates/ramshared-block/src/origin_cache.rs:486-491 | exactly one chunk changes: new generation, nothing valid |
| `OriginCache.WriteThroughCache.InvalidateCachedRange` | crates/ramshared-block/src/origin_cache.rs:495-506 | exactly the resident chunks that share a byte with the range lose their trust; every other chunk is untouched |
| `OriginCache.WriteThroughCache.InvalidateAllCached` | crates/ramshared-block/src/origin_cache.rs:508-514 | every resident chunk loses its trust, empty slots are untouched |
| `OriginCache.WriteThroughCache.LeastRecentlyUsed` | crates/ramshared-block/src/origin_cache.rs:469-477 | finds a resident chunk with minimal access time, or none exactly when none is resident |
| `OriginCache.WriteThroughCache.Evict` | crates/ramshared-block/src/origin_cache.rs:466-484 | one resident chunk is invalidated and freed, cached bytes drop by one chunk |
| `OriginCache.WriteThroughCache.ReleaseLruTo` | crates/ramshared-block/src/origin_cache.rs:466-484 | terminates with cached bytes at or below the target, frees the least number of chunks that reaches it, and no survivor was accessed earlier than a released chunk |
| `OriginCache.WriteThroughCache.RangeIsCached` | crates/ramshared-block/src/origin_cache.rs:531-552 | true exactly when every byte of the range lies in a valid block of a resident, current-generation chunk |
| `OriginCache.WriteThroughCache.PieceIsCached` | crates/ramshared-block/src/origin_cache.rs:531-552 | the per-chunk test agrees with byte-level trust, from the first to the last touched block |
| `OriginCache.WriteThroughCache.CacheRead` | crates/ramshared-block/src/origin_cache.rs:554-575 | over a trusted range of a coherent table returns the origin's bytes across chunk borders; fails on such a range only if the driver failed |
| `OriginCache.WriteThroughCache.MarkFullyCoveredBlocks` | crates/ramshared-block/src/origin_cache.rs:606-620 | the bitmap restarts after a generation change and gains exactly the blocks lying completely inside the written range |
| `OriginCache.WriteThroughCache.UpdateCachedChunks` | crates/ramshared-block/src/origin_cache.rs:577-604 | a table coherent with an image becomes coherent with the image overwritten by the data, whatever VRAM writes fail; unless one fails, every fully covered block of a resident chunk is trusted afterwards |
| `OriginCache.WriteThroughCache.UpdatePiece` | crates/ramshared-block/src/origin_cache.rs:577-604 | one chunk takes the piece and marks its blocks, or loses all trust because the driver failed; other chunks unchanged |
| `OriginCache.WriteThroughCache.UpdateNext` | crates/ramshared-block/src/origin_cache.rs:577-604 | the piece keeps the table coherent with the overwritten image and extends the promoted range |
| `OriginCache.WriteThroughCache.CountProbe` | crates/ramshared-block/src/origin_cache.rs:399-413 | the third successful probe in a row, and no earlier one, makes the origin ready |
| `OriginCache.WriteThroughCache.MarkOriginFailed` | crates/ramshared-block/src/origin_cache.rs:516-519 | the authority state becomes Failed with no probe credit |
| `OriginCache.WriteThroughCache.WriteOrigin` | crates/ramshared-block/src/origin_cache.rs:622-634 | success applies the whole write and sets the dirty flag; failure leaves exactly a prefix, fails the authority and keeps coherence by dropping trust in every touched chunk |
| `OriginCache.WriteThroughCache.SyncDirtyOrigin` | crates/ramshared-block/src/origin_cache.rs:636-648 | success (also the skipped sync of a clean origin) means durable equals readable; failure drops all trust and leaves every byte as it was readable or on disk |
| `OriginCache.WriteThroughCache.ReadAt` | crates/ramshared-block/src/origin_cache.rs:660-693 | every successful read, cached or not, returns exactly the origin's bytes; a trusted range is served without the origin unless the driver fails; errors only when out of range, not ready, or the origin answered badly |
| `OriginCache.WriteThroughCache.TryCache` | crates/ramshared-block/src/origin_cache.rs:666-681 | a hit returns the origin's bytes; a miss on a trusted range means the driver failed; coherence is kept |
| `OriginCache.WriteThroughCache.ReadThrough` | crates/ramshared-block/src/origin_cache.rs:682-693 | the fallback returns the origin's bytes and promotes them only while the cache is within its target; fails only if the origin answered badly |
| `OriginCache.WriteThroughCache.Promote` | crates/ramshared-block/src/origin_cache.rs:682-693 | bytes read from the origin keep the table coherent and clean, and become trusted unless the driver fails |
| `OriginCache.WriteThroughCache.WriteAt` | crates/ramshared-block/src/origin_cache.rs:695-705 | refused writes change nothing, accepted writes are whole, failed writes leave exactly a prefix; coherence is kept; unless the driver fails, what was accepted is trusted |
| `OriginCache.WriteThroughCache.WriteAtWithOptions` | crates/ramshared-block/src/origin_cache.rs:707-725 | an acknowledged FUA write leaves everything durable if and only if it carried a byte or everything already was |
| `OriginCache.WriteThroughCache.WriteForced` | crates/ramshared-block/src/origin_cache.rs:707-725 | write, sync, then cache update: acknowledged means durable |
| `OriginCache.WriteThroughCache.Flush` | crates/ramshared-block/src/origin_cache.rs:727-730 | every successful flush, including one that skips the sync, leaves all acknowledged writes durable |
| `OriginCache.WriteThroughCache.ProbeOrigin` | crates/ramshared-block/src/origin_cache.rs:389-414 | each success counts one probe and makes everything durable; a failure leaves every byte as it was readable or on disk; coherence survives every probe that succeeds, starts clean, or leaves the readable bytes alone |
| `OriginCache.WriteThroughCache.ReleaseCache` | crates/ramshared-block/src/origin_cache.rs:324-328 | nothing stays cached; the bytes released are the bytes that were cached |
| `OriginCache.WriteThroughCache.AllocateOneChunk` | crates/ramshared-block/src/origin_cache.rs:440-464 | the first empty slot, always of full length, gets zeroed untrusted memory; refused only by the driver |
| `OriginCache.WriteThroughCache.Reclaim` | crates/ramshared-block/src/origin_cache.rs:337-355 | on the third restricted sample in a row the cache is brought within its target, otherwise the count goes up |
| `OriginCache.WriteThroughCache.Grow` | crates/ramshared-block/src/origin_cache.rs:345-370 | growth is attempted exactly on the third healthy sample or later, when a chunk still fits and two seconds have passed |
| `OriginCache.WriteThroughCache.WatchTarget` | crates/ramshared-block/src/origin_cache.rs:372-380 | records since when the cache has been more than a chunk over its target, and reports Stuck after two seconds |
| `OriginCache.WriteThroughCache.ObserveRestricted` | crates/ramshared-block/src/origin_cache.rs:337-355 | a restricted observation releases the least recently used chunks, no more than the target asks for |
| `OriginCache.WriteThroughCache.ObserveRoom` | crates/ramshared-block/src/origin_cache.rs:345-370 | an unrestricted observation attempts growth exactly when the counters call for it |
| `OriginCache.WriteThroughCache.AdjustToBudget` | crates/ramshared-block/src/origin_cache.rs:330-387 | one sample's decision follows the counters; releases are LRU and minimal |
| `OriginCache.WriteThroughCache.AdjustLawfully` | crates/ramshared-block/src/origin_cache.rs:330-387 | the same decision keeps coherence and durability, because it only drops trust |
| `OriginCache.WriteThroughCache.ObserveGpu` | crates/ramshared-block/src/origin_cache.rs:330-387 | extends a sample history that is lawful as a whole: growth is attempted exactly on the third unrestricted sample or later with room and two seconds gone, and reclaim keeps its promise at every position |
| `OriginCache.RunCache` | crates/ramshared-block/src/origin_cache.rs:324-414 | over any sequence of reads, writes, FUA writes, flushes, probes, GPU samples, releases and cap changes with faults anywhere: the origin goes from its first to its last image by steps that do what their answers say, I/O is refused from an origin fault until three probes have succeeded, and up to the first failed probe that loses bytes every successful read returns the bytes the origin held at that point |
| `OriginCache.Perform` | crates/ramshared-block/src/origin_cache.rs:651-731 | one operation of such a run: served, refused or faulted as the authority state before it rules, which moves on accordingly; an acknowledged write is exactly its overwrite, an acknowledged flush makes everything durable, a failed write leaves a prefix, nothing else changes the origin; only a failed probe that loses bytes can disturb coherence |
| `OriginCache.PerformRequest` | crates/ramshared-block/src/origin_cache.rs:651-731 | the same for the four requests of a client |
| `OriginCache.PerformPolicy` | crates/ramshared-block/src/origin_cache.rs:305-387 | an operation of the policy thread keeps coherence, durability and budget and does not touch the authority state |
| `MediumLaw.RecoveryOverRun` | crates/ramshared-block/src/origin_cache.rs:389-414 | in any such run, between a fault and the next I/O that succeeds there are three successful probes, with no successful I/O among them and no further fault since the one they follow |
| `MediumLaw.RunsOn` | crates/ramshared-block/src/origin_cache.rs:651-731 | one more lawful operation keeps the whole run lawful, answers, images and authority states together |
| `MediumLaw.ReadYourWrites` | crates/ramshared-block/src/origin_cache.rs:651-731 | in any such run, after an acknowledged write every read answered before the next write of that byte or the next failed sync returns the byte written |
| `MediumLaw.ByteStays` | crates/ramshared-block/src/origin_cache.rs:651-731 | a byte keeps its readable value until a write to it or a failed sync |
| `MediumLaw.FlushedSurvives` | crates/ramshared-block/src/origin_cache.rs:727-730 | once a flush, a probe or a nonempty FUA write is acknowledged, each byte stays readable and on disk until it is written again, whatever syncs and probes fail in between |
| `MediumLaw.IdealRun` | crates/ramshared-block/src/origin_cache.rs:651-731 | while every write, flush and probe is acknowledged the device is a plain disk |
| `OriginCache.EmptyFuaIsNotDurable` | crates/ramshared-block/src/origin_cache.rs:707-725 | a run that breaks the FUA promise: new cache, plain write, empty FUA write; both are acknowledged and the byte is not on disk |
| `OriginCache.EmptyFua` | crates/ramshared-block/src/origin_cache.rs:707-725 | the exact condition: an empty FUA write leaves everything durable if and only if everything already was |
| `OriginCache.LosingProbe` | crates/ramshared-block/src/origin_cache.rs:389-398 | when a failed probe loses every dirty page, the cache stays coherent if and only if no trusted byte was dirty |
| `OriginCache.LosingProbeRun` | crates/ramshared-block/src/origin_cache.rs:330-414 | a run from a new cache through growth and a write to a failed probe after which the cache trusts a byte the origin no longer has |
| `CacheChunks.FallbackExact` | crates/ramshared-block/src/origin_cache.rs:389-398 | a coherent table agrees with the durable image if and only if no trusted byte is dirty |
| `CacheChunks.WriteAgrees` | crates/ramshared-block/src/origin_cache.rs:577-620 | writing the same bytes to chunk and image and marking only fully covered blocks keeps every trusted byte right |
| `CacheChunks.PieceStep` | crates/ramshared-block/src/origin_cache.rs:577-604 | one chunk's update, or loss of trust, keeps the whole table coherent with the overwritten image |
| `CacheChunks.ConfinedChange` | crates/ramshared-block/src/origin_cache.rs:622-634 | any damage confined to a range is harmless once every touched chunk has lost its trust |
| `CacheChunks.CleanSync` | crates/ramshared-block/src/origin_cache.rs:389-398 | a failed sync cannot disturb a cache that lies over clean bytes |
| `CacheChunks.WeakerKeeps` | crates/ramshared-block/src/origin_cache.rs:486-514 | dropping trust never makes a coherent table wrong |
| `OriginCache.WeakerIsLawful` | crates/ramshared-block/src/origin_cache.rs:486-514 | nor does it disturb what the dirty flag promises about the disk |
| `CacheChunks.TrustedRead` | crates/ramshared-block/src/origin_cache.rs:554-575 | the slice of chunk memory that serves a trusted range is the image's slice |
| `CacheChunks.PromotedStep` | crates/ramshared-block/src/origin_cache.rs:577-620 | an update extends the promoted range chunk by chunk |
| `CacheChunks.PromotedIsTrusted` | crates/ramshared-block/src/origin_cache.rs:531-620 | a promoted aligned range over resident chunks is a cache hit, byte by byte |
| `CacheChunks.TouchedBlocks` | crates/ramshared-block/src/origin_cache.rs:531-552 | a byte range is trusted if and only if all blocks from floor(start) to ceil(end) are valid |
| `CacheChunks.FirstEmptyIsFull` | crates/ramshared-block/src/origin_cache.rs:440-464 | pigeonhole: if one more chunk fits in the device, the first empty slot is a full-length chunk |
| `OriginCache.RoomMeansEmptySlot` | crates/ramshared-block/src/origin_cache.rs:440-464 | if one more chunk fits, the first-empty search finds a slot |
| `CacheChunks.CachedWithinDevice` | crates/ramshared-block/src/origin_cache.rs:295-299 | cached bytes never exceed the device size |
| `CachePolicy.RecoveryTakesThreeProbes` | crates/ramshared-block/src/origin_cache.rs:389-414 | between a fault and the next served call lie three successful probes with nothing served and no fault among them |
| `CachePolicy.ServiceLawfulExtend` | crates/ramshared-block/src/origin_cache.rs:516-529 | the authority state is a function of the whole call history |
| `CachePolicy.PhysicalTarget` | crates/ramshared-block/src/origin_cache.rs:131-141 | a positive target plus external use plus max(2 GiB, ceil(total/5)) stays within the budget |
| `CachePolicy.PolicyStep` | crates/ramshared-block/src/origin_cache.rs:330-387 | the counters summarise the history: growth exactly on the third unrestricted sample or later, two seconds after the previous attempt, with room for a chunk, within budget; three restricted samples in a row include one that leaves the cache within its target |
| `IsolatedOrigin.HandleHead` | crates/ramshared-block/src/isolated_origin.rs:110-128 | however the worker handles the head of its lane, it gains no byte the lane did not already promise |
| `IsolatedOrigin.Evicting` | crates/ramshared-block/src/isolated_origin.rs:110-128 | evicting adds no possibility |
| `IsolatedOrigin.UpdateSettles` | crates/ramshared-block/src/isolated_origin.rs:178-183 | announcing an overwrite keeps contents and lane in agreement with the overwritten origin |
| `IsolatedOrigin.HarmlessSettles` | crates/ramshared-block/src/isolated_origin.rs:148-190 | a read or a promotion of origin bytes keeps them in agreement |
| `IsolatedOrigin.Worker.Step` | crates/ramshared-block/src/isolated_origin.rs:110-128 | every move of the concurrent worker keeps contents plus queued messages in agreement with the origin, and makes a right-length answer to the awaited read correct |
| `IsolatedOrigin.Worker.TakeNext` | crates/ramshared-block/src/isolated_origin.rs:110-128 | serving the head message keeps the lane settled and an awaited answer honest |
| `IsolatedOrigin.Worker.TakeControl` | crates/ramshared-block/src/isolated_origin.rs:192-217 | receiving a disable request frees the control lane; the request waits for its answer |
| `IsolatedOrigin.Worker.AnswerReceived` | crates/ramshared-block/src/isolated_origin.rs:192-217 | any received request may be answered, in any order; a positive answer comes only with everything let go, and the client hears only the answer to its latest request |
| `IsolatedOrigin.Worker.TrySend` | crates/ramshared-block/src/isolated_origin.rs:136-144 | a send never blocks; it is refused as disconnected exactly on a closed lane and as full exactly on an open lane without room |
| `IsolatedOrigin.Worker.RequestDisable` | crates/ramshared-block/src/isolated_origin.rs:192-217 | sent exactly when the control lane is free, which it is once the worker has received the request before; a positive answer is one given to this request, after the worker let go |
| `IsolatedOrigin.BoundedCacheClient.constructor` | crates/ramshared-block/src/isolated_origin.rs:110-128 | a new client is active and in step with every image |
| `IsolatedOrigin.BoundedCacheClient.Fail` | crates/ramshared-block/src/isolated_origin.rs:131-134 | revocation from Active |
| `IsolatedOrigin.BoundedCacheClient.SendMutation` | crates/ramshared-block/src/isolated_origin.rs:136-144 | sends in order while active; a full or closed lane, and nothing else, fails it and leaves Active for good |
| `IsolatedOrigin.BoundedCacheClient.Read` | crates/ramshared-block/src/isolated_origin.rs:148-176 | every hit returns origin bytes; the client is revoked exactly when no usable answer came: lane full or closed, timeout, error or wrong length |
| `IsolatedOrigin.BoundedCacheClient.Update` | crates/ramshared-block/src/isolated_origin.rs:178-183 | after an accepted update the lane agrees with the changed origin; a full or closed lane, and nothing else, revokes the client |
| `IsolatedOrigin.BoundedCacheClient.Promote` | crates/ramshared-block/src/isolated_origin.rs:185-190 | promotions of origin bytes keep agreement; a full or closed lane, and nothing else, revokes the client |
| `IsolatedOrigin.BoundedCacheClient.Disable` | crates/ramshared-block/src/isolated_origin.rs:192-217 | Off exactly when an acknowledgement has been received, now or earlier, Stuck otherwise; never Active again |
| `IsolatedOrigin.AuthoritativeOrigin.constructor` | crates/ramshared-block/src/isolated_origin.rs:236-250 | starts ready and clean; lawful exactly when the origin has the stated length and no unsynced bytes; in step exactly when the client is |
| `IsolatedOrigin.NewBackend` | crates/ramshared-block/src/isolated_origin.rs:236-250 | refuses exactly the geometries that are empty or not made of whole blocks; the result is lawful exactly when the origin has that length and no unsynced bytes |
| `IsolatedOrigin.AuthoritativeOrigin.ReleaseCache` | crates/ramshared-block/src/isolated_origin.rs:272-282 | succeeds if and only if a disable acknowledgement has been received |
| `IsolatedOrigin.AuthoritativeOrigin.ProbeOrigin` | crates/ramshared-block/src/isolated_origin.rs:284-309 | a failed probe revokes the cache, so agreement needs no condition; fails only if the origin answered badly |
| `IsolatedOrigin.AuthoritativeOrigin.MarkOriginFailed` | crates/ramshared-block/src/isolated_origin.rs:339-343 | any origin fault leaves Active for good |
| `IsolatedOrigin.AuthoritativeOrigin.ReadAt` | crates/ramshared-block/src/isolated_origin.rs:389-420 | every successful read, hit or fallback, returns exactly the origin's bytes |
| `IsolatedOrigin.AuthoritativeOrigin.ReadFallback` | crates/ramshared-block/src/isolated_origin.rs:408-420 | the fallback returns origin bytes and offers them to the worker; a refused offer revokes the client |
| `IsolatedOrigin.AuthoritativeOrigin.WriteAt` | crates/ramshared-block/src/isolated_origin.rs:422-452 | acknowledged writes are whole, FUA ones with a byte durable, failed ones leave a prefix; the worker is told or cut off |
| `IsolatedOrigin.AuthoritativeOrigin.WriteOrigin` | crates/ramshared-block/src/isolated_origin.rs:422-447 | the origin's part: all of the data, on disk if forced, or the cache is revoked |
| `IsolatedOrigin.AuthoritativeOrigin.SyncDirtyOrigin` | crates/ramshared-block/src/isolated_origin.rs:358-369 | a failed sync revokes the cache |
| `IsolatedOrigin.AuthoritativeOrigin.Flush` | crates/ramshared-block/src/isolated_origin.rs:454-457 | a successful flush leaves every acknowledged write durable |
| `IsolatedOrigin.RunIsolated` | crates/ramshared-block/src/isolated_origin.rs:272-457 | over any run under any worker and any origin, I/O is refused from an origin fault until three probes have succeeded, and every read that succeeds returns the bytes the origin held at that point, with no exception |
| `IsolatedOrigin.Perform` | crates/ramshared-block/src/isolated_origin.rs:272-457 | one request of such a run: served, refused or faulted as the authority state rules, and what it does to the origin |
| `SparseVram.SparseVramBackend.constructor` | crates/ramshared-block/src/sparse_vram.rs:123-169 | an empty device reads as zeros, commits nothing, and its cap is clamped between one chunk and the capacity |
| `SparseVram.NewWithConfig` | crates/ramshared-block/src/sparse_vram.rs:123-169 | refuses exactly an empty capacity, a chunk size that is zero or no multiple of the block, and more than a million chunks |
| `SparseVram.SparseVramBackend.EnsureLive` | crates/ramshared-block/src/sparse_vram.rs:240-307 | making a chunk live changes nothing a reader sees; commits only with the gate's leave, with the saturating sum under the cap, and above the floor; each refusal has its reason and changes nothing |
| `SparseVram.WithinCap` | crates/ramshared-block/src/sparse_vram.rs:240-260 | a device never commits more than its cap if the cap is below the largest word or all chunks together fit one |
| `SparseVram.CommitEverything` | crates/ramshared-block/src/sparse_vram.rs:240-260 | otherwise touching every chunk commits more than the cap, so the condition is exact |
| `SparseVram.OverTheCap` | crates/ramshared-block/src/sparse_vram.rs:240-260 | the smallest device that exceeds its cap: the whole address space in two chunks, with the cap configured explicitly as the largest word |
| `SparseVram.CapHoldsExactly` | crates/ramshared-block/src/sparse_vram.rs:138-147 | in terms of the configuration: the cap holds unless it is set explicitly to the largest word, for a device of that size whose chunks do not divide it; a cap from the environment always holds |
| `SparseVram.EnvCap` | crates/ramshared-block/src/sparse_vram.rs:450-458 | a cap from the environment is never above a quarter of the largest word |
| `SparseVram.CommittedFits` | crates/ramshared-block/src/sparse_vram.rs:195-197 | while a chunk is empty the committed bytes do not overflow |
| `SparseVram.SparseVramBackend.ReadChunk` | crates/ramshared-block/src/sparse_vram.rs:329-367 | one chunk's share of a read is that part of the flat disk |
| `SparseVram.SparseVramBackend.ReadAt` | crates/ramshared-block/src/sparse_vram.rs:329-367 | reads across live and empty chunks return the flat disk's bytes; only range or driver can make one fail |
| `SparseVram.SparseVramBackend.WriteAt` | crates/ramshared-block/src/sparse_vram.rs:369-412 | a write is the overwrite of the flat disk; one refused at some chunk leaves exactly the prefix up to that chunk boundary |
| `SparseVram.SparseVramBackend.WriteChunk` | crates/ramshared-block/src/sparse_vram.rs:369-412 | a chunk write changes only its own range, even when it fails |
| `SparseVram.SparseVramBackend.FreeAllLive` | crates/ramshared-block/src/sparse_vram.rs:200-211 | frees exactly the committed bytes, counted with saturation; everything reads as zeros |
| `SparseVram.SparseVramBackend.TryReclaim` | crates/ramshared-block/src/sparse_vram.rs:216-238 | nonzero swap use changes nothing; otherwise all or nothing, exactly when below the floor or all live chunks are idle |
| `SparseVram.WritePiece` | crates/ramshared-block/src/sparse_vram.rs:369-412 | writing into a live chunk is an overwrite of the flat disk |
| `SparseVram.ZeroedIsEmpty` | crates/ramshared-block/src/sparse_vram.rs:240-307 | a zeroed chunk and an empty one read alike |
| `SparseVram.PieceOfDisk` | crates/ramshared-block/src/sparse_vram.rs:329-367 | what a chunk contributes to a read |
| `Pressure.WorseNeverMilder` | crates/ramshared-cli/src/supervisor.rs:226-274 | for equal reserves, pointwise worse samples never give a less severe state at any step |
| `Pressure.RequestedMonotone` | crates/ramshared-cli/src/supervisor.rs:232-259 | worse samples never request a milder state |
| `Pressure.StateStep` | crates/ramshared-cli/src/supervisor.rs:261-274 | the incremental rule computes the state defined over the whole sample history |
| `Pressure.CountsStep` | crates/ramshared-cli/src/supervisor.rs:402-408 | a saturating streak counter counts the run of samples at the end of the history |
| `Pressure.PsiWindow` | crates/ramshared-cli/src/supervisor.rs:227-243 | the counter test is the question about the last three or five samples |
| `Pressure.FreshRecovery` | crates/ramshared-cli/src/supervisor.rs:261-274 | sixty fully healthy samples in a row end the recovery |
| `Supervisor.PressureSupervisor.Observe` | crates/ramshared-cli/src/supervisor.rs:226-324 | state equals the history's state; each action is decided exactly when it is called for, a thaw first |
| `Supervisor.PressureSupervisor.Track` | crates/ramshared-cli/src/supervisor.rs:227-274 | counters and state follow the history by one sample |
| `Supervisor.PressureSupervisor.Request` | crates/ramshared-cli/src/supervisor.rs:232-259 | the requested state is the one the raw samples call for |
| `Supervisor.PressureSupervisor.Decide` | crates/ramshared-cli/src/supervisor.rs:281-317 | the action list for each state, without repetitions |
| `Supervisor.PressureSupervisor.RecoverActionState` | crates/ramshared-cli/src/supervisor.rs:356-399 | action state rebuilt from the records: a recorded TERM makes KILL eligible exactly when its grace is over |
| `Supervisor.Loop.CommitActionResults` | crates/ramshared-cli/src/supervisor.rs:326-354 | of the results exactly the successful freezes, thaws, TERMs and KILLs change what is remembered, each in its own way; without a success nothing changes |
| `Supervisor.CommitAllRemembers` | crates/ramshared-cli/src/supervisor.rs:326-354 | committing the results one by one leaves exactly that memory |
| `Supervisor.Loop.Rebuild` | crates/ramshared-cli/src/supervisor.rs:356-399 | action state is what the records call for; refused only for an unreadable or unstamped record or a TERM from the future |
| `Supervisor.DecisionFollowsRecords` | crates/ramshared-cli/src/supervisor.rs:356-399 | a decision on rebuilt state is the one the records call for |
| `Supervisor.Runtime.WriteEmergency` | crates/ramshared-cli/src/supervisor.rs:667-687 | a durable replacement, even failed or cut short, leaves the old or the new record and a safe history |
| `Supervisor.Runtime.WriteFrozen` | crates/ramshared-cli/src/supervisor.rs:622-640 | the same for the frozen record |
| `Supervisor.Runtime.RemoveFrozen` | crates/ramshared-cli/src/supervisor.rs:502-507 | the frozen record goes only directly after a successful thaw of the instance it names |
| `Supervisor.Runtime.ReadFrozen` | crates/ramshared-cli/src/supervisor.rs:608-620 | reads the record or fails |
| `Supervisor.Runtime.ReadEmergency` | crates/ramshared-cli/src/supervisor.rs:642-661 | reads the record or fails on an inconsistent one |
| `Supervisor.Runtime.ExecuteFreeze` | crates/ramshared-cli/src/supervisor.rs:864-884 | pending record, effect, applied record: at most one instance is held frozen and the record names it |
| `Supervisor.Runtime.ExecuteThaw` | crates/ramshared-cli/src/supervisor.rs:886-892 | success means nothing is held frozen and the record is gone |
| `Supervisor.Runtime.ExecuteTerm` | crates/ramshared-cli/src/supervisor.rs:894-930 | one victim for good; success means a TERM that succeeded has been recorded |
| `Supervisor.Runtime.TermVictim` | crates/ramshared-cli/src/supervisor.rs:911-929 | the three steps of a TERM; success means effect and outcome are both on record |
| `Supervisor.Runtime.ExecuteKill` | crates/ramshared-cli/src/supervisor.rs:932-963 | strikes only after the grace of a recorded TERM; turned down for the grace exactly when that TERM is readable and within it, and then nothing changes |
| `Supervisor.Loop.ExecuteActions` | crates/ramshared-cli/src/supervisor.rs:965-1009 | the executor turns down every KILL of a victim still within its grace and no other for that reason; the loop decides such a KILL only at the last representable millisecond, and the record then stays |
| `Supervisor.Loop.Iterate` | crates/ramshared-cli/src/supervisor.rs:1166-1215 | decides KILL exactly in Emergency with a Termed record whose grace has elapsed, TERM, FREEZE and THAW exactly as the records call for |
| `Supervisor.KillDecidedWithinGrace` | crates/ramshared-cli/src/supervisor.rs:356-398 | a run at the last representable millisecond: one millisecond after its TERM the KILL of the victim is decided, and turned down |
| `Supervisor.RunFromAbsent` | crates/ramshared-cli/src/supervisor.rs:1166-1215 | every run from absent records, with crashes and failures at any sub-step and scopes exiting in between: one victim, phases only advance, every KILL follows a recorded successful TERM by the grace, at most one scope stays frozen and the record names it |
| `Supervisor.EmergencyExtend` | crates/ramshared-cli/src/supervisor.rs:667-687 | the step lemma of the emergency history |
| `Supervisor.SafeMeans` | crates/ramshared-cli/src/supervisor.rs:608-687 | what the invariant says of a whole run |
| `Supervisor.GraceOver` | crates/ramshared-cli/src/supervisor.rs:949-951 | the grace test holds 5000 ms later, or at the last representable millisecond |
| `Slices.ValidateLayout` | crates/ramshared-broker/src/model.rs:41-99 | accepts exactly the multisets of aligned, nonempty, in-capacity slices that tile one interval, so independently of order; names an actual overlap, gap or misfit otherwise |
| `Slices.CheckSorted` | crates/ramshared-broker/src/model.rs:82-96 | the pairwise pass decides tiling |
| `Slices.SortByOffset` | crates/ramshared-broker/src/model.rs:79-80 | sorted permutation |
| `Slices.ContiguousTiles` | crates/ramshared-broker/src/model.rs:82-96 | contiguous nonempty slices cover one interval without overlap |
| `Slices.FaultyNeverTiles` | crates/ramshared-broker/src/model.rs:82-96 | an overlap or a gap rules out tiling |
| `Slices.SliceMap.Create` | crates/ramshared-broker/src/slices.rs:75-85 | all free, contiguous from zero |
| `Slices.NewSliceMap` | crates/ramshared-broker/src/slices.rs:55-86 | refused exactly when too many or too large; with positive page-multiple slices the result passes the layout check |
| `Slices.SliceMap.LayoutHolds` | crates/ramshared-broker/src/slices.rs:55-158 | the layout check holds after any run of transitions |
| `Slices.SliceMap.Assign` | crates/ramshared-broker/src/slices.rs:109-117 | Free to Active with a tenant, or the right error and no change; geometry and tenancy invariant kept |
| `Slices.SliceMap.Drain` | crates/ramshared-broker/src/slices.rs:120-127 | Active to Draining, or the right error and no change |
| `Slices.SliceMap.Release` | crates/ramshared-broker/src/slices.rs:130-138 | Draining to Free without tenant, or the right error and no change |
| `Slices.SliceMap.Lease` | crates/ramshared-broker/src/slices.rs:141-148 | Free to Leased without tenant, or the right error and no change |
| `Slices.SliceMap.Unlease` | crates/ramshared-broker/src/slices.rs:151-158 | Leased to Free, or the right error and no change |
| `Lease.LeaseBook.constructor` | crates/ramshared-broker/src/lease.rs:70-78 | an empty book with a lawful history |
| `Lease.LeaseBook.BeginRequest` | crates/ramshared-broker/src/lease.rs:97-117 | accepted exactly when positive, within capacity and nothing is pending or active; denials change nothing |
| `Lease.LeaseBook.GrantPending` | crates/ramshared-broker/src/lease.rs:123-153 | granted exactly for a positive lifetime that ends in time, enough and not too many bytes, and an id left; a fresh id; denials change nothing |
| `Lease.LeaseBook.RenewActive` | crates/ramshared-broker/src/lease.rs:158-173 | only the holder extends its own lease; ids and requests are untouched |
| `Lease.LeaseBook.Expire` | crates/ramshared-broker/src/lease.rs:177-187 | ends the lease exactly at or after its latest deadline |
| `Lease.LeaseBook.CancelPending` | crates/ramshared-broker/src/lease.rs:189-196 | only the requester withdraws |
| `Lease.LeaseBook.Release` | crates/ramshared-broker/src/lease.rs:198-210 | ends exactly the holder's own lease by id |
| `Lease.LeaseBook.Disconnect` | crates/ramshared-broker/src/lease.rs:212-227 | withdraws a pending request, keeps an active lease |
| `Lease.LawfulMeans` | crates/ramshared-broker/src/lease.rs:97-227 | over every run ids strictly increase, no lease ends twice and none is renewed once it has ended |
| `Lease.GrantStep` | crates/ramshared-broker/src/lease.rs:123-153 | a grant extends a lawful history |
| `Lease.RenewStep` | crates/ramshared-broker/src/lease.rs:158-173 | so does a renewal of a lease that was granted and has not ended |
| `Lease.EndStep` | crates/ramshared-broker/src/lease.rs:177-210 | so does an ending, which comes once and not before the latest deadline |
| `Arbiter.MostPressured` | crates/ramshared-broker/src/arbiter.rs:160-162 | a maximum of the pressures |
| `Arbiter.LeastPressuredDonor` | crates/ramshared-broker/src/arbiter.rs:163-166 | a minimum among tenants that have a slice and are not the receiver, or none exactly when there is none |
| `Arbiter.PressurePair` | crates/ramshared-broker/src/arbiter.rs:156-168 | most pressured receiver, least pressured donor, their differential |
| `Arbiter.FirstActiveOf` | crates/ramshared-broker/src/arbiter.rs:129-134 | the first active slice of the owner, or none exactly when there is none |
| `Arbiter.LeaseTick` | crates/ramshared-broker/src/arbiter.rs:183-241 | conflict exactly when a slice is leased; a grant of exactly ceil(bytes/len) free slices exactly when there are enough; otherwise the least pressured active slices, as many as are missing |
| `Arbiter.ByPressureMeans` | crates/ramshared-broker/src/arbiter.rs:212-226 | the revocation candidates are exactly the owned active slices, ordered by pressure and id |
| `Arbiter.PressureArbiter.constructor` | crates/ramshared-broker/src/arbiter.rs:141-149 | starts with an empty lawful history |
| `Arbiter.PressureArbiter.Tick` | crates/ramshared-broker/src/arbiter.rs:172-315 | a lease tick leaves the arbiter untouched; any other tick records what it was shown, emits at most one movement, lawful in the whole run and decided exactly when the history and what it was shown call for it, and hands every free slice to the next tenant; all actions but a revert are enabled and name distinct slices |
| `Arbiter.PressureArbiter.OrdinaryTick` | crates/ramshared-broker/src/arbiter.rs:243-315 | the tick without a request: movement, handouts and the actions that carry them out |
| `Arbiter.PressureArbiter.Rebalance` | crates/ramshared-broker/src/arbiter.rs:243-301 | reverts exactly when the donor of the open move of the history got worse within the window, moves exactly when streak and cooldown of the history, free slices and donor allow; the recorded pressures are those shown |
| `Arbiter.PressureArbiter.MoveIfDue` | crates/ramshared-broker/src/arbiter.rs:264-301 | without a revert: a move from the least to the most pressured tenant exactly when due, otherwise a quiet tick; the streak grows with an over-threshold tick and ends with any other |
| `Arbiter.MovesFollowPressure` | crates/ramshared-broker/src/arbiter.rs:264-301 | in every run each move follows the configured streak of ticks whose shown pressures differ by more than delta, from the least to the most pressured tenant shown |
| `Arbiter.RevertsFollowPressure` | crates/ramshared-broker/src/arbiter.rs:243-262 | in every run each revert follows a move whose donor is now shown with a pressure past the factor of the one shown then, and past the floor |
| `Arbiter.PressureArbiter.Counterfactual` | crates/ramshared-broker/src/arbiter.rs:243-262 | the revert is the exact inverse of the latest move, with the owner's pressure as shown |
| `Arbiter.PressureArbiter.Differential` | crates/ramshared-broker/src/arbiter.rs:280-301 | moves exactly when the donor may give a slice |
| `Arbiter.PressureArbiter.HandOut` | crates/ramshared-broker/src/arbiter.rs:303-314 | each free slice goes to the tenant under the cursor, which then advances |
| `Arbiter.LeaseCompatible` | crates/ramshared-broker/src/arbiter.rs:183-241 | lease actions are enabled and name distinct slices |
| `Arbiter.TickCompatible` | crates/ramshared-broker/src/arbiter.rs:264-314 | so are the actions of an ordinary tick |
| `ArbiterLaw.MoveTick` | crates/ramshared-broker/src/arbiter.rs:280-301 | a move extends a lawful run: full streak of unspent over-threshold ticks, cooldown over, never the last slice of a pressured donor |
| `ArbiterLaw.RevertTick` | crates/ramshared-broker/src/arbiter.rs:243-262 | a revert extends a lawful run |
| `ArbiterLaw.QuietTick` | crates/ramshared-broker/src/arbiter.rs:264-271 | so does a tick without movement |
| `ArbiterLaw.RevertedOnce` | crates/ramshared-broker/src/arbiter.rs:243-262 | a move is reverted at most once |
| `ArbiterLaw.RoundRobinFair` | crates/ramshared-broker/src/arbiter.rs:303-314 | k consecutive turns give every tenant floor(k/n) or ceil(k/n) |
| `ArbiterLaw.FairOverRun` | crates/ramshared-broker/src/arbiter.rs:303-314 | over any run, any consecutive handouts over one tenant list are fair, across ticks, lease ticks and, when the number of tenants divides 2^64, the wrap of the cursor |
| `ArbiterLaw.StreakExactly` | crates/ramshared-broker/src/arbiter.rs:264-301 | the streak is at least n exactly when the last n ticks were over the threshold, none of them moved, and only the first of them may have reverted |
| `ArbiterLaw.OpenMoveExactly` | crates/ramshared-broker/src/arbiter.rs:243-262 | a move can be taken back exactly when it is the latest movement and every tick since lay within its window |
| `ArbiterLaw.CooldownExactly` | crates/ramshared-broker/src/arbiter.rs:243-301 | the cooldown runs from the latest movement, for the time its kind calls for |
| `ArbiterLaw.FairExactly` | crates/ramshared-broker/src/arbiter.rs:303-314 | every stretch of every run over a tenant list is fair if and only if the number of tenants divides 2^64 |
| `ArbiterLaw.UnfairAcrossWrap` | crates/ramshared-broker/src/arbiter.rs:303-314 | otherwise the stretch that ends with the first handout after the wrap serves the first tenant twice, in the run that hands out 2^64 + 1 times |
| `Broker.BrokerCore.constructor` | crates/ramshared-wsl2d/src/broker_srv.rs:157-183 | the lease capacity is the map total; the invariant starts out true exactly when no slice is leased |
| `Broker.BrokerCore.OnLeaseRequest` | crates/ramshared-wsl2d/src/broker_srv.rs:410-437 | pending exactly when it fits and nothing is pending or leased |
| `Broker.BrokerCore.OnLeaseRelease` | crates/ramshared-wsl2d/src/broker_srv.rs:439-483 | only the holder's own lease id returns the slices, and all of them |
| `Broker.BrokerCore.OnDisconnect` | crates/ramshared-wsl2d/src/broker_srv.rs:485-505 | a pending request is withdrawn, an active lease and its slices stay |
| `Broker.BrokerCore.OnPsi` | crates/ramshared-wsl2d/src/broker_srv.rs:352-408 | the first report re-adopts exactly the mounted free slices; each renews the tenant's own lease |
| `Broker.BrokerCore.OnMountFailed` | crates/ramshared-wsl2d/src/broker_srv.rs:246-256 | an active slice becomes free, nothing else changes |
| `Broker.BrokerCore.OnZeroDone` | crates/ramshared-wsl2d/src/broker_srv.rs:523-548 | a draining slice goes to its waiting tenant or becomes free |
| `Broker.BrokerCore.ServeGrant` | crates/ramshared-wsl2d/src/broker_srv.rs:723-790 | every grant leases exactly its slices and books exactly their bytes, refused only for an unbookable lifetime or exhausted ids |
| `Broker.BrokerCore.AskForLease` | crates/ramshared-wsl2d/src/broker_srv.rs:672-684 | the arbiter never reports a conflict to this broker |
| `Broker.BrokerCore.ServeLease` | crates/ramshared-wsl2d/src/broker_srv.rs:641-790 | a pending request is granted if and only if enough slices are free; otherwise revoked slices all start draining |
| `Broker.BrokerCore.CarryOut` | crates/ramshared-wsl2d/src/broker_srv.rs:723-790 | the grant is booked and leased, or the revocations take effect |
| `Broker.BrokerCore.Rebalance` | crates/ramshared-wsl2d/src/broker_srv.rs:685-722 | all assignments of a tick take effect and at most one slice starts moving, exactly when the arbiter's history and the shown pressures call for it |
| `Broker.BrokerCore.AskToRebalance` | crates/ramshared-wsl2d/src/broker_srv.rs:641-722 | the arbiter's answer and the map it leads to |
| `Broker.OnlyTheMove` | crates/ramshared-wsl2d/src/broker_srv.rs:641-722 | a tick that moves a slice does nothing else to the map |
| `Broker.BrokerCore.ExpireLease` | crates/ramshared-wsl2d/src/broker_srv.rs:628-636 | an expired lease returns all its slices |
| `Broker.BrokerCore.OnTick` | crates/ramshared-wsl2d/src/broker_srv.rs:628-639 | after an expired lease has returned its slices, a pending request is granted exactly when enough slices are free or its revocations all start draining; without a request the tick is the arbiter's rebalancing of exactly those slices, a movement exactly when due; a running lease keeps exactly its slices |
| `Broker.LeaseAll` | crates/ramshared-wsl2d/src/broker_srv.rs:759-778 | leases all slices of a grant or, rolled back, leaves the map as it was |
| `Broker.UnleaseAll` | crates/ramshared-wsl2d/src/broker_srv.rs:769-773 | the rollback restores the map |
| `Broker.ReleaseSlices` | crates/ramshared-wsl2d/src/broker_srv.rs:507-521 | exactly the leased slices become free |
| `Broker.GrantTotal` | crates/ramshared-wsl2d/src/broker_srv.rs:739-749 | the bytes of a grant, refused exactly if a slice is not free or the sum overflows |
| `Broker.VisibleIsView` | crates/ramshared-wsl2d/src/broker_srv.rs:660-670 | the visible slices form a well-formed view that hides no free slice |
| `Broker.LeaseAnswered` | crates/ramshared-broker/src/arbiter.rs:183-241 | with nothing leased, every request that fits the map is answered by a grant that can be booked or by revocations that all take effect |
| `Broker.TickApplied` | crates/ramshared-wsl2d/src/broker_srv.rs:685-712 | the actions of an ordinary tick, applied in order, all take effect |
| `Broker.RevocationsApplied` | crates/ramshared-wsl2d/src/broker_srv.rs:713-722 | all revoked slices start draining with no new owner waiting |
| `Broker.NeverZeroExact` | crates/ramshared-wsl2d/src/broker_srv.rs:655-659 | draining slices count as held, so a move leaves its donor an active slice if and only if it had two active ones |
| `Broker.LastActiveLost` | crates/ramshared-wsl2d/src/broker_srv.rs:641-722 | a run in which a donor above the floor loses its last active slice |
| `Wire.BeRoundTrip` | crates/ramshared-block/src/protocol.rs:96-104 | decoding an encoded integer gives it back |
| `Wire.FromBeRoundTrip` | crates/ramshared-block/src/protocol.rs:96-104 | encoding decoded bytes gives them back |
| `Handshake.AnswerReads` | crates/ramshared-block/src/handshake.rs:74-89 | a client recovers an answer from the replies written for it |
| `Handshake.AnswersRead` | crates/ramshared-block/src/handshake.rs:74-89 | and every answer of a conversation, in order |
| `Handshake.GoNameExact` | crates/ramshared-block/src/handshake.rs:93-106 | a payload is read as a name exactly when it is a length, that many bytes and at least two more |
| `Handshake.FindExport` | crates/ramshared-block/src/handshake.rs:114-119 | the first export of that name, export zero for the empty name, none exactly when there is none |
| `Handshake.Connection.ReadOption` | crates/ramshared-block/src/handshake.rs:139-150 | an option is read exactly as encoded, at least sixteen bytes; each error has its cause |
| `Handshake.Decide` | crates/ramshared-block/src/handshake.rs:152-193 | every option gets the answer it deserves; what ends the negotiation, and how |
| `Handshake.Say` | crates/ramshared-block/src/handshake.rs:74-89 | the bytes written for a decision, all of them or a part and an error |
| `Handshake.ServerHandshake` | crates/ramshared-block/src/handshake.rs:124-195 | terminates on every input; all options but the last were answered and let it go on; the last one, a read error or a failed write ended it, and what the client has after a failed write is a part of what it was due |
| `Handshake.Negotiate` | crates/ramshared-block/src/handshake.rs:138-195 | the rounds of the negotiation |
| `Handshake.AnswerOption` | crates/ramshared-block/src/handshake.rs:152-193 | one round: the option ends the negotiation, the write fails, or the conversation goes on |
| `Handshake.ClientRecovers` | crates/ramshared-block/src/handshake.rs:124-195 | a client parsing the output recovers one reply group per answered option, under the option's own code |
| `Handshake.CutRecovers` | crates/ramshared-block/src/handshake.rs:124-195 | a client cut off in the middle of a reply recovers every earlier answer in order, then the part that came |
| `Handshake.SizeRecovered` | crates/ramshared-block/src/handshake.rs:167-193 | success means the last option named the chosen export, and a client that decodes the received bytes alone ends up with that export's size and the server's flags |
| `Handshake.SameOptions` | crates/ramshared-block/src/handshake.rs:139-150 | the options the server read are the ones the client sent |
| `Request.RequestRoundTrip` | crates/ramshared-block/src/protocol.rs:107-125 | every request a client writes is parsed back as meant |
| `Request.RequestUnique` | crates/ramshared-block/src/protocol.rs:107-125 | every accepted header is the encoding of its request |
| `Request.ReplyRoundTrip` | crates/ramshared-block/src/protocol.rs:128-134 | the client reads back error and handle |
| `Request.Validate` | crates/ramshared-block/src/request.rs:63-87 | accepts exactly aligned requests inside the device, and no write to a read-only one; misalignment is EINVAL, out of range ERANGE, a write to a read-only device EACCES |
| `Request.FuaOf` | crates/ramshared-block/src/request.rs:89-98 | accepts no flags, or FUA alone on a write, and nothing else |
| `Request.ServeRead` | crates/ramshared-block/src/request.rs:120-134 | a successful READ from a cache in step returns the origin's own bytes; an invalid one never reaches the cache |
| `Request.ServeWrite` | crates/ramshared-block/src/request.rs:135-144 | a successful WRITE is whole, and durable if forced; an invalid one never reaches the cache |
| `Request.Execute` | crates/ramshared-block/src/request.rs:102-162 | the status of every command with valid flags and what success means |
| `Request.Serve` | crates/ramshared-block/src/request.rs:102-162 | malformed requests never reach the backend; success means what the protocol says of the origin, for a READ as long as the cache is in step; the reply carries the client's handle |
| `Reaping.NothingAfterReap` | crates/ramshared-cli/src/bounded_process.rs:313-322 | no signal and no second reap after the child is reaped; nothing after containment |
| `Reaping.ResidualKillBeforeReap` | crates/ramshared-cli/src/bounded_process.rs:253-269 | every reap attempt follows an observed exit and a group kill sent since |
| `Reaping.CleanMeans` | crates/ramshared-cli/src/bounded_process.rs:213-219 | in a clean run every group signal succeeded or found nobody |
| `Reaping.EarlyOutput` | crates/ramshared-cli/src/bounded_process.rs:665-679 | recorded output arrived before the first group signal |
| `Reaping.Witnessed` | crates/ramshared-cli/src/bounded_process.rs:222-311 | the summary of a run has the events behind it |
| `Reaping.TraceIsLog` | crates/ramshared-cli/src/bounded_process.rs:222-311 | the law kept call by call is the law of the whole log |
| `Reaping.UncontainedTrace` | crates/ramshared-cli/src/bounded_process.rs:649-661 | a run with a failed signal, a failed join and then a clean termination never contained the failure |
| `Reaping.UncontainedMark` | crates/ramshared-cli/src/bounded_process.rs:649-661 | how such a run comes about |
| `Reaping.Child.PollForExit` | crates/ramshared-cli/src/bounded_process.rs:222-251 | the polling loop ends with the exit seen, a failed observation, or every poll up to the deadline still running |
| `Reaping.Child.WaitForExitObservation` | crates/ramshared-cli/src/bounded_process.rs:222-251 | returns only with the exit observed, otherwise contained |
| `Reaping.Child.ForceExitObserved` | crates/ramshared-cli/src/bounded_process.rs:253-269 | group kill first, direct kill exactly after a failed one, residual group kill after the exit |
| `Reaping.Child.KillGroupOrChild` | crates/ramshared-cli/src/bounded_process.rs:259-263 | the group is signalled, and the child itself exactly if that signal did not get through |
| `Reaping.Child.ReapObservedTarget` | crates/ramshared-cli/src/bounded_process.rs:282-311 | returns only with the child reaped |
| `Reaping.Child.ContainGroupErrors` | crates/ramshared-cli/src/bounded_process.rs:271-280 | contains exactly when a group signal failed |
| `Reaping.Child.TerminateTarget` | crates/ramshared-cli/src/bounded_process.rs:313-322 | success means observed, signalled, reaped, and no group signal of the call failed |
| `Reaping.Child.WaitGroupedChild` | crates/ramshared-cli/src/bounded_process.rs:335-368 | every return, also by timeout, leaves the child reaped and every group signal accounted for |
| `Reaping.Child.SignalOwnedProcessGroup` | crates/ramshared-cli/src/bounded_process.rs:446-472 | a failed signal is contained |
| `Reaping.Child.AccountSingleCapture` | crates/ramshared-cli/src/bounded_process.rs:422-444 | a blocked worker costs one more group signal, before the reap |
| `Reaping.Child.HearAgain` | crates/ramshared-cli/src/bounded_process.rs:422-444 | the second hearing after one more group signal, contained exactly if that fails too |
| `Reaping.Child.UnblockCaptures` | crates/ramshared-cli/src/bounded_process.rs:489-512 | a stream still open costs one more group signal and the output; contained exactly if the signal failed or a stream stays blocked |
| `Reaping.Child.CollectCaptures` | crates/ramshared-cli/src/bounded_process.rs:474-530 | output is returned only if both streams had closed before the collection |
| `Reaping.Child.AwaitExit` | crates/ramshared-cli/src/bounded_process.rs:662-700 | after it the group has been signalled since the observed exit |
| `Reaping.Child.RunCaptured` | crates/ramshared-cli/src/bounded_process.rs:662-737 | output returned is output that arrived before the first group signal |
| `Reaping.Child.AbandonWithWorker` | crates/ramshared-cli/src/bounded_process.rs:649-661 | the path with a lone capture worker: still armed only if it could not be joined |
| `Reaping.Child.AbandonSetup` | crates/ramshared-cli/src/bounded_process.rs:617-648 | missing pipes or workers end the group and reap |
| `Reaping.Child.RunCaptureCommand` | crates/ramshared-cli/src/bounded_process.rs:569-738 | however it returns, short of containment, exit was observed, the group signalled and the child reaped; a result is trusted output with clean signals; a failed signal goes uncontained if and only if only the stderr worker is missing, the signal failed before the stdout worker refused to join, and the guard then terminated the child without a fault |
| `Reaping.Child.RunUnguarded` | crates/ramshared-cli/src/bounded_process.rs:569-738 | the same up to the guard, which is still armed only after a failed join |
| `Reaping.UncontainedRun` | crates/ramshared-cli/src/bounded_process.rs:649-661 | one run that leaves a failed group signal uncontained; the join that fails in it is that of a capture thread that panicked |

## Left out

- Telemetry counters, log lines, error texts and the publication of supervisor state and admission records: easy members only; publishing, closing admission and runtime requests appear as steps that succeed, fail or crash.
- Real clocks and floating point: time is a natural number supplied by the caller, PSI values are reals, NaN is excluded.
- Victim selection from the reservation ledger: any victim may be offered at any iteration; how the ledger orders candidates is not modelled.
- Record parsing and file metadata checks in the supervisor's runtime directory: a read returns the record, fails, or rejects an inconsistent one.
- Broker sessions, tenant registration, SwapOn/SwapOff messages, zeroing retries and telemetry reconciliation: tenants present at a tick and their pressures are parameters; the events that change slices, leases or destinations are all modelled.
- A revert is not rechecked against the slice's current owner, so it carries no enabledness promise; in the broker it drains whatever active slice it names, and the model does the same.
- Arbiter.PressureArbiter.Tick: does not model overflow of the 32-bit streak counter, because it would take billions of over-threshold ticks without a move.
- Lease progress while slices drain: draining slices do not count as available, so nothing is claimed about how few slices several ticks revoke.
- Reaping.Child.RunCaptureCommand: covers the command from its spawn on; argument checks and the spawn itself are left out, and a deadline is a number of polls.
- Handshake.ServerHandshake: what counts as UTF-8 is a parameter.
- Request.Serve: serves the write-through cache, which is never read-only; the generic backend's default FUA path is not modelled.
- Slices.ValidateLayout: the sort is an insertion sort on values rather than an in-place unstable sort of references.
- An origin of another length than the device: a backend over one can be built, but its reads and writes are not modelled further, because they would reach past the end of the file.
- SparseVram.SparseVramBackend.EnsureLive: does not model the overflow of the committed-bytes product in reports outside the cap test, because inside the test it cannot overflow (`SparseVram.CommittedFits`).
- `elastic_cache.rs`, the monitoring, diagnosis and stress tools, the agent, the Windows broker and the JSON protocol are not part of this model.
