# on9rstore in Dafny

`on9rstore` is a fixed-capacity, segmented append log for small flash devices. It survives power loss at any moment, keeps a
sparse index per segment, can be read while it is being written, and dates entries through a ring of time anchors. This project
models its four linked parts and proves that all of them agree with one simple thing: the list of entries that are retained.

## How the model is built

**Storage and crashes.** `Device.dfy` models a disk as two superblock copies and one file per slot: two headers, entry records by
offset, a sparse index, two footers. A checksum that matches is a record that is intact. Every write is followed by its sync, so
one write is in flight at a time; power loss can lose it, tear it or let it arrive, any subset of the records of a data write can
arrive, and whatever they overlap may be destroyed. `Protocol.dfy` says what a disk must look like to hold a log, and that every
crash outcome of every write still holds one. `Recovery.dfy` defines what recovery reads back, from headers, footers, index and
scan only. `Runs.dfy` is the state machine over whole runs: writes, accepted entries, power loss (idle, during a write, during
recovery), damage to index areas while the power is off, restarts. `CrashSafety.dfy` proves the invariant over all runs, that
every run is a run of a plain abstract log, and what follows for callers. `Superblock.dfy` covers the alternating superblock pair
alone and the store as provisioning leaves it.

**The store object.** `Memory.dfy` and `Restart.dfy` relate the fields kept in memory to the log; `Engine.dfy` is the class
`Store` with the store's methods: append, flush, seal, retire, activate, rotate, recover, init. Every write such a method makes is
a step of the state machine, recorded in a ghost trace, so the theorems about runs hold between any two of its writes. What a
call leaves readable is stated as a list: everything that was readable, and the new entry behind it, except that opening a segment
on a full store drops the oldest generation (`Remains`), and the log is the one before with exactly these changes. `Durability.dfy`
puts crash, restart and recovery together into what a caller may rely on across power loss. `TornSpare.dfy` has store objects run
into the one way of losing everything; `Walkthrough.dfy` builds the objects from a provisioned device and uses them.

**Reading.** `Snapshots.dfy` says what a reader copies and proves that no writer step that needs no read lock takes away what
the snapshot needs, not even halfway through a write; the methods of `Store` that open no segment promise to make only such
steps. `Searches.dfy` is the theory of the two binary searches and the scan, `Reader.dfy` the class `SnapshotReader` with the
read path (each device access may meet a different disk), `Cursors.dfy` the three resumable cursors, and loops that read each of
them to its end. `Lookup.dfy` and `ReadFacts.dfy` hold the plain definitions: first match in a list, filter, runs in ID order.

**Time.** `TimeModel.dfy` defines which anchor governs an uptime of a boot; `Catalog.dfy` is the in-place pipeline (insertion,
replacement resolution, compaction, sort, merge, bounds) proved to compute it; `Utc.dfy` has the checked 64-bit translation and
reading by UTC; `Anchors.dfy` the anchor ring, its reuse rule over whole runs, and why reusing slots changes no date.

**Bytes.** `Layout.dfy` has sizes and segment geometry, `Segment.dfy` the scan over records, `Crc.dfy` the table-driven checksum
against the bit-serial one of section 8 of RFC 1952, `Codec.dfy` entry encoding, both append paths and the byte scan.

## Assumptions

- An I/O call completes or the device loses power during it. A torn or mixed record never passes its checksum.
- Within a boot the timer never runs backwards (`OnTime`). Where more is needed, strictly increasing uptimes, it is named.
- Sizes are 32 bits wide; entry IDs, uptimes and UTC times fit 64 bits, with the boot counter in 24 and the sequence in 40.
- Index areas may be damaged while the power is off. Damage to sealed entries is not repaired by the store, and not modelled.

## Where the code does less than it promises

- **A torn spare header is never rewritten.** Each slot has two header copies. Power loss can tear the second one
  (`TornSpareArises`), recovery then uses the first, and nothing but writing that same copy again repairs it, whatever else happens
  in between (`TornSpareStays`). The next activation of the slot rewrites the first copy; power loss there can leave none, and
  initialisation fails from then on (`TornSpareStrikes`). Ordinary use gets there: on every provisioned two-slot device, starting
  and one append pass through the first point (`FirstPowerLoss`), and starting again and two appends pass through the second
  (`SecondPowerLossCanEndTheStore`). Activation survives every crash outcome if and only if the slot's second copy
  is intact beforehand (`ActivationSafeIffSpareIntact`), recovery succeeds if and only if every slot has an intact header
  (`RecoverableIffHeadersLoad`), no other write puts headers at risk, and a store that never loses power during a second-header
  write can always be recovered (`RecoverableWhileSparesIntact`).
- **The uptime search can start too late.** It takes the last index item whose uptime is not above the range's start, so an earlier
  entry with the same uptime is skipped when an index group begins between the two. One segment is searched right if and only if
  this does not happen (`BootStartExact`); a whole read is right if and only if it does not happen in the segment, or for UTC the
  epoch, of the first match (`ReadBootEntryFromSnapshot`, `BootUptimeRangeCursor.ReadNext`, `UtcRangeCursor.ReadNext`), and reading
  a whole range misses nothing if and only if its first read does not skip (`ReadAllByUptime`) or, by UTC, if and only if in no
  boot the search for its first match skips (`ReadAllByUtc`). A timer too coarse to separate 65 entries does trigger it
  (`CoarseTimerSkips`, and `CoarseTimer` on a store brought there by its own methods); strictly increasing uptimes rule it out
  (`StrictStoreNeverSkips`).
- **Starting up can cost a generation.** A start whose newest segment is sealed or full opens another one for the boot event. On a
  full store that drops the oldest generation, without any append by the caller; never more than that one (`Init`, `PowerCycle`).

## Model

| member | source | states |
|---|---|---|
| Layout.EntrySize | on9rstore_entry.cpp:16-25 | An entry's size is a multiple of four with room for header, payload and checksum and less than four bytes more; it is 0 exactly when it would not fit 32 bits. |
| Layout.GeometryIsSafe | on9rstore_segment.cpp:9-35 | Every geometry that is accepted keeps entry area, index and footers disjoint and in bounds, with an index item for every group of entries that can fit. |
| Layout.IndexNeverFull | on9rstore_entry.cpp:69-82 | However many entries fill the area, the index has room for their items, so the silent drop never happens. |
| Segment.ScanIsUnique | on9rstore_segment.cpp:394-457 | The scan result is the one maximal chain of records bound to this use of the slot, back to back, in ID order and in bounds; nothing else qualifies. |
| Segment.SampleExtend | on9rstore_entry.cpp:84-103 | Appending an entry grows the index a scan would rebuild by one item exactly when a group of 64 begins, which is what incremental accounting does. |
| Segment.FooterOfValid | on9rstore_segment.cpp:251-279 | The footer a seal writes for any in-bounds run is one that recovery accepts. |
| Segment.ScanOneEntry | on9rstore_segment.cpp:340-392 | Returns the record at an offset exactly when it is intact, bound to this store, slot and generation, and in bounds. |
| Segment.ScanSegment | on9rstore_segment.cpp:394-457 | The loop returns the descriptor and index of the whole scan, and refuses exactly when an older footer's boundary is not reproduced. |
| Device.ApplyIsTorn | on9rstore_io.cpp:188-227 | A completed write is one of the crash outcomes of that write. |
| Device.ScanAfterTornAppend | on9rstore_segment.cpp:394-457 | After any torn data write the scan finds the synced run and some prefix of the entries in flight. |
| Device.ScanAfterAppend | on9rstore_segment.cpp:394-457 | After a completed data write it finds all of them, and nothing stale behind them can ever continue the run. |
| Protocol.SuperAtomic | on9rstore_manifest.cpp:70-95 | Every crash outcome of a superblock commit loads the previous superblock or the new one. |
| Protocol.FirstHeaderArrives | on9rstore_segment.cpp:829-866 | Once the first header of an activation is on disk the slot is the new generation with no entries, whatever old records lie in it. |
| Protocol.FirstHeaderLost | on9rstore_segment.cpp:829-866 | When that header is lost or torn the slot still is not retained. |
| Protocol.SecondHeaderTorn | on9rstore_segment.cpp:37-57 | Whatever becomes of the second header, the slot stays with the new generation. |
| Protocol.FooterTorn | on9rstore_segment.cpp:59-80 | Whatever becomes of a footer write, the log on disk is unchanged. |
| Protocol.IndexTorn | on9rstore_segment.cpp:592-605 | The content of an index area never changes which log the disk holds. |
| Protocol.DataTorn | on9rstore_entry.cpp:286-306 | Power loss during a data write leaves the log extended by a prefix of the pending entries. |
| Protocol.DataWritten | on9rstore_entry.cpp:286-306 | A completed data write makes every pending entry durable, in order. |
| Recovery.InvRecovers | on9rstore_segment.cpp:501-553 | Recovery reads exactly the log the disk holds whenever every slot has an intact header. |
| Recovery.RecoversUnique | on9rstore_segment.cpp:737-780 | What recovery reads is a function of the disk. |
| Recovery.FastPathIsExact | on9rstore_segment.cpp:459-522 | For every retained segment with a footer, descriptor and matching index are those a full scan rebuilds, and the scan reaches the footer's boundary. |
| Runs.IoKeeps | on9rstore_segment.cpp:816-894 | Every write the store may issue keeps the invariant of disk, log, pending entries and history. |
| Runs.AcceptKeeps | on9rstore_entry.cpp:44-67 | Taking in an entry with a fresh ID keeps it. |
| Runs.BootFloor | on9rstore.cpp:206-218 | Once the boot counter is raised, every record on disk is too old to continue a run of the new boot. |
| CrashSafety.CrashOutcome | on9rstore_segment.cpp:737-780 | Power loss during any write leaves the log before it, the log after it, or for data the log plus a prefix of what was in flight. |
| CrashSafety.CrashKeeps | on9rstore_segment.cpp:737-780 | Recovery after such a crash returns exactly one of these outcomes, and the invariant holds again. |
| CrashSafety.RecoverableIffHeadersLoad | on9rstore_segment.cpp:221-249 | After any crash, recovery succeeds if and only if every slot has an intact header. |
| CrashSafety.OnlyActivationRisksHeaders | on9rstore_segment.cpp:37-57 | No write but the first header of an activation can cost a slot its last intact header. |
| CrashSafety.ActivationSafeIffSpareIntact | on9rstore_segment.cpp:829-866 | An activation survives every crash outcome if and only if the slot's second header copy is intact beforehand. |
| CrashSafety.TornSpareArises | on9rstore_segment.cpp:37-57 | Power loss during a second-header write can leave that copy torn while recovery succeeds. |
| CrashSafety.TornSpareStays | on9rstore_segment.cpp:524-553 | Over any stretch of any run, with all its crashes, restarts and recoveries, a torn second copy stays torn until a second header is written to that slot. |
| CrashSafety.TornSpareStrikes | on9rstore_segment.cpp:829-866 | The next activation of that slot, however much later, has a crash outcome that no recovery accepts. |
| CrashSafety.RecoverableWhileSparesIntact | on9rstore_segment.cpp:221-249 | In runs without power loss during a second-header write every state, and every crash outcome of every next write, can be recovered. |
| TornSpare.FirstPowerLoss | on9rstore_segment.cpp:829-866 | On any provisioned two-slot device a store that is started and appends one entry passes between the two header writes of slot 1, and power loss during the second one can leave a disk that recovery accepts whose spare header is torn. |
| TornSpare.SecondPowerLossCanEndTheStore | on9rstore_segment.cpp:829-866 | A store started on that disk and appending two entries passes through a state in which every slot has an intact header and the next write, which it goes on to make, can leave a disk that no recovery accepts when power is lost in it. |
| TornSpare.SmallStoreIsProvisioned | on9rstore_manifest.cpp:45-136 | Such a store exists: two segments of 32 KiB under the geometry the store computes. |
| CrashSafety.RunKeeps | on9rstore_segment.cpp:737-780 | Every state of every run keeps the invariant, with crashes, restarts and index damage anywhere, recovery included. |
| CrashSafety.StepRefines | on9rstore_segment.cpp:737-894 | Every step, crashes included, is a step of an abstract log: append, sync, drop the oldest generation, open a new one, or crash keeping a prefix of the pending entries. |
| CrashSafety.RunRefines | on9rstore_segment.cpp:737-894 | Every run of the store is a run of the abstract log. |
| CrashSafety.RecoveredIsContiguous | on9rstore_segment.cpp:737-780 | At any later point the durable history has only grown and the retained entries are a contiguous run at its end, including every earlier durable entry from the oldest retained one on. |
| CrashSafety.IdsNeverReused | on9rstore_entry.cpp:32-42 | IDs of accepted entries strictly increase over the whole life of the store, lost entries included. |
| CrashSafety.NoResurrection | on9rstore_segment.cpp:340-449 | Whatever is visible later was visible before or was issued since: entries lost in a crash, of retired generations or of older uses of a slot never come back. |
| CrashSafety.GenerationsNeverReused | on9rstore_segment.cpp:868-894 | No generation number ever labels two runs: a generation still retained holds what it held, possibly with more behind it. |
| Superblock.LastCommitSurvives | on9rstore_manifest.cpp:70-207 | After any number of commits and a crash during one more, loading gives the last completed commit or the one in flight, never anything older. |
| Superblock.ProvisionedIsSafe | on9rstore_manifest.cpp:45-136 | A provisioned store satisfies the invariant, whatever recycled clusters contain. |
| Memory.CommitRam | on9rstore_manifest.cpp:70-95 | Committing a superblock that agrees with the log is always allowed and keeps memory and disk in agreement. |
| Memory.FlushRam | on9rstore_entry.cpp:286-306 | Writing out the buffer is allowed and leaves memory mirroring the extended log, with used size equal to the sum of all entries. |
| Memory.TakeIn | on9rstore_entry.cpp:84-103 | Incremental accounting of one entry gives the descriptor, index, write offset and used size of the longer run. |
| Memory.SealRam | on9rstore_segment.cpp:607-646 | Sealing writes the footer and index that recovery will accept without a scan. |
| Memory.RetireRam | on9rstore_segment.cpp:816-827 | The commit that raises the oldest generation drops exactly the oldest segment, and the used size loses exactly its entries without saturating. |
| Memory.ActivateRam | on9rstore_segment.cpp:829-866 | After both headers memory mirrors the log with one more, empty generation. |
| Memory.IndexRoom | on9rstore_entry.cpp:69-82 | In every reachable state the index has room for the next item. |
| Memory.FreshId | on9rstore_entry.cpp:32-42 | The next sequence number of the boot gives an ID above every ID issued so far. |
| Memory.GrownRemains | on9rstore_entry.cpp:105-127 | A log turned over at most once and extended shows everything it showed before and the new entries behind it; only a full store loses its oldest generation, and the newest generation number rises by one exactly when a segment was opened. |
| Restart.BootCommit | on9rstore.cpp:206-218 | The boot counter is durable before the first entry of the boot, and every earlier ID lies below the boot's first. |
| Durability.CrashThenBoot | on9rstore.cpp:176-268 | Whatever was durable when power failed, idle or in the middle of any write, is readable after the next start, except at most one generation, the oldest of a full store or the one just being dropped. |
| Engine.TraceIsRun | on9rstore_segment.cpp:737-894 | The writes a store makes form a run of the state machine, so the theorems about runs apply to it. |
| Engine.Store.Io | on9rstore_io.cpp:188-227 | A synced write takes the disk to the state after it and extends the run by exactly that step, which is an unlocked one whenever the write is. |
| Engine.Store.Commit | on9rstore_manifest.cpp:70-95 | The superblock goes to the copy that does not hold the newest one. |
| Engine.Store.Flush | on9rstore_entry.cpp:286-306 | All buffered entries become durable, in order; nothing else changes. |
| Engine.Store.SealSegment | on9rstore_segment.cpp:592-675 | Index, then both footers: the segment's seal is complete and its contents unchanged. |
| Engine.Store.SealActiveSegment | on9rstore_segment.cpp:607-646 | Flushes, then seals the newest segment. |
| Engine.Store.RetireSegment | on9rstore_segment.cpp:816-827 | Drops the oldest generation exactly when every slot is in use. |
| Engine.Store.OldestGeneration | on9rstore_segment.cpp:677-690 | Finds the least generation among valid descriptors. |
| Engine.Store.ActivateSegment | on9rstore_segment.cpp:829-866 | Opens the next slot under the next generation, empty on disk and in memory. |
| Engine.Store.OpenNextSegment | on9rstore_segment.cpp:868-894 | A new empty segment, in place of the oldest one when the store is full; nothing else changes. |
| Engine.Store.RotateActiveSegment | on9rstore_entry.cpp:119-127 | Seals the newest segment and opens the next. |
| Engine.Store.PrepareEntrySpace | on9rstore_entry.cpp:105-117 | Afterwards the entry fits behind the write offset, or it cannot fit an empty segment. The log, pending entries included, is exactly what it was, except that an entry that fits only an empty segment opens one, which on a full store drops the oldest generation. |
| Engine.Store.MakeNextEntryId | on9rstore_entry.cpp:32-42 | The next ID of the boot, or 0 without any change when its sequence numbers are used up. |
| Engine.Store.AccountAppendedEntry | on9rstore_entry.cpp:84-103 | Descriptor, index, offset and totals become those of the run with the entry added. |
| Engine.Store.BufferEntry | on9rstore_entry.cpp:184-203 | The entry is accepted, memory mirrors the longer run, and the write buffer holds no more than its size. |
| Engine.Store.MakeBufferRoom | on9rstore_entry.cpp:166-171 | Flushes only when there is no room; afterwards the entry fits the buffer, and what can be read is unchanged. |
| Engine.Store.StoreBuffered | on9rstore_entry.cpp:184-205 | The entry is accepted behind what was there, and durable on return when a flush is forced. |
| Engine.Store.AppendBufferedEntry | on9rstore_entry.cpp:162-206 | On success the log is the one before, turned over exactly when the entry fits only an empty segment, with this entry behind it under a new ID; everything readable stays readable except the oldest generation of a full store that was turned over. On failure nothing is appended. The write buffer never holds more than its size. |
| Engine.Store.AppendDirectEntry | on9rstore_entry.cpp:208-252 | The same for entries larger than the buffer; the entry and everything before it are durable when the call returns. |
| Engine.Store.WriteThrough | on9rstore_entry.cpp:226-252 | One entry written at the write offset and checkpointed leaves exactly the state of accepting and flushing it. |
| Engine.Store.AppendEntryUnchecked | on9rstore_entry.cpp:254-267 | Fails only for an entry too large for a segment, without any change, or a used-up boot; otherwise appends exactly it, everything readable staying readable except the oldest generation of a full store that has to open a segment. |
| Engine.Store.AppendEntry | on9rstore_entry.cpp:269-284 | The same for callers, with reserved types refused and the store unchanged on a refusal. |
| Engine.Store.FlushWrite | on9rstore_entry.cpp:308-318 | Afterwards everything accepted is durable. |
| Engine.Store.RecoverSegmentContents | on9rstore_segment.cpp:474-522 | By footer, by scan or by repair, the descriptor is that of the run on disk; a repair never loses entries, and the newest segment is sealed afterwards if and only if it was before. |
| Engine.Store.RepairSealedSegment | on9rstore_segment.cpp:474-499 | A sealed segment with a damaged index is scanned up to its footer's boundary and sealed again, its contents unchanged. |
| Engine.Store.RecoverOneSegment | on9rstore_segment.cpp:524-553 | Fails exactly when the slot has no intact header; a retired slot is seen as empty. |
| Engine.Store.SealRecoveredSegment | on9rstore_segment.cpp:648-675 | A retained segment without a footer is scanned and sealed. |
| Engine.Store.HighestGeneration | on9rstore_segment.cpp:737-780 | Finds the newest valid descriptor and its slot. |
| Engine.Store.SelectOrCreateActiveSegment | on9rstore_segment.cpp:782-814 | Continues the newest segment where its entries end if it has no footer, and opens the next one exactly when it has. |
| Engine.Store.RecoverOpenSegment | on9rstore_segment.cpp:566-590 | A scan restores descriptor, index and write offset of an open newest segment. |
| Engine.Store.UpdateRecoveredManifestState | on9rstore_segment.cpp:692-735 | Totals and counters become those of the recovered log. |
| Engine.Store.RecoverAllSegments | on9rstore_segment.cpp:737-780 | Succeeds exactly when every slot has an intact header, and then memory mirrors the recovered log. |
| Engine.Store.Init | on9rstore.cpp:176-268 | Succeeds exactly when every slot has an intact header and the boot counter is not used up; then the boot counter is one higher, and the log is the recovered one, turned over exactly when its newest segment is sealed or has no room for the boot event, with that event durable behind it: every recovered entry is readable except at most one generation, the oldest of a full store. |
| Durability.PowerCycle | on9rstore.cpp:176-268 | Power lost at any point of any run of a store, then a new store on what is left: it starts unless the boot counter is used up, and every durable entry is readable except those of at most one generation, the oldest. |
| Lookup.FilterFirst | on9rstore_read.cpp:680-803 | Delivering the first match and going on behind it takes exactly the head off the naive filter. |
| Lookup.FilterBehind | on9rstore_read.cpp:680-803 | Delivering any match and going on behind it leaves out exactly the matches before it. |
| Lookup.FirstOverlapDecides | on9rstore_read.cpp:55-84 | The oldest segment that overlaps an ID range decides the lookup for the whole list, even by having no match. |
| Snapshots.SnapshotTaken | on9rstore_read.cpp:35-48 | The copied fields describe exactly the entries the store held at that moment. |
| Snapshots.UnlockedFootprint | on9rstore_segment.cpp:607-646 | Writes made without the read lock touch only the superblocks and, in the newest slot, index, footers and bytes behind the synced entries. |
| Snapshots.Isolation | on9rstore_segment.cpp:868-894 | Any interleaving of unlocked writer steps, seen after a step or in the middle of a write, leaves everything the snapshot refers to in place. |
| Searches.StartMissesNothing | on9rstore_read.cpp:197-214 | Starting at the last index item not past an ID never passes an entry of the range. |
| Searches.BootStartExact | on9rstore_read.cpp:216-235 | Starting by uptime passes a match if and only if an index group begins between two entries of the boot stamped with the range's first uptime. |
| Searches.StrictNeverSkips | on9rstore_read.cpp:216-235 | Strictly increasing uptimes rule that out. |
| Searches.CoarseTimerSkips | on9rstore_read.cpp:216-235 | A timer too coarse to separate 65 entries of a boot brings it about. |
| Reader.SnapshotReader.WriterDoesNotDisturb | on9rstore_read.cpp:428-475 | A reader whose accesses meet only disks of an unlocked stretch of a run is undisturbed, which is what the lookups below require. |
| Reader.SnapshotReader.StoreDoesNotDisturb | on9rstore_segment.cpp:868-894 | The same for the trace of a store whose methods have made only steps without the read lock since the snapshot. |
| Reader.ReadDuringAppend | on9rstore_read.cpp:447-475 | A lookup that overlaps an append which opens no segment answers for the store at snapshot time, whichever of the append's disks it meets, torn ones included. |
| Reader.SnapshotReader.TakeSnapshot | on9rstore_read.cpp:35-48 | The snapshot is one of the store's present state. |
| Reader.SnapshotReader.FindReadSegment | on9rstore_read.cpp:55-84 | Selects the least generation whose ID range meets the wanted one; none exactly when no descriptor does. |
| Reader.SnapshotReader.LoadReadSparseIndex | on9rstore_read.cpp:86-127 | On an undisturbed disk the index loaded is the one of the segment's entries. |
| Reader.SnapshotReader.IsReadSparseIndexValid | on9rstore_read.cpp:129-163 | Accepts an index if and only if it is consistent with the descriptor in count, bounds, alignment and order. |
| Reader.SnapshotReader.PrepareReadSegment | on9rstore_read.cpp:165-195 | Only the generation asked for is ever read, and on an undisturbed disk preparation never fails. |
| Reader.SnapshotReader.FindReadStart | on9rstore_read.cpp:197-214 | Binary search for the last item not past an ID, item 0 when all are. |
| Reader.SnapshotReader.FindBootReadStart | on9rstore_read.cpp:216-235 | Binary search for the last item not past an uptime of a boot. |
| Reader.SnapshotReader.ReadRecord | on9rstore_read.cpp:237-335 | A record is returned only if bound to the segment and in bounds, from buffer or disk, header, payload chunks and checksum each read from whatever disk is there then; undisturbed it is the entry at that offset. |
| Reader.SnapshotReader.ReadMatchingEntry | on9rstore_read.cpp:336-385 | The scan returns the segment's first entry of the range, or nothing exactly when there is none. |
| Reader.SnapshotReader.ReadMatchingBootEntry | on9rstore_read.cpp:387-445 | The same for boot and uptime range, right if and only if the start did not skip. |
| Reader.SnapshotReader.ReadEntryInternal | on9rstore_read.cpp:447-475 | Segment selection, binary search and scan give what a search through the whole list at snapshot time gives, for every ID range, buffer size and interleaving. |
| Reader.SnapshotReader.ReadEntry | on9rstore_read.cpp:680-688 | Finds the entry with an ID if and only if it is retained. |
| Reader.SnapshotReader.ReadBootEntryFromSnapshot | on9rstore_read.cpp:524-549 | The segment loop terminates, and gives what a search through the whole list gives if and only if the search by uptime does not skip in the segment of the first match. |
| Cursors.EntryRangeCursor.ReadNext | on9rstore_read.cpp:690-724 | With a reader that faces the store, delivers the first entry left; the cursor then stands behind it, does not move when the buffer is too small or the read fails, and is finished when nothing is left. |
| Cursors.BootUptimeRangeCursor.ReadNext | on9rstore_read.cpp:492-522 | Refuses exactly the invalid cursors; otherwise, with a reader that faces the store, gives the first entry left of the boot and uptime range if and only if the search does not skip, and an entry of the range in any case. |
| Cursors.BootUptimeRangeCursor.MoveOn | on9rstore_read.cpp:726-759 | Only a delivered entry moves the cursor, to exactly what lies behind it, and it stays valid. |
| Cursors.EntryUtc | on9rstore_read.cpp:616-639 | The UTC time of a matched entry always fits 64 bits and lies in the range, so the conversion error for a matched entry is unreachable. |
| Cursors.ReadUtcEntry | on9rstore_read.cpp:641-678 | Reading the epochs in order gives the entry of least ID that its epoch dates within the range, if and only if no search by uptime skips it. |
| Cursors.UtcRangeCursor.ReadNext | on9rstore_read.cpp:761-803 | The same for UTC, with the time and the anchor that gives it, right if and only if the read does not skip; only a delivered entry moves the cursor. |
| Cursors.StrictStoreNeverSkips | on9rstore_read.cpp:216-235 | With strictly increasing uptimes per boot no read by uptime skips. |
| Cursors.StrictStoreNeverSkipsUtc | on9rstore_read.cpp:641-678 | Nor does a read by UTC. |
| Cursors.FilterYields | on9rstore_read.cpp:680-803 | The naive filter of what can be read holds exactly the retained entries wanted, each once, in increasing ID. |
| Cursors.ReadAll | on9rstore_read.cpp:690-724 | Repeated reads of an ID range terminate, yield exactly that filter and leave the cursor finished. |
| Cursors.ReadAllByUptime | on9rstore_read.cpp:726-759 | Repeated reads of a boot and uptime range terminate and yield an end of that filter, in order and each entry once, which is all of it if and only if the first read does not skip. |
| Cursors.UtcFilterYields | on9rstore_read.cpp:641-678 | The filter a UTC cursor goes through is the retained entries whose governing anchor dates them within the range. |
| Cursors.ReadAllDated | on9rstore_read.cpp:761-803 | Repeated UTC reads terminate and yield entries of that filter in increasing ID, each with its date, and all of it if and only if in no boot the search for the first match skips. |
| Cursors.ReadAllByUtc | on9rstore_read.cpp:761-803 | On a store with a valid anchor ring these are retained entries that the ring's anchors, through the one that governs each, date within the range, and all of them if and only if in no boot the search for the first match skips; strictly increasing uptimes are enough for that. |
| TimeModel.CoversIsGoverns | on9rstore_manifest.cpp:302-420 | In the finished table an epoch covers an uptime of a boot if and only if its anchor governs it in the declarative model. |
| TimeModel.CoversOnce | on9rstore_manifest.cpp:409-420 | No uptime of a boot is covered twice. |
| TimeModel.EveryUptimeCovered | on9rstore_manifest.cpp:409-420 | A boot with any epoch has one for every uptime from 0 to the greatest. |
| TimeModel.GovernorIsUnique | on9rstore_manifest.cpp:302-420 | The model dates an uptime by at most one anchor. |
| TimeModel.GovernsLocal | on9rstore_manifest.cpp:328-420 | How a boot is dated depends on the anchors of that boot alone. |
| TimeModel.OnePerLineage | on9rstore_manifest.cpp:328-361 | A lineage is represented by at most one anchor. |
| TimeModel.LineageRepresented | on9rstore_manifest.cpp:328-361 | Every anchor whose replacements resolve is represented by an effective one of the same root. |
| Catalog.EpochTable.InsertAnchor | on9rstore_manifest.cpp:302-315 | Shifting in place keeps the table in sequence order and adds exactly this anchor. |
| Catalog.EpochTable.FindSequence | on9rstore_manifest.cpp:317-326 | Finds a sequence number among the first entries, or reports that it is not there. |
| Catalog.EpochTable.ResolveReplacements | on9rstore_manifest.cpp:328-361 | Root, start and effectiveness of every entry become those of the declarative model; broken and cross-boot lineages contribute none. |
| Catalog.EpochTable.Compact | on9rstore_manifest.cpp:374-383 | Keeps exactly the effective entries, in order. |
| Catalog.EpochTable.SortEpochs | on9rstore_manifest.cpp:385-393 | Insertion sort orders the table by boot, start and sequence and keeps its entries. |
| Catalog.EpochTable.MergeEqualStarts | on9rstore_manifest.cpp:395-407 | Of neighbours with equal boot and start the last one stays. |
| Catalog.EpochTable.CompactAndSort | on9rstore_manifest.cpp:374-407 | The table holds exactly the prevailing anchors, ascending by boot and start. |
| Catalog.EpochTable.SetBounds | on9rstore_manifest.cpp:409-420 | Every epoch gets its interval, without underflow. |
| Catalog.EpochTable.LoadCatalog | on9rstore_manifest.cpp:422-454 | From any ring of valid anchors with distinct sequence numbers, which the ring invariant guarantees in every state of every run, the whole pipeline yields the declarative model's table, the newest sequence number and the slot after it. |
| Catalog.LastOfEachMembers | on9rstore_manifest.cpp:395-407 | Merging keeps an entry if and only if no entry of the same boot and start has a greater sequence number. |
| Utc.Translate | on9rstore_read.cpp:596-614 | The result is the exact difference of origins applied, or says on which side it leaves 64 bits. |
| Utc.UptimesAreExact | on9rstore_read.cpp:551-594 | The window made from a UTC range holds exactly the epoch's uptimes whose exact UTC lies in the range, and there is none exactly when no uptime does, saturation included. |
| Utc.WindowMatches | on9rstore_read.cpp:578-594 | With the resume position, a window asks exactly for the entries behind it that this epoch dates within the range. |
| Utc.UtcWantIsGoverned | on9rstore_read.cpp:641-678 | What the epochs' windows ask for together is what the governing anchors date within the range. |
| Utc.EarlierEpochFirst | on9rstore_read.cpp:653-673 | Entries of an earlier epoch have smaller IDs than those of a later one, so epoch order is ID order. |
| Utc.EverMovesOn | on9rstore_read.cpp:761-803 | A delivered first match leaves the boots in which a later read will skip the same as before, so whether a whole range is read right is decided at its start. |
| Utc.CatalogUsable | on9rstore_manifest.cpp:409-420 | Every table the pipeline produces has proper intervals within 64 bits. |
| Anchors.BootsOnlyLeave | on9rstore_manifest.cpp:500-511 | Apart from the running boot, a boot without retained entries never has any again. |
| Anchors.CurrentBootStays | on9rstore_segment.cpp:868-894 | While the store runs, the current boot keeps an entry once it has one. |
| Anchors.RetainedIsSpanned | on9rstore_manifest.cpp:500-511 | A boot with a readable entry, buffered ones included, is always reported as retained. |
| Anchors.AnchorsRetained | on9rstore_manifest.cpp:500-580 | In every state of every run, crashes during anchor writes included, each anchor issued for a boot with a readable entry is in the ring, and sequence numbers in the ring are distinct. |
| Anchors.RStepKeepsDating | on9rstore_manifest.cpp:513-580 | No step, not even power loss while an anchor is written over another, changes which anchor dates any uptime of an earlier boot that can still be read. |
| Anchors.DatingIsStable | on9rstore_manifest.cpp:513-580 | So over any run such an entry is dated by the same anchor at the end as at the start. |
| Anchors.EmptyRingKeeps | on9rstore_manifest.cpp:422-464 | A store with an empty ring satisfies the ring invariant. |
| Anchors.AnchorRing.Start | on9rstore.cpp:176-232 | After initialisation the ring is loaded and this holds for the running boot too. |
| Anchors.AnchorRing.Load | on9rstore_manifest.cpp:422-464 | Catalog and counters become those of the ring's content. |
| Anchors.AnchorRing.IsRetainedBoot | on9rstore_manifest.cpp:500-511 | Reports exactly whether some descriptor spans the boot. |
| Anchors.AnchorRing.CheckSlotReuse | on9rstore_manifest.cpp:513-525 | Allows reuse exactly when the slot holds nothing valid or an anchor of a boot no descriptor spans. |
| Anchors.AnchorRing.IsInputValid | on9rstore_manifest.cpp:466-478 | Accepts exactly the inputs whose anchor will be valid in its slot: known sources only, a reading for each, known quality and flags, a time, no newer target. |
| Anchors.AnchorRing.ValidateReplacement | on9rstore_manifest.cpp:480-498 | Accepts exactly no replacement, or one of an anchor in the ring of the running boot. |
| Anchors.AnchorRing.AppendTimeAnchor | on9rstore_manifest.cpp:527-580 | Refuses bad input, used-up numbers, foreign replacements and slots still needed, exactly these; on success everything accepted is durable and exactly one slot, the one after the newest, holds the new anchor; otherwise nothing changes; either way no needed anchor is lost and the catalog is that of the ring. |
| Crc.TableStep | on9rstore.cpp:432-440 | One table lookup does the work of eight bit-serial steps. |
| Crc.MakeLutEntry | on9rstore.cpp:16-23 | A table entry is its index after eight steps of the register. |
| Crc.Table.constructor | on9rstore.cpp:25-34 | All 256 entries are. |
| Crc.Table.Update | on9rstore.cpp:432-440 | The table-driven loop equals the bit-serial register over the bits of the buffer, for every buffer and start value. |
| Crc.Table.Checksum | on9rstore.cpp:427-430 | The checksum is the one of section 8 of RFC 1952. |
| Crc.Chunks | on9rstore.cpp:432-440 | Updating in chunks, however cut, equals one pass over the whole. |
| Crc.CheckValue | on9rstore.cpp:36-49 | The checksum of the characters 1 to 9 is the standard check value. |
| Codec.HeaderRoundTrip | on9rstore_defs.hpp:10-23 | Every header whose fields fit their widths decodes to itself. |
| Codec.EncodeBuffered | on9rstore_entry.cpp:184-197 | A buffered append puts exactly the entry's bytes at its place and changes nothing else. |
| Codec.WriteDirect | on9rstore_entry.cpp:226-243 | A direct append, piece by piece with a running checksum, writes the same bytes. |
| Codec.WriteZeroes | on9rstore_entry.cpp:129-144 | Padding in chunks writes exactly that many zeroes. |
| Codec.EntryRoundTrip | on9rstore_segment.cpp:340-392 | The bytes of an entry, wherever they stand, decode to that entry. |
| Codec.ScanEntryBytes | on9rstore_segment.cpp:340-392 | Reading the payload in chunks accepts a record exactly when magic, revision, identity, length and checksum hold. |
| Codec.ScanBytes | on9rstore_segment.cpp:394-449 | Scanning the bytes of a file finds exactly what scanning its records finds. |
| Codec.RunRoundTrip | on9rstore_segment.cpp:394-449 | The concatenated bytes of any run of entries scan back to exactly these entries, offsets and end, if and only if what follows is not itself a continuation. |
| Walkthrough.NewDevice | on9rstore.cpp:176-268 | A provisioned device with an empty anchor ring starts, and its ring is valid. |
| Walkthrough.ReadEverything | on9rstore_read.cpp:690-724 | Reading all IDs with nobody writing returns exactly what the store holds, buffered entries included. |
| Walkthrough.CoarseTimer | on9rstore_read.cpp:216-235 | A provisioned device started and given 64 entries with the clock standing still is in a state where reading by uptime skips. |

## Left out

- File access: paths, `stat`, directory scans, contiguity checks and partial-transfer loops are replaced by exact reads and writes.
- Runs in which an I/O call fails and the caller carries on: sequence and superblock numbers may then already have advanced.
- Engine.Store.Commit: superblock and segment generations are unbounded here; the refusal at the greatest 64-bit number is not modelled.
- Engine.Store.OpenNextSegment: the same for segment generations, and the read lock it takes is not an object here: that retirement and activation hold it is the definition of an unlocked step.
- Engine.Store.Init: provisioning, resuming it, and the variant of the boot entry that carries a coredump are not modelled; the model starts from a provisioned store.
- Superblock: the time-anchor counters kept in it are not modelled; they are recomputed from the ring on every load.
- Codec.RunRoundTrip: a payload that itself spells a valid record of the same store, slot and generation with a newer ID is not excluded by the format; the record layer assumes that no such record appears.
- Reader.SnapshotReader.ReadRecord: the checksum is modelled as matching only when all accesses find one and the same record.
- Damage to sealed entries, headers or footers while the power is off: the store then reports an error instead of repairing, and that path adds no claim.
- Coredump streaming and partition access; one abstract direct append covers it.
- Locks, timeouts and shutdown order.
- Null pointers, allocation failures, logging, getters and configuration checks.
- Field-by-field magic, revision and reserved checks of headers, footers and superblocks, apart from store, slot and generation.
