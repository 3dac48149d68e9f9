# Verified model of the armored witness storage

This project models, in Dafny, the storage stack with which the trusted applet keeps its
witness checkpoints across power failures, and the supervisor that ties networking to the
DHCP lease. It proves what each layer promises to the next, over whole runs.

The layers, bottom up:

| files | what they hold |
|---|---|
| `Blocks.dfy`, `Entries.dfy` | bytes, blocks, big-endian integers; the journal entry format and its codec |
| `Mmc.dfy` | the device: transfers split into requests to the OS, with write errors |
| `BlockReaders.dfy` | the byte stream over blocks, with 32-bit positions, and entry decoding from it |
| `JournalModel.dfy`, `Journals.dfy` | the journal as values, and the journal step by step on a device |
| `CrashSafety.dfy`, `Headers.dfy`, `Runs.dfy` | why the journal survives torn writes, and the theorems over runs |
| `Collisions.dfy`, `LateErrors.dfy` | when it does not: legal runs that lose data, and the exact condition |
| `SlotModel.dfy`, `Slots.dfy`, `CompareAndSwap.dfy` | slots, partition geometry, compare-and-swap |
| `Directory.dfy`, `Persistence.dfy`, `SlotPersistence.dfy` | the directory of logs, the storage as a state machine with concurrent updates and restarts, and the persistence layer step by step |
| `Durability.dfy`, `Guarantees.dfy`, `DirectoryFailure.dfy`, `Contention.dfy` | the invariant of the whole storage, its guarantees, what a failed directory write breaks, and calls in flight together |
| `Lease.dfy` | the DHCP lease supervisor |

`dafny verify dfyconfig.toml` checks the whole project.

## How it fits together

A journal is a range of blocks to which records are appended and which wraps to its start
when a record does not fit. The *view* of its blocks says for each block which valid entry
starts there, if any. `CrashSafety` states an invariant between the view and the in-memory
journal (a run of entries with growing revisions that ends in the current one; everything
else older, or a failed attempt that happened to reach the disk whole) and proves that
every update keeps it, however it ends, and that the scan of `init` finds its way on every
view that satisfies it. `Headers` proves that writing any prefix of a record's blocks
changes the view as that argument expects. `Runs` puts both together for all sequences of
updates, failures, retries and restarts. `Collisions` shows that given runs are legal, so
that the runs exhibited below are real ones.

Hypotheses, all explicit in the definitions of `Headers.Sound` and `Runs.Legal`:

- SHA-256 is a function parameter with 32-byte results. `NoCollision` says, disk by disk,
  that bytes checked against the hash of an attempted payload are that payload if the
  hashes agree.
- No payload looks like an entry header at a block boundary (`Plain`). This is a little
  stronger than "does not contain TFJ0 there": a payload's last one to three bytes must not
  be a prefix of TFJ0 either, because the bytes that follow them on the disk are not
  checked (`TornFoundWhole` shows what can happen).
- The block size is at least 48 bytes, so that a header lies in one block, a journal is
  smaller than 2^32 bytes and ends at byte 2^32 or before, and revisions stay below 2^32 - 1.
- A failed write leaves a prefix of its blocks written, each block being written or not.
  Reads within the device succeed.
- Storage starts out zeroed.

The YAML library is a codec with a round-trip law. Device answers are parameters of the
steps, or a script held by the card.

## What turned out not to hold

- The storage documentation says that the size bound keeps a failed write from damaging
  the previous record. The bound is a third of the journal in bytes; rounded up to blocks
  it is one block too generous when the length is 1 modulo 3, which is the deployed case
  (1024 blocks). Then the last block of a wrapped record of the most blocks permitted (342
  of 1024) can be the current record's first. An error reported before that block is written
  is harmless, and so is any error for a shorter record (`CrashAtomicity`); an error reported
  after it, followed by a torn retry, loses everything (`LateErrorLosesAll`). Crash atomicity
  holds exactly if the length is not 1 modulo 3, or is 1, or records are kept shorter than
  the most blocks permitted (`AtomicExactlyIf`).
- A log whose directory entry could not be stored keeps its slot in memory, and its updates
  succeed. If the machine restarts before a directory write succeeds, the log is gone, and
  the next new log is served its checkpoint (`ForeignCheckpoint`, from a zeroed partition
  `ForeignCheckpointReached`). Free slots hold no data in every run that restarts only while
  the directory on the disk is the one in memory (`RunTidy`), as it is after each successful
  write (`StoreSyncs`); a restart leaves data behind exactly if a log that is not in the
  directory found has some (`RestartTidy`).
- `Geometry.Validate` adds in 32 bits, so lengths that overflow validate (`OverflowValidates`);
  a geometry that validates fits exactly if there is no overflow (`ValidatedFits`).
- If the network stack refuses an address, the next address change blocks the DHCP callback
  for ever, or panics when there has been no lease before (`NextChange`, `AddFailureSticks`).
  The clean-up report of a stopping client is such a change, so the client stops exactly if
  the last address reported was taken (`StopsExactlyIf`).
- After revision 2^32 - 1 an update succeeds, but reopening gives the record before it
  (`WrappedRevisionLost`; `LastRevisionReached` shows the run).

## Model

| member | source | states |
|---|---|---|
| Entries.MarshalThenUnmarshal | trusted_applet/internal/storage/slots/journal.go:236-291 | For every revision from 1 to 2^32 - 1 and every payload, unmarshalling the marshalled bytes followed by anything gives the entry back, and the bytes number exactly Size(). |
| Entries.UnmarshalThenMarshal | trusted_applet/internal/storage/slots/journal.go:236-291 | Every accepted byte string marshals back to its own first Size() bytes; accepted entries have a non-zero revision, a correct length and the hash of their data. |
| Entries.UnmarshalPrefix | trusted_applet/internal/storage/slots/journal.go:236-265 | Bytes beyond those an entry claims make no difference to whether and how it is read. |
| Blocks.ToBEAt | trusted_applet/internal/storage/slots/journal.go:278-284 | Byte i of w bytes is the digit of weight 256^(w - 1 - i): integers are big-endian. |
| Blocks.FromBEFirst | trusted_applet/internal/storage/slots/journal.go:244-254 | The first byte read has weight 256^(n - 1), and so on down. |
| Entries.EncodeLayout | trusted_applet/internal/storage/slots/journal.go:267-291 | The bytes of every record, written out: 84 70 74 48, four bytes of revision, eight of length, most significant first, hash, data. |
| Entries.UnmarshalLayout | trusted_applet/internal/storage/slots/journal.go:236-265 | Exactly which byte strings are accepted, and the revision and data read from them, by their bytes. |
| Mmc.Device.WriteBlocks | trusted_applet/internal/storage/mmc/internal.go:52-82 | The chunked write is one flat write of the zero-padded data: on success all its blocks and their count, on error a whole-block prefix; nothing else changes. Success, blocks written and answers used are those of playing the device's answers request by request. |
| Mmc.TransferSucceeds | trusted_applet/internal/storage/mmc/internal.go:60-82 | A write succeeds exactly if it fits on the device and none of its requests of 32768 bytes is answered with an error. |
| Mmc.Device.ReadBlocks | trusted_applet/internal/storage/mmc/internal.go:86-114 | The chunked read is one flat read of the device's bytes, or an error past the end. |
| Mmc.ReadBack | trusted_applet/internal/storage/mmc/internal.go:48-114 | Reading back the blocks of a successful write gives the data followed by zeroes. |
| BlockReaders.BlockReader.Read | trusted_applet/internal/storage/slots/journal.go:311-320 | Each read up to byte position 2^32 returns the next bytes of the device's flat stream, at least one if any is wanted and left, and fails exactly at the end of the device; the device may go on beyond. |
| BlockReaders.BlockReader.ReadFull | trusted_applet/internal/storage/slots/journal.go:257-259 | Any sequence of block-wise reads adds up to the next n bytes of the stream, up to position 2^32, or an error if there are fewer. |
| BlockReaders.ReadEntry | trusted_applet/internal/storage/slots/journal.go:236-265 | Decoding field by field from the reader gives what the codec gives on the stream, and stops right behind the entry. |
| BlockReaders.NextBlockIs | trusted_applet/internal/storage/slots/journal.go:206-207 | In 32-bit arithmetic, also when the position has wrapped to 0 at byte 2^32, the scan goes on at exactly the first block after the record. |
| Journals.Journal.Init | trusted_applet/internal/storage/slots/journal.go:175-233 | The scan loop terminates and yields the current record and next write position of the scan specification, or fails exactly when that reports corruption. |
| Journals.Journal.Update | trusted_applet/internal/storage/slots/journal.go:139-172 | Update takes the model's step for what the device did and touches no block outside the journal. Said without the model: it succeeds exactly if three such records would fit the journal and the device answers without error; then the data is current with the next 32-bit revision, otherwise the current record stays; the next write goes behind the record, or where a failed one went. |
| JournalModel.AcceptedMeans | trusted_applet/internal/storage/slots/journal.go:113-142 | Data is accepted exactly if three records as long would fit the journal. |
| CrashSafety.WrapClearance | trusted_applet/internal/storage/slots/journal.go:87-102 | A record that wraps because it does not fit behind the current one ends before it, or one block into it when the length is 1 modulo 3. |
| CrashSafety.Reopen | trusted_applet/internal/storage/slots/journal.go:175-233 | On every view satisfying the invariant the early-stopping scan succeeds with the current record or a pending attempt, of maximal revision among all valid entries; the invariant holds again with no attempts pending. |
| CrashSafety.ScanMeans | trusted_applet/internal/storage/slots/journal.go:175-233 | The scan finds the last entry of the longest run with growing revisions that begins at the first entry, or corruption exactly if an entry of the same revision follows it; the next write goes right behind it, or to the start of a full journal. |
| CrashSafety.LongestRun | trusted_applet/internal/storage/slots/journal.go:175-233 | There is such a run from every entry of a journal whose entries lie inside it. |
| CrashSafety.ScanNothing | trusted_applet/internal/storage/slots/journal.go:175-233 | Without entries the journal is empty. |
| CrashSafety.Committed | trusted_applet/internal/storage/slots/journal.go:152-169 | A completed write, appended or wrapped, re-establishes the invariant with the new record as the current one. |
| CrashSafety.Torn | trusted_applet/internal/storage/slots/journal.go:152-165 | A failed write of any number of blocks that spares the current record keeps the invariant, with that record still current. |
| Headers.WriteOverlays | trusted_applet/internal/storage/slots/journal.go:139-169 | Writing any prefix of a record's blocks changes which entries are found only as expected: the record itself, if whole; no entry inside it; entries it cuts into are gone; all others stay. |
| Headers.ClaimInside | trusted_applet/internal/storage/slots/journal.go:250-259 | Every header that Update leaves claims data that ends inside its own journal. |
| Headers.RegionView | trusted_applet/internal/storage/slots/slots.go:155-168 | Reading is unbounded, yet what is found in a journal never depends on the blocks around it. |
| Runs.CrashAtomicity | trusted_applet/internal/storage/slots/journal.go:139-233 | For every sequence of successful updates, updates failing after any number of blocks, retries and restarts: reopening succeeds, never reports two entries of one revision, and yields the last committed record or one attempted since, of maximal revision among the valid entries; the live journal keeps the committed one. The only errors left out are those reported after all blocks of a record of the most blocks permitted, in a journal whose length is 1 modulo 3 and more than 1. |
| Runs.OverlapBound | trusted_applet/internal/storage/slots/journal.go:87-169 | In every state of every run, whatever errors were reported, an update's blocks are disjoint from those where the current record was written or found, except that with length 1 modulo 3 the last block of a record of the most blocks permitted may be the current record's first; without late errors for such records the current record is still there. |
| Runs.ReopenAgrees | trusted_applet/internal/storage/slots/journal.go:152-230 | After any successful updates and restarts, reopening gives the live journal's data and revision and sends every next update to the same block, also when the journal is exactly full. |
| LateErrors.OverlapReached | trusted_applet/internal/storage/slots/journal.go:113-169 | For every format and every length 3m - 2 with m at least 2, a legal run of two updates leads to a state where the next one overwrites the current record's first block. |
| LateErrors.OverlapReachedOne | trusted_applet/internal/storage/slots/journal.go:113-169 | In a journal of one block of at least 144 bytes, one update leads to such a state. |
| LateErrors.LateErrorLosesAll | trusted_applet/internal/storage/slots/journal.go:139-172 | For every such length, in a legal run, an error reported after all blocks landed and one torn retry leave a journal in which reopening finds nothing, though two updates were committed. The hash must tell the torn record from the one intended. |
| LateErrors.AtomicExactlyIf | trusted_applet/internal/storage/slots/journal.go:87-172 | For a client that keeps its records to a number of blocks, every legal run is crash atomic exactly if the length is not 1 modulo 3, or is 1, or that number is below the most blocks permitted. |
| LateErrors.WrappedRevisionUnreadable | trusted_applet/internal/storage/slots/journal.go:144-169 | At revision 2^32 - 1 the next update yields revision 0 in memory and no valid entry at the block it wrote. |
| LateErrors.WrappedRevisionLost | trusted_applet/internal/storage/slots/journal.go:139-233 | After that update reopening gives exactly the record before it; if the new record overlaps that one, which only one of the most blocks permitted in a length of 1 modulo 3 can, it is not found at its place either. |
| LateErrors.LastRevisionReached | trusted_applet/internal/storage/slots/journal.go:139-233 | For every format, every length and all data that may be written without overlap, a legal run of 2^32 - 1 updates is followed by an update that succeeds and that reopening does not give. |
| LateErrors.TornFoundWhole | trusted_applet/internal/storage/slots/journal.go:236-265 | A record whose last block holds only the beginning of the magic number, torn before that block over an old header, is found as if whole, and the old entry inside it too. |
| Slots.Validate | trusted_applet/internal/storage/slots/slots.go:42-51 | A geometry validates exactly if the 32-bit sum of its slot lengths is at most its length. |
| Slots.ValidatedFits | trusted_applet/internal/storage/slots/slots.go:42-51 | A geometry that validates fits its partition exactly if that sum does not overflow. |
| Slots.OverflowValidates | trusted_applet/internal/storage/slots/slots.go:42-51 | Lengths whose sum overflows to zero validate in an empty partition. |
| Slots.OpenPartition | trusted_applet/internal/storage/slots/slots.go:65-84 | Slots are laid out one after the other, each at the 32-bit sum of the start and the lengths before it. |
| Slots.SlotsDisjoint | trusted_applet/internal/storage/slots/slots.go:74-81 | The slots of a partition that fits, and ends within 32-bit block addresses, are pairwise disjoint, in order, and inside it. |
| Slots.EqualSlots | trusted_applet/main.go:459-466 | The storage's slots all have the same length, and there are just enough to cover the partition. |
| Slots.EqualSlotsFit | trusted_applet/main.go:463-471 | Such a geometry validates, and fits, exactly if the slot length divides the partition length. |
| Slots.Deployed | trusted_applet/main.go:58-72 | The deployed partition has 4096 slots that fill it, ends at byte 2^32 exactly, every slot's size fits 32 bits, the scan goes on at block 0x800000 after a record ending there, and slot lengths are 1 modulo 3. |
| Slots.Slot.Open | trusted_applet/internal/storage/slots/slots.go:155-168 | Opening is idempotent and gives what the scan of the slot's blocks on the device finds; a corrupt slot stays closed. |
| Slots.Slot.OpenSound | trusted_applet/internal/storage/slots/slots.go:155-168 | On a sound slot that is what the model's scan of the slot's own blocks gives. |
| Slots.Slot.Read | trusted_applet/internal/storage/slots/slots.go:172-176 | Read returns the current record's data, and its revision as the token. |
| Slots.Slot.CheckAndWrite | trusted_applet/internal/storage/slots/slots.go:192-199 | With a stale token nothing changes; otherwise the model's write happens; success exactly if the token is current and the write succeeds; no block of another slot changes. |
| Slots.OtherSlotUntouched | trusted_applet/internal/storage/slots/slots.go:63-84 | What one slot writes does not show in a disjoint slot's blocks. |
| CompareAndSwap.OneWinnerPerToken | trusted_applet/internal/storage/slots/slots.go:189-199 | Under every interleaving of reads, writes and compare-and-swaps at most one succeeds per token; tokens of successes grow. |
| CompareAndSwap.SuccessMeansUnchanged | trusted_applet/internal/storage/slots/slots.go:170-199 | If a compare-and-swap succeeds with the token of an earlier read, nothing was written in between and the data read is the data replaced. |
| CompareAndSwap.OneOp | trusted_applet/internal/storage/slots/slots.go:178-199 | A failed or stale write leaves readable data and revision unchanged; a successful one replaces them and moves the revision by one. |
| Directory.CheckpointRoundTrip | trusted_applet/internal/storage/persistence.go:101-130 | Unmarshalling a marshalled checkpoint gives it back, and a stored checkpoint is never taken for an empty slot. |
| Directory.Populate | trusted_applet/internal/storage/persistence.go:227-245 | A well-allocated stored map yields a table whose logs and ascending free list partition slots 1 to n - 1; maps that use slot 0 or a missing slot are refused. |
| Directory.AssignPartitions | trusted_applet/internal/storage/persistence.go:270-275 | A new log gets the lowest slot that no log has; the partition and all other logs' slots stay. |
| SlotPersistence.Store.Init | trusted_applet/internal/storage/persistence.go:86-99 | Slot 0 is opened and the directory in it read into the map there is, or it fails; the first Init is the model's boot step. |
| SlotPersistence.InitAgain | trusted_applet/internal/storage/persistence.go:84-99 | Init is idempotent: in every state of the invariant reading the directory again gives the same table and token. |
| SlotPersistence.Store.PopulateMap | trusted_applet/internal/storage/persistence.go:215-246 | Reading the directory into the map there is and marking used slots gives exactly the table of the merged map and the directory slot's revision as write token, or fails; no slot changes. |
| SlotPersistence.Store.StoreDirectory | trusted_applet/internal/storage/persistence.go:250-262 | The directory write is a compare-and-swap with the kept token; the token advances exactly on success; no other slot changes. |
| SlotPersistence.Store.LogSlot | trusted_applet/internal/storage/persistence.go:194-211 | A known log's slot is returned without any write; a new one gets the first free slot, in memory even if storing the directory fails, and is told so exactly if the directory fits slot 0 and the device answers without error; without free slots, or if none is to be assigned, nothing changes. |
| SlotPersistence.Store.Update | trusted_applet/internal/storage/persistence.go:160-190 | One call is the model's steps locate, fetch and commit in sequence, whole state included. Said without the model: if the log's slot opens and its data is 1 82 65 87 and a checkpoint, or a legacy record of one, the call succeeds exactly if the function accepts the checkpoint, the result fits and the device answers without error; then the slot holds 1 82 65 87 and the result with the next revision, otherwise its record stays. A new log gets the first free slot, or fails. |
| SlotPersistence.Store.Latest | trusted_applet/internal/storage/persistence.go:136-155 | An unknown log, and one whose slot is empty, is "not found"; otherwise the checkpoint behind 1 82 65 87, or in the legacy record, is given. That is what the model answers; the state changes as by an update whose function refuses, or not at all for an unknown log. |
| SlotPersistence.UpdatesKeep | trusted_applet/internal/storage/persistence.go:160-190 | Between calls the storage satisfies the invariant from which the guarantees over runs follow. |
| SlotPersistence.SlotsSound | trusted_applet/internal/storage/persistence.go:136-190 | The soundness that the methods ask of slots is part of that invariant. |
| Durability.StepKeeps | trusted_applet/internal/storage/persistence.go:86-281 | Every step of boot, restart, and of concurrent updates, with any device answers, keeps the invariant of slots, directory, pending calls and histories. |
| Guarantees.EveryRun | trusted_applet/internal/storage/persistence.go:160-281 | In every state of every run: log slots and ascending free list partition slots 1 to n - 1, the write token is the directory slot's revision, the stored map is part of the one in memory, and each slot's checkpoints form a chain in which each was computed from the one immediately before it by the function of a commit of this run to this slot, recorded with its log, made when that one was current; restarts and recovered attempts included. |
| Guarantees.NoLostUpdate | trusted_applet/internal/storage/persistence.go:160-190 | A successful update adds exactly its checkpoint, computed from the last one, to its slot's history, where it stays right behind the one it was computed from. |
| Guarantees.StoredGrows | trusted_applet/internal/storage/persistence.go:250-281 | In every run, with any restarts and failures, the stored map only grows: a stored log keeps its slot for ever. |
| Guarantees.RunStored | trusted_applet/internal/storage/persistence.go:160-211 | And every write to that slot from then on is made for that log. |
| Guarantees.NeverRolledBack | trusted_applet/internal/storage/persistence.go:136-190 | After a successful update of a stored log and any later run, writes to the log and restarts included: the log has the same slot, its history goes on from that checkpoint, each computed by a call for this log from the one right before, and Latest gives the last of them or an attempt to replace exactly that one which reached the disk. |
| Guarantees.Durable | trusted_applet/internal/storage/persistence.go:136-190 | A log in the stored directory whose last write succeeded is answered with that checkpoint after any run that does not write it, with any restarts, updates of other logs, and calls for this log that lose or refuse; its slot never changes. |
| Guarantees.UpdateIsDurable | trusted_applet/internal/storage/persistence.go:160-190 | If an update of a stored log succeeds, Latest gives exactly the checkpoint the caller computed, after any such run. |
| Guarantees.RestartKeepsStored | trusted_applet/internal/storage/persistence.go:215-246 | From every state a restart succeeds, and the logs known are exactly those in the directory that slot 0 reopens to, the last stored or one whose write reported an error since; all stored logs are among them, and none that was not in memory. |
| Guarantees.StoreSyncs | trusted_applet/internal/storage/persistence.go:250-281 | Each successful directory write makes the stored map equal the one in memory, whatever failed before. |
| Guarantees.SyncedRestart | trusted_applet/internal/storage/persistence.go:215-246 | While the stored map equals the one in memory, also with directory writes in doubt, a restart brings back exactly the logs there were. |
| Guarantees.RunInSync | trusted_applet/internal/storage/persistence.go:250-281 | While directory writes succeed the two maps are equal at all times. |
| Guarantees.RunTidy | trusted_applet/internal/storage/persistence.go:264-281 | In every run, with any failed directory writes, that restarts only while the stored map equals the one in memory, slots of no log hold no data. |
| Guarantees.NewLogEmpty | trusted_applet/internal/storage/persistence.go:136-155 | Then a new log is answered "not found", whether or not its directory entry could be stored. |
| Guarantees.OneLogPerSlot | trusted_applet/internal/storage/persistence.go:264-281 | And in such runs no log loses its slot, so a slot only ever serves one log. |
| Guarantees.RestartTidy | trusted_applet/internal/storage/persistence.go:215-281 | A restart leaves data in a free slot exactly if some log that is not in the directory found has data, or attempts at it, in its slot. |
| DirectoryFailure.ForeignCheckpoint | trusted_applet/internal/storage/persistence.go:264-281 | From every state with a free slot, no data in free slots and memory equal to disk, one failed directory write: the log's later update succeeds, after a restart the log is unknown, and the next new log, never updated, is served that checkpoint. |
| DirectoryFailure.ForeignCheckpointReached | trusted_applet/internal/storage/persistence.go:86-281 | The same as one legal run from a zeroed partition with at least two slots, for all payloads that fit, cannot be taken for headers and are told apart by length or hash. |
| Contention.LocateActs | trusted_applet/internal/storage/persistence.go:194-211 | Whatever calls are pending, a known log's slot is found at once, without a write. |
| Contention.FetchActs | trusted_applet/internal/storage/persistence.go:166-174 | Whatever calls are pending, a call opens its slot and has exactly its data and revision. |
| Contention.CommitActs | trusted_applet/internal/storage/persistence.go:176-189 | Whatever calls are pending, a commit replaces the slot's record exactly if there is a result, it fits, the token is current and the device succeeds; nothing else changes. |
| Contention.BothCommit | trusted_applet/internal/storage/persistence.go:160-190 | Of two calls that fetched the same token the first commit goes through and the second does not, whatever its function. |
| Contention.ExactlyOneCommits | trusted_applet/internal/storage/persistence.go:160-190 | From every state with a known log, and whatever other calls are pending, that is a legal run, and the slot holds the first one's result. |
| Contention.ContentionReached | trusted_applet/internal/storage/persistence.go:86-281 | The same as one legal run from a zeroed partition. |
| Lease.LeaseStarts | trusted_applet/net.go:133-166 | With the first lease the address is configured and one child is started, not cancelled. |
| Lease.LeaseChanges | trusted_applet/net.go:118-166 | A change of address, step by step: the child is cancelled, the callback waits until it has ended, only then is the old address removed, and a child is started for the new one. |
| Lease.Renewal | trusted_applet/net.go:110-116 | A renewal leaves everything as it is. |
| Lease.StepCounts | trusted_applet/net.go:121-166 | Only a child's end puts a token into the channel, and only adding an address starts a child. |
| Lease.RunningWhileHeld | trusted_applet/net.go:95-171 | In every ordered run, while no child has ended there is one running for each address configured. |
| Lease.Supervised | trusted_applet/net.go:95-171 | In every run with addresses reported in order children plus channel tokens number as many as addresses are configured, at most one; no address is removed while its function runs; no child signals on the closed channel. |
| Lease.NeverStuck | trusted_applet/net.go:95-171 | If adding addresses succeeds nothing ever panics, through the client's stop, and a waiting callback gets its token once the child ends. |
| Lease.NextChange | trusted_applet/net.go:118-131 | At the next address change the callback panics exactly if no child was ever started, and otherwise waits for ever, whatever happens, exactly if the last address was not added. |
| Lease.AddFailureSticks | trusted_applet/net.go:143-147 | One lease, one refused address, and the callback of the third change never returns, whatever happens. |
| Lease.FirstAddFailurePanics | trusted_applet/net.go:118-131 | If the first address is refused, the next change, or the client's stop, panics. |
| Lease.StopsExactlyIf | third_party/dhcp/client.go:329-339 | When the client stops, its clean-up report and the closing of the channel go through exactly if the last address reported, if any, was added; otherwise the callback panics or waits for ever and the channel is never closed. |

## Left out

- YAML: the encoding of the slot map and legacy checkpoint records are a codec with a round-trip law; an empty slot decodes to "no checkpoint".
- SHA-256, key derivation, notes and attestation: cryptographic libraries and hardware calls.
- Firmware fetch, verification and update: thin wrappers over packages that are not part of this model.
- Read-back verification of writes: `Update` does none, although a test expects it.
- Disk corruption from outside, and blocks written in part.
- Read errors inside the device: `init` would take them for invalid entries.
- `Partition.Open` going on after a journal failed to open, and `Erase`: opening never fails on reachable disks; erasing would only add an easy member.
- Memory allocation in `unmarshalEntry`: a header claiming more data than the device holds counts as a read error, not as a failed allocation; no reachable header does that.
- An out-of-range slot in the stored map counts as an error, not as an index panic; no reachable directory holds one.
- Locks: interleavings are sequences of whole locked operations; in `Slots` and `SlotPersistence` one call runs to its end.
- Slots.Slot.Open: likewise requires that no header in the slot claims data past byte 2^32 on a device that reaches that far; sound slots, and so all reachable ones, satisfy this.
- Journals.Journal.Init: requires that no header claims data past byte 2^32 when the device reaches that far, where the source would go on reading from block 0; sound journals satisfy this.
- BlockReaders.BlockReader.Read: likewise stops at byte 2^32.
- BlockReaders.BlockReader.ReadFull: likewise, for reads that would pass byte 2^32.
- BlockReaders.ReadEntry: likewise, for entries that claim bytes past it.
- Lease.Supervised: what the networked function does, and whether it ends when cancelled, is up to the event sequence.
- Ethernet, NTP, HTTP handlers, metrics, LEDs and memory layout: input and output.
