# Write log of a software transactional memory, in Dafny

This project models the per-transaction write log of the `swym` software
transactional memory (`src/internal/write_log.rs`). The log has two parts:

- a one-word bloom filter over the cells the transaction has written;
- the append-only list of write records. Each record holds a target cell and
  the pending value for it.

The model covers four areas:

- **the hash**: `calc_shift` and `bloom_hash`;
- **a single record**: `WriteEntryImpl::new` and the type-erased `dyn
  WriteEntry` view (`deactivate`, `is_dest_tcell`, `read`, `try_lock`,
  `unlock`, `perform_write`, `publish`);
- **the log's lookups and updates**: `new`, `contained`, `clear`,
  `clear_no_drop`, `is_empty`, `find_slow`, `find`, `entry_slow`, `entry`,
  `push`, `push_unchecked`, and deactivation through an `Occupied` entry;
- **the log's side of the commit protocol**: `try_lock_entries`,
  `unlock_entries_until`, `unlock_entries`, `perform_writes` and `publish`.

How things are represented:

- A machine word used as a filter (`usize`) is modelled as the set of
  positions of its one bits. `Bloom.Value` gives the number such a set
  stands for:
  - `0` is `{}`;
  - `filter | hash` is `filter + hash`;
  - `filter & hash == 0` is `filter * hash == {}`.
- Addresses and the words of a pending value are `usize` values, that is,
  naturals below 2^64.
- A record whose target is `None` has been deactivated.
- The shared cells form a map from address to `Cell(version, locked, words)`.
- Whether a cell's `EpochLock::try_lock(pin_epoch)` succeeds is decided by a
  lock oracle, `(Addr, Cell, Epoch) -> bool`, passed in as a parameter.
  Some results also assume the oracle property `RespectsLocks`: a cell that
  is already locked cannot be locked again.

Files and modules:

- `wrappers.dfy` (`Wrappers`): the `Option` type.
- `bloom.dfy` (`Bloom`): words, addresses, `CalcShift`, `HashIndex`,
  `BloomHash`.
- `write_entry.dfy` (`WriteEntry`): records, cells and the per-record
  operations.
- `write_log.dfy` (`WriteLog`): the log, its invariant `Valid`, and lookup
  and insertion.
- `commit.dfy` (`Commit`): locking, writing and publishing all records.

`WriteLog.Valid` is the invariant that every log built by the operations
satisfies, and that `is_empty`, `find` and `entry` rely on. It has three
parts:

- the filter is zero exactly when the container is empty;
- every active record's hash bit is set in the filter;
- no two active records target the same cell.

`New` and `Clear` establish it and `DeactivateAt` preserves it. `Push`
preserves it when it is given the cell's own `bloom_hash`, the hash a
`Vacant` entry carries: every push in the model does this. Any nonzero hash
keeps the first part, since the filter becomes nonzero as the container
becomes non-empty.

`TryLockEntries` does not require the log to be non-empty, although the
program checks this with a debug assertion. On an empty log the model
returns `true`, as the release build does.

## Model

| member | source | states |
|---|---|---|
| Bloom.CalcShift | src/internal/write_log.rs:383-392 | the shift is one plus the number of the thresholds 1, 2, 4, 8 that the alignment exceeds, so it lies between 1 and 5 |
| Bloom.CalcShiftIsLog2PlusOne | src/internal/write_log.rs:383-392 | for power-of-two alignments up to 16, the shift is log2(alignment) + 1 |
| Bloom.GranuleIs16 | src/internal/write_log.rs:394-397 | with 8-byte cell alignment `SHIFT` is 4, so an address is hashed by 16-byte granule |
| Bloom.BloomHash | src/internal/write_log.rs:394-400 | the hash is nonzero and its only one bit is at `(addr >> SHIFT) mod 64` |
| Bloom.Value | src/internal/write_log.rs:151-155 | the numeric value of a filter word is below 2^64 and is zero exactly when no bit is set, so the program's `filter == 0` test is emptiness of the bit set |
| Bloom.BloomHashValue | src/internal/write_log.rs:394-400 | as a number the hash is `2^((addr >> SHIFT) mod 64)`, the `1 << (raw_hash & 63)` of the program |
| Bloom.HashIsSingleBit | src/internal/write_log.rs:394-400 | the hash has exactly one bit set |
| Bloom.HashesOverlap | src/internal/write_log.rs:394-400 | two addresses' hashes share a bit if and only if the addresses hash to the same bit index |
| Bloom.HashPeriodic | src/internal/write_log.rs:394-400 | addresses 1024 bytes apart always have the same hash, so the filter cannot tell them apart |
| Bloom.HashGranules | src/internal/write_log.rs:394-400 | addresses in the same 16-byte granule share a bit, and the next granule maps to the next bit modulo 64 |
| WriteEntry.IsActive | src/internal/write_log.rs:37-42 | an active record, one whose `tcell()` is `Some`, targets its own cell; an inactive record targets no cell at all |
| WriteEntry.IsDestCell | src/internal/write_log.rs:66-72 | true exactly when the record is active and its target is the given cell; never true once deactivated |
| WriteEntry.DestCellUnique | src/internal/write_log.rs:66-72 | a record matches at most one cell, and a deactivated record matches none |
| WriteEntry.NewRecord | src/internal/write_log.rs:23-31 | a new record is active and matches exactly its destination cell |
| WriteEntry.Deactivate | src/internal/write_log.rs:58-64 | requires an active record; afterwards it is inactive, matches no cell, and keeps its payload |
| WriteEntry.Read | src/internal/write_log.rs:75-88 | reading at the record's own width returns a value of that width, which is never zero |
| WriteEntry.ReadRoundTrip | src/internal/write_log.rs:75-88 | reading a new record, deactivated or not, returns the value it was built with |
| WriteEntry.TryLock | src/internal/write_log.rs:92-100 | an inactive record succeeds and changes nothing; an active one succeeds exactly when the oracle allows it; a failure changes nothing; a success locks only the target and keeps its version and value |
| WriteEntry.Unlock | src/internal/write_log.rs:103-108 | only the target's lock bit is cleared, and version and value are kept |
| WriteEntry.PerformWrite | src/internal/write_log.rs:111-129 | only the target's value changes, to the pending words; version and lock are kept |
| WriteEntry.Publish | src/internal/write_log.rs:132-140 | only the target changes: it gets the publish epoch and is unlocked, with its value kept |
| WriteEntry.LockUnlockRoundTrip | src/internal/write_log.rs:92-108 | if the oracle never grants a held lock, a successful `try_lock` followed by `unlock` gives back the original heap |
| WriteEntry.WritePublishRoundTrip | src/internal/write_log.rs:111-140 | after `perform_write` and `publish`, an active record's cell is exactly `(epoch, unlocked, pending value)`; an inactive record leaves the heap as it was |
| WriteLog.New | src/internal/write_log.rs:159-164 | the new log is valid, empty, and targets no cell |
| WriteLog.FilterTest | src/internal/write_log.rs:167-174 | `No` if and only if the filter and the hash share no bit |
| WriteLog.NoFalseNegatives | src/internal/write_log.rs:224-234 | when the filter covers the active records, a targeted cell is never reported `No` |
| WriteLog.Clear | src/internal/write_log.rs:177-182 | the result is a valid, empty log with a zero filter; clearing an empty log changes nothing |
| WriteLog.ClearNoDrop | src/internal/write_log.rs:185-189 | gives the same log as `clear` (only drop behaviour differs) |
| WriteLog.ClearIdempotent | src/internal/write_log.rs:177-189 | clearing twice equals clearing once, and afterwards `is_empty` holds |
| WriteLog.IsEmpty | src/internal/write_log.rs:192-208 | when filter and container agree, the zero-filter test answers exactly whether the container is empty |
| WriteLog.FirstMatch | src/internal/write_log.rs:211-216 | returns the first position at or after `start` whose record targets the cell, or `None` if no later record targets it |
| WriteLog.FindSlow | src/internal/write_log.rs:211-222 | the scan is exact: `Some` if and only if some record targets the cell, and the hit targets it |
| WriteLog.Find | src/internal/write_log.rs:226-234 | a hit targets the cell; on a covering filter, `Some` if and only if some record targets the cell |
| WriteLog.FindExact | src/internal/write_log.rs:226-234 | on a valid log, `find` on an active record's cell returns that record's position |
| WriteLog.EntrySlow | src/internal/write_log.rs:237-254 | `Occupied` if and only if some record targets the cell, at a record that targets it, carrying the given hash |
| WriteLog.EntryFor | src/internal/write_log.rs:258-266 | carries the cell's hash; on a covering filter, `Occupied` if and only if some record targets the cell |
| WriteLog.EntryAgreesWithFind | src/internal/write_log.rs:224-266 | `entry` is `Vacant` exactly when `find` is `None`, and otherwise occupies the position `find` returns |
| WriteLog.Push | src/internal/write_log.rs:274-290 | requires a nonzero hash (`NonZeroUsize`) and no active record for the cell; keeps the filter nonzero exactly when the container is non-empty; appends one active record for it with the value, keeps earlier records, and makes the filter exactly the old filter OR the hash |
| WriteLog.PushKeepsCovers | src/internal/write_log.rs:288-289 | after pushing a cell with its own hash, every active record's bit is still in the filter |
| WriteLog.PushKeepsUnique | src/internal/write_log.rs:280-289 | pushing a cell with no active record keeps at most one active record per cell |
| WriteLog.PushPreservesValid | src/internal/write_log.rs:274-290 | a push with the cell's own hash keeps all three parts of the log invariant |
| WriteLog.PushUnchecked | src/internal/write_log.rs:293-310 | takes the same nonzero hash and has the same effect as `push` |
| WriteLog.PushThenFind | src/internal/write_log.rs:274-290 | after a push, `find` returns the new last position and `entry` is `Occupied` there |
| WriteLog.PushKeepsOthers | src/internal/write_log.rs:274-290 | a push does not change `find`'s answer for any other cell |
| WriteLog.DeactivateAt | src/internal/write_log.rs:58-64 | deactivating record `i` keeps the filter, the length, the payload and every other record |
| WriteLog.DeactivatePreservesValid | src/internal/write_log.rs:58-72 | deactivation keeps the log valid, and afterwards no record targets the cell and `find` returns `None` |
| WriteLog.Recorded | src/internal/write_log.rs:274-290 | pushing distinct cells onto a new log gives a valid log whose records are exactly the writes, in order |
| WriteLog.RecordedFound | src/internal/write_log.rs:226-266 | after any sequence of pushes, every pushed cell is found at its push position and its entry is `Occupied` there |
| WriteLog.RecordedFilter | src/internal/write_log.rs:288-289 | after any sequence of pushes, a filter bit is set exactly when some pushed cell hashes to it, so the filter holds no bit that no record explains |
| WriteLog.RecordedMaybeOnlyOnCollision | src/internal/write_log.rs:167-174 | on a recorded log the filter answers `Maybe` for a cell exactly when some pushed cell shares its hash bit, so for a cell never pushed only on a hash collision |
| WriteLog.RecordedNotFound | src/internal/write_log.rs:226-266 | a cell never pushed gets `None` from `find` and `Vacant` from `entry` |
| WriteLog.CollisionFallsThrough | src/internal/write_log.rs:211-234 | on a filter collision the fast test says `Maybe`, but the scan still gives `None` and `Vacant` |
| Commit.UnlockPrefix | src/internal/write_log.rs:330-336 | unlocking the first `k` records, front to back, clears exactly the lock bits of the cells they target |
| Commit.UnlockEntriesUntil | src/internal/write_log.rs:330-336 | only the cells of records before position `k` are unlocked; every other cell is unchanged |
| Commit.UnlockEntries | src/internal/write_log.rs:339-343 | each cell keeps its version and value, and ends up locked exactly when it was locked before and no record targets it |
| Commit.RelockRestores | src/internal/write_log.rs:314-326 | when the oracle respects locks, unlocking the records that locked successfully restores the heap exactly |
| Commit.TryLockEntries | src/internal/write_log.rs:314-326 | succeeds if and only if every record can lock; on success every targeted cell is locked; on the first failure at `k`, only records before `k` were locked and are unlocked again, and under `RespectsLocks` the heap is unchanged |
| Commit.PerformPrefix | src/internal/write_log.rs:346-350 | after writing the first `k` records, each active record's cell holds its payload and every untargeted cell is unchanged |
| Commit.PerformWrites | src/internal/write_log.rs:346-350 | every active record's cell holds that record's payload, with version and lock kept; other cells are unchanged |
| Commit.PublishPrefix | src/internal/write_log.rs:353-357 | publishing the first `k` records stamps and unlocks exactly the cells they target |
| Commit.PublishLog | src/internal/write_log.rs:353-357 | every targeted cell gets the epoch and is unlocked with its value kept; other cells are unchanged |
| Commit.CommitRoundTrip | src/internal/write_log.rs:314-357 | after lock, write and publish, each written cell is exactly `(epoch, unlocked, payload)` and every other cell is unchanged |
| Commit.LockThenUnlockRestores | src/internal/write_log.rs:339-343 | when the oracle respects locks, unlocking all entries after a successful lock restores the heap |
| Commit.LockedCellsExclude | src/internal/write_log.rs:314-326 | once one log holds all its locks, another log that writes one of the same cells cannot lock all its records |
| Commit.CommitSkipsDeactivated | src/internal/write_log.rs:92-140 | a cell whose only record is deactivated is left unchanged by locking, unlocking, writing and publishing |

## Left out

- Concurrency and memory orderings: the `Acquire`/`Release`/`Relaxed`
  orderings and interleaving with other threads are not modelled. Each
  operation is a sequential step on the heap, and the result of an
  `EpochLock::try_lock` is a parameter (the lock oracle).
- `EpochLock`, `QuiesceEpoch` and `TCellErased` are not part of this model.
  A cell is only its version, lock bit and value words, and an epoch is a
  natural number.
- The `stats::*` counters and the `likely!`/`unlikely!` hints have no effect
  on results and are left out.
- Type erasure and memory layout are left out: trait-object pointer
  arithmetic (`tcell_ptr`, `pending`), `ForcedUsizeAligned`, and the size
  checks in `read` and `perform_write`. The value is modelled as its
  sequence of `usize` words, never empty.
- `DynVec` is left out: allocation, capacity, `next_push_allocates`, and the
  capacity check that separates `push` from `push_unchecked` (which are
  therefore equal).
- Destructors: `clear` and `clear_no_drop` differ only in whether payloads
  are dropped, which leaves no trace in the model.
- `Bloom.CalcShift` is modelled as written, but the model evaluates it only
  for an 8-byte cell alignment, which gives `SHIFT = 4`. Other targets'
  alignments are not instantiated.
- Only a 64-bit target is modelled: `usize` is below 2^64, the filter has 64
  bits and the hash index is masked with `& 63`. A 32-bit target (a 32-bit
  filter, `& 31`, and `SHIFT = 3` for a 4-byte cell alignment) is not
  modelled.
- The `Entry` handles' lifetimes and borrows are left out. `Occupied` keeps
  the record's position, `Vacant` keeps the hash, and a caller holding a
  `Vacant` handle pushes with that hash.
- Overwriting the value of an existing entry happens in callers outside
  `write_log.rs` and is not part of this model.
- The `x.py` helper scripts only run `cargo` and are not modelled.
