/**
  The write log's half of the commit protocol: lock every written cell
  (`try_lock_entries`, backing out with `unlock_entries_until` on the first
  failure), release them (`unlock_entries`), store the pending values
  (`perform_writes`) and stamp the cells with the commit epoch (`publish`).

  Each operation walks the records front to back. A deactivated record takes
  part in every walk but touches nothing.
 */
module Commit {
  import opened Bloom
  import opened WriteEntry
  import opened WriteLog

  /** One of the first `k` records targets cell `a`. */
  predicate TargetedBefore(data: seq<Record>, k: nat, a: Addr) {
    exists i :: 0 <= i < k && i < |data| && IsDestCell(data[i], a)
  }

  /** Every active record's target is a cell of the heap. */
  predicate CellsPresent(data: seq<Record>, heap: Heap) {
    forall i | 0 <= i < |data| :: DestIn(data[i], heap)
  }

  /**
    The lock attempt of record `r` would succeed on `heap`: it is deactivated,
    or the lock oracle lets it take its cell's lock.
   */
  predicate Lockable(r: Record, heap: Heap, pin: Epoch, canLock: LockOracle)
    requires DestIn(r, heap)
  {
    !IsActive(r) || canLock(r.dest.value, heap[r.dest.value], pin)
  }

  /** Every record's lock attempt would succeed on `heap`. */
  predicate AllLockable(data: seq<Record>, heap: Heap, pin: Epoch, canLock: LockOracle)
    requires CellsPresent(data, heap)
  {
    forall i | 0 <= i < |data| :: Lockable(data[i], heap, pin, canLock)
  }

  /** Record `k` is the first whose lock attempt fails. */
  predicate FirstFailure(data: seq<Record>, k: nat, heap: Heap, pin: Epoch, canLock: LockOracle)
    requires CellsPresent(data, heap)
  {
    k < |data| && !Lockable(data[k], heap, pin, canLock) &&
    forall j | 0 <= j < k :: Lockable(data[j], heap, pin, canLock)
  }

  /** `heap` with the lock bit of every cell targeted by the first `k` records set to `flag`. */
  function WithLockBit(data: seq<Record>, k: nat, heap: Heap, flag: bool): (h: Heap)
    ensures h.Keys == heap.Keys
  {
    map a | a in heap :: if TargetedBefore(data, k, a) then heap[a].(locked := flag) else heap[a]
  }

  /**
    Unlocking the first `k` records, front to back. The cells they target end
    up unlocked with version and value kept; every other cell is untouched.
   */
  function UnlockPrefix(data: seq<Record>, k: nat, heap: Heap): (h: Heap)
    requires k <= |data| && CellsPresent(data, heap)
    ensures h.Keys == heap.Keys
    ensures h == WithLockBit(data, k, heap, false)
  {
    if k == 0 then heap
    else
      var prev := UnlockPrefix(data, k - 1, heap);
      Unlock(data[k - 1], prev)
  }

  /** `unlock_entries`: release the lock of every record's cell. */
  function UnlockEntries(log: WriteLog, heap: Heap): (h: Heap)
    requires CellsPresent(log.data, heap)
    ensures h.Keys == heap.Keys
    ensures forall a | a in heap :: h[a].version == heap[a].version && h[a].words == heap[a].words
    ensures forall a | a in heap :: h[a].locked == (heap[a].locked && !Targets(log.data, a))
  {
    UnlockPrefix(log.data, |log.data|, heap)
  }

  /**
    `unlock_entries_until(entry)`: release the locks of the records before the
    one at position `k`; that record and the ones after it are not visited.
   */
  function UnlockEntriesUntil(log: WriteLog, k: nat, heap: Heap): (h: Heap)
    requires k <= |log.data| && CellsPresent(log.data, heap)
    ensures h == WithLockBit(log.data, k, heap, false)
    ensures forall a | a in heap && !TargetedBefore(log.data, k, a) :: h[a] == heap[a]
  {
    UnlockPrefix(log.data, k, heap)
  }

  /** With distinct targets, an active record's cell is not targeted by any record before it. */
  lemma UniqueNotBefore(data: seq<Record>, i: nat)
    requires UniqueDests(data)
    requires i < |data|
    ensures IsActive(data[i]) ==> !TargetedBefore(data, i, data[i].dest.value)
  {
  }

  /**
    If the oracle respects held locks, the cells the first `k` records locked
    were unlocked to begin with, so unlocking them restores the heap exactly.
   */
  lemma RelockRestores(data: seq<Record>, k: nat, heap: Heap, pin: Epoch, canLock: LockOracle)
    requires k <= |data| && CellsPresent(data, heap)
    requires RespectsLocks(canLock)
    requires forall j | 0 <= j < k :: Lockable(data[j], heap, pin, canLock)
    ensures WithLockBit(data, k, heap, false) == heap
  {
  }

  /**
    `try_lock_entries`: lock the records' cells in order. It succeeds exactly
    when every record's lock attempt would succeed, and then every targeted
    cell is locked. Otherwise, at the first failing record `k`, the locks of
    records `0..k` are released again and records from `k` on were never
    locked; when the oracle respects held locks the heap is back as it was.
   */
  method TryLockEntries(log: WriteLog, pin: Epoch, heap: Heap, canLock: LockOracle)
    returns (ok: bool, h: Heap)
    requires UniqueDests(log.data) && CellsPresent(log.data, heap)
    ensures h.Keys == heap.Keys
    ensures ok <==> AllLockable(log.data, heap, pin, canLock)
    ensures ok ==> h == WithLockBit(log.data, |log.data|, heap, true)
    ensures !ok ==> exists k :: FirstFailure(log.data, k, heap, pin, canLock) &&
                                h == WithLockBit(log.data, k, heap, false)
    ensures !ok && RespectsLocks(canLock) ==> h == heap
  {
    var data := log.data;
    h := heap;
    var i := 0;
    while i < |data|
      invariant 0 <= i <= |data|
      invariant forall j | 0 <= j < i :: Lockable(data[j], heap, pin, canLock)
      invariant h == WithLockBit(data, i, heap, true)
    {
      var r := data[i];
      UniqueNotBefore(data, i);
      var res := TryLock(r, h, pin, canLock);
      if !res.0 {
        h := UnlockEntriesUntil(log, i, res.1);
        assert FirstFailure(data, i, heap, pin, canLock);
        assert h == WithLockBit(data, i, heap, false);
        if RespectsLocks(canLock) {
          RelockRestores(data, i, heap, pin, canLock);
        }
        return false, h;
      }
      h := res.1;
      i := i + 1;
    }
    return true, h;
  }

  /**
    `h` is `heap` after the writes of the first `k` records: each active
    record's cell holds that record's payload with its version and lock bit
    kept, and cells none of them targets are untouched.
   */
  predicate WritesApplied(data: seq<Record>, k: nat, heap: Heap, h: Heap)
    requires k <= |data|
  {
    h.Keys == heap.Keys &&
    (forall a | a in heap && !TargetedBefore(data, k, a) :: a in h && h[a] == heap[a]) &&
    (forall i | 0 <= i < k && IsActive(data[i]) && data[i].dest.value in heap ::
       data[i].dest.value in h &&
       h[data[i].dest.value] == heap[data[i].dest.value].(words := data[i].pending))
  }

  /** One more record's write extends the writes applied so far by that record's. */
  lemma PerformStep(data: seq<Record>, k: nat, heap: Heap, prev: Heap)
    requires 0 < k <= |data| && UniqueDests(data) && CellsPresent(data, heap)
    requires WritesApplied(data, k - 1, heap, prev)
    ensures DestIn(data[k - 1], prev)
    ensures WritesApplied(data, k, heap, PerformWrite(data[k - 1], prev))
  {
  }

  /** Storing the pending values of the first `k` records, front to back. */
  function PerformPrefix(data: seq<Record>, k: nat, heap: Heap): (h: Heap)
    requires k <= |data| && UniqueDests(data) && CellsPresent(data, heap)
    ensures WritesApplied(data, k, heap, h)
  {
    if k == 0 then heap
    else
      var prev := PerformPrefix(data, k - 1, heap);
      PerformStep(data, k, heap, prev);
      PerformWrite(data[k - 1], prev)
  }

  /** `perform_writes`: store every active record's payload into its cell. */
  function PerformWrites(log: WriteLog, heap: Heap): (h: Heap)
    requires UniqueDests(log.data) && CellsPresent(log.data, heap)
    ensures h.Keys == heap.Keys
    ensures forall a | a in heap && !Targets(log.data, a) :: h[a] == heap[a]
    ensures forall i | 0 <= i < |log.data| && IsActive(log.data[i]) ::
      var c := log.data[i].dest.value;
      h[c].words == log.data[i].pending && h[c].version == heap[c].version && h[c].locked == heap[c].locked
  {
    PerformPrefix(log.data, |log.data|, heap)
  }

  /** `heap` with every cell targeted by the first `k` records stamped with `epoch` and unlocked. */
  function Stamped(data: seq<Record>, k: nat, heap: Heap, epoch: Epoch): (h: Heap)
    ensures h.Keys == heap.Keys
  {
    map a | a in heap :: if TargetedBefore(data, k, a) then heap[a].(version := epoch, locked := false) else heap[a]
  }

  /** Publishing the first `k` records, front to back. */
  function PublishPrefix(data: seq<Record>, k: nat, heap: Heap, epoch: Epoch): (h: Heap)
    requires k <= |data| && CellsPresent(data, heap)
    ensures h.Keys == heap.Keys
    ensures h == Stamped(data, k, heap, epoch)
  {
    if k == 0 then heap
    else
      var prev := PublishPrefix(data, k - 1, heap, epoch);
      Publish(data[k - 1], prev, epoch)
  }

  /**
    `WriteLog::publish`: stamp every record's cell with the commit epoch and
    release its lock; the cells' values are untouched.
   */
  function PublishLog(log: WriteLog, heap: Heap, epoch: Epoch): (h: Heap)
    requires CellsPresent(log.data, heap)
    ensures h.Keys == heap.Keys
    ensures forall a | a in heap && !Targets(log.data, a) :: h[a] == heap[a]
    ensures forall a | a in heap && Targets(log.data, a) ::
      h[a].version == epoch && !h[a].locked && h[a].words == heap[a].words
  {
    PublishPrefix(log.data, |log.data|, heap, epoch)
  }

  /**
    The commit round trip: after locking every cell, performing the writes and
    publishing at `epoch`, each written cell holds its record's payload, carries
    version `epoch` and is unlocked; every other cell is as it was.
   */
  lemma CommitRoundTrip(log: WriteLog, heap: Heap, epoch: Epoch)
    requires UniqueDests(log.data) && CellsPresent(log.data, heap)
    ensures var locked := WithLockBit(log.data, |log.data|, heap, true);
            var h := PublishLog(log, PerformWrites(log, locked), epoch);
            h.Keys == heap.Keys &&
            (forall i | 0 <= i < |log.data| && IsActive(log.data[i]) ::
               h[log.data[i].dest.value] == Cell(epoch, false, log.data[i].pending)) &&
            (forall a | a in heap && !Targets(log.data, a) :: h[a] == heap[a])
  {
  }

  /**
    Aborting after a successful lock: `unlock_entries` on the locked heap gives
    back the original heap when the oracle respects held locks.
   */
  lemma LockThenUnlockRestores(log: WriteLog, heap: Heap, pin: Epoch, canLock: LockOracle)
    requires CellsPresent(log.data, heap)
    requires RespectsLocks(canLock)
    requires AllLockable(log.data, heap, pin, canLock)
    ensures UnlockEntries(log, WithLockBit(log.data, |log.data|, heap, true)) == heap
  {
  }

  /**
    Mutual exclusion: once one log holds the locks of all its cells, a second
    log that writes one of those cells cannot take all of its locks.
   */
  lemma LockedCellsExclude(log1: WriteLog, log2: WriteLog, heap: Heap, pin: Epoch, canLock: LockOracle, c: Addr)
    requires CellsPresent(log1.data, heap) && CellsPresent(log2.data, heap)
    requires RespectsLocks(canLock)
    requires Targets(log1.data, c) && Targets(log2.data, c)
    ensures !AllLockable(log2.data, WithLockBit(log1.data, |log1.data|, heap, true), pin, canLock)
  {
  }

  /**
    A deactivated record is inert: once the only record of cell `c` is
    deactivated, locking, unlocking, writing and publishing the log all leave
    `c` as it was.
   */
  lemma CommitSkipsDeactivated(log: WriteLog, i: nat, heap: Heap, epoch: Epoch)
    requires Valid(log) && CellsPresent(log.data, heap)
    requires i < |log.data| && IsActive(log.data[i])
    ensures var d := DeactivateAt(log, i);
            var c := log.data[i].dest.value;
            CellsPresent(d.data, heap) &&
            WithLockBit(d.data, |d.data|, heap, true)[c] == heap[c] &&
            UnlockEntries(d, heap)[c] == heap[c] &&
            PerformWrites(d, heap)[c] == heap[c] &&
            PublishLog(d, heap, epoch)[c] == heap[c]
  {
  }
}
