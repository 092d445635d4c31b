/**
  One pending write of the write log (`WriteEntryImpl<T>` seen through the
  type-erased `dyn WriteEntry` view), the shared cells it targets, and the
  per-record half of the commit protocol.

  A record's payload is the pending value's words; the value type itself is
  erased. A record whose target is `None` has been deactivated: every lock,
  write and publish on it is a no-op.
 */
module WriteEntry {
  import opened Wrappers
  import opened Bloom

  /** A version stamp handed out by the global clock (`QuiesceEpoch`). */
  type Epoch = nat

  /** A pending value: its words, never zero of them. */
  type Payload = s: seq<Usize> | |s| > 0 witness [0]

  datatype Record = Record(dest: Option<Addr>, pending: Payload)

  /** The sequential state of a shared cell: its version/lock word and its value's words. */
  datatype Cell = Cell(version: Epoch, locked: bool, words: seq<Usize>)

  /** The cells reachable from the transaction, by address. */
  type Heap = map<Addr, Cell>

  /**
    The outcome of the cell's own `EpochLock::try_lock(pin_epoch)`, which is
    not part of this model: given the cell's address, its current state and the
    transaction's pin epoch, does the lock attempt succeed?
   */
  type LockOracle = (Addr, Cell, Epoch) -> bool

  /**
    The lock oracle never hands out a lock that is already held: the property
    of `EpochLock::try_lock` the back-out and mutual exclusion rest on.
   */
  ghost predicate RespectsLocks(canLock: LockOracle) {
    forall a, c, p :: canLock(a, c, p) ==> !c.locked
  }

  /** `tcell().is_some()`: the record still has a target, that is, it has not been deactivated. */
  predicate IsActive(r: Record): (b: bool)
    ensures b ==> r.dest.Some? && IsDestCell(r, r.dest.value)
    ensures !b ==> forall c :: !IsDestCell(r, c)
  {
    r.dest.Some?
  }

  /**
    `is_dest_tcell`: does this record target cell `c`? Never true once
    deactivated, and true for at most one cell.
   */
  predicate IsDestCell(r: Record, c: Addr): (b: bool)
    ensures b ==> r.dest == Some(c)
    ensures r.dest == Some(c) ==> b
  {
    match r.dest
    case Some(p) => p == c
    case None => false
  }

  /** A record targets at most one cell, and an inactive one targets none. */
  lemma DestCellUnique(r: Record, c: Addr, d: Addr)
    ensures IsDestCell(r, c) && IsDestCell(r, d) ==> c == d
    ensures !IsActive(r) ==> !IsDestCell(r, c)
  {
  }

  /** The target of an active record is a cell of the heap. */
  predicate DestIn(r: Record, heap: Heap) {
    r.dest.Some? ==> r.dest.value in heap
  }

  /** `WriteEntryImpl::new`: an active record for cell `dest` holding `pending`. */
  function NewRecord(dest: Addr, pending: Payload): (r: Record)
    ensures IsActive(r)
    ensures forall c :: IsDestCell(r, c) <==> c == dest
  {
    Record(Some(dest), pending)
  }

  /**
    `deactivate`: drop the record's target, keeping its payload. The record
    must be active (checked by a debug assertion in the program).
   */
  function Deactivate(r: Record): (d: Record)
    requires IsActive(r)
    ensures !IsActive(d)
    ensures forall c :: !IsDestCell(d, c)
    ensures d.pending == r.pending
  {
    r.(dest := None)
  }

  /**
    `read::<T>`: copy the pending value back out. The caller asserts the erased
    type; here that is the claim that the value is `width` words wide.
   */
  function Read(r: Record, width: nat): (v: seq<Usize>)
    requires width == |r.pending|
    ensures |v| == width > 0
  {
    r.pending
  }

  /** Reading a fresh record returns the value it was built with, whatever its target. */
  lemma ReadRoundTrip(dest: Addr, v: Payload)
    ensures Read(NewRecord(dest, v), |v|) == v
    ensures Read(Deactivate(NewRecord(dest, v)), |v|) == v
  {
  }

  /**
    `try_lock`: attempt to lock the target cell. A deactivated record always
    succeeds without touching anything; a failed attempt changes nothing; a
    successful one sets only the target cell's lock bit.
   */
  function TryLock(r: Record, heap: Heap, pin: Epoch, canLock: LockOracle): (res: (bool, Heap))
    requires DestIn(r, heap)
    ensures res.1.Keys == heap.Keys
    ensures !IsActive(r) ==> res.0 && res.1 == heap
    ensures IsActive(r) ==> (res.0 <==> canLock(r.dest.value, heap[r.dest.value], pin))
    ensures !res.0 ==> res.1 == heap
    ensures forall c | c in heap && !IsDestCell(r, c) :: res.1[c] == heap[c]
    ensures res.0 && IsActive(r) ==>
      var c := r.dest.value;
      res.1[c].locked && res.1[c].version == heap[c].version && res.1[c].words == heap[c].words
  {
    match r.dest
    case None => (true, heap)
    case Some(c) =>
      if canLock(c, heap[c], pin) then (true, heap[c := heap[c].(locked := true)]) else (false, heap)
  }

  /** `unlock`: release the target cell's lock bit; nothing else changes. */
  function Unlock(r: Record, heap: Heap): (h: Heap)
    requires DestIn(r, heap)
    ensures h.Keys == heap.Keys
    ensures forall c | c in heap && !IsDestCell(r, c) :: h[c] == heap[c]
    ensures IsActive(r) ==>
      var c := r.dest.value;
      !h[c].locked && h[c].version == heap[c].version && h[c].words == heap[c].words
  {
    match r.dest
    case None => heap
    case Some(c) => heap[c := heap[c].(locked := false)]
  }

  /**
    `perform_write`: store the pending words into the target cell; its version
    and lock bit are untouched.
   */
  function PerformWrite(r: Record, heap: Heap): (h: Heap)
    requires DestIn(r, heap)
    ensures h.Keys == heap.Keys
    ensures forall c | c in heap && !IsDestCell(r, c) :: h[c] == heap[c]
    ensures IsActive(r) ==>
      var c := r.dest.value;
      h[c].words == r.pending && h[c].version == heap[c].version && h[c].locked == heap[c].locked
  {
    match r.dest
    case None => heap
    case Some(c) => heap[c := heap[c].(words := r.pending)]
  }

  /**
    `publish`: stamp the target cell with the commit epoch and release its
    lock in one step (`unlock_as_epoch`); the cell's value is untouched.
   */
  function Publish(r: Record, heap: Heap, epoch: Epoch): (h: Heap)
    requires DestIn(r, heap)
    ensures h.Keys == heap.Keys
    ensures forall c | c in heap && !IsDestCell(r, c) :: h[c] == heap[c]
    ensures IsActive(r) ==>
      var c := r.dest.value;
      h[c].version == epoch && !h[c].locked && h[c].words == heap[c].words
  {
    match r.dest
    case None => heap
    case Some(c) => heap[c := heap[c].(version := epoch, locked := false)]
  }

  /**
    Locking and then unlocking a record gives back the heap it started from,
    provided the oracle only grants a lock on a cell that is not locked.
   */
  lemma LockUnlockRoundTrip(r: Record, heap: Heap, pin: Epoch, canLock: LockOracle)
    requires DestIn(r, heap)
    requires RespectsLocks(canLock)
    ensures TryLock(r, heap, pin, canLock).0 ==> Unlock(r, TryLock(r, heap, pin, canLock).1) == heap
  {
  }

  /**
    Writing and then publishing a record leaves its cell holding exactly the
    pending value, stamped with the publish epoch and unlocked.
   */
  lemma WritePublishRoundTrip(r: Record, heap: Heap, epoch: Epoch)
    requires DestIn(r, heap)
    ensures IsActive(r) ==>
      Publish(r, PerformWrite(r, heap), epoch)[r.dest.value] == Cell(epoch, false, r.pending)
    ensures !IsActive(r) ==> Publish(r, PerformWrite(r, heap), epoch) == heap
  {
  }
}
