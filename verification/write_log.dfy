/**
  The per-transaction write log: a one-word bloom filter over the cells
  written so far plus the append-only sequence of write records, with the
  lookup (`contained`, `find`, `entry`), insertion (`push`) and reset
  (`clear`) operations.
 */
module WriteLog {
  import opened Wrappers
  import opened Bloom
  import opened WriteEntry

  /** The filter's answer: `No` is a guarantee of absence, `Maybe` is not a guarantee of presence. */
  datatype Contained = No | Maybe

  datatype WriteLog = WriteLog(filter: Bits, data: seq<Record>)

  /**
    The result of `entry`: `Vacant` when the log has no record for the cell
    (carrying the hash to push with), `Occupied` with the position of the
    record that targets it.
   */
  datatype Entry = Vacant(hash: Bits) | Occupied(index: nat, hash: Bits)

  /** Some record of `data` targets cell `c`. */
  predicate Targets(data: seq<Record>, c: Addr) {
    exists i :: 0 <= i < |data| && IsDestCell(data[i], c)
  }

  /** The filter is zero exactly when the container is empty (the check in `is_empty`). */
  predicate FilterAgrees(log: WriteLog) {
    log.filter == {} <==> |log.data| == 0
  }

  /** Every active record's hash bit is set in the filter: the filter has no false negatives. */
  predicate FilterCovers(log: WriteLog) {
    forall i | 0 <= i < |log.data| && IsActive(log.data[i]) ::
      BloomHash(log.data[i].dest.value) <= log.filter
  }

  /** At most one active record per cell. */
  predicate UniqueDests(data: seq<Record>) {
    forall i, j | 0 <= i < j < |data| && IsActive(data[i]) :: data[i].dest != data[j].dest
  }

  /** The invariant every write log reachable through its operations satisfies. */
  predicate Valid(log: WriteLog) {
    FilterAgrees(log) && FilterCovers(log) && UniqueDests(log.data)
  }

  /** `WriteLog::new`: the empty log. */
  function New(): (log: WriteLog)
    ensures Valid(log)
    ensures |log.data| == 0
    ensures forall c :: !Targets(log.data, c)
  {
    WriteLog({}, [])
  }

  /** `contained`: the filter test, `No` exactly when no bit of `hash` is set in the filter. */
  function FilterTest(log: WriteLog, hash: Bits): (r: Contained)
    ensures r == No <==> log.filter * hash == {}
  {
    if log.filter * hash != {} then Maybe else No
  }

  /** A cell with an active record is never reported absent by the filter. */
  lemma NoFalseNegatives(log: WriteLog, c: Addr)
    requires FilterCovers(log)
    requires Targets(log.data, c)
    ensures FilterTest(log, BloomHash(c)) == Maybe
  {
  }

  /**
    `clear`: empty the filter and the container. Clearing an already empty
    log changes nothing.
   */
  function Clear(log: WriteLog): (r: WriteLog)
    ensures Valid(r)
    ensures r.filter == {} && |r.data| == 0
    ensures FilterAgrees(log) && |log.data| == 0 ==> r == log
  {
    WriteLog({}, [])
  }

  /**
    `clear_no_drop`: the same reset without running the payloads' destructors,
    which leaves no trace in this model.
   */
  function ClearNoDrop(log: WriteLog): (r: WriteLog)
    ensures r == Clear(log)
    ensures Valid(r) && |r.data| == 0
  {
    WriteLog({}, [])
  }

  /** Clearing twice is clearing once, with either reset. */
  lemma ClearIdempotent(log: WriteLog)
    ensures Clear(Clear(log)) == Clear(log)
    ensures ClearNoDrop(ClearNoDrop(log)) == ClearNoDrop(log)
    ensures IsEmpty(Clear(log)) && IsEmpty(ClearNoDrop(log))
  {
  }

  /**
    `is_empty`: answered from the filter alone; the program assumes the filter
    and the container agree.
   */
  function IsEmpty(log: WriteLog): (r: bool)
    requires FilterAgrees(log)
    ensures r <==> |log.data| == 0
  {
    log.filter == {}
  }

  /**
    The iterator's `find(is_dest_tcell)` from position `start` on: the first
    record at or after `start` that targets `c`.
   */
  function FirstMatch(data: seq<Record>, c: Addr, start: nat): (r: Option<nat>)
    requires start <= |data|
    decreases |data| - start
    ensures r.Some? ==> start <= r.value < |data| && IsDestCell(data[r.value], c)
    ensures r.Some? ==> forall j | start <= j < r.value :: !IsDestCell(data[j], c)
    ensures r.None? ==> forall j | start <= j < |data| :: !IsDestCell(data[j], c)
  {
    if start == |data| then None
    else if IsDestCell(data[start], c) then Some(start)
    else FirstMatch(data, c, start + 1)
  }

  /**
    `find_slow`: the linear scan. It returns the position of the record that
    targets `c`, and `None` exactly when there is none (a filter collision).
   */
  function FindSlow(log: WriteLog, c: Addr): (r: Option<nat>)
    ensures r.Some? <==> Targets(log.data, c)
    ensures r.Some? ==> r.value < |log.data| && IsDestCell(log.data[r.value], c)
  {
    FirstMatch(log.data, c, 0)
  }

  /**
    `find`: `None` straight away when the filter rules `c` out, the scan
    otherwise. On a valid log the fast path loses nothing: the result is
    `None` exactly when no record targets `c`.
   */
  function Find(log: WriteLog, c: Addr): (r: Option<nat>)
    ensures r.Some? ==> r.value < |log.data| && IsDestCell(log.data[r.value], c)
    ensures FilterCovers(log) ==> (r.Some? <==> Targets(log.data, c))
  {
    if FilterTest(log, BloomHash(c)) == No then
      assert FilterCovers(log) ==> !Targets(log.data, c) by {
        if FilterCovers(log) && Targets(log.data, c) {
          NoFalseNegatives(log, c);
        }
      }
      None
    else
      FindSlow(log, c)
  }

  /** On a valid log `find` locates exactly the one active record of a cell. */
  lemma FindExact(log: WriteLog, i: nat)
    requires Valid(log)
    requires i < |log.data| && IsActive(log.data[i])
    ensures Find(log, log.data[i].dest.value) == Some(i)
  {
  }

  /**
    `entry_slow`: the scan again, but answering with an entry handle:
    `Occupied` at the record for `c` if there is one, `Vacant` on a collision.
   */
  function EntrySlow(log: WriteLog, c: Addr, hash: Bits): (r: Entry)
    ensures r.hash == hash
    ensures r.Occupied? <==> Targets(log.data, c)
    ensures r.Occupied? ==> r.index < |log.data| && IsDestCell(log.data[r.index], c)
  {
    match FirstMatch(log.data, c, 0)
    case Some(i) => Occupied(i, hash)
    case None => Vacant(hash)
  }

  /**
    `entry`: the insert-or-update lookup, with the same fast negative test as
    `find`. On a valid log it is `Vacant` exactly when no record targets `c`.
   */
  function EntryFor(log: WriteLog, c: Addr): (r: Entry)
    ensures r.hash == BloomHash(c)
    ensures r.Occupied? ==> r.index < |log.data| && IsDestCell(log.data[r.index], c)
    ensures FilterCovers(log) ==> (r.Occupied? <==> Targets(log.data, c))
  {
    var hash := BloomHash(c);
    if FilterTest(log, hash) == No then
      assert FilterCovers(log) ==> !Targets(log.data, c) by {
        if FilterCovers(log) && Targets(log.data, c) {
          NoFalseNegatives(log, c);
        }
      }
      Vacant(hash)
    else
      EntrySlow(log, c, hash)
  }

  /** `entry` and `find` agree: `Occupied` at the position `find` returns, `Vacant` when it returns `None`. */
  lemma EntryAgreesWithFind(log: WriteLog, c: Addr)
    ensures EntryFor(log, c).Vacant? <==> Find(log, c).None?
    ensures EntryFor(log, c).Occupied? ==> EntryFor(log, c).index == Find(log, c).value
  {
  }

  /**
    `push`: append an active record for `c` and OR `hash` into the filter.
    The hash is a `NonZeroUsize`, and the cell must not already have an active
    record (a debug assertion in the program). Earlier records are kept in
    place, filter bits only grow, and the filter stays nonzero alongside the
    now nonempty container.
   */
  function Push(log: WriteLog, c: Addr, val: Payload, hash: Bits): (r: WriteLog)
    requires hash != {}
    requires !Targets(log.data, c)
    ensures FilterAgrees(r)
    ensures |r.data| == |log.data| + 1
    ensures r.data[..|log.data|] == log.data
    ensures IsActive(r.data[|log.data|]) && IsDestCell(r.data[|log.data|], c)
    ensures r.data[|log.data|].pending == val
    ensures log.filter <= r.filter && hash <= r.filter
    ensures forall b: BitIndex :: b in r.filter ==> b in log.filter || b in hash
  {
    WriteLog(log.filter + hash, log.data + [NewRecord(c, val)])
  }

  /** Pushing a cell with its own hash keeps every active record's bit in the filter. */
  lemma PushKeepsCovers(log: WriteLog, c: Addr, val: Payload)
    requires FilterCovers(log)
    requires !Targets(log.data, c)
    ensures FilterCovers(Push(log, c, val, BloomHash(c)))
  {
  }

  /** Pushing a cell that has no active record keeps the records' targets distinct. */
  lemma PushKeepsUnique(log: WriteLog, c: Addr, val: Payload, hash: Bits)
    requires hash != {}
    requires UniqueDests(log.data)
    requires !Targets(log.data, c)
    ensures UniqueDests(Push(log, c, val, hash).data)
  {
  }

  /** Pushing a new cell with its own hash keeps the log valid. */
  lemma PushPreservesValid(log: WriteLog, c: Addr, val: Payload)
    requires Valid(log)
    requires !Targets(log.data, c)
    ensures Valid(Push(log, c, val, BloomHash(c)))
  {
  }

  /**
    `push_unchecked`: the same insertion without the capacity check of the
    container, which this model does not have.
   */
  function PushUnchecked(log: WriteLog, c: Addr, val: Payload, hash: Bits): (r: WriteLog)
    requires hash != {}
    requires !Targets(log.data, c)
    ensures r == Push(log, c, val, hash)
  {
    Push(log, c, val, hash)
  }

  /** After a push the cell is found, at the end of the log, and `entry` reports it occupied. */
  lemma PushThenFind(log: WriteLog, c: Addr, val: Payload)
    requires Valid(log)
    requires !Targets(log.data, c)
    ensures Find(Push(log, c, val, BloomHash(c)), c) == Some(|log.data|)
    ensures EntryFor(Push(log, c, val, BloomHash(c)), c) == Occupied(|log.data|, BloomHash(c))
  {
  }

  /**
    A push leaves the answers for every other cell as they were, up to a new
    filter collision: a cell that was found is still found at the same place.
   */
  lemma PushKeepsOthers(log: WriteLog, c: Addr, val: Payload, d: Addr)
    requires Valid(log)
    requires !Targets(log.data, c)
    requires d != c
    ensures Find(Push(log, c, val, BloomHash(c)), d) == Find(log, d)
  {
  }

  /**
    Deactivating the record at position `i` through an `Occupied` handle:
    the record loses its target and keeps its payload; the filter and every
    other record stay as they were.
   */
  function DeactivateAt(log: WriteLog, i: nat): (r: WriteLog)
    requires i < |log.data| && IsActive(log.data[i])
    ensures r.filter == log.filter
    ensures |r.data| == |log.data|
    ensures !IsActive(r.data[i]) && r.data[i].pending == log.data[i].pending
    ensures forall j | 0 <= j < |log.data| && j != i :: r.data[j] == log.data[j]
  {
    log.(data := log.data[i := Deactivate(log.data[i])])
  }

  /**
    Deactivation keeps the log valid, and afterwards no record targets the
    cell, so a later `find` for it answers `None`.
   */
  lemma DeactivatePreservesValid(log: WriteLog, i: nat)
    requires Valid(log)
    requires i < |log.data| && IsActive(log.data[i])
    ensures Valid(DeactivateAt(log, i))
    ensures !Targets(DeactivateAt(log, i).data, log.data[i].dest.value)
    ensures Find(DeactivateAt(log, i), log.data[i].dest.value) == None
  {
  }

  /** The cells of a write set, in order, are pairwise distinct. */
  predicate DistinctCells(writes: seq<(Addr, Payload)>) {
    forall i, j | 0 <= i < j < |writes| :: writes[i].0 != writes[j].0
  }

  /**
    The log a transaction builds by pushing `writes` in order onto a new log,
    each with its own hash.
   */
  function Recorded(writes: seq<(Addr, Payload)>): (log: WriteLog)
    requires DistinctCells(writes)
    ensures Valid(log)
    ensures |log.data| == |writes|
    ensures forall i | 0 <= i < |writes| :: log.data[i] == NewRecord(writes[i].0, writes[i].1)
  {
    if |writes| == 0 then New()
    else
      var prefix := writes[..|writes| - 1];
      var last := writes[|writes| - 1];
      var log := Recorded(prefix);
      assert !Targets(log.data, last.0);
      PushPreservesValid(log, last.0, last.1);
      Push(log, last.0, last.1, BloomHash(last.0))
  }

  /**
    Filter soundness after any sequence of pushes: every recorded cell is
    found at the position it was pushed to, and `entry` reports it occupied.
   */
  lemma RecordedFound(writes: seq<(Addr, Payload)>, i: nat)
    requires DistinctCells(writes)
    requires i < |writes|
    ensures Find(Recorded(writes), writes[i].0) == Some(i)
    ensures EntryFor(Recorded(writes), writes[i].0) == Occupied(i, BloomHash(writes[i].0))
  {
    var log := Recorded(writes);
    FindExact(log, i);
  }

  /**
    The filter of a recorded log has no stray bits: a bit is set exactly when
    some recorded cell hashes to it.
   */
  lemma {:induction false} RecordedFilter(writes: seq<(Addr, Payload)>, b: BitIndex)
    requires DistinctCells(writes)
    ensures b in Recorded(writes).filter <==> exists i | 0 <= i < |writes| :: HashIndex(writes[i].0) == b
  {
    if |writes| > 0 {
      var prefix := writes[..|writes| - 1];
      var last := writes[|writes| - 1];
      RecordedFilter(prefix, b);
      assert Recorded(writes) == Push(Recorded(prefix), last.0, last.1, BloomHash(last.0));
      if exists i | 0 <= i < |prefix| :: HashIndex(prefix[i].0) == b {
        var i :| 0 <= i < |prefix| && HashIndex(prefix[i].0) == b;
        assert writes[i] == prefix[i];
      }
      if exists i | 0 <= i < |writes| :: HashIndex(writes[i].0) == b {
        var i :| 0 <= i < |writes| && HashIndex(writes[i].0) == b;
        if i < |prefix| {
          assert prefix[i] == writes[i];
        }
      }
    }
  }

  /**
    The filter answers `Maybe` for a cell exactly when some recorded cell
    shares its hash bit: for a cell that was never recorded, only on a hash
    collision.
   */
  lemma RecordedMaybeOnlyOnCollision(writes: seq<(Addr, Payload)>, c: Addr)
    requires DistinctCells(writes)
    ensures FilterTest(Recorded(writes), BloomHash(c)) == Maybe <==>
      exists i | 0 <= i < |writes| :: HashIndex(writes[i].0) == HashIndex(c)
  {
    RecordedFilter(writes, HashIndex(c));
  }

  /** Filter exactness in the other direction: a cell never pushed is never found. */
  lemma RecordedNotFound(writes: seq<(Addr, Payload)>, c: Addr)
    requires DistinctCells(writes)
    requires forall i | 0 <= i < |writes| :: writes[i].0 != c
    ensures Find(Recorded(writes), c) == None
    ensures EntryFor(Recorded(writes), c).Vacant?
  {
  }

  /**
    A filter collision: a cell one hash period (`64 << SHIFT` = 1024 bytes)
    after a recorded one hits the same filter bit, so the fast test answers
    `Maybe`, yet the scan finds nothing, `find` answers `None` and `entry` is
    `Vacant`.
   */
  lemma CollisionFallsThrough(a: Addr, val: Payload)
    requires a + WORD_BITS * Pow2(SHIFT) < USIZE_LIMIT
    ensures var log := Push(New(), a, val, BloomHash(a));
            var b: Addr := a + WORD_BITS * Pow2(SHIFT);
            FilterTest(log, BloomHash(b)) == Maybe &&
            Find(log, b) == None &&
            EntryFor(log, b) == Vacant(BloomHash(b)) &&
            Find(log, a) == Some(0)
  {
    var log := Push(New(), a, val, BloomHash(a));
    var b: Addr := a + WORD_BITS * Pow2(SHIFT);
    GranuleIs16();
    HashPeriodic(a);
    assert HashIndex(b) in log.filter * BloomHash(b);
    assert !IsDestCell(log.data[0], b);
    assert !Targets(log.data, b);
    PushThenFind(New(), a, val);
  }
}
