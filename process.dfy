/** The polling process of process/etl.py: one reconciliation cycle (`do`), the loop that repeats it
    (`start`, `if_end`), and what one cycle does to the table. */
module Process {
  import opened Seqs
  import opened Shipments
  import opened Postgre
  import opened Reconcile

  /** What `FetchDao.get_data` hands back: None when the page text was empty or did not parse. */
  type FetchResult = Option<seq<Shipment>>

  /** `[shipment.id for shipment in records]`. A record without an id contributes nothing: inside
      `id IN (...)` a NULL matches no row, so leaving it out updates the same rows. */
  function IdsOf(records: seq<Shipment>): (ids: seq<int>)
    ensures forall id :: id in ids <==> exists k :: 0 <= k < |records| && records[k].id == Some(id)
    decreases |records|
  {
    if records == [] then []
    else
      var init, last := records[..|records| - 1], records[|records| - 1];
      assert forall k :: 0 <= k < |init| ==> init[k] == records[k];
      IdsOf(init) + (if last.id.Some? then [last.id.value] else [])
  }

  /** One completed `do()`: both snapshots are taken once, the three selections are made from them,
      and then insert, delete-by-id and restore-by-id are applied in that order. */
  function Cycle(t: Table, source: seq<Shipment>, now: Timestamp): Table {
    var existing := LiveShipments(t);
    var restoreData := RestoreShipments(source, existing);
    var deleteData := DelShipments(source, existing);
    var newShipments := NewShipments(source, existing);
    RestoreByIds(DeleteByIds(Insert(t, newShipments, now), IdsOf(deleteData), now), IdsOf(restoreData), now)
  }

  /** The table after the ticks of `start()` that complete: cycles run until the first fetch that
      came back None, whose cycle raises before it writes anything. */
  function Run(t: Table, fetches: seq<FetchResult>, clock: seq<Timestamp>): Table
    requires |clock| == |fetches|
    decreases |fetches|
  {
    if fetches == [] || fetches[0].None? then t
    else Run(Cycle(t, fetches[0].value, clock[0]), fetches[1..], clock[1..])
  }

  lemma CycleKeepsValid(t: Table, source: seq<Shipment>, now: Timestamp)
    requires ValidTable(t)
    ensures ValidTable(Cycle(t, source, now))
  {
  }

  /** How `do()` ends: it returns, or it raises the TypeError of iterating over None. */
  datatype DoOutcome = Returned | RaisedTypeError

  /** How `start()` stops: by its `break`, by the exception of the cycle at `tick`, or by the host
      killing the process after the ticks given. */
  datatype StopReason = Broke | Raised(tick: nat) | Killed

  /** `CosmoCargoProcess`. The fetcher is not an object here: each cycle is handed what `get_data`
      returned. The Redis client it also builds is never used by the cycle and is not modelled. */
  class CosmoCargoProcess {
    const postgresDao: PostgreDao

    constructor (existing: Table)
      requires ValidTable(existing)
      ensures fresh(postgresDao) && postgresDao.Valid() && postgresDao.table == existing
    {
      postgresDao := new PostgreDao(existing);
    }

    /** `if_end`: the loop's stop test, which never asks to stop. */
    function IfEnd(): bool {
      false
    }

    /** `do()`. With a None fetch it raises at the first loop over the source (in
        `get_restore_shipments`) after reading the table, so nothing is written. */
    method Do(fetched: FetchResult, now: Timestamp) returns (outcome: DoOutcome)
      requires postgresDao.Valid()
      modifies postgresDao
      ensures postgresDao.Valid()
      ensures outcome == (if fetched.None? then RaisedTypeError else Returned)
      ensures fetched.None? ==> postgresDao.table == old(postgresDao.table)
      ensures fetched.Some? ==> postgresDao.table == Cycle(old(postgresDao.table), fetched.value, now)
    {
      var existingData := postgresDao.GetAll();
      if fetched.None? {
        return RaisedTypeError;
      }
      var sourceData := fetched.value;

      var restoreData := GetRestoreShipments(sourceData, existingData);
      var deleteData := GetDelShipments(sourceData, existingData);
      var newShipments := GetNewShipments(sourceData, existingData);

      postgresDao.BulkInsert(newShipments, now);
      postgresDao.BulkDeleteByIds(IdsOf(deleteData), now);
      postgresDao.BulkRestoreByIds(IdsOf(restoreData), now);
      outcome := Returned;
    }

    /** `start()`, run for the ticks the host allows: tick `i` fetches `fetches[i]` at time `clock[i]`.
        The sleep between ticks is not modelled. The loop never breaks, since `if_end` is false; it
        ends only when a cycle raises (the first None fetch) or when the host kills the process. */
    method Start(fetches: seq<FetchResult>, clock: seq<Timestamp>) returns (stop: StopReason)
      requires |clock| == |fetches|
      requires postgresDao.Valid()
      modifies postgresDao
      ensures postgresDao.Valid()
      ensures !stop.Broke?
      ensures stop.Raised? ==> stop.tick < |fetches| && fetches[stop.tick].None? &&
                               forall j :: 0 <= j < stop.tick ==> fetches[j].Some?
      ensures stop.Killed? <==> forall j :: 0 <= j < |fetches| ==> fetches[j].Some?
      ensures postgresDao.table == Run(old(postgresDao.table), fetches, clock)
    {
      var broke := false;
      var i := 0;
      while i < |fetches|
        invariant 0 <= i <= |fetches|
        invariant postgresDao.Valid()
        invariant forall j :: 0 <= j < i ==> fetches[j].Some?
        invariant Run(old(postgresDao.table), fetches, clock) == Run(postgresDao.table, fetches[i..], clock[i..])
      {
        if IfEnd() {
          broke := true;
          break;
        }
        var outcome := Do(fetches[i], clock[i]);
        if outcome == RaisedTypeError {
          return Raised(i);
        }
        assert fetches[i..][1..] == fetches[i + 1..] && clock[i..][1..] == clock[i + 1..];
        i := i + 1;
      }
      stop := if broke then Broke else Killed;
    }
  }

  // ---------------------------------------------------------------------------
  // What one cycle does to the table

  /** Some live row of `t` holds a record with key `k`. */
  ghost predicate HasLiveRow(t: Table, k: string) {
    exists i :: 0 <= i < |t.rows| && !t.rows[i].isDeleted && RowKey(t.rows[i]) == k
  }

  lemma LiveKeysAreLiveRowKeys(t: Table)
    ensures forall k :: k in KeySet(LiveShipments(t)) <==> HasLiveRow(t, k)
  {
    LiveShipmentsExact(t);
    forall k ensures k in KeySet(LiveShipments(t)) <==> HasLiveRow(t, k) {
      if k in KeySet(LiveShipments(t)) {
        var x :| x in LiveShipments(t) && CreateShipmentKey(x) == k;
        var i :| 0 <= i < |t.rows| && !t.rows[i].isDeleted && x == AsShipment(t.rows[i]);
      }
      if HasLiveRow(t, k) {
        var i :| 0 <= i < |t.rows| && !t.rows[i].isDeleted && RowKey(t.rows[i]) == k;
        assert AsShipment(t.rows[i]) in LiveShipments(t);
      }
    }
  }

  /** Because `get_all` leaves deleted rows out, the restore selection of `do()` is always empty. */
  lemma CycleNeverRestores(t: Table, source: seq<Shipment>)
    ensures RestoreShipments(source, LiveShipments(t)) == []
  {
    var live := LiveShipments(t);
    FilterNone(live, DeletedAndKeyIn(KeySet(source)));
  }

  /** The ids `do()` soft-deletes are those of the live rows whose key left the source. */
  lemma DeletedIdOfRow(t: Table, source: seq<Shipment>, i: nat)
    requires ValidTable(t) && i < |t.rows|
    ensures t.rows[i].id in IdsOf(DelShipments(source, LiveShipments(t))) <==>
            !t.rows[i].isDeleted && RowKey(t.rows[i]) !in KeySet(source)
  {
    var live, srcKeys := LiveShipments(t), KeySet(source);
    var del := DelShipments(source, live);
    var id := t.rows[i].id;
    LiveShipmentsExact(t);
    FilterMembership(live, LiveAndKeyNotIn(srcKeys));
    if id in IdsOf(del) {
      var k :| 0 <= k < |del| && del[k].id == Some(id);
      assert del[k] in del;
      var j :| 0 <= j < |t.rows| && !t.rows[j].isDeleted && del[k] == AsShipment(t.rows[j]);
      assert j == i;
    }
    if !t.rows[i].isDeleted && RowKey(t.rows[i]) !in srcKeys {
      var x := AsShipment(t.rows[i]);
      assert x in live;
      assert x in del;
      var k :| 0 <= k < |del| && del[k] == x;
    }
  }

  /** Every id `do()` soft-deletes belongs to a row that was already stored. */
  lemma DeletedIdsAreOld(t: Table, source: seq<Shipment>)
    requires ValidTable(t)
    ensures forall id :: id in IdsOf(DelShipments(source, LiveShipments(t))) ==> id < t.nextId
  {
    var live := LiveShipments(t);
    var del := DelShipments(source, live);
    LiveShipmentsExact(t);
    FilterMembership(live, LiveAndKeyNotIn(KeySet(source)));
    forall id | id in IdsOf(del) ensures id < t.nextId {
      var k :| 0 <= k < |del| && del[k].id == Some(id);
      assert del[k] in del;
      var j :| 0 <= j < |t.rows| && !t.rows[j].isDeleted && del[k] == AsShipment(t.rows[j]);
    }
  }

  /** As written, a completed cycle writes only inserts and soft deletes. */
  lemma CycleIsInsertThenDelete(t: Table, source: seq<Shipment>, now: Timestamp)
    ensures var live := LiveShipments(t);
            Cycle(t, source, now) ==
            DeleteByIds(Insert(t, NewShipments(source, live), now), IdsOf(DelShipments(source, live)), now)
  {
    CycleNeverRestores(t, source);
  }

  /** An existing row after one completed cycle: same id and content, and deleted exactly when it was
      deleted already or its key is not a source key (so no deleted row comes back). */
  lemma CycleOldRow(t: Table, source: seq<Shipment>, now: Timestamp, i: nat)
    requires ValidTable(t) && i < |t.rows|
    ensures var t' := Cycle(t, source, now);
            && i < |t'.rows|
            && t'.rows[i].id == t.rows[i].id
            && t'.rows[i].content == t.rows[i].content
            && t'.rows[i].isDeleted == (t.rows[i].isDeleted || RowKey(t.rows[i]) !in KeySet(source))
  {
    var live := LiveShipments(t);
    var t1 := Insert(t, NewShipments(source, live), now);
    CycleIsInsertThenDelete(t, source, now);
    assert t1.rows[i] == t1.rows[..|t.rows|][i];
    DeletedIdOfRow(t, source, i);
  }

  /** A row appended by one completed cycle: live, holding the content of the `k`-th new record. */
  lemma CycleNewRow(t: Table, source: seq<Shipment>, now: Timestamp, k: nat)
    requires ValidTable(t) && k < |NewShipments(source, LiveShipments(t))|
    ensures var t' := Cycle(t, source, now);
            && |t.rows| + k < |t'.rows|
            && !t'.rows[|t.rows| + k].isDeleted
            && t'.rows[|t.rows| + k].content == NewShipments(source, LiveShipments(t))[k].content
  {
    var live := LiveShipments(t);
    var t1 := Insert(t, NewShipments(source, live), now);
    CycleIsInsertThenDelete(t, source, now);
    DeletedIdsAreOld(t, source);
    assert t1.rows[|t.rows| + k].id == t.nextId + k;
  }

  lemma CycleLength(t: Table, source: seq<Shipment>, now: Timestamp)
    ensures |Cycle(t, source, now).rows| == |t.rows| + |NewShipments(source, LiveShipments(t))|
  {
    CycleIsInsertThenDelete(t, source, now);
  }

  /** What one completed cycle does, row by row: every existing row keeps its id and content and is
      deleted afterwards exactly when it was deleted already or its key is not a source key (so no
      deleted row comes back); and one live row is appended per new record, holding its content. */
  ghost predicate CycleEffect(t: Table, t': Table, source: seq<Shipment>, newOnes: seq<Shipment>) {
    && |t'.rows| == |t.rows| + |newOnes|
    && (forall i :: 0 <= i < |t.rows| ==>
          && t'.rows[i].id == t.rows[i].id
          && t'.rows[i].content == t.rows[i].content
          && t'.rows[i].isDeleted == (t.rows[i].isDeleted || RowKey(t.rows[i]) !in KeySet(source)))
    && (forall k :: 0 <= k < |newOnes| ==>
          !t'.rows[|t.rows| + k].isDeleted && t'.rows[|t.rows| + k].content == newOnes[k].content)
  }

  lemma CycleHasEffect(t: Table, source: seq<Shipment>, now: Timestamp)
    requires ValidTable(t)
    ensures CycleEffect(t, Cycle(t, source, now), source, NewShipments(source, LiveShipments(t)))
  {
    CycleLength(t, source, now);
    forall i | 0 <= i < |t.rows| {
      CycleOldRow(t, source, now, i);
    }
    forall k | 0 <= k < |NewShipments(source, LiveShipments(t))| {
      CycleNewRow(t, source, now, k);
    }
  }

  /** With the rows changed as a cycle changes them, every live row afterwards holds a source key. */
  lemma LiveAfterEffectFromSource(t: Table, t': Table, source: seq<Shipment>, newOnes: seq<Shipment>, i: nat)
    requires CycleEffect(t, t', source, newOnes)
    requires forall s :: s in newOnes ==> s in source
    requires i < |t'.rows| && !t'.rows[i].isDeleted
    ensures RowKey(t'.rows[i]) in KeySet(source)
  {
    if i >= |t.rows| {
      var m := i - |t.rows|;
      assert newOnes[m] in newOnes;
      assert RowKey(t'.rows[i]) == CreateShipmentKey(newOnes[m]);
    } else {
      assert RowKey(t'.rows[i]) == RowKey(t.rows[i]);
    }
  }

  /** With the rows changed as a cycle changes them, every source key is held by a live row afterwards,
      when the new records carry every source key that no live row held. */
  lemma SourceKeyLiveAfterEffect(t: Table, t': Table, source: seq<Shipment>, newOnes: seq<Shipment>, k: string)
    requires CycleEffect(t, t', source, newOnes)
    requires forall key :: key in KeySet(source) && !HasLiveRow(t, key) ==> key in KeySet(newOnes)
    requires k in KeySet(source)
    ensures HasLiveRow(t', k)
  {
    if HasLiveRow(t, k) {
      var i :| 0 <= i < |t.rows| && !t.rows[i].isDeleted && RowKey(t.rows[i]) == k;
      assert RowKey(t'.rows[i]) == k;
    } else {
      var s :| s in newOnes && CreateShipmentKey(s) == k;
      var m :| 0 <= m < |newOnes| && newOnes[m] == s;
      assert RowKey(t'.rows[|t.rows| + m]) == k;
    }
  }

  /** The new records of a cycle come from the source and carry every source key no live row holds. */
  lemma NewOnesOfCycle(t: Table, source: seq<Shipment>)
    ensures var newOnes := NewShipments(source, LiveShipments(t));
            && (forall s :: s in newOnes ==> s in source)
            && (forall key :: key in KeySet(source) && !HasLiveRow(t, key) ==> key in KeySet(newOnes))
  {
    var live := LiveShipments(t);
    var liveKeys := KeySet(Filter(live, NotDeleted));
    FilterMembership(source, KeyNotIn(liveKeys));
    NewKeysAreUnmatchedSourceKeys(source, live);
    LiveKeysAreLiveRowKeys(t);
    FilterMembership(live, NotDeleted);
    forall key | key in liveKeys ensures HasLiveRow(t, key) {
      var x :| x in Filter(live, NotDeleted) && CreateShipmentKey(x) == key;
      assert key in KeySet(live);
    }
  }

  /** After one completed cycle the live rows hold exactly the source's keys. */
  lemma CycleSyncsLiveKeys(t: Table, source: seq<Shipment>, now: Timestamp)
    requires ValidTable(t)
    ensures KeySet(LiveShipments(Cycle(t, source, now))) == KeySet(source)
  {
    var t' := Cycle(t, source, now);
    var newOnes := NewShipments(source, LiveShipments(t));
    CycleHasEffect(t, source, now);
    NewOnesOfCycle(t, source);
    LiveKeysAreLiveRowKeys(t');
    forall k | HasLiveRow(t', k) ensures k in KeySet(source) {
      var i :| 0 <= i < |t'.rows| && !t'.rows[i].isDeleted && RowKey(t'.rows[i]) == k;
      LiveAfterEffectFromSource(t, t', source, newOnes, i);
    }
    forall k | k in KeySet(source) ensures HasLiveRow(t', k) {
      SourceKeyLiveAfterEffect(t, t', source, newOnes, k);
    }
  }

  // ---------------------------------------------------------------------------
  // The restore step as written, and as evidently intended

  /** As written: a soft-deleted row whose key comes back, while no live row holds it, is not restored;
      the cycle leaves it deleted and appends a second, live row with the same key. */
  lemma DeletedRowNotRestored(t: Table, source: seq<Shipment>, now: Timestamp, i: nat)
    requires ValidTable(t)
    requires i < |t.rows| && t.rows[i].isDeleted
    requires RowKey(t.rows[i]) in KeySet(source) && !HasLiveRow(t, RowKey(t.rows[i]))
    ensures var t' := Cycle(t, source, now);
            && t'.rows[i].isDeleted
            && exists j :: |t.rows| <= j < |t'.rows| && !t'.rows[j].isDeleted && RowKey(t'.rows[j]) == RowKey(t.rows[i])
  {
    var t' := Cycle(t, source, now);
    CycleHasEffect(t, source, now);
    NewOnesOfCycle(t, source);
    var j := DuplicateAfterEffect(t, t', source, NewShipments(source, LiveShipments(t)), i);
  }

  lemma DuplicateAfterEffect(t: Table, t': Table, source: seq<Shipment>, newOnes: seq<Shipment>, i: nat)
    returns (j: nat)
    requires CycleEffect(t, t', source, newOnes)
    requires i < |t.rows| && t.rows[i].isDeleted
    requires RowKey(t.rows[i]) in KeySet(newOnes)
    ensures t'.rows[i].isDeleted
    ensures |t.rows| <= j < |t'.rows| && !t'.rows[j].isDeleted && RowKey(t'.rows[j]) == RowKey(t.rows[i])
  {
    var s :| s in newOnes && CreateShipmentKey(s) == RowKey(t.rows[i]);
    var m :| 0 <= m < |newOnes| && newOnes[m] == s;
    j := |t.rows| + m;
    assert t'.rows[j].content == s.content;
  }

  /** Every row, deleted ones included: the snapshot a restore step can work from. */
  function ReadAll(t: Table): (r: seq<Shipment>)
    ensures |r| == |t.rows|
    ensures forall i :: 0 <= i < |t.rows| ==> r[i] == AsShipment(t.rows[i])
  {
    seq(|t.rows|, i requires 0 <= i < |t.rows| => AsShipment(t.rows[i]))
  }

  /** The cycle as evidently intended: selections made from every row, and a source record counted as
      new only when no stored row, live or deleted, has its key. */
  function CorrectedCycle(t: Table, source: seq<Shipment>, now: Timestamp): Table {
    var existing := ReadAll(t);
    var restoreData := RestoreShipments(source, existing);
    var deleteData := DelShipments(source, existing);
    var newShipments := Filter(source, KeyNotIn(KeySet(existing)));
    RestoreByIds(DeleteByIds(Insert(t, newShipments, now), IdsOf(deleteData), now), IdsOf(restoreData), now)
  }

  /** The new records of the corrected cycle: the source records whose key no stored row has. */
  function CorrectedNew(t: Table, source: seq<Shipment>): seq<Shipment> {
    Filter(source, KeyNotIn(KeySet(ReadAll(t))))
  }

  /** A record that some row holds comes from that row, and only from it. */
  lemma ReadAllRow(t: Table, x: Shipment) returns (j: nat)
    requires ValidTable(t) && x in ReadAll(t)
    ensures j < |t.rows| && x == AsShipment(t.rows[j])
    ensures forall i :: 0 <= i < |t.rows| && x.id == Some(t.rows[i].id) ==> i == j
  {
    var existing := ReadAll(t);
    var m :| 0 <= m < |existing| && existing[m] == x;
    j := m;
  }

  /** Some row of `t`, live or deleted, holds a record with key `k`. */
  ghost predicate HasRow(t: Table, k: string) {
    exists i :: 0 <= i < |t.rows| && RowKey(t.rows[i]) == k
  }

  lemma StoredKeysAreRowKeys(t: Table)
    ensures forall k :: k in KeySet(ReadAll(t)) <==> HasRow(t, k)
  {
    forall k ensures k in KeySet(ReadAll(t)) <==> HasRow(t, k) {
      if HasRow(t, k) {
        var i :| 0 <= i < |t.rows| && RowKey(t.rows[i]) == k;
        assert ReadAll(t)[i] in ReadAll(t);
      }
    }
  }

  /** The corrected cycle soft-deletes exactly the live rows whose key left the source. */
  lemma CorrectedDeletedIdOfRow(t: Table, source: seq<Shipment>, i: nat)
    requires ValidTable(t) && i < |t.rows|
    ensures t.rows[i].id in IdsOf(DelShipments(source, ReadAll(t))) <==>
            !t.rows[i].isDeleted && RowKey(t.rows[i]) !in KeySet(source)
  {
    var existing := ReadAll(t);
    var del := DelShipments(source, existing);
    FilterMembership(existing, LiveAndKeyNotIn(KeySet(source)));
    if t.rows[i].id in IdsOf(del) {
      var k :| 0 <= k < |del| && del[k].id == Some(t.rows[i].id);
      assert del[k] in del;
      var j := ReadAllRow(t, del[k]);
    }
    if !t.rows[i].isDeleted && RowKey(t.rows[i]) !in KeySet(source) {
      assert existing[i] in existing;
      var k :| 0 <= k < |del| && del[k] == existing[i];
    }
  }

  /** The corrected cycle restores exactly the deleted rows whose key is back in the source. */
  lemma CorrectedRestoredIdOfRow(t: Table, source: seq<Shipment>, i: nat)
    requires ValidTable(t) && i < |t.rows|
    ensures t.rows[i].id in IdsOf(RestoreShipments(source, ReadAll(t))) <==>
            t.rows[i].isDeleted && RowKey(t.rows[i]) in KeySet(source)
  {
    var existing := ReadAll(t);
    var restore := RestoreShipments(source, existing);
    FilterMembership(existing, DeletedAndKeyIn(KeySet(source)));
    if t.rows[i].id in IdsOf(restore) {
      var k :| 0 <= k < |restore| && restore[k].id == Some(t.rows[i].id);
      assert restore[k] in restore;
      var j := ReadAllRow(t, restore[k]);
    }
    if t.rows[i].isDeleted && RowKey(t.rows[i]) in KeySet(source) {
      assert existing[i] in existing;
      var k :| 0 <= k < |restore| && restore[k] == existing[i];
    }
  }

  /** Every id the corrected cycle deletes or restores belongs to a row that was already stored. */
  lemma CorrectedIdsAreOld(t: Table, source: seq<Shipment>)
    requires ValidTable(t)
    ensures forall id :: id in IdsOf(DelShipments(source, ReadAll(t))) ==> id < t.nextId
    ensures forall id :: id in IdsOf(RestoreShipments(source, ReadAll(t))) ==> id < t.nextId
  {
    var existing := ReadAll(t);
    var del := DelShipments(source, existing);
    var restore := RestoreShipments(source, existing);
    FilterMembership(existing, LiveAndKeyNotIn(KeySet(source)));
    FilterMembership(existing, DeletedAndKeyIn(KeySet(source)));
    forall id | id in IdsOf(del) ensures id < t.nextId {
      var k :| 0 <= k < |del| && del[k].id == Some(id);
      assert del[k] in del;
      var j := ReadAllRow(t, del[k]);
    }
    forall id | id in IdsOf(restore) ensures id < t.nextId {
      var k :| 0 <= k < |restore| && restore[k].id == Some(id);
      assert restore[k] in restore;
      var j := ReadAllRow(t, restore[k]);
    }
  }

  /** An existing row after one corrected cycle: same id and content, deleted exactly when its key is
      not a source key, and flagged restored when it was deleted and its key came back. */
  lemma CorrectedOldRow(t: Table, source: seq<Shipment>, now: Timestamp, i: nat)
    requires ValidTable(t) && i < |t.rows|
    ensures var t' := CorrectedCycle(t, source, now);
            && i < |t'.rows|
            && t'.rows[i].id == t.rows[i].id
            && t'.rows[i].content == t.rows[i].content
            && t'.rows[i].isDeleted == (RowKey(t.rows[i]) !in KeySet(source))
            && t'.rows[i].isRestored == (t.rows[i].isRestored || (t.rows[i].isDeleted && RowKey(t.rows[i]) in KeySet(source)))
  {
    var t1 := Insert(t, CorrectedNew(t, source), now);
    assert t1.rows[i] == t1.rows[..|t.rows|][i];
    CorrectedDeletedIdOfRow(t, source, i);
    CorrectedRestoredIdOfRow(t, source, i);
  }

  /** A row appended by one corrected cycle: live, holding the new record it was made from. */
  lemma CorrectedNewRow(t: Table, source: seq<Shipment>, now: Timestamp, j: nat)
    requires ValidTable(t) && |t.rows| <= j < |t.rows| + |CorrectedNew(t, source)|
    ensures var t' := CorrectedCycle(t, source, now);
            && j < |t'.rows|
            && !t'.rows[j].isDeleted
            && t'.rows[j].content == CorrectedNew(t, source)[j - |t.rows|].content
  {
    var t1 := Insert(t, CorrectedNew(t, source), now);
    CorrectedIdsAreOld(t, source);
    assert t1.rows[j].id == t.nextId + (j - |t.rows|);
  }

  lemma CorrectedLength(t: Table, source: seq<Shipment>, now: Timestamp)
    ensures |CorrectedCycle(t, source, now).rows| == |t.rows| + |CorrectedNew(t, source)|
  {
  }

  /** What one corrected cycle does to the rows already stored: each keeps its id and content, is live
      afterwards exactly when its key is a source key, and is flagged restored when it was deleted and
      its key came back. */
  ghost predicate CorrectedOldRows(t: Table, t': Table, source: seq<Shipment>) {
    && |t'.rows| >= |t.rows|
    && forall i :: 0 <= i < |t.rows| ==>
         && t'.rows[i].id == t.rows[i].id
         && t'.rows[i].content == t.rows[i].content
         && t'.rows[i].isDeleted == (RowKey(t.rows[i]) !in KeySet(source))
         && t'.rows[i].isRestored == (t.rows[i].isRestored || (t.rows[i].isDeleted && RowKey(t.rows[i]) in KeySet(source)))
  }

  /** What one corrected cycle appends: one live row per new record, holding its content. */
  ghost predicate CorrectedNewRows(t: Table, t': Table, newOnes: seq<Shipment>) {
    && |t'.rows| == |t.rows| + |newOnes|
    && forall j :: |t.rows| <= j < |t'.rows| ==>
         !t'.rows[j].isDeleted && t'.rows[j].content == newOnes[j - |t.rows|].content
  }

  lemma CorrectedHasOldRows(t: Table, source: seq<Shipment>, now: Timestamp)
    requires ValidTable(t)
    ensures CorrectedOldRows(t, CorrectedCycle(t, source, now), source)
  {
    CorrectedLength(t, source, now);
    forall i | 0 <= i < |t.rows| {
      CorrectedOldRow(t, source, now, i);
    }
  }

  lemma CorrectedHasNewRows(t: Table, source: seq<Shipment>, now: Timestamp)
    requires ValidTable(t)
    ensures CorrectedNewRows(t, CorrectedCycle(t, source, now), CorrectedNew(t, source))
  {
    CorrectedLength(t, source, now);
    var t' := CorrectedCycle(t, source, now);
    forall j | |t.rows| <= j < |t'.rows|
      ensures !t'.rows[j].isDeleted && t'.rows[j].content == CorrectedNew(t, source)[j - |t.rows|].content
    {
      CorrectedNewRow(t, source, now, j);
    }
  }

  /** The corrected cycle's new records come from the source and carry every source key no stored row has. */
  lemma CorrectedNewOnes(t: Table, source: seq<Shipment>)
    ensures forall s :: s in CorrectedNew(t, source) ==> s in source
    ensures forall s :: s in CorrectedNew(t, source) ==> !HasRow(t, CreateShipmentKey(s))
    ensures forall key :: key in KeySet(source) && !HasRow(t, key) ==> key in KeySet(CorrectedNew(t, source))
  {
    var allKeys := KeySet(ReadAll(t));
    FilterMembership(source, KeyNotIn(allKeys));
    StoredKeysAreRowKeys(t);
    forall key | key in KeySet(source) && !HasRow(t, key) ensures key in KeySet(CorrectedNew(t, source)) {
      var s :| s in source && CreateShipmentKey(s) == key;
      assert s in CorrectedNew(t, source);
    }
  }

  /** Corrected: a soft-deleted row whose key comes back is restored, and no appended row repeats the
      key of any row already stored. */
  lemma CorrectedCycleRestores(t: Table, source: seq<Shipment>, now: Timestamp)
    requires ValidTable(t)
    ensures var t' := CorrectedCycle(t, source, now);
            && |t'.rows| >= |t.rows|
            && (forall i :: 0 <= i < |t.rows| && t.rows[i].isDeleted && RowKey(t.rows[i]) in KeySet(source) ==>
                  !t'.rows[i].isDeleted && t'.rows[i].isRestored)
            && (forall j, m :: |t.rows| <= j < |t'.rows| && 0 <= m < |t.rows| ==> RowKey(t'.rows[j]) != RowKey(t.rows[m]))
  {
    CorrectedHasOldRows(t, source, now);
    CorrectedHasNewRows(t, source, now);
    CorrectedNewOnes(t, source);
    RestoresAfterEffect(t, CorrectedCycle(t, source, now), source, CorrectedNew(t, source));
  }

  lemma RestoresAfterEffect(t: Table, t': Table, source: seq<Shipment>, newOnes: seq<Shipment>)
    requires CorrectedOldRows(t, t', source) && CorrectedNewRows(t, t', newOnes)
    requires forall s :: s in newOnes ==> !HasRow(t, CreateShipmentKey(s))
    ensures forall i :: 0 <= i < |t.rows| && t.rows[i].isDeleted && RowKey(t.rows[i]) in KeySet(source) ==>
              !t'.rows[i].isDeleted && t'.rows[i].isRestored
    ensures forall j, m :: |t.rows| <= j < |t'.rows| && 0 <= m < |t.rows| ==> RowKey(t'.rows[j]) != RowKey(t.rows[m])
  {
    forall j, m | |t.rows| <= j < |t'.rows| && 0 <= m < |t.rows| ensures RowKey(t'.rows[j]) != RowKey(t.rows[m]) {
      var s := newOnes[j - |t.rows|];
      assert s in newOnes;
      assert RowKey(t'.rows[j]) == CreateShipmentKey(s);
    }
  }

  /** Corrected: after one cycle the live rows hold exactly the source's keys, as for the cycle as
      written, but through the rows already stored wherever one has the key. */
  lemma CorrectedCycleSyncsLiveKeys(t: Table, source: seq<Shipment>, now: Timestamp)
    requires ValidTable(t)
    ensures KeySet(LiveShipments(CorrectedCycle(t, source, now))) == KeySet(source)
  {
    var t' := CorrectedCycle(t, source, now);
    var newOnes := CorrectedNew(t, source);
    CorrectedHasOldRows(t, source, now);
    CorrectedHasNewRows(t, source, now);
    CorrectedNewOnes(t, source);
    LiveKeysAreLiveRowKeys(t');
    forall k | HasLiveRow(t', k) ensures k in KeySet(source) {
      var i :| 0 <= i < |t'.rows| && !t'.rows[i].isDeleted && RowKey(t'.rows[i]) == k;
      LiveAfterCorrectedEffectFromSource(t, t', source, newOnes, i);
    }
    forall k | k in KeySet(source) ensures HasLiveRow(t', k) {
      SourceKeyLiveAfterCorrectedEffect(t, t', source, newOnes, k);
    }
  }

  /** With the rows changed as a corrected cycle changes them, every live row holds a source key. */
  lemma LiveAfterCorrectedEffectFromSource(t: Table, t': Table, source: seq<Shipment>, newOnes: seq<Shipment>, i: nat)
    requires CorrectedOldRows(t, t', source) && CorrectedNewRows(t, t', newOnes)
    requires forall s :: s in newOnes ==> s in source
    requires i < |t'.rows| && !t'.rows[i].isDeleted
    ensures RowKey(t'.rows[i]) in KeySet(source)
  {
    if i >= |t.rows| {
      var m := i - |t.rows|;
      assert newOnes[m] in newOnes;
      assert RowKey(t'.rows[i]) == CreateShipmentKey(newOnes[m]);
    } else {
      assert RowKey(t'.rows[i]) == RowKey(t.rows[i]);
    }
  }

  /** With the rows changed as a corrected cycle changes them, every source key is held by a live row:
      the stored row that had it, or else an appended one. */
  lemma SourceKeyLiveAfterCorrectedEffect(t: Table, t': Table, source: seq<Shipment>, newOnes: seq<Shipment>, k: string)
    requires CorrectedOldRows(t, t', source) && CorrectedNewRows(t, t', newOnes)
    requires forall key :: key in KeySet(source) && !HasRow(t, key) ==> key in KeySet(newOnes)
    requires k in KeySet(source)
    ensures HasLiveRow(t', k)
  {
    if HasRow(t, k) {
      var i :| 0 <= i < |t.rows| && RowKey(t.rows[i]) == k;
      assert RowKey(t'.rows[i]) == k;
    } else {
      var s :| s in newOnes && CreateShipmentKey(s) == k;
      var m :| 0 <= m < |newOnes| && newOnes[m] == s;
      assert RowKey(t'.rows[|t.rows| + m]) == k;
    }
  }
}
