/** The `shipments` table of model/shipments.py and the soft-delete store over it
    (`PostgreDAO` of data/dao/postgre.py), with the table held in memory. */
module Postgre {
  import opened Shipments

  /** One row of the table. `createdAt` defaults to the insert time, `isDeleted` and `isRestored`
      default to false, and the two other timestamps are nullable. */
  datatype Row = Row(
    id: int,
    content: Content,
    createdAt: Timestamp,
    isDeleted: bool,
    deletedAt: Option<Timestamp>,
    isRestored: bool,
    restoredAt: Option<Timestamp>)

  /** A row as the reconciliation sees it: the attributes a shipment record has. */
  function AsShipment(r: Row): Shipment {
    Shipment(Some(r.id), r.content, Some(r.isDeleted), r.deletedAt)
  }

  /** The identity key of the record a row holds. */
  function RowKey(r: Row): string {
    CreateShipmentKey(AsShipment(r))
  }

  /** The rows in insertion order, and the next value of the autoincrement id sequence. */
  datatype Table = Table(rows: seq<Row>, nextId: int)

  /** Ids are positive, below the next id to hand out, and increase with insertion order
      (so no two rows share one). */
  ghost predicate ValidTable(t: Table) {
    && t.nextId >= 1
    && (forall i :: 0 <= i < |t.rows| ==> 1 <= t.rows[i].id < t.nextId)
    && (forall i, j :: 0 <= i < j < |t.rows| ==> t.rows[i].id < t.rows[j].id)
  }

  // ---------------------------------------------------------------------------
  // bulk_insert

  /** The row the store builds from one record: `id` and `is_deleted` of the record are dropped,
      every other dumped field (`deleted_at` included) is kept, and the defaults fill the rest. */
  function NewRow(id: int, s: Shipment, now: Timestamp): Row {
    Row(id, s.content, now, false, s.deletedAt, false, None)
  }

  function InsertedRows(shipments: seq<Shipment>, firstId: int, now: Timestamp): (r: seq<Row>)
    ensures |r| == |shipments|
    ensures forall k :: 0 <= k < |r| ==> r[k] == NewRow(firstId + k, shipments[k], now)
    decreases |shipments|
  {
    if shipments == [] then []
    else
      var n := |shipments| - 1;
      InsertedRows(shipments[..n], firstId, now) + [NewRow(firstId + n, shipments[n], now)]
  }

  lemma InsertAppends(t: Table, shipments: seq<Shipment>, now: Timestamp)
    requires shipments != []
    ensures Insert(t, shipments, now) == Table(t.rows + InsertedRows(shipments, t.nextId, now), t.nextId + |shipments|)
  {
  }

  /** Building the rows one record at a time appends one row per step. */
  lemma InsertedRowsStep(shipments: seq<Shipment>, k: nat, firstId: int, now: Timestamp)
    requires k < |shipments|
    ensures InsertedRows(shipments[..k + 1], firstId, now) ==
            InsertedRows(shipments[..k], firstId, now) + [NewRow(firstId + k, shipments[k], now)]
  {
    assert shipments[..k + 1][..k] == shipments[..k];
  }

  /** The table after `bulk_insert(shipments)`: one new row per record, appended with fresh ids;
      the rows already there are untouched; an empty list changes nothing. */
  function Insert(t: Table, shipments: seq<Shipment>, now: Timestamp): (t': Table)
    ensures shipments == [] ==> t' == t
    ensures |t'.rows| == |t.rows| + |shipments| && t'.nextId == t.nextId + |shipments|
    ensures t'.rows[..|t.rows|] == t.rows
    ensures forall k :: 0 <= k < |shipments| ==>
              && t'.rows[|t.rows| + k].id == t.nextId + k
              && t'.rows[|t.rows| + k].content == shipments[k].content
              && t'.rows[|t.rows| + k].createdAt == now
              && !t'.rows[|t.rows| + k].isDeleted
              && t'.rows[|t.rows| + k].deletedAt == shipments[k].deletedAt
              && !t'.rows[|t.rows| + k].isRestored
              && t'.rows[|t.rows| + k].restoredAt == None
    ensures ValidTable(t) ==> ValidTable(t')
  {
    if shipments == [] then t
    else
      var t' := Table(t.rows + InsertedRows(shipments, t.nextId, now), t.nextId + |shipments|);
      assert t'.rows[..|t.rows|] == t.rows;
      t'
  }

  // ---------------------------------------------------------------------------
  // bulk_delete_by_ids and bulk_restore_by_ids

  function MarkDeleted(r: Row, now: Timestamp): Row {
    r.(isDeleted := true, deletedAt := Some(now))
  }

  function MarkRestored(r: Row, now: Timestamp): Row {
    r.(isDeleted := false, isRestored := true, restoredAt := Some(now))
  }

  /** The table after `bulk_delete_by_ids(ids)`: the rows whose id is listed are soft-deleted at `now`
      (already deleted ones too); no row is removed and no other field or row changes. */
  function DeleteByIds(t: Table, ids: seq<int>, now: Timestamp): (t': Table)
    ensures ids == [] ==> t' == t
    ensures |t'.rows| == |t.rows| && t'.nextId == t.nextId
    ensures forall i :: 0 <= i < |t.rows| ==>
              && t'.rows[i].isDeleted == (t.rows[i].isDeleted || t.rows[i].id in ids)
              && t'.rows[i].deletedAt == (if t.rows[i].id in ids then Some(now) else t.rows[i].deletedAt)
              && t'.rows[i].id == t.rows[i].id
              && t'.rows[i].content == t.rows[i].content
              && t'.rows[i].createdAt == t.rows[i].createdAt
              && t'.rows[i].isRestored == t.rows[i].isRestored
              && t'.rows[i].restoredAt == t.rows[i].restoredAt
    ensures ValidTable(t) ==> ValidTable(t')
  {
    if ids == [] then t
    else
      Table(seq(|t.rows|, i requires 0 <= i < |t.rows| =>
                  if t.rows[i].id in ids then MarkDeleted(t.rows[i], now) else t.rows[i]),
            t.nextId)
  }

  /** The table after `bulk_restore_by_ids(ids)`: the rows whose id is listed become live again and
      are flagged restored at `now`; `deletedAt` is kept, and no other field or row changes. */
  function RestoreByIds(t: Table, ids: seq<int>, now: Timestamp): (t': Table)
    ensures ids == [] ==> t' == t
    ensures |t'.rows| == |t.rows| && t'.nextId == t.nextId
    ensures forall i :: 0 <= i < |t.rows| ==>
              && t'.rows[i].isDeleted == (t.rows[i].isDeleted && t.rows[i].id !in ids)
              && t'.rows[i].isRestored == (t.rows[i].isRestored || t.rows[i].id in ids)
              && t'.rows[i].restoredAt == (if t.rows[i].id in ids then Some(now) else t.rows[i].restoredAt)
              && t'.rows[i].id == t.rows[i].id
              && t'.rows[i].content == t.rows[i].content
              && t'.rows[i].createdAt == t.rows[i].createdAt
              && t'.rows[i].deletedAt == t.rows[i].deletedAt
    ensures ValidTable(t) ==> ValidTable(t')
  {
    if ids == [] then t
    else
      Table(seq(|t.rows|, i requires 0 <= i < |t.rows| =>
                  if t.rows[i].id in ids then MarkRestored(t.rows[i], now) else t.rows[i]),
            t.nextId)
  }

  /** Restoring the ids just soft-deleted makes those rows live again (restored, with both
      timestamps recorded) and leaves every other row as it was. */
  lemma RestoreAfterDelete(t: Table, ids: seq<int>, deletedAt: Timestamp, restoredAt: Timestamp)
    ensures var t' := RestoreByIds(DeleteByIds(t, ids, deletedAt), ids, restoredAt);
            && |t'.rows| == |t.rows|
            && forall i :: 0 <= i < |t.rows| ==>
                 if t.rows[i].id in ids then
                   t'.rows[i] == t.rows[i].(isDeleted := false, deletedAt := Some(deletedAt),
                                            isRestored := true, restoredAt := Some(restoredAt))
                 else t'.rows[i] == t.rows[i]
  {
  }

  // ---------------------------------------------------------------------------
  // get_all

  function LiveOf(rows: seq<Row>): (r: seq<Shipment>)
    ensures |r| <= |rows|
    ensures forall k :: 0 <= k < |r| ==> r[k].isDeleted == Some(false) && r[k].id.Some?
    decreases |rows|
  {
    if rows == [] then []
    else
      var last := rows[|rows| - 1];
      LiveOf(rows[..|rows| - 1]) + (if !last.isDeleted then [AsShipment(last)] else [])
  }

  /** What `get_all` returns: the rows with `is_deleted == False`, in table order. */
  function LiveShipments(t: Table): (r: seq<Shipment>)
    ensures forall k :: 0 <= k < |r| ==> r[k].isDeleted == Some(false) && r[k].id.Some?
  {
    LiveOf(t.rows)
  }

  lemma {:induction false} LiveOfMembership(rows: seq<Row>, x: Shipment)
    ensures x in LiveOf(rows) <==> exists i :: 0 <= i < |rows| && !rows[i].isDeleted && x == AsShipment(rows[i])
    decreases |rows|
  {
    if rows != [] {
      var init := rows[..|rows| - 1];
      LiveOfMembership(init, x);
      if x in LiveOf(init) {
        var i :| 0 <= i < |init| && !init[i].isDeleted && x == AsShipment(init[i]);
        assert rows[i] == init[i];
      }
      if exists i :: 0 <= i < |rows| && !rows[i].isDeleted && x == AsShipment(rows[i]) {
        var i :| 0 <= i < |rows| && !rows[i].isDeleted && x == AsShipment(rows[i]);
        if i < |init| {
          assert init[i] == rows[i];
        }
      }
    }
  }

  /** `get_all` returns exactly the live rows: a record is returned iff some row with
      `is_deleted == False` holds it. */
  lemma LiveShipmentsExact(t: Table)
    ensures forall x :: x in LiveShipments(t) <==>
              exists i :: 0 <= i < |t.rows| && !t.rows[i].isDeleted && x == AsShipment(t.rows[i])
  {
    forall x ensures x in LiveShipments(t) <==>
                     exists i :: 0 <= i < |t.rows| && !t.rows[i].isDeleted && x == AsShipment(t.rows[i]) {
      LiveOfMembership(t.rows, x);
    }
  }

  /** The new row objects `bulk_insert` builds, one per record, with the ids the sequence hands out. */
  method BuildRows(shipments: seq<Shipment>, firstId: int, now: Timestamp) returns (rows: seq<Row>)
    ensures rows == InsertedRows(shipments, firstId, now)
  {
    rows := [];
    for k := 0 to |shipments|
      invariant rows == InsertedRows(shipments[..k], firstId, now)
    {
      InsertedRowsStep(shipments, k, firstId, now);
      rows := rows + [NewRow(firstId + k, shipments[k], now)];
    }
    assert shipments[..|shipments|] == shipments;
  }

  // ---------------------------------------------------------------------------
  // The DAO

  /** `PostgreDAO`: every method runs against the one `shipments` table, held here in `table`. */
  class PostgreDao {
    var table: Table

    ghost predicate Valid()
      reads this
    {
      ValidTable(table)
    }

    constructor (existing: Table)
      requires ValidTable(existing)
      ensures Valid() && table == existing
    {
      table := existing;
    }

    method BulkInsert(shipments: seq<Shipment>, now: Timestamp)
      requires Valid()
      modifies this
      ensures table == Insert(old(table), shipments, now)
      ensures Valid()
    {
      if shipments == [] {
        return;
      }
      var rows := BuildRows(shipments, table.nextId, now);
      InsertAppends(table, shipments, now);
      table := Table(table.rows + rows, table.nextId + |shipments|);
    }

    method BulkDeleteByIds(ids: seq<int>, now: Timestamp)
      requires Valid()
      modifies this
      ensures Valid()
      ensures table == DeleteByIds(old(table), ids, now)
    {
      if ids == [] {
        return;
      }
      table := DeleteByIds(table, ids, now);
    }

    method BulkRestoreByIds(ids: seq<int>, now: Timestamp)
      requires Valid()
      modifies this
      ensures Valid()
      ensures table == RestoreByIds(old(table), ids, now)
    {
      if ids == [] {
        return;
      }
      table := RestoreByIds(table, ids, now);
    }

    method GetAll() returns (shipments: seq<Shipment>)
      ensures shipments == LiveShipments(table)
    {
      shipments := LiveOf(table.rows);
    }
  }
}
