/** The reconciliation of `CosmoCargoProcess` (process/etl.py): which scraped records are new,
    which stored records are gone from the source, and which soft-deleted ones have reappeared.
    Records are matched only by identity key. */
module Reconcile {
  import opened Seqs
  import opened Shipments

  /** The keys of a snapshot, as the loops collect them into a Python `set`. */
  function KeySet(records: seq<Shipment>): set<string> {
    set s | s in records :: CreateShipmentKey(s)
  }

  predicate NotDeleted(s: Shipment) {
    !IsDeleted(s)
  }

  function KeyNotIn(keys: set<string>): Shipment -> bool {
    s => CreateShipmentKey(s) !in keys
  }

  function LiveAndKeyNotIn(keys: set<string>): Shipment -> bool {
    s => !IsDeleted(s) && CreateShipmentKey(s) !in keys
  }

  function DeletedAndKeyIn(keys: set<string>): Shipment -> bool {
    s => IsDeleted(s) && CreateShipmentKey(s) in keys
  }

  /** The records `get_new_shipments` selects: source records whose key is not a live existing key. */
  function NewShipments(source: seq<Shipment>, existing: seq<Shipment>): seq<Shipment> {
    Filter(source, KeyNotIn(KeySet(Filter(existing, NotDeleted))))
  }

  /** The records `get_del_shipments` selects: live existing records whose key is not a source key. */
  function DelShipments(source: seq<Shipment>, existing: seq<Shipment>): seq<Shipment> {
    Filter(existing, LiveAndKeyNotIn(KeySet(source)))
  }

  /** The records `get_restore_shipments` selects: deleted existing records whose key is a source key. */
  function RestoreShipments(source: seq<Shipment>, existing: seq<Shipment>): seq<Shipment> {
    Filter(existing, DeletedAndKeyIn(KeySet(source)))
  }

  // ---------------------------------------------------------------------------
  // The three loops

  lemma KeySetStep(records: seq<Shipment>, x: Shipment)
    ensures KeySet(records + [x]) == KeySet(records) + {CreateShipmentKey(x)}
  {
    assert forall s :: s in records + [x] <==> s in records || s == x;
  }

  /** The key-set loop: the keys of every record of `records`. */
  method CollectKeys(records: seq<Shipment>) returns (keys: set<string>)
    ensures keys == KeySet(records)
  {
    keys := {};
    for i := 0 to |records|
      invariant keys == KeySet(records[..i])
    {
      assert records[..i + 1] == records[..i] + [records[i]];
      KeySetStep(records[..i], records[i]);
      keys := keys + {CreateShipmentKey(records[i])};
    }
    assert records[..|records|] == records;
  }

  method GetNewShipments(source: seq<Shipment>, existing: seq<Shipment>) returns (newShipments: seq<Shipment>)
    ensures newShipments == NewShipments(source, existing)
  {
    var existingKeys: set<string> := {};
    for i := 0 to |existing|
      invariant existingKeys == KeySet(Filter(existing[..i], NotDeleted))
    {
      FilterStep(existing, i, NotDeleted);
      if !IsDeleted(existing[i]) {
        KeySetStep(Filter(existing[..i], NotDeleted), existing[i]);
        existingKeys := existingKeys + {CreateShipmentKey(existing[i])};
      }
    }
    assert existing[..|existing|] == existing;

    newShipments := [];
    for i := 0 to |source|
      invariant newShipments == Filter(source[..i], KeyNotIn(existingKeys))
    {
      FilterStep(source, i, KeyNotIn(existingKeys));
      if CreateShipmentKey(source[i]) !in existingKeys {
        newShipments := newShipments + [source[i]];
      }
    }
    assert source[..|source|] == source;
  }

  method GetDelShipments(source: seq<Shipment>, existing: seq<Shipment>) returns (deleteShipments: seq<Shipment>)
    ensures deleteShipments == DelShipments(source, existing)
  {
    var newShipmentKeys := CollectKeys(source);
    deleteShipments := [];
    for i := 0 to |existing|
      invariant deleteShipments == Filter(existing[..i], LiveAndKeyNotIn(newShipmentKeys))
    {
      FilterStep(existing, i, LiveAndKeyNotIn(newShipmentKeys));
      if !IsDeleted(existing[i]) {
        if CreateShipmentKey(existing[i]) !in newShipmentKeys {
          deleteShipments := deleteShipments + [existing[i]];
        }
      }
    }
    assert existing[..|existing|] == existing;
  }

  method GetRestoreShipments(source: seq<Shipment>, existing: seq<Shipment>) returns (restoreShipments: seq<Shipment>)
    ensures restoreShipments == RestoreShipments(source, existing)
  {
    var newShipmentKeys := CollectKeys(source);
    restoreShipments := [];
    for i := 0 to |existing|
      invariant restoreShipments == Filter(existing[..i], DeletedAndKeyIn(newShipmentKeys))
    {
      FilterStep(existing, i, DeletedAndKeyIn(newShipmentKeys));
      if IsDeleted(existing[i]) {
        if CreateShipmentKey(existing[i]) in newShipmentKeys {
          restoreShipments := restoreShipments + [existing[i]];
        }
      }
    }
    assert existing[..|existing|] == existing;
  }

  // ---------------------------------------------------------------------------
  // What the selections mean

  /** Some record of `records` has key `k`. */
  ghost predicate HasKey(records: seq<Shipment>, k: string) {
    exists j :: 0 <= j < |records| && CreateShipmentKey(records[j]) == k
  }

  /** Some record of `records` with falsy `is_deleted` has key `k`. */
  ghost predicate HasLiveKey(records: seq<Shipment>, k: string) {
    exists j :: 0 <= j < |records| && !IsDeleted(records[j]) && CreateShipmentKey(records[j]) == k
  }

  lemma KeySetMembership(records: seq<Shipment>)
    ensures forall k :: k in KeySet(records) <==> HasKey(records, k)
  {
    forall k ensures k in KeySet(records) <==> HasKey(records, k) {
      if k in KeySet(records) {
        var s :| s in records && CreateShipmentKey(s) == k;
        var j :| 0 <= j < |records| && records[j] == s;
      }
      if HasKey(records, k) {
        var j :| 0 <= j < |records| && CreateShipmentKey(records[j]) == k;
        assert records[j] in records;
      }
    }
  }

  lemma LiveKeySetMembership(records: seq<Shipment>)
    ensures forall k :: k in KeySet(Filter(records, NotDeleted)) <==> HasLiveKey(records, k)
  {
    var live := Filter(records, NotDeleted);
    FilterMembership(records, NotDeleted);
    forall k ensures k in KeySet(live) <==> HasLiveKey(records, k) {
      if k in KeySet(live) {
        var s :| s in live && CreateShipmentKey(s) == k;
        var j :| 0 <= j < |records| && records[j] == s;
      }
      if HasLiveKey(records, k) {
        var j :| 0 <= j < |records| && !IsDeleted(records[j]) && CreateShipmentKey(records[j]) == k;
        assert records[j] in live;
      }
    }
  }

  /** New shipments: exactly the source records whose key no live existing record has, each as often
      as it occurs in the source, in source order. */
  lemma NewShipmentsExact(source: seq<Shipment>, existing: seq<Shipment>)
    ensures IsSubsequence(NewShipments(source, existing), source)
    ensures forall x :: multiset(NewShipments(source, existing))[x] ==
                        if HasLiveKey(existing, CreateShipmentKey(x)) then 0 else multiset(source)[x]
  {
    var keys := KeySet(Filter(existing, NotDeleted));
    LiveKeySetMembership(existing);
    FilterIsSubsequence(source, KeyNotIn(keys));
    FilterMultiset(source, KeyNotIn(keys));
  }

  /** Deletions: exactly the existing records with falsy `is_deleted` whose key no source record has,
      each as often as it occurs, in existing order. */
  lemma DelShipmentsExact(source: seq<Shipment>, existing: seq<Shipment>)
    ensures IsSubsequence(DelShipments(source, existing), existing)
    ensures forall x :: multiset(DelShipments(source, existing))[x] ==
                        if !IsDeleted(x) && !HasKey(source, CreateShipmentKey(x)) then multiset(existing)[x] else 0
  {
    KeySetMembership(source);
    FilterIsSubsequence(existing, LiveAndKeyNotIn(KeySet(source)));
    FilterMultiset(existing, LiveAndKeyNotIn(KeySet(source)));
  }

  /** Restorations: exactly the existing records with truthy `is_deleted` whose key some source record
      has, each as often as it occurs, in existing order. */
  lemma RestoreShipmentsExact(source: seq<Shipment>, existing: seq<Shipment>)
    ensures IsSubsequence(RestoreShipments(source, existing), existing)
    ensures forall x :: multiset(RestoreShipments(source, existing))[x] ==
                        if IsDeleted(x) && HasKey(source, CreateShipmentKey(x)) then multiset(existing)[x] else 0
  {
    KeySetMembership(source);
    FilterIsSubsequence(existing, DeletedAndKeyIn(KeySet(source)));
    FilterMultiset(existing, DeletedAndKeyIn(KeySet(source)));
  }

  /** No existing record is both deleted and restored by one reconciliation. */
  lemma DelRestoreDisjoint(source: seq<Shipment>, existing: seq<Shipment>)
    ensures forall x :: !(x in DelShipments(source, existing) && x in RestoreShipments(source, existing))
  {
    FilterMembership(existing, LiveAndKeyNotIn(KeySet(source)));
    FilterMembership(existing, DeletedAndKeyIn(KeySet(source)));
  }

  /** An empty scrape is read as "everything was removed": nothing is new or restored, and every
      live existing record is deleted. */
  lemma EmptySourceDeletesAllLive(existing: seq<Shipment>)
    ensures NewShipments([], existing) == []
    ensures RestoreShipments([], existing) == []
    ensures DelShipments([], existing) == Filter(existing, NotDeleted)
  {
    assert KeySet([]) == {};
    FilterNone(existing, DeletedAndKeyIn({}));
    FilterCongruent(existing, LiveAndKeyNotIn({}), NotDeleted);
  }

  /** The keys of the new records are the source keys that are not live existing keys. */
  lemma NewKeysAreUnmatchedSourceKeys(source: seq<Shipment>, existing: seq<Shipment>)
    ensures KeySet(NewShipments(source, existing)) == KeySet(source) - KeySet(Filter(existing, NotDeleted))
  {
    var keys := KeySet(Filter(existing, NotDeleted));
    FilterMembership(source, KeyNotIn(keys));
    var newOnes := NewShipments(source, existing);
    forall k | k in KeySet(source) - keys ensures k in KeySet(newOnes) {
      var s :| s in source && CreateShipmentKey(s) == k;
      assert s in newOnes;
    }
  }

  /** Nothing is new exactly when every source key is a live existing key. */
  lemma NothingNewIff(source: seq<Shipment>, existing: seq<Shipment>)
    ensures NewShipments(source, existing) == [] <==> KeySet(source) <= KeySet(Filter(existing, NotDeleted))
  {
    var newOnes := NewShipments(source, existing);
    NewKeysAreUnmatchedSourceKeys(source, existing);
    var srcKeys, liveKeys := KeySet(source), KeySet(Filter(existing, NotDeleted));
    if newOnes != [] {
      var k := CreateShipmentKey(newOnes[0]);
      assert k in KeySet(newOnes);
      assert k in srcKeys && k !in liveKeys;
    } else {
      assert KeySet(newOnes) == {};
      forall k | k in srcKeys ensures k in liveKeys {
        assert k !in srcKeys - liveKeys;
      }
    }
  }

  /** Nothing is deleted exactly when every live existing key is a source key. */
  lemma NothingDeletedIff(source: seq<Shipment>, existing: seq<Shipment>)
    ensures DelShipments(source, existing) == [] <==> KeySet(Filter(existing, NotDeleted)) <= KeySet(source)
  {
    var srcKeys, live := KeySet(source), Filter(existing, NotDeleted);
    var del := DelShipments(source, existing);
    FilterMembership(existing, NotDeleted);
    FilterMembership(existing, LiveAndKeyNotIn(srcKeys));
    if del != [] {
      assert del[0] in del;
      assert del[0] in live;
    }
    if !(KeySet(live) <= srcKeys) {
      var k :| k in KeySet(live) && k !in srcKeys;
      var x :| x in live && CreateShipmentKey(x) == k;
      assert x in del;
    }
  }

  /** Nothing is inserted and nothing is deleted exactly when the source keys are the live existing keys. */
  lemma InSyncIffNothingToApply(source: seq<Shipment>, existing: seq<Shipment>)
    ensures NewShipments(source, existing) == [] && DelShipments(source, existing) == []
            <==> KeySet(source) == KeySet(Filter(existing, NotDeleted))
  {
    NothingNewIff(source, existing);
    NothingDeletedIff(source, existing);
  }
}
