/**
 What one reconciliation pass leaves in the store, stated independently of the upsert
 fold (`Expected`), proved equal to the pass, and the consequences: last occurrence
 wins, creation stamps survive, nothing is deleted, removed entries are untouched, and
 running the pass twice is running it once.
 */
module ReconcileProperties {
  import opened Optional
  import opened Extractor
  import opened Inventory

  /** The position of the last record of the snapshot that carries `vin`. */
  function LastIndex(snapshot: seq<Listing>, vin: string): (i: nat)
    requires Keyed(snapshot) && vin in VinSet(snapshot)
    ensures i < |snapshot| && VinOf(snapshot[i]) == vin
    ensures forall j :: i < j < |snapshot| ==> VinOf(snapshot[j]) != vin
    decreases |snapshot|
  {
    var n := |snapshot| - 1;
    if VinOf(snapshot[n]) == vin then n
    else
      var front := snapshot[..n];
      assert Keyed(front) by {
        assert forall i :: 0 <= i < n ==> front[i] == snapshot[i];
      }
      assert vin in VinSet(front) by {
        var i :| 0 <= i < |snapshot| && VinOf(snapshot[i]) == vin;
        assert front[i] == snapshot[i];
      }
      LastIndex(front, vin)
  }

  /** The creation stamp an upsert of `vin` leaves: the stored one, or `now` for a new VIN. */
  function Created(store: Store, vin: string, now: int): int {
    if vin in store then store[vin].dataScraped else now
  }

  /** What one pass should leave under `k`, a VIN that was stored or scraped. */
  function ExpectedEntry(store: Store, snapshot: seq<Listing>, now: int, k: string): Entry
    requires Keyed(snapshot) && (k in store || k in VinSet(snapshot))
  {
    if k in VinSet(snapshot) then Entry(snapshot[LastIndex(snapshot, k)], Active, now, Created(store, k, now))
    else if snapshot != [] && store[k].status == Active then store[k].(status := Removed, lastSeen := now)
    else store[k]
  }

  /** The store one pass should produce, described entry by entry. */
  function Expected(store: Store, snapshot: seq<Listing>, now: int): Store
    requires Keyed(snapshot)
  {
    map k | k in store.Keys + VinSet(snapshot) :: ExpectedEntry(store, snapshot, now, k)
  }

  /** Splitting off the last record of a snapshot splits its VIN set the same way. */
  lemma VinSetSnoc(snapshot: seq<Listing>)
    requires Keyed(snapshot) && snapshot != []
    ensures Keyed(snapshot[..|snapshot| - 1])
    ensures VinSet(snapshot) == VinSet(snapshot[..|snapshot| - 1]) + {VinOf(snapshot[|snapshot| - 1])}
  {
    var front := snapshot[..|snapshot| - 1];
    assert forall i :: 0 <= i < |front| ==> front[i] == snapshot[i];
  }

  /** After the upsert loop, each scraped VIN holds its last record, and every other entry is untouched. */
  lemma {:induction false} UpsertAllPointwise(store: Store, snapshot: seq<Listing>, now: int)
    requires Keyed(snapshot)
    ensures UpsertAll(store, snapshot, now).Keys == store.Keys + VinSet(snapshot)
    ensures forall k :: k in VinSet(snapshot) ==>
      UpsertAll(store, snapshot, now)[k] == Entry(snapshot[LastIndex(snapshot, k)], Active, now, Created(store, k, now))
    ensures forall k :: k in store && k !in VinSet(snapshot) ==> UpsertAll(store, snapshot, now)[k] == store[k]
    decreases |snapshot|
  {
    if snapshot != [] {
      var n := |snapshot| - 1;
      var front, last := snapshot[..n], snapshot[n];
      VinSetSnoc(snapshot);
      UpsertAllPointwise(store, front, now);
      UpsertAllKeys(store, snapshot, now);
      var u := UpsertAll(store, front, now);
      var r := UpsertAll(store, snapshot, now);
      assert r == Upsert(u, last, now);
      forall k | k in VinSet(snapshot)
        ensures r[k] == Entry(snapshot[LastIndex(snapshot, k)], Active, now, Created(store, k, now))
      {
        if k == VinOf(last) {
          assert LastIndex(snapshot, k) == n;
        } else {
          assert k in VinSet(front);
          assert LastIndex(snapshot, k) == LastIndex(front, k);
          assert front[LastIndex(front, k)] == snapshot[LastIndex(front, k)];
        }
      }
    }
  }

  /** Every entry the pass leaves is the one the description predicts. */
  lemma ReconcilePointwise(store: Store, snapshot: seq<Listing>, now: int)
    requires Keyed(snapshot)
    ensures forall k :: k in Reconcile(store, snapshot, now) ==>
      Reconcile(store, snapshot, now)[k] == ExpectedEntry(store, snapshot, now, k)
  {
    UpsertAllPointwise(store, snapshot, now);
    var r := Reconcile(store, snapshot, now);
    forall k | k in r ensures r[k] == ExpectedEntry(store, snapshot, now, k) {
      if snapshot != [] {
        assert k in ActiveVins(snapshot) <==> k in VinSet(snapshot);
      }
    }
  }

  /** The pass is exactly the entry-by-entry description. */
  lemma ReconcileMatchesExpected(store: Store, snapshot: seq<Listing>, now: int)
    requires Keyed(snapshot)
    ensures Reconcile(store, snapshot, now) == Expected(store, snapshot, now)
  {
    ReconcilePointwise(store, snapshot, now);
  }

  /** The last record carrying a VIN is the one stored for it, active and stamped `now`. */
  lemma ReconcileLastOccurrenceWins(store: Store, snapshot: seq<Listing>, now: int, i: nat)
    requires Keyed(snapshot) && i < |snapshot|
    requires forall j :: i < j < |snapshot| ==> VinOf(snapshot[j]) != VinOf(snapshot[i])
    ensures VinOf(snapshot[i]) in Reconcile(store, snapshot, now)
    ensures Reconcile(store, snapshot, now)[VinOf(snapshot[i])].listing == snapshot[i]
    ensures Reconcile(store, snapshot, now)[VinOf(snapshot[i])].status == Active
    ensures Reconcile(store, snapshot, now)[VinOf(snapshot[i])].lastSeen == now
  {
    ReconcilePointwise(store, snapshot, now);
    var v := VinOf(snapshot[i]);
    var m := LastIndex(snapshot, v);
    assert m == i;
  }

  /** `data_scraped` is written on insert only: existing entries keep theirs, new ones get `now`. */
  lemma ReconcileKeepsCreationStamp(store: Store, snapshot: seq<Listing>, now: int)
    requires Keyed(snapshot)
    ensures forall k :: k in Reconcile(store, snapshot, now) ==>
      Reconcile(store, snapshot, now)[k].dataScraped == if k in store then store[k].dataScraped else now
  {
    ReconcilePointwise(store, snapshot, now);
  }

  /** After a non-empty pass, every entry that was active but not scraped is removed and stamped `now`. */
  lemma ReconcileMarksMissingRemoved(store: Store, snapshot: seq<Listing>, now: int)
    requires Keyed(snapshot) && snapshot != []
    ensures forall k :: k in store && k !in VinSet(snapshot) && store[k].status == Active ==>
      Reconcile(store, snapshot, now)[k] == store[k].(status := Removed, lastSeen := now)
  {
    ReconcilePointwise(store, snapshot, now);
  }

  /** An entry already removed and not scraped again is left exactly as it was, `last_seen` included. */
  lemma ReconcileLeavesRemovedAlone(store: Store, snapshot: seq<Listing>, now: int)
    requires Keyed(snapshot)
    ensures forall k :: k in store && k !in VinSet(snapshot) && store[k].status == Removed ==>
      Reconcile(store, snapshot, now)[k] == store[k]
  {
    ReconcilePointwise(store, snapshot, now);
  }

  /** After a non-empty pass an entry is active exactly when its VIN was scraped in that pass. */
  lemma ReconcileActiveIffScraped(store: Store, snapshot: seq<Listing>, now: int)
    requires Keyed(snapshot) && snapshot != []
    ensures forall k :: k in Reconcile(store, snapshot, now) ==>
      (Reconcile(store, snapshot, now)[k].status == Active <==> k in VinSet(snapshot))
  {
    ReconcilePointwise(store, snapshot, now);
  }

  /** The exception: an empty pass leaves every active entry active, although none was scraped. */
  lemma EmptyPassKeepsStaleActive(store: Store, now: int, k: string)
    requires k in store && store[k].status == Active
    ensures k in Reconcile(store, [], now) && k !in VinSet([])
    ensures Reconcile(store, [], now)[k].status == Active
  {
  }

  /** Running the pass twice with the same snapshot and clock is running it once. */
  lemma ReconcileIdempotent(store: Store, snapshot: seq<Listing>, now: int)
    requires Keyed(snapshot)
    ensures Reconcile(Reconcile(store, snapshot, now), snapshot, now) == Reconcile(store, snapshot, now)
  {
    var once := Reconcile(store, snapshot, now);
    var twice := Reconcile(once, snapshot, now);
    ReconcilePointwise(store, snapshot, now);
    ReconcilePointwise(once, snapshot, now);
    assert twice.Keys == once.Keys;
    forall k | k in once ensures twice[k] == once[k] {
      assert once[k] == ExpectedEntry(store, snapshot, now, k);
      assert twice[k] == ExpectedEntry(once, snapshot, now, k);
      if k in VinSet(snapshot) {
        assert Created(once, k, now) == Created(store, k, now);
      } else {
        assert k in store;
      }
    }
  }

  /** With a clock that does not run backwards, no entry's `last_seen` decreases and none passes `now`. */
  lemma ReconcileLastSeenMonotone(store: Store, snapshot: seq<Listing>, now: int)
    requires Keyed(snapshot)
    requires forall k :: k in store ==> store[k].lastSeen <= now
    ensures forall k :: k in store ==> store[k].lastSeen <= Reconcile(store, snapshot, now)[k].lastSeen
    ensures forall k :: k in Reconcile(store, snapshot, now) ==> Reconcile(store, snapshot, now)[k].lastSeen <= now
  {
    ReconcilePointwise(store, snapshot, now);
    var r := Reconcile(store, snapshot, now);
    forall k | k in store ensures store[k].lastSeen <= r[k].lastSeen {
      assert r[k] == ExpectedEntry(store, snapshot, now, k);
    }
    forall k | k in r ensures r[k].lastSeen <= now {
      assert r[k] == ExpectedEntry(store, snapshot, now, k);
    }
  }

  /** Every entry stays filed under the VIN its own record carries. */
  lemma ReconcileKeepsWellKeyed(store: Store, snapshot: seq<Listing>, now: int)
    requires Keyed(snapshot) && WellKeyed(store)
    ensures WellKeyed(Reconcile(store, snapshot, now))
  {
    ReconcilePointwise(store, snapshot, now);
  }
}
