/**
 The inventory reconciliation pass: every scraped record is upserted by VIN, in scrape
 order, and then every entry still active whose VIN was not scraped is marked removed
 (a step skipped when nothing was scraped). The collection is a map from VIN to entry.
 */
module Inventory {
  import opened Optional
  import opened Extractor

  datatype Status = Active | Removed

  /**
   One stored document: the scraped fields, `status`, `last_seen`, and the creation
   stamp `data_scraped`, which only an insert writes.
   */
  datatype Entry = Entry(listing: Listing, status: Status, lastSeen: int, dataScraped: int)

  /** The `inventory` collection, keyed by VIN. */
  type Store = map<string, Entry>

  /** Every record of the snapshot passed the VIN filter. */
  predicate Keyed(snapshot: seq<Listing>) {
    forall i :: 0 <= i < |snapshot| ==> HasVin(snapshot[i])
  }

  function VinOf(l: Listing): string
    requires HasVin(l)
  {
    l.vin.value
  }

  /** Each entry sits under the VIN its own scraped fields carry. */
  predicate WellKeyed(store: Store) {
    forall k :: k in store ==> store[k].listing.vin == Some(k)
  }

  /** The VINs of a snapshot, as a set. */
  function VinSet(snapshot: seq<Listing>): (vins: set<string>)
    requires Keyed(snapshot)
    ensures forall i :: 0 <= i < |snapshot| ==> VinOf(snapshot[i]) in vins
    ensures forall k :: k in vins ==> exists i :: 0 <= i < |snapshot| && VinOf(snapshot[i]) == k
  {
    set i | 0 <= i < |snapshot| :: VinOf(snapshot[i])
  }

  /** `activeVins`: the scraped VINs in scrape order (the `filter(Boolean)` drops nothing after the VIN filter). */
  function ActiveVins(snapshot: seq<Listing>): (vins: seq<string>)
    requires Keyed(snapshot)
    ensures |vins| == |snapshot|
    ensures forall i :: 0 <= i < |snapshot| ==> vins[i] == VinOf(snapshot[i])
    ensures forall k :: k in vins <==> k in VinSet(snapshot)
  {
    seq(|snapshot|, i requires 0 <= i < |snapshot| => VinOf(snapshot[i]))
  }

  /**
   One `updateOne(..., { upsert: true })`: all scraped fields, `status` and `last_seen`
   are set; `data_scraped` is set only when the VIN was not yet stored.
   */
  function Upsert(store: Store, car: Listing, now: int): (r: Store)
    requires HasVin(car)
    ensures r.Keys == store.Keys + {VinOf(car)}
    ensures r[VinOf(car)].listing == car && r[VinOf(car)].status == Active && r[VinOf(car)].lastSeen == now
    ensures r[VinOf(car)].dataScraped == if VinOf(car) in store then store[VinOf(car)].dataScraped else now
    ensures forall k :: k in store && k != VinOf(car) ==> r[k] == store[k]
  {
    var vin := VinOf(car);
    var created := if vin in store then store[vin].dataScraped else now;
    store[vin := Entry(car, Active, now, created)]
  }

  /** The upsert loop, a left fold of `Upsert` over the snapshot in scrape order. */
  function UpsertAll(store: Store, snapshot: seq<Listing>, now: int): (r: Store)
    requires Keyed(snapshot)
    ensures store.Keys <= r.Keys
    decreases |snapshot|
  {
    if snapshot == [] then store
    else
      var front := snapshot[..|snapshot| - 1];
      assert Keyed(front) by {
        assert forall i :: 0 <= i < |front| ==> front[i] == snapshot[i];
      }
      Upsert(UpsertAll(store, front, now), snapshot[|snapshot| - 1], now)
  }

  /** The loop stores exactly the old VINs and the scraped ones: nothing is deleted. */
  lemma {:induction false} UpsertAllKeys(store: Store, snapshot: seq<Listing>, now: int)
    requires Keyed(snapshot)
    ensures UpsertAll(store, snapshot, now).Keys == store.Keys + VinSet(snapshot)
    decreases |snapshot|
  {
    if snapshot != [] {
      var front := snapshot[..|snapshot| - 1];
      assert VinSet(snapshot) == VinSet(front) + {VinOf(snapshot[|snapshot| - 1])} by {
        assert forall i :: 0 <= i < |front| ==> front[i] == snapshot[i];
      }
      UpsertAllKeys(store, front, now);
    }
  }

  /** Every prefix of a filtered snapshot is filtered. */
  lemma KeyedPrefix(snapshot: seq<Listing>, i: nat)
    requires Keyed(snapshot) && i <= |snapshot|
    ensures Keyed(snapshot[..i])
  {
    assert forall j :: 0 <= j < i ==> snapshot[..i][j] == snapshot[j];
  }

  /** One more turn of the upsert loop upserts the next record. */
  lemma UpsertAllStep(store: Store, snapshot: seq<Listing>, i: nat, now: int)
    requires Keyed(snapshot) && i < |snapshot|
    ensures Keyed(snapshot[..i]) && Keyed(snapshot[..i + 1])
    ensures UpsertAll(store, snapshot[..i + 1], now) == Upsert(UpsertAll(store, snapshot[..i], now), snapshot[i], now)
  {
    KeyedPrefix(snapshot, i);
    KeyedPrefix(snapshot, i + 1);
    var seen := snapshot[..i + 1];
    assert seen[..i] == snapshot[..i] && seen[i] == snapshot[i];
  }

  /**
   The guarded `updateMany`: every active entry whose VIN is not among `activeVins`
   becomes removed and is stamped `now`; every other entry is left exactly as it was.
   */
  function MarkRemoved(store: Store, activeVins: seq<string>, now: int): (r: Store)
    ensures r.Keys == store.Keys
    ensures forall k :: k in r && r[k].status == Active ==> k in activeVins
    ensures forall k :: k in store && (store[k].status == Removed || k in activeVins) ==> r[k] == store[k]
    ensures forall k :: k in store && store[k].status == Active && k !in activeVins ==>
      r[k] == store[k].(status := Removed, lastSeen := now)
  {
    map k | k in store ::
      if store[k].status == Active && k !in activeVins then store[k].(status := Removed, lastSeen := now)
      else store[k]
  }

  /** One reconciliation pass over an already filtered snapshot. */
  function Reconcile(store: Store, snapshot: seq<Listing>, now: int): (r: Store)
    requires Keyed(snapshot)
    ensures snapshot == [] ==> r == store
    ensures r.Keys == store.Keys + VinSet(snapshot)
  {
    var activeVins := ActiveVins(snapshot);
    var upserted := UpsertAll(store, snapshot, now);
    UpsertAllKeys(store, snapshot, now);
    if |activeVins| > 0 then MarkRemoved(upserted, activeVins, now) else upserted
  }

  /** The pass as the scraper runs it: one upsert per record, in order, then the guarded bulk update. */
  method ReconcilePass(store: Store, snapshot: seq<Listing>, now: int) returns (r: Store)
    requires Keyed(snapshot)
    ensures r == Reconcile(store, snapshot, now)
  {
    var upserted := store;
    for i := 0 to |snapshot|
      invariant upserted == UpsertAll(store, snapshot[..i], now)
    {
      UpsertAllStep(store, snapshot, i, now);
      upserted := Upsert(upserted, snapshot[i], now);
    }
    assert snapshot[..|snapshot|] == snapshot;
    var activeVins := ActiveVins(snapshot);
    if |activeVins| > 0 {
      r := MarkRemoved(upserted, activeVins, now);
    } else {
      r := upserted;
    }
  }
}
