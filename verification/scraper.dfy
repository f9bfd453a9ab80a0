/**
 The scraper's run from the extracted tiles onward: every tile is turned into a record,
 records without a VIN are dropped, and the rest are reconciled into the store with a
 single timestamp `now`. Browser automation and the database driver are not modelled;
 the tiles and the store are the run's inputs, and the new store is its result.
 */
module Scraper {
  import opened Optional
  import opened Text
  import opened Extractor
  import opened Inventory
  import ReconcileProperties

  /** The snapshot one run reconciles: the extracted records that carry a VIN, in page order. */
  function Snapshot(tiles: seq<Tile>): (snapshot: seq<Listing>)
    ensures Keyed(snapshot) && |snapshot| <= |tiles|
    ensures forall l :: l in snapshot <==> l in ExtractAll(tiles, WebsiteUrl) && HasVin(l)
  {
    KeepWithVin(ExtractAll(tiles, WebsiteUrl))
  }

  /** One run of the scraper against the store. */
  function ScrapePass(store: Store, tiles: seq<Tile>, now: int): (r: Store)
    ensures r.Keys == store.Keys + VinSet(Snapshot(tiles))
  {
    Reconcile(store, Snapshot(tiles), now)
  }

  /** The run as the scraper performs it: the page loop, then the reconciliation pass. */
  method Scrape(store: Store, tiles: seq<Tile>, now: int) returns (r: Store)
    ensures r == ScrapePass(store, tiles, now)
  {
    var scrapedData := CollectListings(tiles, WebsiteUrl);
    r := ReconcilePass(store, scrapedData, now);
  }

  /**
   A run in which no tile yields a VIN (no tiles at all, or none with a usable VIN meta)
   leaves the store exactly as it was: no insert, no refresh, and no removal.
   */
  lemma ScrapeWithoutVinIsNoop(store: Store, tiles: seq<Tile>, now: int)
    requires forall i :: 0 <= i < |tiles| ==> !HasVin(ExtractListing(tiles[i], WebsiteUrl))
    ensures ScrapePass(store, tiles, now) == store
  {
    var all := ExtractAll(tiles, WebsiteUrl);
    forall i | 0 <= i < |all| ensures !HasVin(all[i]) {
      ExtractAllAt(tiles, WebsiteUrl, i);
    }
    KeepWithVinNone(all);
  }

  /** The snapshot keeps page order: the tiles of two runs give the snapshot of each, in order. */
  lemma SnapshotAppend(a: seq<Tile>, b: seq<Tile>)
    ensures Snapshot(a + b) == Snapshot(a) + Snapshot(b)
  {
    ExtractAllAppend(a, b, WebsiteUrl);
    KeepWithVinAppend(ExtractAll(a, WebsiteUrl), ExtractAll(b, WebsiteUrl));
  }

  /** Re-running the scraper on the same page with the same clock changes nothing more. */
  lemma ScrapeIdempotent(store: Store, tiles: seq<Tile>, now: int)
    ensures ScrapePass(ScrapePass(store, tiles, now), tiles, now) == ScrapePass(store, tiles, now)
  {
    ReconcileProperties.ReconcileIdempotent(store, Snapshot(tiles), now);
  }

  /** The tile of the first-sighting example. */
  const CivicTile: Tile := Tile(Some("2020 Civic"), Some("$12,500"), ["VIN A1"], None, None, "")

  /**
   A first sighting: an empty store and one tile titled `2020 Civic`, priced `$12,500`,
   with the meta `VIN A1`, yield one active entry with price 12500 and year 2020 whose
   creation stamp and `last_seen` are both `now`.
   */
  lemma FirstSightingExample(now: int)
    ensures var r := ScrapePass(map[], [CivicTile], now);
            && "A1" in r
            && r["A1"].listing.vin == Some("A1")
            && r["A1"].listing.price == Some(12500)
            && r["A1"].listing.year == Some(2020)
            && r["A1"].status == Active
            && r["A1"].dataScraped == now && r["A1"].lastSeen == now
  {
    var l := ExtractListing(CivicTile, WebsiteUrl);
    ExampleListing();
    assert Snapshot([CivicTile]) == [l] by {
      assert [CivicTile][..0] == [];
    }
    ReconcileProperties.ReconcileLastOccurrenceWins(map[], [l], now, 0);
    ReconcileProperties.ReconcileKeepsCreationStamp(map[], [l], now);
  }

  /** The example tile's record: VIN `A1`, price 12500, year 2020. */
  lemma ExampleListing()
    ensures ExtractListing(CivicTile, WebsiteUrl).vin == Some("A1")
    ensures ExtractListing(CivicTile, WebsiteUrl).price == Some(12500)
    ensures ExtractListing(CivicTile, WebsiteUrl).year == Some(2020)
  {
    TrimUnique([], "A1", []);
    assert [] + "A1" + [] == "A1" && [] + "VIN " + "A1" == "VIN A1";
    ExtractVinOfLabel(["VIN A1"], 0, [], "A1");
    ExampleYear();
    ExamplePrice();
  }

  lemma ExampleYear()
    ensures YearOf(GetText(Some("2020 Civic"))) == Some(2020)
  {
    var s := "2020 Civic";
    assert s[0] == '2' && s[1] == '0' && s[2] == '2' && s[3] == '0' && s[4] == ' ';
    assert YearValue(s, 0) == 2020;
    YearOfLeadingYear(s);
  }

  /** A trimmed title that opens with a year yields that year. */
  lemma YearOfLeadingYear(s: string)
    requires IsYearAt(s, 0) && !IsSpace(s[|s| - 1])
    ensures YearOf(GetText(Some(s))) == Some(YearValue(s, 0))
  {
    TrimUnique([], s, []);
    assert [] + s + [] == s;
    YearOfFirstMatch(s, 0);
  }

  lemma ExamplePrice()
    ensures ParseCount(GetText(Some("$12,500"))) == Some(12500)
  {
    ExamplePriceUntrimmed();
    ParseCountIgnoresTrim(Some("$12,500"));
  }

  lemma ExamplePriceUntrimmed()
    ensures ParseCount(Some("$12,500")) == Some(12500)
  {
    assert "$12,500" == "$" + "12" + "," + "500";
    ParseCountGrouped("$", "12", ",", "500");
    Example12500();
  }

  lemma Example12500()
    ensures ParseDecimal("12" + "500") == 12500
  {
    ParseAppend("12", "500");
    assert "12"[..1] == "1";
    assert "500"[..2] == "50" && "50"[..1] == "5";
  }

  /**
   A listing that disappears: a store holding an active `B2` and a run that scrapes only
   `A1` leaves `B2` removed, stamped `now`, with its creation stamp, and `A1` new and active.
   */
  lemma VehicleSoldExample(b2: Entry, a1: Listing, now: int)
    requires b2.status == Active && a1.vin == Some("A1")
    ensures var r := Reconcile(map["B2" := b2], [a1], now);
            && r.Keys == {"A1", "B2"}
            && r["B2"] == b2.(status := Removed, lastSeen := now)
            && r["A1"] == Entry(a1, Active, now, now)
  {
    var store := map["B2" := b2];
    assert Keyed([a1]) && VinOf([a1][0]) == "A1";
    assert VinSet([a1]) == {"A1"};
    ReconcileProperties.ReconcileMarksMissingRemoved(store, [a1], now);
    ReconcileProperties.ReconcileLastOccurrenceWins(store, [a1], now, 0);
    ReconcileProperties.ReconcileKeepsCreationStamp(store, [a1], now);
  }
}
