/**
 The per-tile extraction callback of the scraper and the VIN filter that follows it.
 The browser's DOM lookups are replaced by the strings they return: a `Tile` holds the
 raw `innerText` of each element the callback queries, and extraction is a pure function
 from a tile to a `Listing`.
 */
module Extractor {
  import opened Optional
  import opened Text

  /** The dealership site every listing is attributed to. */
  const WebsiteUrl: string := "https://www.repentignychevrolet.com"

  /** The path inserted between the site and a tile's element id to form its listing URL. */
  const ListingPath: string := "/en/used-inventory/vehicle-id"

  /** The raw texts of one listing tile; `None` when the queried element is absent. */
  datatype Tile = Tile(
    name: Option<string>,              // `.car-name`
    priceText: Option<string>,         // `.price`
    metas: seq<string>,                // every `.car-meta`, in document order
    kmText: Option<string>,            // `.listing-tile-km p`
    transmissionText: Option<string>,  // `.listing-tile-transmission p`
    id: string                         // the tile element's `id`, empty when it has none
  )

  /** The record the callback returns, later upserted field for field into the store. */
  datatype Listing = Listing(
    title: Option<string>,
    vin: Option<string>,
    price: Option<nat>,
    mileage: Option<nat>,
    year: Option<nat>,
    fuelType: Option<string>,
    transmission: Option<string>,
    listingUrl: Option<string>,
    websiteUrl: string
  )

  /** `getText`: the trimmed text of an element, or `None` when the element is absent or its text is blank. */
  function GetText(raw: Option<string>): (r: Option<string>)
    ensures r.Some? <==> raw.Some? && !AllSpace(raw.value)
    ensures r.Some? ==> r.value == Trim(raw.value)
    ensures r.Some? ==> r.value != [] && Trimmed(r.value) && Trim(r.value) == r.value
  {
    match raw
    case None => None
    case Some(s) =>
      var t := Trim(s);
      TrimIdempotent(s);
      if t == [] then None else Some(t)
  }

  /** The digit-strip-then-`parseInt` used for price and mileage: `None` when there is no text or no digit in it. */
  function ParseCount(text: Option<string>): (r: Option<nat>)
    ensures r.Some? <==> text.Some? && HasDigit(text.value)
    ensures r.Some? ==> r.value < Pow10(|text.value|)
  {
    match text
    case None => None
    case Some(s) =>
      var d := Digits(s);
      DigitsEmptyIff(s);
      if d == [] then None
      else
        assert Pow10(|d|) <= Pow10(|s|) by { Pow10Monotone(|d|, |s|); }
        Some(ParseDecimal(d))
  }

  lemma {:induction false} Pow10Monotone(m: nat, n: nat)
    requires m <= n
    ensures Pow10(m) <= Pow10(n)
    decreases n
  {
    if m < n {
      Pow10Monotone(m, n - 1);
    }
  }

  /** A number written in decimal among non-digit characters is read back exactly. */
  lemma ParseCountOfNumber(pre: string, n: nat, post: string)
    requires !HasDigit(pre) && !HasDigit(post)
    ensures ParseCount(Some(pre + ShowNat(n) + post)) == Some(n)
  {
    DigitsAroundNumber(pre, ShowNat(n), post);
    ParseCountOfDigits(pre + ShowNat(n) + post);
    ParseShowRoundTrip(n);
  }

  lemma DigitsAroundNumber(pre: string, d: string, post: string)
    requires !HasDigit(pre) && !HasDigit(post) && AllDigits(d)
    ensures Digits(pre + d + post) == d
  {
    DigitsEmptyIff(pre);
    DigitsEmptyIff(post);
    DigitsOfDigits(d);
    DigitsAppend(pre, d);
    DigitsAppend(pre + d, post);
  }

  /** A count written with a separator inside (`$12,500`, `45 000 km`) reads as the digits run together. */
  lemma ParseCountGrouped(pre: string, high: string, sep: string, low: string)
    requires !HasDigit(pre) && !HasDigit(sep)
    requires AllDigits(high) && AllDigits(low) && high + low != []
    ensures ParseCount(Some(pre + high + sep + low)) == Some(ParseDecimal(high + low))
  {
    DigitsGrouped(pre, high, sep, low);
    ParseCountOfDigits(pre + high + sep + low);
  }

  /** The count read from a text is the number its digit characters spell. */
  lemma ParseCountOfDigits(s: string)
    requires Digits(s) != []
    ensures ParseCount(Some(s)) == Some(ParseDecimal(Digits(s)))
  {
  }

  lemma DigitsGrouped(pre: string, high: string, sep: string, low: string)
    requires !HasDigit(pre) && !HasDigit(sep)
    requires AllDigits(high) && AllDigits(low)
    ensures Digits(pre + high + sep + low) == high + low
  {
    var a := pre + high;
    var b := a + sep;
    DigitsEmptyIff(pre);
    DigitsEmptyIff(sep);
    DigitsOfDigits(high);
    DigitsOfDigits(low);
    DigitsAppend(pre, high);
    assert Digits(a) == high;
    DigitsAppend(a, sep);
    assert Digits(b) == high;
    DigitsAppend(b, low);
    assert Digits(b + low) == high + low;
    assert pre + high + sep + low == b + low;
  }

  /** Trimming the element text first (as `getText` does) never changes the parsed count. */
  lemma ParseCountIgnoresTrim(raw: Option<string>)
    ensures ParseCount(GetText(raw)) == ParseCount(raw)
  {
    if raw.Some? {
      DigitsOfTrim(raw.value);
      if AllSpace(raw.value) {
        DigitsOfSpace(raw.value);
      }
    }
  }

  /** The characters `\w` matches (the regular expression has no `u` flag, so ASCII only). */
  predicate IsWordChar(c: char) {
    ('A' <= c <= 'Z') || ('a' <= c <= 'z') || IsDigit(c) || c == '_'
  }

  /** `/\b(19|20)\d{2}\b/` matches at index `i` of `s`. */
  predicate IsYearAt(s: string, i: nat) {
    && i + 4 <= |s|
    && ((s[i] == '1' && s[i + 1] == '9') || (s[i] == '2' && s[i + 1] == '0'))
    && IsDigit(s[i + 2]) && IsDigit(s[i + 3])
    && (i == 0 || !IsWordChar(s[i - 1]))
    && (i + 4 == |s| || !IsWordChar(s[i + 4]))
  }

  /** The leftmost year match at or after `i`. */
  function FindYearFrom(s: string, i: nat): (r: Option<nat>)
    requires i <= |s|
    ensures r.Some? ==> i <= r.value && IsYearAt(s, r.value)
    ensures r.Some? ==> forall j: nat :: i <= j < r.value ==> !IsYearAt(s, j)
    ensures r.None? ==> forall j: nat :: i <= j ==> !IsYearAt(s, j)
    decreases |s| - i
  {
    if IsYearAt(s, i) then Some(i)
    else if i + 4 >= |s| then None
    else FindYearFrom(s, i + 1)
  }

  /** The value of the four digits of a year match. */
  function YearValue(s: string, i: nat): (y: nat)
    requires IsYearAt(s, i)
    ensures y == 1000 * DigitValue(s[i]) + 100 * DigitValue(s[i + 1]) + 10 * DigitValue(s[i + 2]) + DigitValue(s[i + 3])
    ensures 1900 <= y <= 2099
  {
    var d := s[i..i + 4];
    ParseFourDigits(d);
    ParseDecimal(d)
  }

  lemma ParseFourDigits(d: string)
    requires |d| == 4 && AllDigits(d)
    ensures ParseDecimal(d) == 1000 * DigitValue(d[0]) + 100 * DigitValue(d[1]) + 10 * DigitValue(d[2]) + DigitValue(d[3])
  {
    var d3 := d[..3];
    var d2 := d3[..2];
    var d1 := d2[..1];
    assert d1[..0] == [];
    assert ParseDecimal(d1) == DigitValue(d[0]);
    assert ParseDecimal(d2) == ParseDecimal(d1) * 10 + DigitValue(d[1]);
    assert ParseDecimal(d3) == ParseDecimal(d2) * 10 + DigitValue(d[2]);
    assert ParseDecimal(d) == ParseDecimal(d3) * 10 + DigitValue(d[3]);
  }

  /** `title.match(...)` then `parseInt(yearMatch[0])`: the first standalone 19xx/20xx token of the title. */
  function YearOf(title: Option<string>): (r: Option<nat>)
    ensures r.Some? <==> title.Some? && exists j: nat :: IsYearAt(title.value, j)
    ensures r.Some? ==> 1900 <= r.value <= 2099
  {
    match title
    case None => None
    case Some(s) =>
      match FindYearFrom(s, 0)
      case None => None
      case Some(i) => Some(YearValue(s, i))
  }

  /** The year is read from the leftmost match and no other. */
  lemma YearOfFirstMatch(s: string, i: nat)
    requires IsYearAt(s, i)
    requires forall j: nat :: j < i ==> !IsYearAt(s, j)
    ensures YearOf(Some(s)) == Some(YearValue(s, i))
  {
    var r := FindYearFrom(s, 0);
    assert r.Some?;
    assert r.value == i;
  }

  /** The index of the first `.car-meta` whose text includes `VIN` (`metas.find`). */
  function VinMetaIndex(metas: seq<string>): (r: Option<nat>)
    ensures r.Some? ==> r.value < |metas| && Includes(metas[r.value], "VIN")
    ensures r.Some? ==> forall j :: 0 <= j < r.value ==> !Includes(metas[j], "VIN")
    ensures r.None? ==> forall j :: 0 <= j < |metas| ==> !Includes(metas[j], "VIN")
  {
    if metas == [] then None
    else if Includes(metas[0], "VIN") then Some(0)
    else match VinMetaIndex(metas[1..])
      case None => None
      case Some(k) => Some(k + 1)
  }

  /** The VIN: the first VIN meta text with its first `"VIN "` removed, then trimmed. */
  function ExtractVin(metas: seq<string>): (r: Option<string>)
    ensures r.None? <==> forall j :: 0 <= j < |metas| ==> !Includes(metas[j], "VIN")
    ensures r.Some? ==> Trimmed(r.value)
  {
    match VinMetaIndex(metas)
    case None => None
    case Some(i) => Some(Trim(ReplaceFirst(metas[i], "VIN ", "")))
  }

  /**
   The first VIN meta `a + "VIN " + b`, whose first `"VIN "` is the one shown, yields
   `a + b` trimmed: the label is cut out wherever it stands, not only at the front.
   */
  lemma ExtractVinOfLabel(metas: seq<string>, i: nat, a: string, b: string)
    requires i < |metas| && metas[i] == a + "VIN " + b
    requires forall j: nat :: j < |a| ==> !OccursAt(metas[i], "VIN ", j)
    requires forall j :: 0 <= j < i ==> !Includes(metas[j], "VIN")
    ensures ExtractVin(metas) == Some(Trim(a + b))
  {
    LabelIncludesVin(a, b);
    assert Includes(metas[i], "VIN");
    var idx := VinMetaIndex(metas);
    assert idx.Some?;
    assert idx.value == i;
    ReplaceFirstAt(a, "VIN ", b, "");
    assert ReplaceFirst(metas[i], "VIN ", "") == a + b;
    assert ExtractVin(metas) == Some(Trim(ReplaceFirst(metas[i], "VIN ", "")));
  }

  lemma LabelIncludesVin(a: string, b: string)
    ensures Includes(a + "VIN " + b, "VIN")
  {
    var m := a + "VIN " + b;
    assert m[|a|..|a| + 3] == "VIN";
    assert OccursAt(m, "VIN", |a|);
  }

  /** A first VIN meta without the `"VIN "` label (`VIN:X`) is kept whole, only trimmed. */
  lemma ExtractVinWithoutLabel(metas: seq<string>, i: nat)
    requires i < |metas| && Includes(metas[i], "VIN")
    requires forall j: nat :: !OccursAt(metas[i], "VIN ", j)
    requires forall j :: 0 <= j < i ==> !Includes(metas[j], "VIN")
    ensures ExtractVin(metas) == Some(Trim(metas[i]))
  {
    assert VinMetaIndex(metas) == Some(i);
  }

  /** The listing URL, present only when the tile has a non-empty element id. */
  function ListingUrlOf(webUrl: string, id: string): (r: Option<string>)
    ensures r.None? <==> id == []
    ensures r.Some? ==> |r.value| == |webUrl| + |ListingPath| + |id|
    ensures r.Some? ==> r.value[..|webUrl|] == webUrl && r.value[|r.value| - |id|..] == id
    ensures r.Some? ==> r.value[|webUrl|..|webUrl| + |ListingPath|] == ListingPath
  {
    if id == [] then None else Some(webUrl + ListingPath + id)
  }

  /** The record built for one tile. */
  function ExtractListing(t: Tile, webUrl: string): (r: Listing)
    ensures r.websiteUrl == webUrl && r.fuelType == None
    ensures r.year.Some? ==> r.title.Some? && 1900 <= r.year.value <= 2099
    ensures r.vin.None? <==> forall j :: 0 <= j < |t.metas| ==> !Includes(t.metas[j], "VIN")
  {
    var title := GetText(t.name);
    Listing(
      title := title,
      vin := ExtractVin(t.metas),
      price := ParseCount(GetText(t.priceText)),
      mileage := ParseCount(GetText(t.kmText)),
      year := YearOf(title),
      fuelType := None,
      transmission := GetText(t.transmissionText),
      listingUrl := ListingUrlOf(webUrl, t.id),
      websiteUrl := webUrl)
  }

  /** The record's price and mileage are the counts read from the raw element texts, trimmed or not. */
  lemma ExtractListingCounts(t: Tile, webUrl: string)
    ensures ExtractListing(t, webUrl).price == ParseCount(t.priceText)
    ensures ExtractListing(t, webUrl).mileage == ParseCount(t.kmText)
  {
    ParseCountIgnoresTrim(t.priceText);
    ParseCountIgnoresTrim(t.kmText);
  }

  /** `if (data.vin)`: the VIN is present and, being a string, non-empty. */
  predicate HasVin(l: Listing) {
    l.vin.Some? && l.vin.value != []
  }

  /** The records kept for reconciliation, in scrape order. */
  function KeepWithVin(ls: seq<Listing>): (r: seq<Listing>)
    ensures |r| <= |ls|
    ensures forall i :: 0 <= i < |r| ==> HasVin(r[i])
    ensures forall l :: l in r <==> l in ls && HasVin(l)
  {
    if ls == [] then []
    else
      var front := KeepWithVin(ls[..|ls| - 1]);
      assert forall l :: l in ls <==> l in ls[..|ls| - 1] || l == ls[|ls| - 1];
      if HasVin(ls[|ls| - 1]) then front + [ls[|ls| - 1]] else front
  }

  /** Filtering one more record appends it exactly when it has a VIN. */
  lemma KeepWithVinSnoc(ls: seq<Listing>, l: Listing)
    ensures KeepWithVin(ls + [l]) == if HasVin(l) then KeepWithVin(ls) + [l] else KeepWithVin(ls)
  {
    assert (ls + [l])[..|ls|] == ls;
  }

  /** The filter keeps page order: filtering a concatenation filters each part in turn. */
  lemma {:induction false} KeepWithVinAppend(a: seq<Listing>, b: seq<Listing>)
    ensures KeepWithVin(a + b) == KeepWithVin(a) + KeepWithVin(b)
    decreases |b|
  {
    if b == [] {
      assert a + b == a;
    } else {
      var front := b[..|b| - 1];
      assert (a + b)[..|a + b| - 1] == a + front;
      KeepWithVinAppend(a, front);
    }
  }

  /** A snapshot none of whose records has a VIN filters down to nothing. */
  lemma {:induction false} KeepWithVinNone(ls: seq<Listing>)
    requires forall i :: 0 <= i < |ls| ==> !HasVin(ls[i])
    ensures KeepWithVin(ls) == []
  {
    if ls != [] {
      KeepWithVinNone(ls[..|ls| - 1]);
    }
  }

  /** The filter is the identity exactly on snapshots whose every record has a VIN. */
  lemma {:induction false} KeepWithVinIdentity(ls: seq<Listing>)
    ensures KeepWithVin(ls) == ls <==> forall i :: 0 <= i < |ls| ==> HasVin(ls[i])
  {
    if ls != [] {
      KeepWithVinIdentity(ls[..|ls| - 1]);
      if !HasVin(ls[|ls| - 1]) {
        assert |KeepWithVin(ls)| < |ls|;
      }
    }
  }

  /** The extracted record of every tile, in page order. */
  function ExtractAll(tiles: seq<Tile>, webUrl: string): (r: seq<Listing>)
    ensures |r| == |tiles|
  {
    if tiles == [] then []
    else ExtractAll(tiles[..|tiles| - 1], webUrl) + [ExtractListing(tiles[|tiles| - 1], webUrl)]
  }

  /** Each tile's record sits at the tile's own position. */
  lemma {:induction false} ExtractAllAt(tiles: seq<Tile>, webUrl: string, i: nat)
    requires i < |tiles|
    ensures ExtractAll(tiles, webUrl)[i] == ExtractListing(tiles[i], webUrl)
    decreases |tiles|
  {
    if i < |tiles| - 1 {
      ExtractAllAt(tiles[..|tiles| - 1], webUrl, i);
    }
  }

  /** Extraction works tile by tile: the records of two runs of tiles are the records of each, in order. */
  lemma {:induction false} ExtractAllAppend(a: seq<Tile>, b: seq<Tile>, webUrl: string)
    ensures ExtractAll(a + b, webUrl) == ExtractAll(a, webUrl) + ExtractAll(b, webUrl)
    decreases |b|
  {
    if b == [] {
      assert a + b == a;
    } else {
      var front := b[..|b| - 1];
      assert (a + b)[..|a + b| - 1] == a + front;
      ExtractAllAppend(a, front, webUrl);
    }
  }

  /** One more turn of the page loop extracts the next tile. */
  lemma ExtractAllStep(tiles: seq<Tile>, i: nat, webUrl: string)
    requires i < |tiles|
    ensures ExtractAll(tiles[..i + 1], webUrl) == ExtractAll(tiles[..i], webUrl) + [ExtractListing(tiles[i], webUrl)]
  {
    assert tiles[..i + 1][..i] == tiles[..i];
  }

  /** The page loop: extract each tile in turn and push the records that have a VIN. */
  method CollectListings(tiles: seq<Tile>, webUrl: string) returns (scraped: seq<Listing>)
    ensures scraped == KeepWithVin(ExtractAll(tiles, webUrl))
    ensures |scraped| <= |tiles|
    ensures forall i :: 0 <= i < |scraped| ==> HasVin(scraped[i])
  {
    scraped := [];
    for i := 0 to |tiles|
      invariant scraped == KeepWithVin(ExtractAll(tiles[..i], webUrl))
    {
      var data := ExtractListing(tiles[i], webUrl);
      ExtractAllStep(tiles, i, webUrl);
      KeepWithVinSnoc(ExtractAll(tiles[..i], webUrl), data);
      if HasVin(data) {
        scraped := scraped + [data];
      }
    }
    assert tiles[..|tiles|] == tiles;
  }
}
