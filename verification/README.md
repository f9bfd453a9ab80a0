# Car inventory scraper: reconciliation and extraction model

This Dafny project models the core of a dealership inventory scraper. The scraper
reads the used-vehicle listing page and turns each listing tile into a record. It keeps
the records that carry a VIN. It then reconciles them into the `inventory` collection
under one timestamp `now`:

- each record is upserted by VIN, in page order. All scraped fields, `status: 'active'`
  and `last_seen` are written. `data_scraped` is written on insert only.
- every entry that is still active but was not scraped is marked `removed` and stamped
  `now`. This step is skipped when nothing was scraped.

Modules, one per file:

- `Optional` (`optional.dfy`): the `Option` type standing for JavaScript's `null`.
- `Text` (`text.dfy`): the string primitives the extractor uses. These are `trim`, the
  `replace(/[^0-9]/g, '')` digit filter, `parseInt` on a digit string, `includes`, and
  `replace` with a string pattern.
- `Extractor` (`extractor.dfy`): the per-tile callback, modelled as a pure function from
  a `Tile` (the raw texts the callback queries) to a `Listing`. It also holds the year
  regular expression, the VIN lookup, the listing URL, the `if (data.vin)` filter and the
  page loop.
- `Inventory` (`inventory.dfy`): the collection, as a map from VIN to `Entry`. It holds
  the upsert, the upsert loop, the guarded `updateMany`, and the pass both as a function
  (`Reconcile`) and as the loop the scraper runs (`ReconcilePass`).
- `ReconcileProperties` (`reconcile_props.dfy`): an entry-by-entry description of what
  a pass leaves (`Expected`), proved equal to the pass, and the properties that follow
  from it.
- `Scraper` (`scraper.dfy`): one whole run from tiles to the new store, plus two worked
  examples.

Modelling decisions:

- The creation stamp is named `dataScraped`, after the `data_scraped` field the code
  writes at scraper.js:118-120.
- Mongo's `{ vin: { $nin: activeVins } }` filter tests each document's `vin` field. The
  model tests the map key instead. `Inventory.WellKeyed` (every entry is filed under its
  own record's VIN) makes the two the same. `ReconcileProperties.ReconcileKeepsWellKeyed`
  proves every pass preserves it.
- `now` (a JavaScript `Date`) is an `int`. Only its equality and order matter.
- `parseInt` is modelled on unbounded naturals.
- The upsert loop is a left fold. It is written by recursion on the last record of the
  snapshot, which is the same fold.

## Model

| member | source | states |
|---|---|---|
| Text.Trim | scraper.js:51 | The result has no white space at either end and is no longer than the input. It is empty exactly when the input is all white space. |
| Text.TrimIsSlice | scraper.js:51 | What `trim` keeps is a contiguous slice of the input with only white space on either side of it. |
| Text.TrimUnique | scraper.js:51 | Surrounding an already trimmed string with white space and trimming gives that string back. |
| Text.TrimIdempotent | scraper.js:51 | Trimming twice is trimming once. |
| Text.Digits | scraper.js:55 | The digit filter's output consists of digits only and is no longer than its input. |
| Text.DigitsEmptyIff | scraper.js:55 | The filter's output is empty if and only if the input holds no ASCII digit. |
| Text.DigitsAppend | scraper.js:55 | The filter distributes over concatenation, so it keeps the digits in their original order. |
| Text.DigitsOfDigits | scraper.js:55 | A string of digits passes through the filter unchanged. |
| Text.DigitsOfTrim | scraper.js:51-55 | Filtering the trimmed text gives the same digits as filtering the raw text. |
| Text.DigitsOfSpace | scraper.js:55 | White space yields no digits. |
| Text.ParseDecimal | scraper.js:81-82 | `parseInt` of an n-digit string is below 10^n. |
| Text.ParseShowRoundTrip | scraper.js:81-82 | Parsing the decimal spelling of any natural number gives that number back. |
| Text.ParseAppend | scraper.js:81-82 | Parsing two digit strings run together equals the first shifted by the second's length plus the second. |
| Text.ParseLeadingZero | scraper.js:81-82 | A leading zero does not change the parsed value. |
| Text.FindFrom | scraper.js:59 | The search returns the first occurrence at or after the start index, and `None` only when there is none. |
| Text.IndexOf | scraper.js:59 | `indexOf` gives the leftmost occurrence. It is absent exactly when the pattern occurs nowhere. |
| Text.ReplaceFirst | scraper.js:60 | Replacing without an occurrence leaves the string unchanged. With one, the length changes by the length difference of pattern and replacement. |
| Text.ReplaceFirstAt | scraper.js:60 | Only the first occurrence is replaced: `a + pat + b` becomes `a + rep + b` when `pat` does not occur earlier. |
| Extractor.GetText | scraper.js:51 | `getText` is present exactly when the element exists and its text is not all white space. Its value is then the element's text trimmed, which is non-empty. |
| Extractor.ParseCount | scraper.js:54-55 | The price or mileage is present exactly when the element text exists and contains a digit. It is below 10 to the power of the text's length. |
| Extractor.ParseCountOfNumber | scraper.js:81-82 | A number written in decimal, surrounded by text without digits, is read back exactly. |
| Extractor.ParseCountGrouped | scraper.js:55 | A count with a separator inside it (`$12,500`) reads as its digit groups run together. |
| Extractor.ParseCountIgnoresTrim | scraper.js:54-55 | Trimming the element text first never changes the parsed count. |
| Extractor.FindYearFrom | scraper.js:62 | The regex search returns the leftmost standalone four-digit 19xx or 20xx match at or after the start, and `None` only when no match exists. |
| Extractor.YearValue | scraper.js:83 | The value of a year match is the number its four digits spell, so it lies between 1900 and 2099. |
| Extractor.YearOf | scraper.js:62-63 | The year is present exactly when the title exists and contains a standalone 19xx or 20xx token. It always lies in 1900..2099. |
| Extractor.YearOfFirstMatch | scraper.js:62-63 | When several tokens match, the year is read from the leftmost one. |
| Extractor.VinMetaIndex | scraper.js:58-59 | `metas.find` selects the first meta whose text includes `VIN`. It finds none only when no meta does. |
| Extractor.ExtractVin | scraper.js:58-60 | The VIN is absent exactly when no meta includes `VIN`. When present it is trimmed. |
| Extractor.ExtractVinOfLabel | scraper.js:57-60 | Take the first VIN meta, written `a + "VIN " + b` where the `"VIN "` shown is its first. It yields `a + b` trimmed: the label is cut out wherever it stands. |
| Extractor.ExtractVinWithoutLabel | scraper.js:58-60 | A first VIN meta that includes `VIN` but never `"VIN "` (such as `VIN:X`) yields its whole text, trimmed. |
| Extractor.ListingUrlOf | scraper.js:75-76 | The URL is absent exactly when the tile has no id. Otherwise it is the site URL, then the path `/en/used-inventory/vehicle-id`, then the id. |
| Extractor.ExtractListing | scraper.js:50-88 | The record carries the site URL and no fuel type. A year implies a title and lies in 1900..2099. The VIN is absent exactly when no meta mentions `VIN`. |
| Extractor.ExtractListingCounts | scraper.js:54-55 | The record's price and mileage are the counts read from the raw element texts. Trimming by `getText` first makes no difference. |
| Extractor.KeepWithVin | scraper.js:91-93 | The filter keeps exactly the records with a non-empty VIN, and the kept list is never longer. |
| Extractor.KeepWithVinAppend | scraper.js:91-93 | The filter keeps page order: filtering a concatenation filters each part and concatenates the results. |
| Extractor.KeepWithVinNone | scraper.js:91-93 | Records none of which has a VIN filter down to nothing. |
| Extractor.KeepWithVinIdentity | scraper.js:91-93 | The filter returns its input unchanged if and only if every record has a VIN. |
| Extractor.ExtractAll | scraper.js:48-89 | The page loop extracts exactly one record per tile. |
| Extractor.ExtractAllAppend | scraper.js:48-89 | Extraction works tile by tile and in order: the records of two runs of tiles are those of the first followed by those of the second. |
| Extractor.ExtractAllAt | scraper.js:48-89 | The record at each position is the extraction of the tile at that position. |
| Extractor.CollectListings | scraper.js:48-94 | The page loop produces exactly the filtered extraction of the tiles. No record lacks a VIN, and there are no more records than tiles. |
| Inventory.VinSet | scraper.js:104 | The set of VINs of a snapshot contains every record's VIN and nothing else. |
| Inventory.ActiveVins | scraper.js:104 | `activeVins` lists every record's VIN in scrape order. `filter(Boolean)` removes nothing, because every record already has a VIN. |
| Inventory.Upsert | scraper.js:110-123 | One upsert adds the VIN's key and writes the record, `active` and `now`. It keeps an existing `data_scraped` and writes `now` only on insert. Every other entry is untouched. |
| Inventory.UpsertAll | scraper.js:109-124 | The upsert loop never removes a stored VIN. `UpsertAllKeys` gives its exact keys and `ReconcileProperties.UpsertAllPointwise` its entries. |
| Inventory.UpsertAllKeys | scraper.js:109-124 | After the loop the keys are the old keys plus the snapshot's VINs. Nothing is ever deleted. |
| Inventory.MarkRemoved | scraper.js:128-131 | The bulk update keeps the keys. An active entry not listed becomes removed and is stamped `now`. Removed or listed entries are left exactly as they were. No unlisted entry stays active. |
| Inventory.Reconcile | scraper.js:103-133 | The pass only adds keys, namely the snapshot's VINs. An empty snapshot leaves the store identical. |
| Inventory.ReconcilePass | scraper.js:103-133 | The scraper's loop of single upserts followed by the guarded bulk update computes the pass. |
| ReconcileProperties.LastIndex | scraper.js:109-124 | The position found holds the VIN, and no later record holds it. |
| ReconcileProperties.UpsertAllPointwise | scraper.js:109-124 | After the loop each scraped VIN holds its last record, `active`, `now` and the original creation stamp. Unscraped entries are untouched. |
| ReconcileProperties.ReconcilePointwise | scraper.js:103-133 | Every entry the pass leaves agrees with the independent entry-by-entry description. |
| ReconcileProperties.ReconcileMatchesExpected | scraper.js:103-133 | The pass equals the independent description as a whole map. |
| ReconcileProperties.ReconcileLastOccurrenceWins | scraper.js:109-124 | The last record carrying a VIN is the one stored for it, active and stamped `now`. |
| ReconcileProperties.ReconcileKeepsCreationStamp | scraper.js:118-120 | `data_scraped` is never overwritten. Existing entries keep theirs, and new entries get `now`. |
| ReconcileProperties.ReconcileMarksMissingRemoved | scraper.js:127-131 | After a non-empty pass, an entry that was active but not scraped is removed and stamped `now`, with nothing else changed. |
| ReconcileProperties.ReconcileLeavesRemovedAlone | scraper.js:129 | An already removed entry that was not scraped again is left exactly as it was, including `last_seen`. |
| ReconcileProperties.ReconcileActiveIffScraped | scraper.js:103-133 | After a non-empty pass an entry is active if and only if its VIN was scraped. |
| ReconcileProperties.EmptyPassKeepsStaleActive | scraper.js:127 | The exception: after an empty pass, active entries stay active although none was scraped. |
| ReconcileProperties.ReconcileIdempotent | scraper.js:103-133 | Running the pass twice with the same snapshot and clock equals running it once. |
| ReconcileProperties.ReconcileLastSeenMonotone | scraper.js:109-131 | With a clock that does not run backwards, no entry's `last_seen` decreases, and none exceeds `now`. |
| ReconcileProperties.ReconcileKeepsWellKeyed | scraper.js:110-114 | If every entry sits under its own record's VIN before a pass, this still holds after it. |
| Scraper.Snapshot | scraper.js:91-93 | The reconciled snapshot holds exactly the extracted records that have a VIN, and never more records than tiles. |
| Scraper.SnapshotAppend | scraper.js:48-94 | The snapshot keeps page order: the tiles of two runs give the first run's snapshot followed by the second's. The last-occurrence rule of the upsert loop depends on this order. |
| Scraper.ScrapePass | scraper.js:103-133 | A run only adds keys, namely the VINs found on the page. |
| Scraper.Scrape | scraper.js:41-133 | The run as the scraper performs it (the page loop, then the pass) computes `ScrapePass`. |
| Scraper.ScrapeWithoutVinIsNoop | scraper.js:127 | A run in which no tile yields a VIN leaves the store exactly as it was. |
| Scraper.ScrapeIdempotent | scraper.js:103-133 | Re-running the scraper on the same page with the same clock changes nothing further. |
| Scraper.FirstSightingExample | scraper.js:50-124 | Worked example. Starting from an empty store, the tile `2020 Civic` / `$12,500` / `VIN A1` yields one active entry `A1` with price 12500 and year 2020. Its creation stamp and `last_seen` are both `now`. |
| Scraper.YearOfLeadingYear | scraper.js:62-63 | A title with no trailing white space that opens with a standalone year yields that year. |
| Scraper.VehicleSoldExample | scraper.js:109-131 | Worked example. A store holding an active `B2`, reconciled with a snapshot of only `A1`, leaves `B2` removed and stamped `now`, and `A1` new and active. |

## Left out

- Browser automation (launching the browser, navigation, waiting for selectors, reading `innerText`) is not modelled. The tiles' raw texts are the run's input.
- The MongoDB client lifecycle, connection errors, the `catch` that logs a failed run, and `finally` closing the browser are not modelled. A run either completes or is not modelled.
- The "0 Vehicles" check at scraper.js:96-100 only logs a message and does not change the data. A page without tiles is modelled as an empty tile list.
- Console logging, including the `modifiedCount` report at scraper.js:132, is not modelled.
- `innerText` layout rules (CSS-driven line breaks, hidden text) are not modelled. The tile holds the text the browser would return.
- Extractor.ParseCount: `parseInt` of a digit string returns a JavaScript number. That number loses precision above 2^53, and digit strings beyond about 1.8e308 give `Infinity`. The model reads digit strings into unbounded naturals instead.
- Inventory.Upsert: the store is a map with one entry per VIN. Mongo could also hold duplicate `vin` documents, and an `updateOne` would update only one of them. The model does not represent those.
- The export and verification scripts (`export_db.js`, `verify_db.js`) only read the collection and are not part of this model.
