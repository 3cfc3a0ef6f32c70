# Bali gig tracker: the CSV importers

This project models the two command-line importers of the gig tracker's
backend and proves properties of them.

- `backend/import_venues_csv.py` reads a spreadsheet of venues. It normalises
  each address (postcode removal, an ordered table of Indonesian abbreviation
  substitutions, separator tidying, the "Bali" / "Indonesia" bias) and cleans
  the Instagram handle and website columns. It geocodes the address through
  `geocode_bali`: a cache keyed on the trimmed address, up to three
  candidate query strings, and each candidate retried `tries` times. It
  then creates, updates or skips the venue of the same name, counting each
  row once, and ends in a commit, or in a rollback for a dry run.
- `backend/import_bands_csv.py` checks that the header holds the columns
  `band`, `genre`, `country` and `city` (up to case and surrounding blanks),
  exiting with status 2 otherwise. It then upserts one band per row, with the
  city falling back to the country and genre and city overwritten only by
  given values, and ends in a commit or a rollback.

Modules, one per concern of the source:

- `Wrappers` has `Option`.
- `Strings` holds `str.strip`, `str.lower`, `\s` / `\d` / `\w`, `in`, and `split` / `join` on ASCII text.
- `AddressNormalizer` is `normalize_address`.
- `VenueFields` holds `clean_instagram` and `resolve_website`.
- `Geocoding` is `geocode_bali`.
- `Store` holds the outcome counters and the database session.
- `VenueImport` is the venue row loop.
- `BandImport` holds the band header check and row loop.

Pure code is written as functions. The imperative code is written as methods
over classes: the candidate appends, the nested retry loops, the cache
update and the row loops. Each method is proved equal to a specification
function, and the properties are proved about that function:

- `Geocoding.Geocoder` is the injected geocoder, which counts its calls.
- `Geocoding.GeocodeCache` is the cache dictionary, updated in place.
- `Store.Session` is the ORM session. `pending` is what queries in the
  session see. `committed` is what the database keeps.

The geocoder is an oracle `lookup(n, query)`, where `n` is the number of
queries issued before. A flaky or rate-limited service, which is what the
retries are for, is expressible in it.

The venue row loop is proved for any lookup `Driver` that keeps the caching
contract `CachingDriver`, and `BaliDriverCaches` proves that `geocode_bali`
keeps it.

In two places the code does less than its patterns and comments suggest.
The model follows the code:

- `\bJl\.?\b` does not take the dot of "Jl." when a blank follows. The `\b`
  after the dot fails between two non-word characters, so the regex
  backtracks, and "Jl. Tibung Sari" becomes "Jalan. Tibung Sari", not
  "Jalan Tibung Sari" (`JalanRuleAndTheDot`). For the same reason "Kab. X"
  and "Kec. X" leave ". X", and the direction rules `Bar\.\b`, `Sel\.\b`,
  `Ut\.\b` and `Tim\.\b` only fire when a word character follows the dot.
- The last candidate does not always end in ", Bali, Indonesia". When the
  normalised address is "X, Bali, Indonesia", the region fallback equals
  it up to case and is not appended, so the list is
  `["X, Bali, Indonesia", "X, Bali"]`. What holds, and is proved, is that
  the region fallback is among the candidates up to case
  (`CandidatesShape`), and `RegionFallbackNotLast` shows the list above.

## Model

| member | source | states |
|---|---|---|
| Strings.StripSpec | backend/import_venues_csv.py:40 | what `str.strip()` keeps is a slice of the input, and all it drops on either side is whitespace |
| Strings.Strip | backend/import_venues_csv.py:40 | `str.strip()`: the result neither starts nor ends with whitespace |
| Strings.StripIdempotent | backend/import_venues_csv.py:72 | stripping an already stripped text changes nothing, which is why the trimmed address is a stable cache key |
| Strings.SplitNoSep | backend/import_venues_csv.py:81 | text without the separator splits into itself |
| Strings.SplitFirst | backend/import_venues_csv.py:81 | the text before the first separator is the first piece, and the rest splits on |
| Strings.Split | backend/import_venues_csv.py:81 | `norm.split(",")` gives at least one piece and no piece contains the separator |
| Strings.JoinSplit | backend/import_venues_csv.py:81 | joining the pieces of a split with the separator gives back the text |
| AddressNormalizer.StripPostcodesFrom | backend/import_venues_csv.py:42 | `re.sub(r"\b\d{5}\b", "", a)` as a left-to-right scan; its properties are StripPostcodesRemovesAll, StripPostcodesKeeps and StripPostcodesIdempotent |
| AddressNormalizer.StripPostcodesRemovesAll | backend/import_venues_csv.py:32-42 | after the postcode pass no five-digit token bounded by non-word characters remains |
| AddressNormalizer.StripPostcodesKeeps | backend/import_venues_csv.py:42 | text without a postcode token passes through the postcode pass unchanged |
| AddressNormalizer.StripPostcodesIdempotent | backend/import_venues_csv.py:42 | a second postcode pass changes nothing |
| AddressNormalizer.SubFromKeeps | backend/import_venues_csv.py:44-45 | an abbreviation pattern that matches nowhere leaves the text as it is |
| AddressNormalizer.SubFrom | backend/import_venues_csv.py:45 | one case-insensitive `re.sub` of a table pattern, scanning left to right; its properties are SubFromKeeps and JalanRuleAndTheDot |
| AddressNormalizer.ApplyRules | backend/import_venues_csv.py:44-45 | the table's substitutions applied one after the other in the table's order |
| AddressNormalizer.JalanRuleAndTheDot | backend/import_venues_csv.py:20 | `\bJl\.?\b` matches "Jl" without its dot before a blank, and "Jl." with it before a letter |
| AddressNormalizer.CommaTidySpaced | backend/import_venues_csv.py:47 | after the `\s*,\s*` pass every comma is followed by a blank |
| AddressNormalizer.CommaTidyFrom | backend/import_venues_csv.py:47 | `re.sub(r"\s*,\s*", ", ", a)`; its property is CommaTidySpaced |
| AddressNormalizer.CollapseFrom | backend/import_venues_csv.py:48 | `re.sub(r"\s{2,}", " ", a)`; its property is CollapseNoRuns |
| AddressNormalizer.Tidy | backend/import_venues_csv.py:47-48 | the comma pass, the blank-run pass, then `.strip(", ").strip()` |
| AddressNormalizer.CollapseNoRuns | backend/import_venues_csv.py:48 | after the `\s{2,}` pass no two whitespace characters are adjacent, and the output starts with whitespace exactly when the input does |
| AddressNormalizer.EnsureRegion | backend/import_venues_csv.py:50-53 | the region step only appends to the address, and leaves it as it is when both names are already present |
| AddressNormalizer.EnsureRegionBias | backend/import_venues_csv.py:50-53 | after the region step "bali" and "indonesia" both occur in the lower-cased text |
| AddressNormalizer.NormalizeAddress | backend/import_venues_csv.py:38-54 | strip, postcode pass, abbreviation table, tidying, region step, in the source's order; its property is NormalizeAddressBias |
| AddressNormalizer.NormalizeAddressBias | backend/import_venues_csv.py:38-54 | every normalised address contains "bali" and "indonesia" case-insensitively, for `None` and empty input too |
| VenueFields.CleanInstagram | backend/import_venues_csv.py:56-62 | `None` exactly for a missing handle, or one that is empty or only slashes after trimming and removing one "@"; otherwise a non-empty prefix of the unprefixed handle that does not end in "/", with only slashes cut off after it |
| VenueFields.CleanInstagramRemovesOneAt | backend/import_venues_csv.py:60-61 | only one leading "@" is removed: " @@gig/ " gives "@gig" |
| VenueFields.ResolveWebsite | backend/import_venues_csv.py:64-68 | a website exactly when the trimmed link starts with http:// or https:// in any case, and then it is the non-empty trimmed link |
| VenueFields.ResolveWebsiteIdempotent | backend/import_venues_csv.py:64-68 | a resolved website resolves to itself |
| Geocoding.NonBlankFrom | backend/import_venues_csv.py:81 | the kept segments are no more than the pieces and none is empty |
| Geocoding.KeptLength | backend/import_venues_csv.py:81 | there are as many kept positions as kept segments |
| Geocoding.NonBlankValues | backend/import_venues_csv.py:81 | each kept segment is the stripped piece at its kept position |
| Geocoding.KeptIncreasing | backend/import_venues_csv.py:81 | the kept positions are strictly increasing, so the segments keep the pieces' order |
| Geocoding.KeptCovers | backend/import_venues_csv.py:81 | every piece that is not blank after stripping is kept |
| Geocoding.NonBlankFront | backend/import_venues_csv.py:81-88 | no segment is kept exactly when every piece is blank, and the first segment is the stripped first piece whenever that is not blank |
| Geocoding.CandidatesFrom | backend/import_venues_csv.py:76-91 | one to three candidates, the first being the normalised address |
| Geocoding.CandidatesShape | backend/import_venues_csv.py:80-91 | candidates are pairwise distinct up to case; the region fallback is among them up to case; every later entry is the first-two-segments query or the region fallback; the first-two-segments query comes second whenever it differs from the address up to case |
| Geocoding.RegionAddressParts | backend/import_venues_csv.py:81 | an address `x, Bali, Indonesia` has the segments `x`, `Bali` and `Indonesia` |
| Geocoding.RegionFallbackNotLast | backend/import_venues_csv.py:87-91 | for an address `x, Bali, Indonesia` the region fallback equals the address and is not appended, so the candidates are the address and `x, Bali` |
| Geocoding.BuildCandidates | backend/import_venues_csv.py:76-91 | appending the address and each fallback that passes its test builds exactly the candidate list |
| Geocoding.TraceLength | backend/import_venues_csv.py:93-94 | the queries of a run where every call fails number `tries` per candidate |
| Geocoding.TraceBound | backend/import_venues_csv.py:93-94 | with at most three candidates there are at most `3 * tries` queries |
| Geocoding.TraceQueries | backend/import_venues_csv.py:93-95 | every query sent is one of the candidates |
| Geocoding.FirstHit | backend/import_venues_csv.py:93-108 | the search never issues more queries than the trace holds |
| Geocoding.FirstHitSpec | backend/import_venues_csv.py:93-108 | a miss issued every query; a hit is the answer to the last query issued; every earlier query failed |
| Geocoding.FirstHitHit | backend/import_venues_csv.py:103-106 | a successful query ends the search after one call with its answer |
| Geocoding.FirstHitMiss | backend/import_venues_csv.py:95-107 | a failed query hands the search on to the next query of the trace |
| Geocoding.GeocodeWith | backend/import_venues_csv.py:70-108 | a cached key answers from the cache with no call and no change; at most `3 * tries` calls otherwise; a miss leaves the cache unchanged; a success is stored under the trimmed key and is the answer to a query of one of the candidates |
| Geocoding.Geocode | backend/import_venues_csv.py:70-108 | `geocode_bali` on a raw address: GeocodeWith keyed on the trimmed address with the candidates built from it |
| Geocoding.Geocoder.constructor | backend/import_venues_csv.py:155-156 | a new geocoder has issued no query |
| Geocoding.Geocoder.Query | backend/import_venues_csv.py:95-102 | a query returns the service's answer for this call and counts one call |
| Geocoding.GeocodeCache.constructor | backend/import_venues_csv.py:131-137 | the cache starts as the entries loaded |
| Geocoding.RetryCandidate | backend/import_venues_csv.py:94-107 | the retry loop for one candidate returns the first success among its `tries` attempts, or hands the rest of the search on unchanged |
| Geocoding.RetryStep | backend/import_venues_csv.py:95-107 | one attempt either ends the search with its answer or leaves one attempt fewer |
| Geocoding.TryCandidates | backend/import_venues_csv.py:93-108 | the nested loops issue exactly the queries of the first-hit search over the trace and return its result |
| Geocoding.GeocodeBali | backend/import_venues_csv.py:70-108 | answer, cache and call count after `geocode_bali` are those of the specification on the raw address |
| Geocoding.GeocodeMiss | backend/import_venues_csv.py:93-108 | on a cache miss the answer and the call count are those of the first-hit search over the candidates, and only a success is cached |
| Store.Counts.Tally | backend/import_venues_csv.py:159-206 | counting a row raises the total by one, and only the counter of its outcome goes up |
| Store.Session.constructor | backend/import_venues_csv.py:158 | a new session sees and keeps the stored rows |
| Store.Session.Find | backend/import_venues_csv.py:179 | `one_or_none()` finds a row exactly when the session holds the name, pending changes included |
| Store.Session.Put | backend/import_venues_csv.py:205 | adding or writing back a record changes only that name's pending row |
| Store.Session.Commit | backend/import_venues_csv.py:219 | a commit keeps what the session holds |
| Store.Session.Rollback | backend/import_venues_csv.py:216 | a rollback discards every pending change |
| VenueImport.ReconcileVenue | backend/import_venues_csv.py:179-193 | an existing venue takes the row's address, handle and coordinate pair; its website is replaced only by a non-empty one; name, district and notes stay; it counts as changed exactly when the record differs |
| VenueImport.ReconcileIdempotent | backend/import_venues_csv.py:179-193 | setting the same values a second time changes nothing |
| VenueImport.NewVenueSettled | backend/import_venues_csv.py:194-206 | a venue created from a row is unchanged by that row |
| VenueImport.BaliDriverCaches | backend/import_venues_csv.py:171 | `geocode_bali` with `tries=2` keeps the caching contract the row loop relies on |
| VenueImport.Upsert | backend/import_venues_csv.py:179-206 | an existing venue is reconciled (ReconcileVenue), an unknown name gets a new venue; its properties are stated by ProcessVenueRowSpec and ProcessVenueRowKeys |
| VenueImport.ProcessVenueRow | backend/import_venues_csv.py:161-206 | one pass of the row loop; its properties are ProcessVenueRowSpec, ProcessVenueRowCalls, ProcessVenueRowKeys and ProcessVenueRowTwice |
| VenueImport.ProcessVenueRowSpec | backend/import_venues_csv.py:161-206 | a blank name or address skips with no lookup and no change; a failed lookup changes neither venues nor cache; no other venue is touched; a skip leaves the venues alone; an update changes the row's venue; a creation adds it with no district and no notes; the venue's coordinates are the cached ones for its address |
| VenueImport.ProcessVenueRowCalls | backend/import_venues_csv.py:171 | a row costs at most six geocoder calls |
| VenueImport.ProcessVenueRowKeys | backend/import_venues_csv.py:179-206 | only a creation adds a name, and the name is new |
| VenueImport.ProcessVenueRowTwice | backend/import_venues_csv.py:161-206 | a row that did not fail, applied again, is a skip that changes nothing and calls no geocoder |
| VenueImport.VenueRun | backend/import_venues_csv.py:159-206 | the row loop over all rows in order; its properties are VenueRunTotal, VenueRunCalls and VenueRunCreates |
| VenueImport.VenueRunTotal | backend/import_venues_csv.py:159-206 | every row moves exactly one counter |
| VenueImport.VenueRunCalls | backend/import_venues_csv.py:161-175 | a run makes at most six geocoder calls per row |
| VenueImport.VenueRunCreates | backend/import_venues_csv.py:194-206 | no venue is removed, and the venues added are as many as the rows counted as created |
| VenueImport.UpsertVenue | backend/import_venues_csv.py:179-206 | setting each differing field on the loaded venue gives the reconciled record and outcome |
| VenueImport.ImportVenueRow | backend/import_venues_csv.py:161-206 | the loop body does what the one-row specification says to venues, cache and call count |
| VenueImport.ImportVenues | backend/import_venues_csv.py:158-220 | counters, cache and calls are those of the row loop; the stored venues are the loop's after a real run and the old ones after a dry run |
| BandImport.FieldMap | backend/import_bands_csv.py:25 | `{k.lower().strip(): k for k in fieldnames}`; its properties are KeyedByKeys and KeyedByLast |
| BandImport.KeyedByKeys | backend/import_bands_csv.py:25 | a name is a key of the field map exactly when some header normalises to it |
| BandImport.KeyedByLast | backend/import_bands_csv.py:25 | a key maps to the last header that normalises to it |
| BandImport.KeyedByAll | backend/import_bands_csv.py:25-27 | all required names are keys exactly when each is the normal form of some header |
| BandImport.MissingColumns | backend/import_bands_csv.py:27 | a name is reported missing exactly when it is required and not in the field map |
| BandImport.CheckHeader | backend/import_bands_csv.py:25-30 | the check passes with the field map holding all four columns, or fails with the non-empty list of exactly the missing ones |
| BandImport.CheckHeaderSpec | backend/import_bands_csv.py:25-30 | the check passes exactly when each required name is, up to case and surrounding blanks, one of the headers |
| BandImport.Cell | backend/import_bands_csv.py:40-42 | a cell is `None` exactly when it is absent or blank after trimming, otherwise it is the trimmed non-empty text |
| BandImport.CityOrCountry | backend/import_bands_csv.py:45 | the city cell if it is given, else the country cell; ProcessBandRowSpec states it for created bands |
| BandImport.UpsertBand | backend/import_bands_csv.py:47-67 | the upsert of one band; its properties are UpsertBandExisting and ProcessBandRowSpec |
| BandImport.ProcessBandRow | backend/import_bands_csv.py:35-67 | one pass of the row loop; its properties are ProcessBandRowSpec, ProcessBandRowTwice and ProcessBandRowKeys |
| BandImport.UpsertBandExisting | backend/import_bands_csv.py:47-57 | genre and city are replaced only by given values and never cleared; nothing else changes; the row counts as updated exactly when the band differs |
| BandImport.ProcessBandRowSpec | backend/import_bands_csv.py:35-67 | a blank name skips and touches nothing; no row fails; no other band is touched; a new band has the row's genre, the city or else the country, and no links or description; a skip leaves the bands alone |
| BandImport.ProcessBandRowTwice | backend/import_bands_csv.py:35-67 | the same row applied again is a skip that changes nothing |
| BandImport.ProcessBandRowKeys | backend/import_bands_csv.py:47-67 | only a creation adds a name, and the name is new |
| BandImport.BandRun | backend/import_bands_csv.py:33-67 | the row loop over all rows in order; its properties are BandRunCounts and BandRunCreates |
| BandImport.BandRunCounts | backend/import_bands_csv.py:33-67 | every row moves exactly one counter, and never a failure counter |
| BandImport.BandRunCreates | backend/import_bands_csv.py:58-67 | no band is removed, and the bands added are as many as the rows counted as created |
| BandImport.UpsertBandRecord | backend/import_bands_csv.py:47-67 | setting a differing genre and city on the loaded band, or adding a new one, gives the specified record and outcome |
| BandImport.ImportBandRow | backend/import_bands_csv.py:35-67 | the loop body does what the one-row specification says |
| BandImport.ImportBands | backend/import_bands_csv.py:22-74 | a missing column ends the run with status 2, the missing names and no change; otherwise the counters are the loop's, and the stored bands are the loop's after a real run and the old ones after a dry run |

## Left out

- Left out as I/O, and treated as input or output values instead:
  - argument parsing and the file-existence check (exit status 1);
  - opening the CSV and reading it with `csv.DictReader`;
  - loading the JSON cache and saving it, including the best-effort write warning at `backend/import_venues_csv.py:209-213`;
  - all printing.

  Rows arrive as a sequence. The cache is passed in and out.
- The venue importer's header check (`backend/import_venues_csv.py:142-153`) is not part of this model. The venue row loop takes rows that already have the four cells.
- A `DictReader` row always has a key for every header, with `None` for a short row. A band row is a map in which an absent key reads as `None`.
- geopy's `Nominatim`, the `RateLimiter` and `time.sleep` delays are abstracted. The service is the oracle `lookup`, and calls are counted instead of timed. The viewbox, country-code and address-detail arguments are opaque to the model.
- The oracle `lookup` stands for the `RateLimiter`-wrapped `geocode`, so the `3 * tries` and six-calls-per-row bounds count calls of that wrapper, not requests to the service. The wrapper's own retries on errors, and the exceptions it swallows and turns into `None`, happen inside one such call; they come from geopy's defaults, which are not part of this model.
- Coordinates are reals compared by equality, not IEEE floats. A cache entry is assumed to be a well-formed coordinate pair, although the JSON file could hold anything.
- Whitespace, case and word characters follow Python on ASCII only. Unicode `str.strip`, `str.lower` and `\w` are not modelled.
- Regular expressions are modelled for the patterns this code uses, not as a general engine:
  - `\b\d{5}\b`;
  - `\b<word>(<alternatives>)?\b` with IGNORECASE and Python's order of trying alternatives;
  - `\s*,\s*`, `\s{2,}` and `/+$`.
- Fields set on an ORM object in place are modelled as a record value written back into the session (`Store.Session.Put`). Identity and aliasing of ORM objects are not modelled.
- `backend/database.py`, which configures the session, is not part of this model. `pending` assumes SQLAlchemy's default `autoflush=True`: a query sees the rows added or changed earlier in the same run. With autoflush off, two rows with the same new name would both count as created, and the commit would fail on the unique name.
- `db.close()` in the `finally` blocks and exceptions raised by the database are not modelled.
- AddressNormalizer.NormalizeAddressBias: the absence of postcode tokens is proved right after the postcode pass (`StripPostcodesRemovesAll`), not for the final normalised address. The later substitutions are not proved to never bring five digits together.
- Geocoding.CandidatesShape: the last candidate is not proved to end in ", Bali, Indonesia", because that does not hold (see above). The weaker "present up to case" is proved instead.
