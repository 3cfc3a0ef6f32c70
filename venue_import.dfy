/**
 * The row loop of the venue importer: each CSV row is skipped, fails to
 * geocode, updates the venue of the same name or creates one, and the run
 * ends in a commit, or in a rollback for a dry run.
 */
module VenueImport {
  import opened Wrappers
  import opened Strings
  import opened VenueFields
  import opened Geocoding
  import opened Store

  /** A row of the `venues` table. */
  datatype Venue = Venue(
    name: string,
    address: Option<string>,
    district: Option<string>,
    lat: real,
    lon: real,
    instagram: Option<string>,
    website: Option<string>,
    notes: Option<string>)

  /** The cells of one CSV row the importer reads; a cell is absent when the
      row is short. The link column is read under both of its spellings. */
  datatype VenueRow = VenueRow(
    venue: Option<string>,
    address: Option<string>,
    instagramName: Option<string>,
    linkSpaced: Option<string>,
    link: Option<string>)

  /** The importer calls `geocode_bali` with `tries=2`. */
  const Tries := 2

  /** `x or ""` on an optional cell. */
  function OrEmpty(x: Option<string>): string {
    if x.Some? then x.value else ""
  }

  /** `a or b or ""`: the first non-empty cell. */
  function FirstTruthy(a: Option<string>, b: Option<string>): string {
    if a.Some? && a.value != "" then a.value else OrEmpty(b)
  }

  function RowName(row: VenueRow): string {
    Strip(OrEmpty(row.venue))
  }

  function RowAddress(row: VenueRow): string {
    Strip(OrEmpty(row.address))
  }

  function RowLink(row: VenueRow): string {
    Strip(FirstTruthy(row.linkSpaced, row.link))
  }

  /** A loaded venue after the row's values were set on it, and whether any
      assignment happened. */
  datatype Reconciled = Reconciled(venue: Venue, changed: bool)

  /** The update of a venue that already exists: address, coordinates (as a
      pair) and handle take the row's values; the website is replaced only by
      a non-empty one; the row counts as a change exactly when the record
      differs afterwards. */
  function ReconcileVenue(existing: Venue, address: string, loc: Coord,
                          instagram: Option<string>, website: Option<string>): (r: Reconciled)
    ensures r.changed <==> r.venue != existing
    ensures r.venue.address == Some(address) && r.venue.instagram == instagram
    ensures r.venue.lat == loc.lat && r.venue.lon == loc.lon
    ensures r.venue.website == if website.Some? && website.value != [] then website else existing.website
    ensures r.venue.name == existing.name && r.venue.district == existing.district && r.venue.notes == existing.notes
  {
    var setAddress := existing.address != Some(address);
    var setPair := existing.lat != loc.lat || existing.lon != loc.lon;
    var setHandle := existing.instagram != instagram;
    var setWebsite := website.Some? && website.value != [] && existing.website != website;
    var v := existing.(
      address := Some(address),
      lat := loc.lat,
      lon := loc.lon,
      instagram := instagram,
      website := if setWebsite then website else existing.website);
    Reconciled(v, setAddress || setPair || setHandle || setWebsite)
  }

  /** Setting the same values a second time changes nothing. */
  lemma ReconcileIdempotent(existing: Venue, address: string, loc: Coord,
                            instagram: Option<string>, website: Option<string>)
    ensures var r := ReconcileVenue(existing, address, loc, instagram, website);
      ReconcileVenue(r.venue, address, loc, instagram, website) == Reconciled(r.venue, false)
  {
  }

  /** The record inserted for an unknown name. */
  function NewVenue(name: string, address: string, loc: Coord,
                    instagram: Option<string>, website: Option<string>): Venue {
    Venue(name, Some(address), None, loc.lat, loc.lon, instagram, website, None)
  }

  /** The same row on the venue it created changes nothing. */
  lemma NewVenueSettled(name: string, address: string, loc: Coord,
                        instagram: Option<string>, website: Option<string>)
    ensures var v := NewVenue(name, address, loc, instagram, website);
      ReconcileVenue(v, address, loc, instagram, website) == Reconciled(v, false)
  {
  }

  datatype Upserted = Upserted(outcome: Outcome, store: map<string, Venue>)

  /** The outcome and the venues after one upsert: an existing venue is
      reconciled with the row, an unknown name gets a new venue. */
  function Upsert(store: map<string, Venue>, name: string, address: string, loc: Coord,
                  instagram: Option<string>, website: Option<string>): Upserted
  {
    if name in store then
      var r := ReconcileVenue(store[name], address, loc, instagram, website);
      Upserted(if r.changed then Updated else Skipped, store[name := r.venue])
    else
      Upserted(Created, store[name := NewVenue(name, address, loc, instagram, website)])
  }

  /** What one row does: its outcome, the venues, the geocode cache and the
      number of geocoder calls afterwards. */
  datatype VenueStep = VenueStep(outcome: Outcome, store: map<string, Venue>,
                                 cache: map<string, Coord>, calls: nat)

  /** The lookup as the row loop uses it: from the cache, the number of calls
      so far and the address to the coordinate, the cache and the call count
      afterwards. */
  type Driver = (map<string, Coord>, nat, string) -> GeoStep

  /** `geocode_bali(geocode, cache, address, tries=2)`. */
  function BaliDriver(lookup: (nat, string) -> Option<Coord>): Driver {
    (cache: map<string, Coord>, calls: nat, address: string) => Geocode(lookup, cache, calls, address, Tries)
  }

  /** What the row loop relies on from the lookup, for a trimmed address: a
      cached address is answered from the cache without a call, at most
      `3 * tries` calls are made, and only a success is written to the cache,
      under the address. */
  ghost predicate CachingDriver(geo: Driver) {
    forall cache: map<string, Coord>, calls: nat, key: string ::
      key == Strip(key) ==>
        && calls <= geo(cache, calls, key).calls <= calls + 3 * Tries
        && (key in cache ==> geo(cache, calls, key) == GeoStep(Some(cache[key]), cache, calls))
        && (geo(cache, calls, key).loc.None? ==> geo(cache, calls, key).cache == cache)
        && (geo(cache, calls, key).loc.Some? ==>
              geo(cache, calls, key).cache == cache[key := geo(cache, calls, key).loc.value])
  }

  /** `geocode_bali` keeps that contract. */
  lemma BaliDriverCaches(lookup: (nat, string) -> Option<Coord>)
    ensures CachingDriver(BaliDriver(lookup))
  {
    var geo := BaliDriver(lookup);
    forall cache: map<string, Coord>, calls: nat, key: string | key == Strip(key)
      ensures calls <= geo(cache, calls, key).calls <= calls + 3 * Tries
      ensures key in cache ==> geo(cache, calls, key) == GeoStep(Some(cache[key]), cache, calls)
      ensures geo(cache, calls, key).loc.None? ==> geo(cache, calls, key).cache == cache
      ensures geo(cache, calls, key).loc.Some? ==>
                geo(cache, calls, key).cache == cache[key := geo(cache, calls, key).loc.value]
    {
      assert geo(cache, calls, key) == GeocodeWith(lookup, cache, calls, key, Candidates(key), Tries);
    }
  }

  /** One pass of the row loop, as a function of the state before it. */
  function ProcessVenueRow(geo: Driver, store: map<string, Venue>,
                           cache: map<string, Coord>, calls: nat, row: VenueRow): VenueStep
  {
    var name, address := RowName(row), RowAddress(row);
    if name == [] || address == [] then VenueStep(Skipped, store, cache, calls)
    else
      var g := geo(cache, calls, address);
      if g.loc.None? then VenueStep(Failed, store, g.cache, g.calls)
      else
        var u := Upsert(store, name, address, g.loc.value,
                        CleanInstagram(row.instagramName), ResolveWebsite(Some(RowLink(row))));
        VenueStep(u.outcome, u.store, g.cache, g.calls)
  }

  /** Each row has one of four outcomes, and each states what it leaves alone:
      a blank name or address touches nothing and calls no geocoder; a failed
      lookup leaves the venues and the cache as they were; no venue but the
      row's own is ever written; an update changes that venue, a creation adds
      it with no district and no notes, and a skip leaves the venues as they
      were. A geocoded row leaves the venue's coordinates equal to the cached
      ones for its address. */
  lemma ProcessVenueRowSpec(geo: Driver, store: map<string, Venue>,
                            cache: map<string, Coord>, calls: nat, row: VenueRow)
    requires CachingDriver(geo)
    ensures var s := ProcessVenueRow(geo, store, cache, calls, row);
      RowName(row) == [] || RowAddress(row) == [] ==> s == VenueStep(Skipped, store, cache, calls)
    ensures var s := ProcessVenueRow(geo, store, cache, calls, row);
      s.outcome == Failed ==> s.store == store && s.cache == cache
    ensures var s, name := ProcessVenueRow(geo, store, cache, calls, row), RowName(row);
      forall n :: n != name ==> (n in s.store <==> n in store) && (n in store ==> s.store[n] == store[n])
    ensures var s := ProcessVenueRow(geo, store, cache, calls, row);
      s.outcome == Skipped ==> s.store == store
    ensures var s, name := ProcessVenueRow(geo, store, cache, calls, row), RowName(row);
      s.outcome == Updated ==> name in store && name in s.store && s.store[name] != store[name]
    ensures var s, name := ProcessVenueRow(geo, store, cache, calls, row), RowName(row);
      s.outcome == Created ==>
        && name !in store && name in s.store
        && s.store[name].name == name && s.store[name].district.None? && s.store[name].notes.None?
    ensures var s, name, address := ProcessVenueRow(geo, store, cache, calls, row), RowName(row), RowAddress(row);
      s.outcome == Created || s.outcome == Updated ==>
        && address in s.cache && name in s.store
        && s.store[name].lat == s.cache[address].lat && s.store[name].lon == s.cache[address].lon
  {
    StripIdempotent(OrEmpty(row.address));
  }

  /** A row costs at most `3 * tries` geocoder calls. */
  lemma ProcessVenueRowCalls(geo: Driver, store: map<string, Venue>,
                             cache: map<string, Coord>, calls: nat, row: VenueRow)
    requires CachingDriver(geo)
    ensures var s := ProcessVenueRow(geo, store, cache, calls, row);
      calls <= s.calls <= calls + 3 * Tries
  {
    StripIdempotent(OrEmpty(row.address));
  }

  /** Only a creation adds a name to the venues, and it adds a new one. */
  lemma ProcessVenueRowKeys(geo: Driver, store: map<string, Venue>,
                            cache: map<string, Coord>, calls: nat, row: VenueRow)
    ensures var s := ProcessVenueRow(geo, store, cache, calls, row);
      s.outcome == Created ==> RowName(row) !in store && s.store.Keys == store.Keys + {RowName(row)}
    ensures var s := ProcessVenueRow(geo, store, cache, calls, row);
      s.outcome != Created ==> s.store.Keys == store.Keys
  {
  }

  /** Re-applying a row that did not fail is a skip that changes nothing: the
      address is now cached, so no geocoder call is made either. */
  lemma ProcessVenueRowTwice(geo: Driver, store: map<string, Venue>,
                             cache: map<string, Coord>, calls: nat, row: VenueRow)
    requires CachingDriver(geo)
    requires ProcessVenueRow(geo, store, cache, calls, row).outcome != Failed
    ensures var s := ProcessVenueRow(geo, store, cache, calls, row);
      ProcessVenueRow(geo, s.store, s.cache, s.calls, row) == VenueStep(Skipped, s.store, s.cache, s.calls)
  {
    var name, address := RowName(row), RowAddress(row);
    if name != [] && address != [] {
      StripIdempotent(OrEmpty(row.address));
      var g := geo(cache, calls, address);
      RowAfterLookup(geo, store, cache, calls, row, g);
      var s := ProcessVenueRow(geo, store, cache, calls, row);
      assert s.cache == cache[address := g.loc.value];
      RowAfterLookup(geo, s.store, s.cache, s.calls, row, GeoStep(g.loc, s.cache, s.calls));
      var instagram := CleanInstagram(row.instagramName);
      var website := ResolveWebsite(Some(RowLink(row)));
      if name in store {
        ReconcileIdempotent(store[name], address, g.loc.value, instagram, website);
      } else {
        NewVenueSettled(name, address, g.loc.value, instagram, website);
      }
    }
  }

  /** The state the loop carries from row to row. */
  datatype VenueState = VenueState(counts: Counts, store: map<string, Venue>,
                                   cache: map<string, Coord>, calls: nat)

  /** The loop over `rows`, one row after the other. */
  function VenueRun(geo: Driver, st: VenueState, rows: seq<VenueRow>): VenueState
    decreases |rows|
  {
    if rows == [] then st
    else
      var before := VenueRun(geo, st, rows[..|rows| - 1]);
      var s := ProcessVenueRow(geo, before.store, before.cache, before.calls, rows[|rows| - 1]);
      VenueState(before.counts.Tally(s.outcome), s.store, s.cache, s.calls)
  }

  /** Every row moves exactly one counter. */
  lemma {:induction false} VenueRunTotal(geo: Driver, st: VenueState, rows: seq<VenueRow>)
    ensures VenueRun(geo, st, rows).counts.Total() == st.counts.Total() + |rows|
    decreases |rows|
  {
    if rows != [] {
      VenueRunTotal(geo, st, rows[..|rows| - 1]);
    }
  }

  /** A run makes at most `3 * tries`, that is six, geocoder calls per row. */
  lemma {:induction false} VenueRunCalls(geo: Driver, st: VenueState, rows: seq<VenueRow>)
    requires CachingDriver(geo)
    ensures st.calls <= VenueRun(geo, st, rows).calls <= st.calls + 6 * |rows|
    decreases |rows|
  {
    if rows != [] {
      var prev := rows[..|rows| - 1];
      VenueRunCalls(geo, st, prev);
      var before := VenueRun(geo, st, prev);
      ProcessVenueRowCalls(geo, before.store, before.cache, before.calls, rows[|rows| - 1]);
    }
  }

  /** The venues a run adds are exactly as many as the rows it counts as
      created, and no venue is ever removed. */
  lemma {:induction false} VenueRunCreates(geo: Driver, st: VenueState, rows: seq<VenueRow>)
    ensures st.store.Keys <= VenueRun(geo, st, rows).store.Keys
    ensures |VenueRun(geo, st, rows).store.Keys| == |st.store.Keys| + VenueRun(geo, st, rows).counts.created - st.counts.created
    decreases |rows|
  {
    if rows != [] {
      VenueRunCreates(geo, st, rows[..|rows| - 1]);
      var before := VenueRun(geo, st, rows[..|rows| - 1]);
      ProcessVenueRowKeys(geo, before.store, before.cache, before.calls, rows[|rows| - 1]);
    }
  }

  // ---------------------------------------------------------------------------
  // The loop, as the source runs it
  // ---------------------------------------------------------------------------

  /** The upsert in `main` of import_venues_csv.py: set each differing field on the loaded venue and count
      an update if any was set, or add a new venue. */
  method UpsertVenue(session: Session<Venue>, name: string, address: string, loc: Coord,
                     instagram: Option<string>, website: Option<string>)
    returns (outcome: Outcome)
    modifies session
    ensures session.committed == old(session.committed)
    ensures Upserted(outcome, session.pending) == Upsert(old(session.pending), name, address, loc, instagram, website)
  {
    var existing := session.Find(name);
    if existing.Some? {
      var v := existing.value;
      var changed := false;
      if v.address != Some(address) {
        v := v.(address := Some(address));
        changed := true;
      }
      if v.lat != loc.lat || v.lon != loc.lon {
        v := v.(lat := loc.lat, lon := loc.lon);
        changed := true;
      }
      if v.instagram != instagram {
        v := v.(instagram := instagram);
        changed := true;
      }
      if website.Some? && website.value != [] && v.website != website {
        v := v.(website := website);
        changed := true;
      }
      if changed {
        session.Put(name, v);
        outcome := Updated;
      } else {
        outcome := Skipped;
      }
    } else {
      session.Put(name, NewVenue(name, address, loc, instagram, website));
      outcome := Created;
    }
  }

  /** The body of `for row in reader`. */
  /** One row past the blank check, once the lookup's result `g` is known. */
  lemma RowAfterLookup(geo: Driver, store: map<string, Venue>, cache: map<string, Coord>, calls: nat,
                       row: VenueRow, g: GeoStep)
    requires RowName(row) != [] && RowAddress(row) != []
    requires geo(cache, calls, RowAddress(row)) == g
    ensures g.loc.None? ==> ProcessVenueRow(geo, store, cache, calls, row) == VenueStep(Failed, store, g.cache, g.calls)
    ensures g.loc.Some? ==>
      var u := Upsert(store, RowName(row), RowAddress(row), g.loc.value,
                      CleanInstagram(row.instagramName), ResolveWebsite(Some(RowLink(row))));
      ProcessVenueRow(geo, store, cache, calls, row) == VenueStep(u.outcome, u.store, g.cache, g.calls)
  {
  }

  method ImportVenueRow(session: Session<Venue>, cache: GeocodeCache, geocoder: Geocoder, row: VenueRow)
    returns (outcome: Outcome)
    modifies session, cache, geocoder
    ensures session.committed == old(session.committed)
    ensures VenueStep(outcome, session.pending, cache.entries, geocoder.calls)
         == ProcessVenueRow(BaliDriver(geocoder.lookup), old(session.pending), old(cache.entries), old(geocoder.calls), row)
  {
    var name := Strip(OrEmpty(row.venue));
    var address := Strip(OrEmpty(row.address));
    var instagram := CleanInstagram(row.instagramName);
    var link := Strip(FirstTruthy(row.linkSpaced, row.link));
    if name == [] || address == [] {
      return Skipped;
    }
    ghost var entries0, calls0 := cache.entries, geocoder.calls;
    var loc := GeocodeBali(geocoder, cache, address, Tries);
    ghost var g := GeoStep(loc, cache.entries, geocoder.calls);
    assert BaliDriver(geocoder.lookup)(entries0, calls0, address) == g;
    RowAfterLookup(BaliDriver(geocoder.lookup), old(session.pending), entries0, calls0, row, g);
    if loc.None? {
      return Failed;
    }
    var website := ResolveWebsite(Some(link));
    outcome := UpsertVenue(session, name, address, loc.value, instagram, website);
  }

  /** The importer's run over the rows of one file, from a fresh session on
      the stored venues: the counters and the cache are those of the row loop,
      and the venues stored afterwards are the loop's in a real run and the
      old ones in a dry run. */
  method ImportVenues(stored: map<string, Venue>, rows: seq<VenueRow>, cache: GeocodeCache,
                      geocoder: Geocoder, dryRun: bool)
    returns (counts: Counts, storedAfter: map<string, Venue>)
    modifies cache, geocoder
    ensures var run := VenueRun(BaliDriver(geocoder.lookup), VenueState(NoCounts, stored, old(cache.entries), old(geocoder.calls)), rows);
      && counts == run.counts && cache.entries == run.cache && geocoder.calls == run.calls
      && storedAfter == if dryRun then stored else run.store
  {
    var session := new Session(stored);
    ghost var geo := BaliDriver(geocoder.lookup);
    ghost var st := VenueState(NoCounts, stored, cache.entries, geocoder.calls);
    counts := NoCounts;
    var i := 0;
    while i < |rows|
      invariant 0 <= i <= |rows|
      invariant session.committed == stored
      invariant geo == BaliDriver(geocoder.lookup)
      invariant VenueRun(geo, st, rows[..i]) == VenueState(counts, session.pending, cache.entries, geocoder.calls)
    {
      assert rows[..i + 1][..i] == rows[..i];
      var outcome := ImportVenueRow(session, cache, geocoder, rows[i]);
      counts := counts.Tally(outcome);
      i := i + 1;
    }
    assert rows[..i] == rows;
    if dryRun {
      session.Rollback();
    } else {
      session.Commit();
    }
    storedAfter := session.committed;
  }
}
