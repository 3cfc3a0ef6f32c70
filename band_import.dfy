/**
 * The band importer: the header check, then one upsert per CSV row keyed on
 * the band name, ending in a commit, or in a rollback for a dry run.
 */
module BandImport {
  import opened Wrappers
  import opened Strings
  import opened Store

  /** A row of the `bands` table. */
  datatype Band = Band(
    name: string,
    genre: Option<string>,
    city: Option<string>,
    instagram: Option<string>,
    youtube: Option<string>,
    description: Option<string>)

  /** A CSV row keyed by the file's own header names; a short row has no
      value for its last columns. */
  type Row = map<string, Option<string>>

  // ---------------------------------------------------------------------------
  // Header check
  // ---------------------------------------------------------------------------

  /** `k.lower().strip()`. */
  function HeaderKey(k: string): string {
    Strip(Lower(k))
  }

  /** `{norm(k): k for k in fieldnames}`: each normalised name maps to the
      header it came from, the later one when two collide. */
  function KeyedBy(fieldnames: seq<string>, norm: string -> string): map<string, string>
    decreases |fieldnames|
  {
    if fieldnames == [] then map[]
    else
      var last := fieldnames[|fieldnames| - 1];
      KeyedBy(fieldnames[..|fieldnames| - 1], norm)[norm(last) := last]
  }

  /** `{k.lower().strip(): k for k in fieldnames}`. */
  function FieldMap(fieldnames: seq<string>): map<string, string> {
    KeyedBy(fieldnames, HeaderKey)
  }

  /** A name is a key exactly when some header normalises to it. */
  lemma {:induction false} KeyedByKeys(fieldnames: seq<string>, norm: string -> string, key: string)
    ensures key in KeyedBy(fieldnames, norm) <==> exists i :: 0 <= i < |fieldnames| && norm(fieldnames[i]) == key
    decreases |fieldnames|
  {
    if fieldnames != [] {
      var n := |fieldnames| - 1;
      var prev := fieldnames[..n];
      KeyedByKeys(prev, norm, key);
      if key in KeyedBy(prev, norm) {
        var i :| 0 <= i < |prev| && norm(prev[i]) == key;
        assert fieldnames[i] == prev[i];
      }
      if key !in KeyedBy(fieldnames, norm) {
        forall i | 0 <= i < |fieldnames| ensures norm(fieldnames[i]) != key {
          if i < n {
            assert fieldnames[i] == prev[i];
          }
        }
      }
    }
  }

  /** A key maps to the last header that normalises to it. */
  lemma {:induction false} KeyedByLast(fieldnames: seq<string>, norm: string -> string, key: string)
    requires key in KeyedBy(fieldnames, norm)
    ensures exists i :: && 0 <= i < |fieldnames|
                        && KeyedBy(fieldnames, norm)[key] == fieldnames[i] && norm(fieldnames[i]) == key
                        && forall j :: i < j < |fieldnames| ==> norm(fieldnames[j]) != key
    decreases |fieldnames|
  {
    var n := |fieldnames| - 1;
    var prev := fieldnames[..n];
    if norm(fieldnames[n]) != key {
      KeyedByLast(prev, norm, key);
      var i :| && 0 <= i < |prev| && KeyedBy(prev, norm)[key] == prev[i] && norm(prev[i]) == key
               && forall j :: i < j < |prev| ==> norm(prev[j]) != key;
      assert fieldnames[i] == prev[i];
      forall j | i < j < |fieldnames| ensures norm(fieldnames[j]) != key {
        if j < n {
          assert fieldnames[j] == prev[j];
        }
      }
    }
  }

  const Required: seq<string> := ["band", "genre", "country", "city"]

  /** `[r for r in required if r not in fieldmap]`. */
  function MissingColumns(required: seq<string>, fieldmap: map<string, string>): (r: seq<string>)
    ensures forall c :: c in r <==> c in required && c !in fieldmap
    decreases |required|
  {
    if required == [] then []
    else (if required[0] in fieldmap then [] else [required[0]]) + MissingColumns(required[1..], fieldmap)
  }

  predicate HasRequired(fieldmap: map<string, string>) {
    "band" in fieldmap && "genre" in fieldmap && "country" in fieldmap && "city" in fieldmap
  }

  /** The outcome of the header check: the field map, or the missing names. */
  datatype Header = Columns(fieldmap: map<string, string>) | Missing(missing: seq<string>)

  function CheckHeader(fieldnames: seq<string>): (h: Header)
    ensures h.Columns? ==> h.fieldmap == FieldMap(fieldnames) && HasRequired(h.fieldmap)
    ensures h.Missing? ==> h.missing != [] && forall c :: c in h.missing <==> c in Required && c !in FieldMap(fieldnames)
  {
    var fieldmap := FieldMap(fieldnames);
    var missing := MissingColumns(Required, fieldmap);
    if missing != [] then Missing(missing) else Columns(fieldmap)
  }

  /** Every required name is a key exactly when each is the normalised form
      of some header. */
  lemma KeyedByAll(fieldnames: seq<string>, norm: string -> string, required: seq<string>)
    ensures (forall c :: c in required ==> c in KeyedBy(fieldnames, norm)) <==>
      forall c :: c in required ==> exists i :: 0 <= i < |fieldnames| && norm(fieldnames[i]) == c
  {
    forall c | c in required {
      KeyedByKeys(fieldnames, norm, c);
    }
  }

  /** The check passes exactly when each required name is, up to case and
      surrounding blanks, one of the headers. */
  lemma CheckHeaderSpec(fieldnames: seq<string>)
    ensures CheckHeader(fieldnames).Columns? <==>
      forall c :: c in Required ==> exists i :: 0 <= i < |fieldnames| && HeaderKey(fieldnames[i]) == c
  {
    KeyedByAll(fieldnames, HeaderKey, Required);
    var missing := MissingColumns(Required, FieldMap(fieldnames));
    if missing != [] {
      assert missing[0] in missing;
    }
  }

  // ---------------------------------------------------------------------------
  // One row
  // ---------------------------------------------------------------------------

  /** `(row[column] or "").strip() or None`. */
  function Cell(row: Row, column: string): (r: Option<string>)
    ensures r.Some? ==> column in row && row[column].Some? && r.value == Strip(row[column].value) && r.value != []
    ensures r.None? <==> column !in row || row[column].None? || Strip(row[column].value) == []
  {
    var v := if column in row && row[column].Some? then row[column].value else "";
    var t := Strip(v);
    if t == [] then None else Some(t)
  }

  predicate Truthy(x: Option<string>) {
    x.Some? && x.value != []
  }

  /** The city stored for a band: the city cell, or else the country cell. */
  function CityOrCountry(cityIn: Option<string>, country: Option<string>): Option<string> {
    if Truthy(cityIn) then cityIn else country
  }

  /** What one row does to the bands. */
  datatype BandStep = BandStep(outcome: Outcome, store: map<string, Band>)

  /** The upsert in `main` of import_bands_csv.py: an existing band takes the genre and the city only where
      they are given and differ; an unknown name is added with no links and
      no description. */
  function UpsertBand(store: map<string, Band>, name: string, genre: Option<string>, city: Option<string>): BandStep {
    if name in store then
      var b := store[name];
      var setGenre := Truthy(genre) && genre != b.genre;
      var setCity := Truthy(city) && city != b.city;
      var b' := b.(genre := if setGenre then genre else b.genre, city := if setCity then city else b.city);
      BandStep(if setGenre || setCity then Updated else Skipped, store[name := b'])
    else
      BandStep(Created, store[name := Band(name, genre, city, None, None, None)])
  }

  /** One pass of the row loop. */
  function ProcessBandRow(store: map<string, Band>, fieldmap: map<string, string>, row: Row): BandStep
    requires HasRequired(fieldmap)
  {
    var name := Cell(row, fieldmap["band"]);
    if name.None? then BandStep(Skipped, store)
    else
      var genre := Cell(row, fieldmap["genre"]);
      var country := Cell(row, fieldmap["country"]);
      var cityIn := Cell(row, fieldmap["city"]);
      UpsertBand(store, name.value, genre, CityOrCountry(cityIn, country))
  }

  /** An existing band: the genre and the city are replaced only by a given,
      different value and are never cleared, nothing else about the band
      changes, and the row counts as an update exactly when the band differs
      afterwards. */
  lemma UpsertBandExisting(store: map<string, Band>, name: string, genre: Option<string>, city: Option<string>)
    requires name in store
    ensures var s, b := UpsertBand(store, name, genre, city), store[name];
      && name in s.store && s.store == store[name := s.store[name]]
      && s.store[name].genre == (if Truthy(genre) then genre else b.genre)
      && s.store[name].city == (if Truthy(city) then city else b.city)
      && (b.genre.Some? ==> s.store[name].genre.Some?)
      && (b.city.Some? ==> s.store[name].city.Some?)
      && s.store[name].(genre := b.genre, city := b.city) == b
      && (s.outcome == Updated <==> s.store[name] != b)
      && (s.outcome == Updated || s.outcome == Skipped)
  {
  }

  /** A blank name is a skip that touches nothing; a new name is created with
      the row's genre, the city falling back to the country, and no links or
      description; no band but the row's own is ever written; and a row never
      fails. */
  lemma ProcessBandRowSpec(store: map<string, Band>, fieldmap: map<string, string>, row: Row)
    requires HasRequired(fieldmap)
    ensures var s := ProcessBandRow(store, fieldmap, row);
      Cell(row, fieldmap["band"]).None? ==> s == BandStep(Skipped, store)
    ensures ProcessBandRow(store, fieldmap, row).outcome != Failed
    ensures var s, name := ProcessBandRow(store, fieldmap, row), Cell(row, fieldmap["band"]);
      forall n :: name != Some(n) ==> (n in s.store <==> n in store) && (n in store ==> s.store[n] == store[n])
    ensures var s, name := ProcessBandRow(store, fieldmap, row), Cell(row, fieldmap["band"]);
      s.outcome == Created ==>
        && name.Some? && name.value !in store && name.value in s.store
        && s.store[name.value] == Band(name.value, Cell(row, fieldmap["genre"]),
             CityOrCountry(Cell(row, fieldmap["city"]), Cell(row, fieldmap["country"])), None, None, None)
    ensures var s := ProcessBandRow(store, fieldmap, row);
      s.outcome == Skipped ==> s.store == store
  {
    var name := Cell(row, fieldmap["band"]);
    if name.Some? && name.value in store {
      UpsertBandExisting(store, name.value, Cell(row, fieldmap["genre"]),
        CityOrCountry(Cell(row, fieldmap["city"]), Cell(row, fieldmap["country"])));
    }
  }

  /** Applying the same row twice: the second time is a skip that changes
      nothing. */
  lemma ProcessBandRowTwice(store: map<string, Band>, fieldmap: map<string, string>, row: Row)
    requires HasRequired(fieldmap)
    ensures var s := ProcessBandRow(store, fieldmap, row);
      ProcessBandRow(s.store, fieldmap, row) == BandStep(Skipped, s.store)
  {
  }

  // ---------------------------------------------------------------------------
  // The loop
  // ---------------------------------------------------------------------------

  datatype BandState = BandState(counts: Counts, store: map<string, Band>)

  /** The loop over `rows`, one row after the other. */
  function BandRun(fieldmap: map<string, string>, st: BandState, rows: seq<Row>): BandState
    requires HasRequired(fieldmap)
    decreases |rows|
  {
    if rows == [] then st
    else
      var before := BandRun(fieldmap, st, rows[..|rows| - 1]);
      var s := ProcessBandRow(before.store, fieldmap, rows[|rows| - 1]);
      BandState(before.counts.Tally(s.outcome), s.store)
  }

  /** Every row moves exactly one counter, and never the failure counter. */
  lemma {:induction false} BandRunCounts(fieldmap: map<string, string>, st: BandState, rows: seq<Row>)
    requires HasRequired(fieldmap)
    ensures BandRun(fieldmap, st, rows).counts.Total() == st.counts.Total() + |rows|
    ensures BandRun(fieldmap, st, rows).counts.failed == st.counts.failed
    decreases |rows|
  {
    if rows != [] {
      BandRunCounts(fieldmap, st, rows[..|rows| - 1]);
      var before := BandRun(fieldmap, st, rows[..|rows| - 1]);
      ProcessBandRowSpec(before.store, fieldmap, rows[|rows| - 1]);
    }
  }

  /** Only a creation adds a name to the bands, and it adds a new one. */
  lemma ProcessBandRowKeys(store: map<string, Band>, fieldmap: map<string, string>, row: Row)
    requires HasRequired(fieldmap)
    ensures var s, name := ProcessBandRow(store, fieldmap, row), Cell(row, fieldmap["band"]);
      s.outcome == Created ==> name.Some? && name.value !in store && s.store.Keys == store.Keys + {name.value}
    ensures var s := ProcessBandRow(store, fieldmap, row);
      s.outcome != Created ==> s.store.Keys == store.Keys
  {
  }

  /** The bands a run adds are exactly as many as the rows it counts as
      created, and no band is ever removed. */
  lemma {:induction false} BandRunCreates(fieldmap: map<string, string>, st: BandState, rows: seq<Row>)
    requires HasRequired(fieldmap)
    ensures st.store.Keys <= BandRun(fieldmap, st, rows).store.Keys
    ensures |BandRun(fieldmap, st, rows).store.Keys| == |st.store.Keys| + BandRun(fieldmap, st, rows).counts.created - st.counts.created
    decreases |rows|
  {
    if rows != [] {
      BandRunCreates(fieldmap, st, rows[..|rows| - 1]);
      var before := BandRun(fieldmap, st, rows[..|rows| - 1]);
      ProcessBandRowKeys(before.store, fieldmap, rows[|rows| - 1]);
    }
  }

  // ---------------------------------------------------------------------------
  // The importer, as the source runs it
  // ---------------------------------------------------------------------------

  /** How a run ends: the header check exits with a status, or every row is
      counted. */
  datatype ImportResult = Aborted(exitCode: int, missing: seq<string>) | Completed(counts: Counts)

  /** The upsert in `main` of import_bands_csv.py, on the session: set a differing genre and city on the loaded
      band, or add a new band. */
  method UpsertBandRecord(session: Session<Band>, name: string, genre: Option<string>, city: Option<string>)
    returns (outcome: Outcome)
    modifies session
    ensures session.committed == old(session.committed)
    ensures BandStep(outcome, session.pending) == UpsertBand(old(session.pending), name, genre, city)
  {
    var existing := session.Find(name);
    if existing.Some? {
      var b := existing.value;
      var changed := false;
      if Truthy(genre) && genre != b.genre {
        b := b.(genre := genre);
        changed := true;
      }
      if Truthy(city) && city != b.city {
        b := b.(city := city);
        changed := true;
      }
      if changed {
        session.Put(name, b);
        outcome := Updated;
      } else {
        outcome := Skipped;
      }
    } else {
      session.Put(name, Band(name, genre, city, None, None, None));
      outcome := Created;
    }
  }

  /** The body of `for row in reader`. */
  method ImportBandRow(session: Session<Band>, fieldmap: map<string, string>, row: Row)
    returns (outcome: Outcome)
    requires HasRequired(fieldmap)
    modifies session
    ensures session.committed == old(session.committed)
    ensures BandStep(outcome, session.pending) == ProcessBandRow(old(session.pending), fieldmap, row)
  {
    var name := Cell(row, fieldmap["band"]);
    if name.None? {
      return Skipped;
    }
    var genre := Cell(row, fieldmap["genre"]);
    var country := Cell(row, fieldmap["country"]);
    var cityIn := Cell(row, fieldmap["city"]);
    var city := CityOrCountry(cityIn, country);
    outcome := UpsertBandRecord(session, name.value, genre, city);
  }

  /** The importer on one file: a header without a required column ends the
      run with status 2 before any row is read and leaves the bands as they
      were; otherwise the counters are those of the row loop, and the bands
      stored afterwards are the loop's in a real run and the old ones in a
      dry run. */
  method ImportBands(stored: map<string, Band>, fieldnames: seq<string>, rows: seq<Row>, dryRun: bool)
    returns (result: ImportResult, storedAfter: map<string, Band>)
    ensures CheckHeader(fieldnames).Missing? ==>
      result == Aborted(2, CheckHeader(fieldnames).missing) && storedAfter == stored
    ensures CheckHeader(fieldnames).Columns? ==>
      var run := BandRun(CheckHeader(fieldnames).fieldmap, BandState(NoCounts, stored), rows);
      result == Completed(run.counts) && storedAfter == if dryRun then stored else run.store
  {
    var header := CheckHeader(fieldnames);
    if header.Missing? {
      return Aborted(2, header.missing), stored;
    }
    var fieldmap := header.fieldmap;
    var session := new Session(stored);
    ghost var st := BandState(NoCounts, stored);
    var counts := NoCounts;
    var i := 0;
    while i < |rows|
      invariant 0 <= i <= |rows|
      invariant session.committed == stored
      invariant BandRun(fieldmap, st, rows[..i]) == BandState(counts, session.pending)
    {
      assert rows[..i + 1][..i] == rows[..i];
      var outcome := ImportBandRow(session, fieldmap, rows[i]);
      counts := counts.Tally(outcome);
      i := i + 1;
    }
    assert rows[..i] == rows;
    if dryRun {
      session.Rollback();
    } else {
      session.Commit();
    }
    return Completed(counts), session.committed;
  }
}
