/**
 * `geocode_bali`: the fallback candidates derived from an address, the cache
 * keyed on the trimmed raw address, and the retry loop over an injected
 * geocoder.
 */
module Geocoding {
  import opened Wrappers
  import opened Strings
  import opened AddressNormalizer

  /** A resolved coordinate; read and written as one pair. */
  datatype Coord = Coord(lat: real, lon: real)

  // ---------------------------------------------------------------------------
  // Candidate generation
  // ---------------------------------------------------------------------------

  /** `[p.strip() for p in pieces[i..] if p.strip()]`. */
  function NonBlankFrom(pieces: seq<string>, i: nat): (r: seq<string>)
    requires i <= |pieces|
    ensures |r| <= |pieces| - i
    ensures forall k :: 0 <= k < |r| ==> r[k] != []
    decreases |pieces| - i
  {
    if i == |pieces| then []
    else
      var p := Strip(pieces[i]);
      if p == [] then NonBlankFrom(pieces, i + 1) else [p] + NonBlankFrom(pieces, i + 1)
  }

  /** `[p.strip() for p in pieces if p.strip()]`. */
  function NonBlank(pieces: seq<string>): seq<string> {
    NonBlankFrom(pieces, 0)
  }

  /** The positions, from `i` on, of the pieces that do not strip to nothing. */
  function KeptFrom(pieces: seq<string>, i: nat): seq<nat>
    requires i <= |pieces|
    decreases |pieces| - i
  {
    if i == |pieces| then []
    else (if Strip(pieces[i]) == [] then [] else [i]) + KeptFrom(pieces, i + 1)
  }

  /** There are as many kept positions as kept segments. */
  lemma {:induction false} KeptLength(pieces: seq<string>, i: nat)
    requires i <= |pieces|
    ensures |KeptFrom(pieces, i)| == |NonBlankFrom(pieces, i)|
    decreases |pieces| - i
  {
    if i < |pieces| {
      KeptLength(pieces, i + 1);
    }
  }

  /** Each kept segment is the stripped piece at its position. */
  lemma {:induction false} NonBlankValues(pieces: seq<string>, i: nat)
    requires i <= |pieces|
    ensures |KeptFrom(pieces, i)| == |NonBlankFrom(pieces, i)|
    ensures forall k {:trigger KeptFrom(pieces, i)[k]} :: 0 <= k < |KeptFrom(pieces, i)| ==>
      i <= KeptFrom(pieces, i)[k] < |pieces| && NonBlankFrom(pieces, i)[k] == Strip(pieces[KeptFrom(pieces, i)[k]])
    decreases |pieces| - i
  {
    KeptLength(pieces, i);
    KeptIncreasing(pieces, i);
    if i < |pieces| {
      NonBlankValues(pieces, i + 1);
      var p := Strip(pieces[i]);
      if p == [] {
        assert KeptFrom(pieces, i) == KeptFrom(pieces, i + 1);
        assert NonBlankFrom(pieces, i) == NonBlankFrom(pieces, i + 1);
      } else {
        assert KeptFrom(pieces, i) == [i] + KeptFrom(pieces, i + 1);
        assert NonBlankFrom(pieces, i) == [p] + NonBlankFrom(pieces, i + 1);
      }
    }
  }

  /** The positions are strictly increasing, so the order of the pieces is kept. */
  lemma {:induction false} KeptIncreasing(pieces: seq<string>, i: nat)
    requires i <= |pieces|
    ensures forall k :: 0 <= k < |KeptFrom(pieces, i)| ==> i <= KeptFrom(pieces, i)[k] < |pieces|
    ensures forall k, l :: 0 <= k < l < |KeptFrom(pieces, i)| ==> KeptFrom(pieces, i)[k] < KeptFrom(pieces, i)[l]
    decreases |pieces| - i
  {
    if i < |pieces| {
      KeptIncreasing(pieces, i + 1);
    }
  }

  /** Every piece from `i` on that does not strip to nothing is kept. */
  lemma {:induction false} KeptCovers(pieces: seq<string>, i: nat)
    requires i <= |pieces|
    ensures forall j :: i <= j < |pieces| && Strip(pieces[j]) != [] ==> j in KeptFrom(pieces, i)
    decreases |pieces| - i
  {
    if i < |pieces| {
      KeptCovers(pieces, i + 1);
    }
  }

  /** The kept segments are empty exactly when every piece is blank, and the
      first one is the first piece whenever that is not blank. */
  lemma {:induction false} NonBlankFront(pieces: seq<string>, i: nat)
    requires i <= |pieces|
    ensures NonBlankFrom(pieces, i) == [] <==> forall j :: i <= j < |pieces| ==> Strip(pieces[j]) == []
    ensures i < |pieces| && Strip(pieces[i]) != [] ==>
      NonBlankFrom(pieces, i) != [] && NonBlankFrom(pieces, i)[0] == Strip(pieces[i])
    decreases |pieces| - i
  {
    if i < |pieces| {
      NonBlankFront(pieces, i + 1);
    }
  }

  /** The comma-separated segments of the normalised address. */
  function Parts(norm: string): seq<string> {
    NonBlank(Split(norm, ','))
  }

  /** `", ".join(parts[:2])`. */
  function FirstTwo(parts: seq<string>): string
    requires |parts| >= 2
  {
    parts[0] + ", " + parts[1]
  }

  const RegionSuffix: string := ", Bali, Indonesia"

  /** The first segment alone, biased to the region. */
  function RegionFallback(norm: string, raw: string): string {
    var parts := Parts(norm);
    (if parts != [] then parts[0] else Split(raw, ',')[0]) + RegionSuffix
  }

  function LowerAll(xs: seq<string>): (r: seq<string>)
    ensures |r| == |xs| && forall k :: 0 <= k < |xs| ==> r[k] == Lower(xs[k])
  {
    seq(|xs|, k requires 0 <= k < |xs| => Lower(xs[k]))
  }

  /** The list of query strings built from the normalised address `norm` of
      `raw`, most specific first. */
  function CandidatesFrom(norm: string, raw: string): (r: seq<string>)
    ensures 1 <= |r| <= 3
    ensures r[0] == norm
  {
    var parts := Parts(norm);
    var specific := if |parts| >= 2 && Lower(FirstTwo(parts)) != Lower(norm) then [norm, FirstTwo(parts)] else [norm];
    var fallback := RegionFallback(norm, raw);
    if Lower(fallback) in LowerAll(specific) then specific
    else specific + [fallback]
  }

  /** The candidates are distinct up to case, the region fallback is always
      among them, and the only other entry is the first-two-segments query,
      which comes second whenever it differs from the full address. */
  lemma CandidatesShape(norm: string, raw: string)
    ensures var r := CandidatesFrom(norm, raw);
      forall i, j :: 0 <= i < j < |r| ==> Lower(r[i]) != Lower(r[j])
    ensures var r := CandidatesFrom(norm, raw);
      exists k :: 0 <= k < |r| && Lower(r[k]) == Lower(RegionFallback(norm, raw))
    ensures var r, parts := CandidatesFrom(norm, raw), Parts(norm);
      forall k :: 1 <= k < |r| ==> r[k] == RegionFallback(norm, raw) || (|parts| >= 2 && r[k] == FirstTwo(parts))
    ensures var r, parts := CandidatesFrom(norm, raw), Parts(norm);
      |parts| >= 2 && Lower(FirstTwo(parts)) != Lower(norm) ==> |r| >= 2 && r[1] == FirstTwo(parts)
  {
    var parts := Parts(norm);
    var specific := if |parts| >= 2 && Lower(FirstTwo(parts)) != Lower(norm) then [norm, FirstTwo(parts)] else [norm];
    var fallback := RegionFallback(norm, raw);
    var r := CandidatesFrom(norm, raw);
    if Lower(fallback) !in LowerAll(specific) {
      assert r == specific + [fallback];
      assert r[|specific|] == fallback;
    }
  }

  lemma RegionSuffixCommas()
    ensures RegionSuffix == [','] + (" Bali" + [','] + " Indonesia")
  {
  }

  lemma RegionSegmentsStrip()
    ensures Strip(" Bali") == "Bali" && Strip(" Indonesia") == "Indonesia"
  {
    assert TrimLeft(" Bali", IsSpace) == "Bali";
    assert TrimLeft(" Indonesia", IsSpace) == "Indonesia";
  }

  /** How an address that ends in the region and the country splits at commas. */
  lemma RegionAddressSplit(x: string)
    requires ',' !in x
    ensures Split(x + RegionSuffix, ',') == [x, " Bali", " Indonesia"]
  {
    RegionSuffixCommas();
    SplitThree(x, " Bali", " Indonesia", ',');
    assert x + RegionSuffix == x + [','] + (" Bali" + [','] + " Indonesia");
  }

  /** The segments of an address that ends in the region and the country. */
  lemma RegionAddressParts(x: string)
    requires x != [] && ',' !in x && Strip(x) == x
    ensures Parts(x + RegionSuffix) == [x, "Bali", "Indonesia"]
  {
    RegionAddressSplit(x);
    RegionSegmentsStrip();
    var pieces := [x, " Bali", " Indonesia"];
    assert NonBlankFrom(pieces, 2) == ["Indonesia"];
    assert NonBlankFrom(pieces, 1) == ["Bali", "Indonesia"];
  }

  /** The region fallback is not always last: for an address that already
      ends in the region and the country it equals the address and is left
      out, so the list ends with the first two segments. */
  lemma RegionFallbackNotLast(x: string)
    requires x != [] && ',' !in x && Strip(x) == x
    ensures CandidatesFrom(x + RegionSuffix, x + RegionSuffix) == [x + RegionSuffix, x + ", Bali"]
  {
    var norm := x + RegionSuffix;
    RegionAddressParts(x);
    assert ", " + "Bali" == ", Bali";
    assert FirstTwo(Parts(norm)) == x + ", Bali";
    assert |Lower(x + ", Bali")| != |Lower(norm)|;
    assert RegionFallback(norm, norm) == norm;
  }

  function Candidates(raw: string): seq<string> {
    CandidatesFrom(NormalizeAddress(Some(raw)), raw)
  }

  // ---------------------------------------------------------------------------
  // The retry loop, as a specification
  // ---------------------------------------------------------------------------

  function Repeat(q: string, n: nat): (r: seq<string>)
    ensures |r| == n && forall k :: 0 <= k < n ==> r[k] == q
  {
    if n == 0 then [] else [q] + Repeat(q, n - 1)
  }

  /** Peeling one attempt off a run of retries followed by `tail`. */
  lemma RepeatUnfold(q: string, n: nat, tail: seq<string>)
    requires n > 0
    ensures (Repeat(q, n) + tail)[0] == q
    ensures (Repeat(q, n) + tail)[1..] == Repeat(q, n - 1) + tail
  {
    assert Repeat(q, n) + tail == [q] + (Repeat(q, n - 1) + tail);
  }

  /** The queries the loop would issue if every one failed: each candidate,
      in order, `tries` times. */
  function Trace(candidates: seq<string>, tries: nat): seq<string> {
    if candidates == [] then [] else Repeat(candidates[0], tries) + Trace(candidates[1..], tries)
  }

  lemma {:induction false} TraceLength(candidates: seq<string>, tries: nat)
    ensures |Trace(candidates, tries)| == |candidates| * tries
  {
    if candidates != [] {
      TraceLength(candidates[1..], tries);
      assert |candidates| * tries == tries + (|candidates| - 1) * tries;
    }
  }

  /** The outcome of a run of queries: the coordinate found, if any, and how
      many queries were issued. */
  datatype Hit = Hit(loc: Option<Coord>, calls: nat) {
    function After(n: nat): Hit {
      Hit(loc, calls + n)
    }
  }

  /** Issue the queries of `trace` in order, the first at call index `n`, up to
      and including the first that succeeds. */
  function FirstHit(lookup: (nat, string) -> Option<Coord>, n: nat, trace: seq<string>): (h: Hit)
    ensures h.calls <= |trace|
    decreases |trace|
  {
    if trace == [] then Hit(None, 0)
    else match lookup(n, trace[0])
      case Some(c) => Hit(Some(c), 1)
      case None => FirstHit(lookup, n + 1, trace[1..]).After(1)
  }

  /** The search stops exactly at the first success: a miss has issued every
      query of the trace, a hit is the answer to the last query issued, and
      every query before it failed. */
  lemma {:induction false} FirstHitSpec(lookup: (nat, string) -> Option<Coord>, n: nat, trace: seq<string>)
    ensures var h := FirstHit(lookup, n, trace);
      h.loc.None? ==> h.calls == |trace|
    ensures var h := FirstHit(lookup, n, trace);
      h.loc.Some? ==> h.calls >= 1 && lookup(n + h.calls - 1, trace[h.calls - 1]) == h.loc
    ensures var h := FirstHit(lookup, n, trace);
      forall m :: 0 <= m < h.calls && (h.loc.None? || m < h.calls - 1) ==> lookup(n + m, trace[m]).None?
    decreases |trace|
  {
    if trace != [] && lookup(n, trace[0]).None? {
      FirstHitSpec(lookup, n + 1, trace[1..]);
      var h := FirstHit(lookup, n, trace);
      var h' := FirstHit(lookup, n + 1, trace[1..]);
      forall m | 0 <= m < h.calls && (h.loc.None? || m < h.calls - 1)
        ensures lookup(n + m, trace[m]).None?
      {
        if m > 0 {
          assert lookup(n + 1 + (m - 1), trace[1..][m - 1]).None?;
        }
      }
    }
  }

  /** A successful first query ends the search after one call. */
  lemma FirstHitHit(lookup: (nat, string) -> Option<Coord>, n: nat, trace: seq<string>)
    requires trace != [] && lookup(n, trace[0]).Some?
    ensures FirstHit(lookup, n, trace) == Hit(lookup(n, trace[0]), 1)
  {
  }

  /** A failed query hands the search on to the rest of the trace. */
  lemma FirstHitMiss(lookup: (nat, string) -> Option<Coord>, n: nat, trace: seq<string>)
    requires trace != [] && lookup(n, trace[0]).None?
    ensures FirstHit(lookup, n, trace) == FirstHit(lookup, n + 1, trace[1..]).After(1)
  {
  }

  function Max0(n: int): nat {
    if n < 0 then 0 else n
  }

  /** What one call of the driver does: the coordinate, the cache after, and
      the number of geocoder calls issued so far. */
  datatype GeoStep = GeoStep(loc: Option<Coord>, cache: map<string, Coord>, calls: nat)

  lemma TraceBound(candidates: seq<string>, tries: nat)
    requires |candidates| <= 3
    ensures |Trace(candidates, tries)| <= 3 * tries
  {
    TraceLength(candidates, tries);
    assert |candidates| * tries <= 3 * tries;
  }

  /** The specification of the driver, over the cache key and the candidate
      list: a cache hit answers at once; a miss queries the trace of
      candidates until the first success, and only a success is written to
      the cache, under the key. */
  function GeocodeWith(lookup: (nat, string) -> Option<Coord>, cache: map<string, Coord>, calls: nat,
                       key: string, candidates: seq<string>, tries: int): (g: GeoStep)
    requires |candidates| <= 3
    ensures key in cache ==> g == GeoStep(Some(cache[key]), cache, calls)
    ensures calls <= g.calls <= calls + 3 * Max0(tries)
    ensures g.loc.None? ==> g.cache == cache
    ensures g.loc.Some? ==> g.cache == cache[key := g.loc.value]
    ensures key !in cache && g.loc.Some? ==>
      exists m, k :: calls <= m < g.calls && 0 <= k < |candidates| && g.loc == lookup(m, candidates[k])
  {
    if key in cache then GeoStep(Some(cache[key]), cache, calls)
    else
      var trace := Trace(candidates, Max0(tries));
      TraceBound(candidates, Max0(tries));
      var h := FirstHit(lookup, calls, trace);
      FirstHitSpec(lookup, calls, trace);
      TraceQueries(candidates, Max0(tries));
      GeoStep(h.loc, if h.loc.Some? then cache[key := h.loc.value] else cache, calls + h.calls)
  }

  /** `geocode_bali` on a raw address: keyed on the trimmed address, trying
      the candidates built from it. */
  function Geocode(lookup: (nat, string) -> Option<Coord>, cache: map<string, Coord>, calls: nat,
                   raw: string, tries: int): GeoStep
  {
    GeocodeWith(lookup, cache, calls, Strip(raw), Candidates(raw), tries)
  }

  /** Every query of the trace is one of the candidates. */
  lemma {:induction false} TraceQueries(candidates: seq<string>, tries: nat)
    ensures forall m :: 0 <= m < |Trace(candidates, tries)| ==> Trace(candidates, tries)[m] in candidates
  {
    if candidates != [] {
      TraceQueries(candidates[1..], tries);
    }
  }

  // ---------------------------------------------------------------------------
  // The driver, as the source runs it
  // ---------------------------------------------------------------------------

  /** The injected geocoder. Its answer may depend on how many queries were
      issued before (a flaky or rate-limited service), which is what makes
      retrying the same text worthwhile; `calls` counts the queries. */
  class Geocoder {
    const lookup: (nat, string) -> Option<Coord>
    var calls: nat

    constructor (lookup: (nat, string) -> Option<Coord>)
      ensures this.lookup == lookup && calls == 0
    {
      this.lookup := lookup;
      calls := 0;
    }

    method Query(q: string) returns (loc: Option<Coord>)
      modifies this
      ensures loc == lookup(old(calls), q) && calls == old(calls) + 1
    {
      loc := lookup(calls, q);
      calls := calls + 1;
    }
  }

  /** The run's geocode cache, loaded before the first row and saved after the last. */
  class GeocodeCache {
    var entries: map<string, Coord>

    constructor (loaded: map<string, Coord>)
      ensures entries == loaded
    {
      entries := loaded;
    }
  }

  /** The inner `for _ in range(tries)` loop: one candidate, up to `tries`
      times, stopping at the first success. `tail` stands for the queries
      that would follow. */
  method RetryCandidate(geocoder: Geocoder, cand: string, tries: int, ghost tail: seq<string>)
    returns (loc: Option<Coord>)
    modifies geocoder
    ensures geocoder.calls >= old(geocoder.calls)
    ensures FirstHit(geocoder.lookup, old(geocoder.calls), Repeat(cand, Max0(tries)) + tail)
         == if loc.Some? then Hit(loc, geocoder.calls - old(geocoder.calls))
            else FirstHit(geocoder.lookup, geocoder.calls, tail).After(geocoder.calls - old(geocoder.calls))
  {
    ghost var t := Max0(tries);
    ghost var lookup := geocoder.lookup;
    ghost var n0 := geocoder.calls;
    ghost var trace := Repeat(cand, t) + tail;
    var attempt := 0;
    while attempt < tries
      invariant 0 <= attempt <= t
      invariant n0 <= geocoder.calls
      invariant FirstHit(lookup, n0, trace)
             == FirstHit(lookup, geocoder.calls, Repeat(cand, t - attempt) + tail).After(geocoder.calls - n0)
    {
      RetryStep(lookup, n0, geocoder.calls, trace, cand, t - attempt, tail);
      loc := geocoder.Query(cand);
      if loc.Some? {
        return;
      }
      attempt := attempt + 1;
    }
    assert attempt == t && Repeat(cand, 0) == [];
    assert Repeat(cand, t - attempt) + tail == tail;
    return None;
  }

  /** One attempt of the retry loop, as the loop invariant sees it: a success
      ends the search, a failure leaves one attempt fewer. */
  lemma RetryStep(lookup: (nat, string) -> Option<Coord>, n0: nat, c: nat, trace: seq<string>,
                  q: string, n: nat, tail: seq<string>)
    requires n > 0 && n0 <= c
    requires FirstHit(lookup, n0, trace) == FirstHit(lookup, c, Repeat(q, n) + tail).After(c - n0)
    ensures lookup(c, q).Some? ==> FirstHit(lookup, n0, trace) == Hit(lookup(c, q), c + 1 - n0)
    ensures lookup(c, q).None? ==>
      FirstHit(lookup, n0, trace) == FirstHit(lookup, c + 1, Repeat(q, n - 1) + tail).After(c + 1 - n0)
  {
    RepeatUnfold(q, n, tail);
    if lookup(c, q).Some? {
      FirstHitHit(lookup, c, Repeat(q, n) + tail);
    } else {
      FirstHitMiss(lookup, c, Repeat(q, n) + tail);
    }
  }

  /** The outer `for cand in candidates` loop of `geocode_bali`. */
  method TryCandidates(geocoder: Geocoder, candidates: seq<string>, tries: int)
    returns (loc: Option<Coord>)
    modifies geocoder
    ensures geocoder.calls >= old(geocoder.calls)
    ensures Hit(loc, geocoder.calls - old(geocoder.calls))
         == FirstHit(geocoder.lookup, old(geocoder.calls), Trace(candidates, Max0(tries)))
  {
    ghost var t := Max0(tries);
    ghost var n0 := geocoder.calls;
    ghost var trace := Trace(candidates, t);
    var i := 0;
    while i < |candidates|
      invariant 0 <= i <= |candidates|
      invariant n0 <= geocoder.calls
      invariant FirstHit(geocoder.lookup, n0, trace)
             == FirstHit(geocoder.lookup, geocoder.calls, Trace(candidates[i..], t)).After(geocoder.calls - n0)
    {
      assert candidates[i..][1..] == candidates[i + 1..];
      loc := RetryCandidate(geocoder, candidates[i], tries, Trace(candidates[i + 1..], t));
      if loc.Some? {
        return;
      }
      i := i + 1;
    }
    assert candidates[i..] == [];
    return None;
  }

  /** The candidate list of `geocode_bali`, as written: start from the normalised address and append
      each fallback that passes its test. */
  method BuildCandidates(norm: string, raw: string) returns (candidates: seq<string>)
    ensures candidates == CandidatesFrom(norm, raw)
  {
    candidates := [];
    candidates := candidates + [norm];
    var parts := Parts(norm);
    if |parts| >= 2 {
      var c1 := FirstTwo(parts);
      if Lower(c1) != Lower(norm) {
        candidates := candidates + [c1];
      }
    }
    assert candidates == if |parts| >= 2 && Lower(FirstTwo(parts)) != Lower(norm) then [norm, FirstTwo(parts)] else [norm];
    var c2 := RegionFallback(norm, raw);
    if Lower(c2) !in LowerAll(candidates) {
      candidates := candidates + [c2];
    }
  }

  /** `geocode_bali`: a cache hit answers at once; otherwise the candidates
      are tried and only a success is written to the cache. */
  method GeocodeBali(geocoder: Geocoder, cache: GeocodeCache, raw: string, tries: int)
    returns (loc: Option<Coord>)
    modifies geocoder, cache
    ensures GeoStep(loc, cache.entries, geocoder.calls)
         == Geocode(geocoder.lookup, old(cache.entries), old(geocoder.calls), raw, tries)
  {
    var key := Strip(raw);
    if key in cache.entries {
      return Some(cache.entries[key]);
    }
    ghost var before, n0 := cache.entries, geocoder.calls;
    var norm := NormalizeAddress(Some(raw));
    var candidates := BuildCandidates(norm, raw);
    loc := TryCandidates(geocoder, candidates, tries);
    if loc.Some? {
      cache.entries := cache.entries[key := loc.value];
    }
    GeocodeMiss(geocoder.lookup, before, n0, raw, tries, loc, geocoder.calls);
  }

  /** A cache miss: the answer and the call count are those of the first-hit
      search over the candidates, and only a success is cached. */
  lemma GeocodeMiss(lookup: (nat, string) -> Option<Coord>, cache: map<string, Coord>, calls: nat,
                    raw: string, tries: int, loc: Option<Coord>, n: nat)
    requires Strip(raw) !in cache && calls <= n
    requires Hit(loc, n - calls) == FirstHit(lookup, calls, Trace(Candidates(raw), Max0(tries)))
    ensures Geocode(lookup, cache, calls, raw, tries)
         == GeoStep(loc, if loc.Some? then cache[Strip(raw) := loc.value] else cache, n)
  {
  }
}
