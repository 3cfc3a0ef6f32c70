/**
 * The two field cleaners of the venue importer: `clean_instagram` for the
 * handle column and `resolve_website` for the link column.
 */
module VenueFields {
  import opened Wrappers
  import opened Strings

  predicate IsSlash(c: char) {
    c == '/'
  }

  /** The trimmed handle with one leading "@" taken off. */
  function Unprefixed(handle: string): string {
    var h := Strip(handle);
    if StartsWith(h, "@") then h[1..] else h
  }

  /** `clean_instagram`: no handle for a missing or empty cell; otherwise the
      trimmed handle without one leading "@" and without its trailing slashes,
      and no handle either when nothing is left. */
  function CleanInstagram(handle: Option<string>): (r: Option<string>)
    ensures r.None? <==>
      handle.None? || forall k :: 0 <= k < |Unprefixed(handle.value)| ==> Unprefixed(handle.value)[k] == '/'
    ensures r.Some? ==>
      var u := Unprefixed(handle.value);
      && r.value != [] && r.value[|r.value| - 1] != '/'
      && |r.value| <= |u| && u[..|r.value|] == r.value
      && forall k :: |r.value| <= k < |u| ==> u[k] == '/'
  {
    if handle.None? || handle.value == "" then None
    else
      TrimRightPrefix(Unprefixed(handle.value), IsSlash);
      var h := TrimRight(Unprefixed(handle.value), IsSlash);
      if h == "" then None else Some(h)
  }

  /** Exactly one "@" is removed. */
  lemma CleanInstagramRemovesOneAt()
    ensures CleanInstagram(Some(" @@gig/ ")) == Some("@gig")
  {
    assert TrimLeft(" @@gig/ ", IsSpace) == "@@gig/ ";
    assert TrimRight("@@gig/ ", IsSpace) == "@@gig/";
    assert Unprefixed(" @@gig/ ") == "@gig/";
    assert TrimRight("@gig/", IsSlash) == "@gig";
  }

  /** `^https?://` with `re.I`. */
  predicate HasWebScheme(u: string) {
    StartsWith(Lower(u), "http://") || StartsWith(Lower(u), "https://")
  }

  /** `resolve_website`: the trimmed link when it is an http(s) URL, otherwise
      no website at all. */
  function ResolveWebsite(link: Option<string>): (r: Option<string>)
    ensures r.Some? <==> link.Some? && HasWebScheme(Strip(link.value))
    ensures r.Some? ==> r.value == Strip(link.value) && r.value != []
  {
    if link.None? || link.value == "" then None
    else
      var u := Strip(link.value);
      if HasWebScheme(u) then Some(u) else None
  }

  /** A resolved website resolves to itself. */
  lemma ResolveWebsiteIdempotent(link: Option<string>)
    ensures ResolveWebsite(ResolveWebsite(link)) == ResolveWebsite(link)
  {
    if link.Some? {
      StripIdempotent(link.value);
    }
  }
}
