/**
 * The address normaliser of the venue importer: postcode removal, the ordered
 * abbreviation table, separator tidying and the "Bali" / "Indonesia" bias.
 */
module AddressNormalizer {
  import opened Wrappers
  import opened Strings

  // ---------------------------------------------------------------------------
  // Postcodes: the pattern `\b\d{5}\b`
  // ---------------------------------------------------------------------------

  /** Five digits at `i` with a word boundary on each side; `leftWord` says
      whether the character before `s[i]` counts as a word character when
      `i` is 0 (in the input there is nothing there, so it is `false`). */
  predicate TokenAt(s: string, i: nat, leftWord: bool) {
    && i + 5 <= |s|
    && (if i == 0 then !leftWord else !IsWordChar(s[i - 1]))
    && (forall k :: i <= k < i + 5 ==> IsDigit(s[k]))
    && (i + 5 == |s| || !IsWordChar(s[i + 5]))
  }

  predicate PostcodeAt(s: string, i: nat) {
    TokenAt(s, i, false)
  }

  predicate NoPostcode(s: string) {
    forall k: nat :: k < |s| ==> !PostcodeAt(s, k)
  }

  /** `re.sub(r"\b\d{5}\b", "", s[i..])`, scanning left to right over the whole of `s`. */
  function StripPostcodesFrom(s: string, i: nat): string
    requires i <= |s|
    decreases |s| - i
  {
    if i == |s| then []
    else if PostcodeAt(s, i) then StripPostcodesFrom(s, i + 5)
    else [s[i]] + StripPostcodesFrom(s, i + 1)
  }

  function StripPostcodes(s: string): string {
    StripPostcodesFrom(s, 0)
  }

  /** After a word character of the input the scan copies characters; while they
      are digits the output repeats the input one for one. */
  lemma {:induction false} DigitRun(s: string, i: nat, m: nat)
    requires 0 < i <= |s| && IsWordChar(s[i - 1])
    requires m <= |StripPostcodesFrom(s, i)|
    requires forall t :: 0 <= t < m ==> IsDigit(StripPostcodesFrom(s, i)[t])
    ensures i + m <= |s|
    ensures StripPostcodesFrom(s, i)[..m] == s[i..i + m]
    ensures i + m < |s| ==> |StripPostcodesFrom(s, i)| > m && StripPostcodesFrom(s, i)[m] == s[i + m]
    decreases m
  {
    var r := StripPostcodesFrom(s, i);
    if i < |s| {
      assert !PostcodeAt(s, i);
      assert r == [s[i]] + StripPostcodesFrom(s, i + 1);
    }
    if m > 0 {
      var r' := StripPostcodesFrom(s, i + 1);
      assert r[0] == s[i] && r[1..] == r';
      forall t | 0 <= t < m - 1 ensures IsDigit(r'[t]) {
        assert r'[t] == r[t + 1];
      }
      DigitRun(s, i + 1, m - 1);
      assert r[..m] == [s[i]] + r'[..m - 1];
      assert s[i..i + m] == [s[i]] + s[i + 1..i + m];
    }
  }

  /** Context under which the scan from `i` starts: `c` is whether the output
      so far ends in a word character. */
  predicate ScanContext(s: string, i: nat, c: bool)
    requires i <= |s|
  {
    && (c ==> i > 0 && IsWordChar(s[i - 1]))
    && (i > 0 && IsWordChar(s[i - 1]) && !c ==> i == |s| || !IsWordChar(s[i]))
  }

  /** A token one place into `[x] + r'` is a token at the front of `r'`. */
  lemma TokenShift(x: char, r': string, k: nat, c: bool)
    requires 0 < k
    ensures TokenAt([x] + r', k, c) ==> TokenAt(r', k - 1, IsWordChar(x))
  {
    var r := [x] + r';
    if TokenAt(r, k, c) {
      assert forall t :: k - 1 <= t < |r'| ==> r'[t] == r[t + 1];
    }
  }

  /** A token at the front of the output after a copied character `s[i]` would
      be a postcode of the input at `i`. */
  lemma {:induction false} TokenAtFront(s: string, i: nat, c: bool)
    requires i < |s| && ScanContext(s, i, c)
    ensures TokenAt(StripPostcodesFrom(s, i), 0, c) ==> PostcodeAt(s, i)
  {
    var r := StripPostcodesFrom(s, i);
    var r' := StripPostcodesFrom(s, i + 1);
    if !PostcodeAt(s, i) && |r| >= 5 && forall t :: 0 <= t < 5 ==> IsDigit(r[t]) {
      assert r == [s[i]] + r';
      assert IsDigit(r[0]) && r[0] == s[i];
      forall t | 0 <= t < 4 ensures IsDigit(r'[t]) {
        assert r'[t] == r[t + 1];
      }
      DigitRun(s, i + 1, 4);
      assert r'[..4] == s[i + 1..i + 5];
      forall k | i <= k < i + 5 ensures IsDigit(s[k]) {
        if k > i {
          assert s[k] == s[i + 1..i + 5][k - i - 1] == r'[..4][k - i - 1];
        }
      }
      if i + 5 < |s| {
        assert s[i + 5] == r'[4] == r[5];
      }
    }
  }

  lemma {:induction false} NoTokenInOutput(s: string, i: nat, c: bool)
    requires i <= |s| && ScanContext(s, i, c)
    ensures forall k: nat :: k < |StripPostcodesFrom(s, i)| ==> !TokenAt(StripPostcodesFrom(s, i), k, c)
    decreases |s| - i
  {
    var r := StripPostcodesFrom(s, i);
    if i == |s| {
    } else if PostcodeAt(s, i) {
      NoTokenInOutput(s, i + 5, c);
      if r != [] {
        assert i + 5 < |s|;
        assert !PostcodeAt(s, i + 5);
        assert r == StripPostcodesFrom(s, i + 5) == [s[i + 5]] + StripPostcodesFrom(s, i + 6);
      }
    } else {
      var w := IsWordChar(s[i]);
      var r' := StripPostcodesFrom(s, i + 1);
      assert r == [s[i]] + r';
      NoTokenInOutput(s, i + 1, w);
      TokenAtFront(s, i, c);
      forall k: nat | 0 < k < |r|
        ensures !TokenAt(r, k, c)
      {
        TokenShift(s[i], r', k, c);
      }
    }
  }

  /** No standalone five-digit token survives the postcode pass. */
  lemma StripPostcodesRemovesAll(s: string)
    ensures NoPostcode(StripPostcodes(s))
  {
    NoTokenInOutput(s, 0, false);
  }

  lemma {:induction false} StripPostcodesKeeps(s: string, i: nat)
    requires i <= |s| && forall k: nat :: i <= k < |s| ==> !PostcodeAt(s, k)
    ensures StripPostcodesFrom(s, i) == s[i..]
    decreases |s| - i
  {
    if i < |s| {
      StripPostcodesKeeps(s, i + 1);
    }
  }

  /** The postcode pass changes nothing the second time. */
  lemma StripPostcodesIdempotent(s: string)
    ensures StripPostcodes(StripPostcodes(s)) == StripPostcodes(s)
  {
    StripPostcodesRemovesAll(s);
    StripPostcodesKeeps(StripPostcodes(s), 0);
  }

  // ---------------------------------------------------------------------------
  // The abbreviation table: ordered, case-insensitive, whole-word substitutions
  // ---------------------------------------------------------------------------

  /** The regex `\b<word>(<suffix 1>|<suffix 2>|...)\b`, with the suffixes tried
      in order as Python's backtracking tries them; an empty suffix stands for
      the optional group being skipped. `word` and the suffixes are lower case
      and compared against the lower-cased text. */
  datatype Rule = Rule(word: string, suffixes: seq<string>, repl: string)

  /** The table of import_venues_csv.py, in its order. */
  const Abbreviations: seq<Rule> := [
    Rule("jl", [".", ""], "Jalan"),
    Rule("gg", [".", ""], "Gang"),
    Rule("kec", [".", ""], ""),
    Rule("kab", [".", "upaten", ""], ""),
    Rule("kota", [""], ""),
    Rule("bar", ["."], "Barat"),
    Rule("sel", ["."], "Selatan"),
    Rule("ut", ["."], "Utara"),
    Rule("tim", ["."], "Timur"),
    Rule("regency", [""], "")
  ]

  predicate WordAt(s: string, k: int) {
    0 <= k < |s| && IsWordChar(s[k])
  }

  /** Regex `\b` between `s[k - 1]` and `s[k]`. */
  predicate Boundary(s: string, k: int) {
    WordAt(s, k - 1) != WordAt(s, k)
  }

  /** Where the first suffix that matches at `j` (followed by a boundary) ends. */
  function SuffixEnd(s: string, j: nat, suffixes: seq<string>): (e: Option<nat>)
    ensures e.Some? ==> j <= e.value <= |s|
  {
    if suffixes == [] then None
    else
      var x := suffixes[0];
      if j + |x| <= |s| && Lower(s[j..j + |x|]) == x && Boundary(s, j + |x|) then Some(j + |x|)
      else SuffixEnd(s, j, suffixes[1..])
  }

  /** Where a match of `rule` that starts at `i` ends, if there is one. */
  function MatchEnd(s: string, i: nat, rule: Rule): (e: Option<nat>)
    ensures e.Some? ==> i + |rule.word| <= e.value <= |s|
  {
    var n := |rule.word|;
    if Boundary(s, i) && i + n <= |s| && Lower(s[i..i + n]) == rule.word
    then SuffixEnd(s, i + n, rule.suffixes)
    else None
  }

  /** `re.sub(pattern, repl, s, flags=re.IGNORECASE)` from position `i` on. */
  function SubFrom(s: string, i: nat, rule: Rule): string
    requires i <= |s| && rule.word != []
    decreases |s| - i
  {
    if i == |s| then []
    else match MatchEnd(s, i, rule)
      case Some(e) => rule.repl + SubFrom(s, e, rule)
      case None => [s[i]] + SubFrom(s, i + 1, rule)
  }

  /** A pattern that matches nowhere leaves the text as it is. */
  lemma {:induction false} SubFromKeeps(s: string, i: nat, rule: Rule)
    requires i <= |s| && rule.word != []
    requires forall k: nat :: i <= k < |s| ==> MatchEnd(s, k, rule).None?
    ensures SubFrom(s, i, rule) == s[i..]
    decreases |s| - i
  {
    if i < |s| {
      SubFromKeeps(s, i + 1, rule);
      assert s[i..] == [s[i]] + s[i + 1..];
    }
  }

  /** The `for pat, repl in ABBR_MAP.items()` loop: a left fold over the table. */
  function ApplyRules(s: string, j: nat): string
    requires j <= |Abbreviations|
    decreases |Abbreviations| - j
  {
    if j == |Abbreviations| then s
    else
      AbbreviationsNonEmpty();
      ApplyRules(SubFrom(s, 0, Abbreviations[j]), j + 1)
  }

  /** `Jl.` before a space keeps its dot: the `\b` after the optional dot fails
      between two non-word characters, so the regex backtracks and only `Jl` is
      replaced ("Jl. Kuta" becomes "Jalan. Kuta"); glued to the next word the
      dot goes with it ("Jl.Kuta" becomes "JalanKuta"). */
  lemma JalanRuleAndTheDot()
    ensures MatchEnd("Jl. Kuta", 0, Abbreviations[0]) == Some(2)
    ensures MatchEnd("Jl.Kuta", 0, Abbreviations[0]) == Some(3)
  {
    assert Lower("Jl") == "jl";
    assert Lower(".") == ".";
  }

  // ---------------------------------------------------------------------------
  // Separator tidying
  // ---------------------------------------------------------------------------

  /** The first index at or after `i` that does not hold whitespace. */
  function SkipSpace(s: string, i: nat): (j: nat)
    requires i <= |s|
    ensures i <= j <= |s| && (j == |s| || !IsSpace(s[j]))
    ensures forall k :: i <= k < j ==> IsSpace(s[k])
    decreases |s| - i
  {
    if i < |s| && IsSpace(s[i]) then SkipSpace(s, i + 1) else i
  }

  /** `re.sub(r"\s*,\s*", ", ", s[i..])`. */
  function CommaTidyFrom(s: string, i: nat): string
    requires i <= |s|
    decreases |s| - i
  {
    if i == |s| then []
    else
      var j := SkipSpace(s, i);
      if j < |s| && s[j] == ',' then ", " + CommaTidyFrom(s, SkipSpace(s, j + 1))
      else [s[i]] + CommaTidyFrom(s, i + 1)
  }

  /** `re.sub(r"\s{2,}", " ", s[i..])`. */
  function CollapseFrom(s: string, i: nat): string
    requires i <= |s|
    decreases |s| - i
  {
    if i == |s| then []
    else if IsSpace(s[i]) && i + 1 < |s| && IsSpace(s[i + 1]) then " " + CollapseFrom(s, SkipSpace(s, i))
    else [s[i]] + CollapseFrom(s, i + 1)
  }

  /** No two whitespace characters stand side by side. */
  predicate NoSpaceRun(s: string) {
    forall k :: 0 <= k < |s| - 1 ==> !(IsSpace(s[k]) && IsSpace(s[k + 1]))
  }

  /** After the blank-run pass no run of two or more blanks is left, and the
      output starts with a blank exactly when the input does. */
  lemma {:induction false} CollapseNoRuns(s: string, i: nat)
    requires i <= |s|
    ensures NoSpaceRun(CollapseFrom(s, i))
    ensures i < |s| ==> CollapseFrom(s, i) != [] && (IsSpace(CollapseFrom(s, i)[0]) <==> IsSpace(s[i]))
    decreases |s| - i
  {
    if i < |s| {
      var r := CollapseFrom(s, i);
      if IsSpace(s[i]) && i + 1 < |s| && IsSpace(s[i + 1]) {
        var j := SkipSpace(s, i);
        CollapseNoRuns(s, j);
        var rest := CollapseFrom(s, j);
        assert r == " " + rest;
        forall k | 0 <= k < |r| - 1 ensures !(IsSpace(r[k]) && IsSpace(r[k + 1])) {
          if k > 0 {
            assert r[k] == rest[k - 1] && r[k + 1] == rest[k];
          }
        }
      } else {
        CollapseNoRuns(s, i + 1);
        var rest := CollapseFrom(s, i + 1);
        assert r == [s[i]] + rest;
        forall k | 0 <= k < |r| - 1 ensures !(IsSpace(r[k]) && IsSpace(r[k + 1])) {
          if k > 0 {
            assert r[k] == rest[k - 1] && r[k + 1] == rest[k];
          }
        }
      }
    }
  }

  predicate IsCommaOrSpace(c: char) {
    c == ',' || c == ' '
  }

  /** Every comma is directly followed by a blank. */
  predicate CommasSpaced(s: string) {
    forall k :: 0 <= k < |s| && s[k] == ',' ==> k + 1 < |s| && s[k + 1] == ' '
  }

  /** After the comma pass each comma stands in a ", " pair. */
  lemma {:induction false} CommaTidySpaced(s: string, i: nat)
    requires i <= |s|
    ensures CommasSpaced(CommaTidyFrom(s, i))
    decreases |s| - i
  {
    if i < |s| {
      var j := SkipSpace(s, i);
      if j < |s| && s[j] == ',' {
        CommaTidySpaced(s, SkipSpace(s, j + 1));
        PrependSpaced(", ", CommaTidyFrom(s, SkipSpace(s, j + 1)));
      } else {
        CommaTidySpaced(s, i + 1);
        PrependSpaced([s[i]], CommaTidyFrom(s, i + 1));
      }
    }
  }

  lemma PrependSpaced(p: string, rest: string)
    requires p == ", " || (|p| == 1 && p[0] != ',')
    requires CommasSpaced(rest)
    ensures CommasSpaced(p + rest)
  {
    var r := p + rest;
    forall k | 0 <= k < |r| && r[k] == ','
      ensures k + 1 < |r| && r[k + 1] == ' '
    {
      if k >= |p| {
        assert rest[k - |p|] == ',';
      }
    }
  }

  /** The tidying of separators: commas, runs of blanks, then the ends. */
  function Tidy(s: string): string {
    var t := CollapseFrom(CommaTidyFrom(s, 0), 0);
    Strip(TrimRight(TrimLeft(t, IsCommaOrSpace), IsCommaOrSpace))
  }

  // ---------------------------------------------------------------------------
  // normalize_address
  // ---------------------------------------------------------------------------

  lemma AbbreviationsNonEmpty()
    ensures forall k :: 0 <= k < |Abbreviations| ==> Abbreviations[k].word != []
  {
  }

  /** The last step: append ", Bali" and then ", Indonesia" where the
      (case-insensitive) names are missing. */
  function EnsureRegion(a: string): (r: string)
    ensures |a| <= |r| && r[..|a|] == a
    ensures Contains(Lower(a), "bali") && Contains(Lower(a), "indonesia") ==> r == a
  {
    var withRegion := if Contains(Lower(a), "bali") then a else a + ", Bali";
    if Contains(Lower(withRegion), "indonesia") then withRegion else withRegion + ", Indonesia"
  }

  function NormalizeAddress(addr: Option<string>): string {
    var a := Strip(if addr.Some? then addr.value else "");
    EnsureRegion(Tidy(ApplyRules(StripPostcodes(a), 0)))
  }

  lemma LowerLiterals()
    ensures Lower(", Bali") == ", " + "bali"
    ensures Lower(", Indonesia") == ", " + "indonesia"
  {
  }

  /** Appending the region and country literals makes both names present. */
  lemma {:induction false} EnsureRegionBias(a: string)
    ensures Contains(Lower(EnsureRegion(a)), "bali")
    ensures Contains(Lower(EnsureRegion(a)), "indonesia")
  {
    LowerLiterals();
    var withRegion := if Contains(Lower(a), "bali") then a else a + ", Bali";
    if !Contains(Lower(a), "bali") {
      LowerAppend(a, ", Bali");
      assert Lower(withRegion) == (Lower(a) + ", ") + "bali";
      ContainsSuffix(Lower(a) + ", ", "bali");
    }
    if !Contains(Lower(withRegion), "indonesia") {
      LowerAppend(withRegion, ", Indonesia");
      assert Lower(withRegion + ", Indonesia") == (Lower(withRegion) + ", ") + "indonesia";
      ContainsSuffix(Lower(withRegion) + ", ", "indonesia");
      ContainsAppend(Lower(withRegion), Lower(", Indonesia"), "bali");
    }
  }

  /** The normalised address always names the region and the country, whatever
      the input, `None` and the empty text included. */
  lemma NormalizeAddressBias(addr: Option<string>)
    ensures Contains(Lower(NormalizeAddress(addr)), "bali")
    ensures Contains(Lower(NormalizeAddress(addr)), "indonesia")
  {
    var a := Strip(if addr.Some? then addr.value else "");
    EnsureRegionBias(Tidy(ApplyRules(StripPostcodes(a), 0)));
  }
}
