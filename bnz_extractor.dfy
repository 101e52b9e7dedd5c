/** The API-key extractor of `src/bnz/extractor.py`: a leftmost search for
    the pattern `apiKey\s*:\s*["']([^"']+)["']`, written out as a scanner.
    The pattern never needs backtracking: each `\s*` is followed by a
    character that is not whitespace, and `[^"']+` by a quote, so at every
    start position the greedy runs are the only way to match. */
module BnzExtractor {
  import opened Common

  const NotFoundMessage: string := "API key not found in HTML"

  /** The class `["']`. */
  predicate IsQuote(c: char) {
    c == '"' || c == '\''
  }

  predicate NoQuotesIn(s: string, i: nat, j: nat)
    requires i <= j <= |s|
  {
    forall k :: i <= k < j ==> !IsQuote(s[k])
  }

  /** The end of the greedy `[^"']*` run that starts at `i`. */
  function SkipNonQuote(s: string, i: nat): (j: nat)
    requires i <= |s|
    ensures i <= j <= |s| && NoQuotesIn(s, i, j)
    ensures j == |s| || IsQuote(s[j])
    decreases |s| - i
  {
    if i < |s| && !IsQuote(s[i]) then SkipNonQuote(s, i + 1) else i
  }

  /** The pattern tried at start position `p`: the bounds of the captured
      group, or `None`. */
  function MatchAt(s: string, p: nat): Option<(nat, nat)>
    requires p <= |s|
  {
    if !OccursAt(s, "apiKey", p) then None
    else
      var a := SkipSpace(s, p + 6);
      if a == |s| || s[a] != ':' then None
      else
        var b := SkipSpace(s, a + 1);
        if b == |s| || !IsQuote(s[b]) then None
        else
          var ce := SkipNonQuote(s, b + 1);
          if ce == b + 1 || ce == |s| then None else Some((b + 1, ce))
  }

  /** The pattern's meaning, independent of how it is scanned: at `p`
      stand `apiKey`, spaces, `:`, spaces, a quote, the non-empty group
      `s[cs..ce]` without quotes, and a quote. */
  ghost predicate IsMatchAt(s: string, p: nat, cs: nat, ce: nat) {
    && OccursAt(s, "apiKey", p)
    && cs < ce < |s|
    && (exists a: nat, b: nat :: p + 6 <= a < b && cs == b + 1
          && SpacesIn(s, p + 6, a) && s[a] == ':' && SpacesIn(s, a + 1, b) && IsQuote(s[b]))
    && NoQuotesIn(s, cs, ce) && IsQuote(s[ce])
  }

  /** The scanner finds a match at `p` exactly when the pattern matches
      there, and the match (so the group) at a given start is unique. */
  lemma MatchAtCorrect(s: string, p: nat, cs: nat, ce: nat)
    requires p <= |s|
    ensures MatchAt(s, p) == Some((cs, ce)) <==> IsMatchAt(s, p, cs, ce)
  {
    if MatchAt(s, p) == Some((cs, ce)) {
      MatchAtSound(s, p, cs, ce);
    }
    if IsMatchAt(s, p, cs, ce) {
      MatchAtComplete(s, p, cs, ce);
    }
  }

  lemma MatchAtSound(s: string, p: nat, cs: nat, ce: nat)
    requires p <= |s| && MatchAt(s, p) == Some((cs, ce))
    ensures IsMatchAt(s, p, cs, ce)
  {
    var a := SkipSpace(s, p + 6);
    var b := SkipSpace(s, a + 1);
    assert p + 6 <= a < b && cs == b + 1
      && SpacesIn(s, p + 6, a) && s[a] == ':' && SpacesIn(s, a + 1, b) && IsQuote(s[b]);
  }

  lemma MatchAtComplete(s: string, p: nat, cs: nat, ce: nat)
    requires p <= |s| && IsMatchAt(s, p, cs, ce)
    ensures MatchAt(s, p) == Some((cs, ce))
  {
    var a: nat, b: nat :| p + 6 <= a < b && cs == b + 1
        && SpacesIn(s, p + 6, a) && s[a] == ':' && SpacesIn(s, a + 1, b) && IsQuote(s[b]);
    SkipSpaceUnique(s, p + 6, a);
    SkipSpaceUnique(s, a + 1, b);
    SkipNonQuoteUnique(s, cs, ce);
    assert a != |s| && s[a] == ':';
    assert b != |s| && IsQuote(s[b]);
    assert ce != b + 1 && ce != |s|;
  }

  /** A run of whitespace followed by a non-space is what `SkipSpace`
      finds. */
  lemma {:induction false} SkipSpaceUnique(s: string, i: nat, j: nat)
    requires i <= j < |s| && SpacesIn(s, i, j) && !IsSpace(s[j])
    ensures SkipSpace(s, i) == j
    decreases j - i
  {
    if i < j {
      SkipSpaceUnique(s, i + 1, j);
    }
  }

  /** A run without quotes followed by a quote is what `SkipNonQuote`
      finds. */
  lemma {:induction false} SkipNonQuoteUnique(s: string, i: nat, j: nat)
    requires i <= j < |s| && NoQuotesIn(s, i, j) && IsQuote(s[j])
    ensures SkipNonQuote(s, i) == j
    decreases j - i
  {
    if i < j {
      SkipNonQuoteUnique(s, i + 1, j);
    }
  }

  /** `re.search`: the match with the leftmost start at or after `from`,
      as (start, group start, group end). */
  function SearchFrom(s: string, from: nat): (r: Option<(nat, nat, nat)>)
    requires from <= |s|
    ensures r.Some? ==> from <= r.value.0 <= |s| && MatchAt(s, r.value.0) == Some((r.value.1, r.value.2))
    ensures r.Some? ==> forall p :: from <= p < r.value.0 ==> MatchAt(s, p).None?
    ensures r.None? ==> forall p :: from <= p <= |s| ==> MatchAt(s, p).None?
    decreases |s| - from
  {
    var m := MatchAt(s, from);
    if m.Some? then Some((from, m.value.0, m.value.1))
    else if from == |s| then None
    else SearchFrom(s, from + 1)
  }

  /** `extract_api_key`: the group of the leftmost match, or `ValueError`. */
  function ExtractApiKey(html: string): (r: Result<string>)
    ensures r.Ok? ==> r.value != []
    ensures r.Ok? ==> forall k :: 0 <= k < |r.value| ==> !IsQuote(r.value[k])
    ensures r.Ok? ==> exists i, j :: 0 <= i <= j <= |html| && html[i..j] == r.value
    ensures r.Err? ==> r.message == NotFoundMessage
  {
    match SearchFrom(html, 0)
    case None => Err(NotFoundMessage)
    case Some((p, cs, ce)) =>
      Ok(html[cs..ce])
  }

  /** The key is the group of the leftmost match of the pattern; `ValueError`
      happens exactly when the pattern matches nowhere. */
  lemma ExtractApiKeyIsLeftmostMatch(html: string)
    ensures ExtractApiKey(html).Ok? ==>
              exists p: nat, cs: nat, ce: nat :: IsMatchAt(html, p, cs, ce) && ExtractApiKey(html).value == html[cs..ce]
                && forall p': nat, cs': nat, ce': nat :: p' < p ==> !IsMatchAt(html, p', cs', ce')
    ensures ExtractApiKey(html).Err? <==> forall p: nat, cs: nat, ce: nat :: !IsMatchAt(html, p, cs, ce)
  {
    match SearchFrom(html, 0)
    case None =>
      forall p: nat, cs: nat, ce: nat ensures !IsMatchAt(html, p, cs, ce) {
        if p <= |html| {
          MatchAtCorrect(html, p, cs, ce);
        }
      }
    case Some((p, cs, ce)) =>
      MatchAtCorrect(html, p, cs, ce);
      forall p': nat, cs': nat, ce': nat | p' < p ensures !IsMatchAt(html, p', cs', ce') {
        MatchAtCorrect(html, p', cs', ce');
      }
  }

  /** The two quotes are independent: `'` may close a `"` and vice versa. */
  lemma MixedQuotesMatch()
    ensures IsMatchAt("apiKey:\"k'", 0, 8, 9)
  {
    var s := "apiKey:\"k'";
    assert SpacesIn(s, 6, 6) && s[6] == ':' && SpacesIn(s, 7, 7) && IsQuote(s[7]);
  }

  /** Whitespace, newlines included, is allowed on both sides of the colon. */
  lemma SpacesAroundColonMatch()
    ensures IsMatchAt("apiKey \n:\t'k'", 0, 11, 12)
  {
    var s := "apiKey \n:\t'k'";
    assert SpacesIn(s, 6, 8) && s[8] == ':' && SpacesIn(s, 9, 10) && IsQuote(s[10]);
  }
}
