/** One scraping run of `src/bnz/scraper.py`: fetch the page, extract the
    API key, fetch and read the rate feed, decide whether the rates
    changed, append the changed entries stamped with the run's time, and
    produce the record to save and the status returned to the caller.
    The network requests, the XML parser, `float()`, `strptime`, the clock
    and the data file are inputs: `htmlPage` and `fetchFeed` are the two
    requests (with their retries), `toFloat` and `toIsoDate` are `float()`
    and `strptime(text, "%d %B %Y")` with `.isoformat()`, each giving its
    value or the message of its error, `stored` is what `load_rates` read
    (`None` when the file does not exist), `nowIso` is the current time
    already formatted, and the saved record is part of the output. */
module BnzScraper {
  import opened Common
  import opened Rates
  import opened Storage
  import BnzExtractor
  import BnzParser

  /** The data written by `save_rates`: exactly these two fields. */
  datatype SavedData = SavedData(bankLastUpdated: string, rates: seq<Observation>)

  /** The status dictionary the run returns. */
  datatype ScrapeResult = ScrapeResult(
    success: bool,
    ratesChanged: bool,
    numRates: nat,
    scrapedAt: string,
    changedRates: seq<Observation>,
    existingRates: seq<Observation>)

  /** The history after the run: the old entries followed by the changed
      entries stamped with `nowIso`, or the old entries alone when no update
      is due. */
  function UpdatedRates(existing: seq<Observation>, newRates: seq<Quote>, nowIso: string): (r: seq<Observation>)
    ensures |existing| <= |r| && r[..|existing|] == existing
    ensures forall i :: |existing| <= i < |r| ==> r[i].scrapedAt == nowIso
    ensures Quotes(r[|existing|..]) == if ShouldUpdate(existing, newRates)
                                      then ChangedRates(LatestRates(existing), newRates) else []
  {
    if ShouldUpdate(existing, newRates) then
      var stamped := StampAll(ChangedRates(LatestRates(existing), newRates), nowIso);
      assert (existing + stamped)[|existing|..] == stamped;
      QuotesOfStamped(ChangedRates(LatestRates(existing), newRates), nowIso);
      existing + stamped
    else
      existing
  }

  /** Lines 66-100: decide, filter, stamp, append, and assemble the saved
      record and the returned status. */
  method ApplySnapshot(existing: seq<Observation>, newRates: seq<Quote>, bankLastUpdated: string, nowIso: string)
      returns (saved: SavedData, result: ScrapeResult)
    ensures saved == SavedData(bankLastUpdated, UpdatedRates(existing, newRates, nowIso))
    ensures result.success && result.numRates == |newRates| && result.scrapedAt == nowIso
    ensures result.ratesChanged == ShouldUpdate(existing, newRates)
    ensures result.ratesChanged ==>
              result.changedRates == StampAll(ChangedRates(LatestRates(existing), newRates), nowIso)
              && result.existingRates == existing
    ensures !result.ratesChanged ==> result.changedRates == [] && result.existingRates == []
  {
    var ratesChanged := ShouldUpdateRates(existing, newRates);
    var changedRates: seq<Observation> := [];
    var updatedRates: seq<Observation>;
    if ratesChanged {
      var changed := FilterChangedRates(existing, newRates);
      var i := 0;
      while i < |changed|
        invariant 0 <= i <= |changed|
        invariant |changedRates| == i
        invariant forall j :: 0 <= j < i ==> changedRates[j] == Observation(changed[j], nowIso)
      {
        changedRates := changedRates + [Observation(changed[i], nowIso)];
        i := i + 1;
      }
      updatedRates := existing + changedRates;
    } else {
      updatedRates := existing;
    }
    saved := SavedData(bankLastUpdated, updatedRates);
    result := ScrapeResult(
      true,
      ratesChanged,
      |newRates|,
      nowIso,
      if ratesChanged then changedRates else [],
      if ratesChanged then existing else []);
  }

  /** Lines 33-58 as one value: the feed's last-updated date (ISO text) and
      its rates, or the message of the first failing step (the page request,
      the key, the feed request, the date, the rates). */
  function FetchAndParse(
    htmlPage: Result<string>,
    fetchFeed: string -> Result<BnzParser.FeedDocument>,
    toFloat: string -> Result<real>,
    toIsoDate: string -> Result<string>): Result<(string, seq<Quote>)>
  {
    if htmlPage.Err? then Err(htmlPage.message)
    else
      var key := BnzExtractor.ExtractApiKey(htmlPage.value);
      if key.Err? then Err(key.message)
      else
        var feed := fetchFeed(key.value);
        if feed.Err? then Err(feed.message)
        else
          var date := BnzParser.DateText(feed.value.lastUpdated);
          if date.Err? then Err(date.message)
          else if toIsoDate(date.value).Err? then Err(toIsoDate(date.value).message)
          else
            var rates := BnzParser.CollectRates(feed.value.rates, toFloat);
            if rates.Err? then Err(rates.message)
            else if rates.value == [] then Err(BnzParser.NoRatesMessage)
            else Ok((toIsoDate(date.value).value, rates.value))
  }

  /** `scrape_bnz_rates`. On success the result carries the one record that
      is saved; on an earlier failure nothing is saved. */
  method ScrapeBnzRates(
    htmlPage: Result<string>,
    fetchFeed: string -> Result<BnzParser.FeedDocument>,
    toFloat: string -> Result<real>,
    toIsoDate: string -> Result<string>,
    stored: Option<seq<Observation>>,
    nowIso: string) returns (outcome: Result<(SavedData, ScrapeResult)>)
    ensures FetchAndParse(htmlPage, fetchFeed, toFloat, toIsoDate).Err? ==>
              outcome == Err(FetchAndParse(htmlPage, fetchFeed, toFloat, toIsoDate).message)
    ensures FetchAndParse(htmlPage, fetchFeed, toFloat, toIsoDate).Ok? ==>
              var (bankLastUpdated, newRates) := FetchAndParse(htmlPage, fetchFeed, toFloat, toIsoDate).value;
              var existing := if stored.Some? then stored.value else [];
              && outcome.Ok?
              && outcome.value.0 == SavedData(bankLastUpdated, UpdatedRates(existing, newRates, nowIso))
              && outcome.value.1.success
              && outcome.value.1.ratesChanged == ShouldUpdate(existing, newRates)
              && outcome.value.1.numRates == |newRates|
              && outcome.value.1.scrapedAt == nowIso
              && outcome.value.1.changedRates
                 == (if ShouldUpdate(existing, newRates)
                     then StampAll(ChangedRates(LatestRates(existing), newRates), nowIso) else [])
              && outcome.value.1.existingRates == (if ShouldUpdate(existing, newRates) then existing else [])
  {
    if htmlPage.Err? {
      return Err(htmlPage.message);
    }
    var apiKey := BnzExtractor.ExtractApiKey(htmlPage.value);
    if apiKey.Err? {
      return Err(apiKey.message);
    }
    var feed := fetchFeed(apiKey.value);
    if feed.Err? {
      return Err(feed.message);
    }
    var dateText := BnzParser.DateText(feed.value.lastUpdated);
    if dateText.Err? {
      return Err(dateText.message);
    }
    var bankLastUpdated := toIsoDate(dateText.value);
    if bankLastUpdated.Err? {
      return Err(bankLastUpdated.message);
    }
    var newRates := BnzParser.ParseRates(feed.value, toFloat);
    if newRates.Err? {
      return Err(newRates.message);
    }
    var existing := if stored.Some? then stored.value else [];
    var saved, result := ApplySnapshot(existing, newRates.value, bankLastUpdated.value, nowIso);
    return Ok((saved, result));
  }

  // ---------------------------------------------------------------------
  // Runs one after another

  /** When the snapshot (without repeated keys) still lists every recorded
      key, a second run with the same snapshot decides no update and leaves
      the history as it is. */
  lemma SecondRunChangesNothing(existing: seq<Observation>, s: seq<Quote>, nowIso: string, laterIso: string)
    requires UniqueKeys(s)
    requires forall k :: k in LatestRates(existing) ==> HasKey(s, k)
    ensures !ShouldUpdate(UpdatedRates(existing, s, nowIso), s)
    ensures UpdatedRates(UpdatedRates(existing, s, nowIso), s, laterIso) == UpdatedRates(existing, s, nowIso)
  {
    if ShouldUpdate(existing, s) {
      LatestAfterUpdate(existing, s, nowIso);
      UpdateIsNotEmpty(existing, s, nowIso);
    }
  }

  /** After an update the history's latest map is the snapshot's map, when
      the snapshot has no repeated keys and lists every recorded key. */
  lemma LatestAfterUpdate(existing: seq<Observation>, s: seq<Quote>, nowIso: string)
    requires UniqueKeys(s)
    requires forall k :: k in LatestRates(existing) ==> HasKey(s, k)
    requires ShouldUpdate(existing, s)
    ensures LatestRates(UpdatedRates(existing, s, nowIso)) == LastWins(s)
  {
    var c := ChangedRates(LatestRates(existing), s);
    UpdateAppendsChanged(existing, s, nowIso);
    RefilterAfterAppendIsEmpty(existing, s, nowIso);
    LatestAfterAppend(existing, c, nowIso);
    MapsAgreeAfterUpdate(existing, s, c, LatestRates(existing) + LastWins(c));
  }

  /** When an update is due, the changed entries are stamped and appended. */
  lemma UpdateAppendsChanged(existing: seq<Observation>, s: seq<Quote>, nowIso: string)
    requires ShouldUpdate(existing, s)
    ensures UpdatedRates(existing, s, nowIso) == existing + StampAll(ChangedRates(LatestRates(existing), s), nowIso)
  {
  }

  lemma MapsAgreeAfterUpdate(existing: seq<Observation>, s: seq<Quote>, c: seq<Quote>, m: map<Key, real>)
    requires UniqueKeys(s)
    requires forall k :: k in LatestRates(existing) ==> HasKey(s, k)
    requires c == ChangedRates(LatestRates(existing), s)
    requires m == LatestRates(existing) + LastWins(c)
    requires ChangedRates(m, s) == []
    ensures m == LastWins(s)
  {
    forall k ensures (k in m) == (k in LastWins(s)) && (k in m ==> m[k] == LastWins(s)[k]) {
      KeyAgreesAfterUpdate(existing, s, c, m, k);
    }
  }

  lemma KeyAgreesAfterUpdate(existing: seq<Observation>, s: seq<Quote>, c: seq<Quote>, m: map<Key, real>, k: Key)
    requires UniqueKeys(s)
    requires forall k :: k in LatestRates(existing) ==> HasKey(s, k)
    requires c == ChangedRates(LatestRates(existing), s)
    requires m == LatestRates(existing) + LastWins(c)
    requires ChangedRates(m, s) == []
    ensures (k in m) == (k in LastWins(s)) && (k in m ==> m[k] == LastWins(s)[k])
  {
    LastWinsDomain(s, k);
    if HasKey(s, k) {
      var i :| 0 <= i < |s| && s[i].Key() == k;
      NothingChangedConverse(m, s, i);
      LastWinsUnique(s, i);
    } else if k in LastWins(c) {
      var a := LastOfKeyExists(c, k);
      ChangedMembership(LatestRates(existing), s, c[a]);
    }
  }

  /** An update always leaves a non-empty history. */
  lemma UpdateIsNotEmpty(existing: seq<Observation>, s: seq<Quote>, nowIso: string)
    requires ShouldUpdate(existing, s)
    ensures UpdatedRates(existing, s, nowIso) != []
  {
    if existing == [] {
      ChangedAgainstEmptyHistory(s);
      assert |StampAll(ChangedRates(LatestRates(existing), s), nowIso)| == |s|;
    }
  }

  /** An entry of the snapshot passes no test against a map that the
      filter comes back empty for. */
  lemma NothingChangedConverse(latest: map<Key, real>, s: seq<Quote>, i: int)
    requires ChangedRates(latest, s) == [] && 0 <= i < |s|
    ensures !IsChanged(latest, s[i])
  {
    ChangedMembership(latest, s, s[i]);
  }

  /** A product that disappears from the feed is never recorded as removed:
      every later run with a snapshot that still lacks it decides an update
      again. */
  lemma RemovalIsNeverRecorded(existing: seq<Observation>, s: seq<Quote>, nowIso: string, i: int)
    requires 0 <= i < |existing|
    requires forall j :: 0 <= j < |s| ==> s[j].Key() != existing[i].Key()
    ensures ShouldUpdate(UpdatedRates(existing, s, nowIso), s)
  {
    var after := UpdatedRates(existing, s, nowIso);
    assert after[i] == existing[i] by {
      assert after[..|existing|][i] == existing[i];
    }
    RemovedKeyDetected(after, s, i);
  }

  /** A removal-only change leaves the history untouched, so the next run
      faces exactly the same decision. */
  lemma RemovalOnlyRunKeepsHistory(existing: seq<Observation>, s: seq<Quote>, nowIso: string, i: int)
    requires 0 <= i < |existing|
    requires forall j :: 0 <= j < |s| ==> s[j].Key() != existing[i].Key()
    requires forall j :: 0 <= j < |s| ==> !IsChanged(LatestRates(existing), s[j])
    ensures ShouldUpdate(existing, s)
    ensures UpdatedRates(existing, s, nowIso) == existing
  {
    RemovalOnlyChange(existing, s, i);
    assert StampAll([], nowIso) == [];
  }
}
