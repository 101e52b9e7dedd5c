# kiwi_rates in Dafny

kiwi_rates tracks the mortgage rates that New Zealand banks publish. One
scraping run does the following:

- fetches the BNZ rates page;
- extracts the API key from the page;
- fetches and reads the XML rate feed;
- decides whether the rates changed against the stored history;
- appends only the new or changed entries, each stamped with the run's
  time, to that history.

The history is append-only. Each entry carries a product name, a term, a
rate and its `scraped_at` time. From the stored histories an HTML page
shows each bank's latest rates. A push notification lists what changed.

This project models that core and proves properties of it:

- `common.dfy` (`Common`): `Option`/`Result`, Python's `str.isspace` and
  `str.strip`.
- `order.dfy` (`Order`): Python's `<` on strings and on pairs of strings
  (lexicographic by code point), and `sorted` as an insertion sort with
  its ordering and permutation properties.
- `rates.dfy` (`Rates`): the entries and the "latest rate per (product,
  term)" dictionary that several loops build with `latest[key] = rate`
  (`LastWins`).
- `storage.dfy` (`Storage`): `should_update_rates` and
  `filter_changed_rates`, as loops proved against specification
  functions, and what the decision and the filter mean key by key.
- `bnz_parser.dfy` (`BnzParser`): `parse_rates` over an already parsed
  feed (a loop) and the day-name removal of `parse_last_updated`.
- `bnz_extractor.dfy` (`BnzExtractor`): `extract_api_key` as an explicit
  leftmost scanner for its regular expression, proved equal to the
  pattern's meaning.
- `bnz_scraper.dfy` (`BnzScraper`): one run of `scrape_bnz_rates`:
  - the order of its steps and its failure points;
  - the merge of a snapshot into the history (a loop stamping the changed
    entries);
  - the saved record and the returned status;
  - what two runs in a row do.
- `html_generator.dfy` (`HtmlGenerator`):
  - `extract_latest_rates`: a dictionary filled in a loop, with its
    insertion order;
  - the bank name taken from a file name;
  - the `bank_rates` dictionary of `generate_html`;
  - the page of `generate_html_content` as a sequence of blocks.
- `notifier.dfy` (`Notifier`): the title and body of
  `format_notification`.

The network, the data files, the clock, ElementTree, `float()` and
`strptime` do not appear as code. They enter as parameters instead:

- a fetched page is a `Result<string>`;
- the feed request is a function from API key to `Result<FeedDocument>`;
- the number and date conversions are functions returning `Result`: the
  value, or the message of the `ValueError` the library raises;
- the stored history is an `Option` (`None` for a missing file);
- the current time is an ISO string.

The saved record is part of a run's result. Rates are `real` values, and
the model only compares them for equality, as the source does.

## Model

| member | source | states |
|---|---|---|
| Common.Strip | src/bnz/parser.py:24 | `str.strip()`: the result is the input without a whitespace prefix and suffix. It has no whitespace at either end, and is empty iff the input is all whitespace. |
| Order.Sort | src/html_generator.py:61-64 | `sorted(...)`: the result is ascending under the given strict order and is a permutation of the input. |
| Rates.LastWinsDomain | src/storage.py:60-64 | The keys of the map built with `latest[key] = rate` are exactly the keys in the list. |
| Rates.LastWinsValue | src/storage.py:60-64 | Each key maps to the rate of the last entry with that key. |
| Rates.LastWinsAppend | src/storage.py:60-64 | The map built over `a + b` is the map of `a` overridden by the map of `b`. |
| Storage.ShouldUpdateRates | src/storage.py:41-73 | The loops return `ShouldUpdate`: with no history, whether the snapshot is non-empty; otherwise whether the history's last-wins map differs from the snapshot's map. |
| Storage.FilterChangedRates | src/storage.py:76-104 | The loops return the snapshot entries whose key is not in the history's latest map or whose rate differs from it, in snapshot order. |
| Storage.ShouldUpdateMeaning | src/storage.py:59-73 | With a non-empty history, an update is due iff some key is in only one of history and snapshot, or has different latest rates in them. |
| Storage.ShouldUpdateFromEmpty | src/storage.py:56-57 | With an empty history, an update is due iff the snapshot is non-empty. |
| Storage.ChangedRateDetected | src/storage.py:73 | A key whose last snapshot rate differs from its latest recorded rate triggers an update. |
| Storage.AddedKeyDetected | src/storage.py:73 | A snapshot key that the history never had triggers an update. |
| Storage.RemovedKeyDetected | src/storage.py:73 | A recorded key absent from the snapshot triggers an update. |
| Storage.SnapshotOrderIrrelevant | src/storage.py:66-73 | For snapshots without repeated keys, two snapshots with the same entries in any order get the same decision. |
| Storage.DuplicateKeysEdge | src/storage.py:67-102 | With a repeated key in one snapshot whose last occurrence matches the record, no update is decided, yet the filter returns the earlier occurrence. |
| Storage.ChangedPositions | src/storage.py:97-104 | The filter output is the subsequence of snapshot positions that pass the test: positions increase, and a position is kept iff it passes. |
| Storage.ChangedMembership | src/storage.py:99-102 | An entry is in the output iff it is in the snapshot and its key is new or its rate differs. |
| Storage.ChangedAgainstEmptyHistory | src/storage.py:92-104 | Against an empty history the whole snapshot comes back unchanged. |
| Storage.NothingChanged | src/storage.py:97-104 | When no entry passes the test the output is empty. |
| Storage.RemovalOnlyChange | src/storage.py:73-101 | A removal-only change decides an update but passes nothing through the filter. |
| Storage.RefilterAfterAppendIsEmpty | src/storage.py:92-104 | For a snapshot without repeated keys, filtering it again against the history with the stamped changed entries appended yields nothing. |
| BnzParser.ParseRates | src/bnz/parser.py:50-69 | The loop's outcome: the first `float()` error if one occurs. Otherwise `ValueError` with the "No rates found" message when no record was collected, or the collected records. |
| BnzParser.CollectErrorPersists | src/bnz/parser.py:63 | A conversion error raised at some element is the outcome of the whole loop. |
| BnzParser.CollectedRecords | src/bnz/parser.py:53-64 | When every number converts, there is one record per usable element, in element order. Each record has the stripped label, the stripped term and the converted stripped interest. |
| BnzParser.NoRatesIffNoUsableElement | src/bnz/parser.py:58-67 | When every number converts, the "No rates found" error occurs exactly when no element has all three children with non-empty text. |
| BnzParser.BlankLabelKept | src/bnz/parser.py:59-61 | A whitespace-only label passes the unstripped text test and becomes an empty product name. |
| BnzParser.SplitOnce | src/bnz/parser.py:26 | `split(", ", 1)` yields one part equal to the input, or two parts that rebuild the input around the separator. |
| BnzParser.DateText | src/bnz/parser.py:20-21 | "No lastupdated element found" is raised exactly when the element or its text is missing. |
| BnzParser.DateTextMeaning | src/bnz/parser.py:24-28 | The date text is the stripped text after its first ", " when there is one, else the whole stripped text. |
| BnzExtractor.MatchAtCorrect | src/bnz/extractor.py:21 | At a start position, the scanner finds a group exactly when the pattern matches there with that group: `apiKey`, whitespace, `:`, whitespace, a quote, non-quote characters, a quote. |
| BnzExtractor.SearchFrom | src/bnz/extractor.py:23 | `re.search`: the returned start matches, and no earlier start does; `None` means no start matches. |
| BnzExtractor.ExtractApiKey | src/bnz/extractor.py:21-28 | The key is non-empty, has no quote, and is a substring of the page. The only error is "API key not found in HTML". |
| BnzExtractor.ExtractApiKeyIsLeftmostMatch | src/bnz/extractor.py:21-26 | The key is the group of the leftmost match. The error occurs exactly when the pattern matches nowhere. |
| BnzExtractor.MixedQuotesMatch | src/bnz/extractor.py:21 | A `"` may be closed by a `'`. |
| BnzExtractor.SpacesAroundColonMatch | src/bnz/extractor.py:21 | Spaces, a newline and a tab around the colon are accepted. |
| BnzScraper.UpdatedRates | src/bnz/scraper.py:70-82 | The new history keeps the old one as a prefix. Every appended entry carries `now_iso`. The appended quotes are the filter's result when an update is due, and nothing otherwise. |
| BnzScraper.ApplySnapshot | src/bnz/scraper.py:66-100 | The saved record is exactly `bank_last_updated` and the updated history. The status carries success, the decision, the snapshot length and `now_iso`. Its changed and existing lists are the stamped changes and the prior history when rates changed, and empty otherwise. |
| BnzScraper.ScrapeBnzRates | src/bnz/scraper.py:33-100 | A failure of the page fetch, key extraction, feed fetch, date or rates parsing is the outcome, and nothing is saved. Otherwise the one saved record is the merge of the snapshot into the stored history (empty when there is no file). The returned status is complete: success, the update decision, the snapshot size, the run's time, and the stamped changed entries with the old history when an update is due, or two empty lists when it is not. |
| BnzScraper.SecondRunChangesNothing | src/bnz/scraper.py:68-82 | Assume the snapshot has no repeated keys and lists every recorded key. A second run with the same snapshot then decides no update and leaves the history unchanged. |
| BnzScraper.RemovalIsNeverRecorded | src/bnz/scraper.py:68-82 | After a run whose snapshot lacks a recorded key, every later run with that snapshot again decides an update. |
| BnzScraper.RemovalOnlyRunKeepsHistory | src/bnz/scraper.py:68-82 | A removal-only run reports `rates_changed` yet leaves the history exactly as it was. |
| HtmlGenerator.ExtractLatestRates | src/html_generator.py:20-37 | The loop over the dictionary and its insertion order returns `LatestOf` of the `rates` field. A missing or empty field gives `[]`. |
| HtmlGenerator.LatestOfKeys | src/html_generator.py:26-37 | The result has exactly one entry per distinct (product, term) key of the input. |
| HtmlGenerator.LatestOfEmpty | src/html_generator.py:20-23 | The result is empty iff the input is empty. |
| HtmlGenerator.ChosenUnique | src/html_generator.py:30-35 | At most one entry per key has a greatest `scraped_at` and is the first with it. |
| HtmlGenerator.LatestOfChosen | src/html_generator.py:30-35 | Each result entry is an unmodified input entry. No later entry with its key has a greater `scraped_at`, and every earlier one has a smaller one: the maximum under string comparison, earliest on ties. |
| HtmlGenerator.ChosenIsLastWhenStampsIncrease | src/html_generator.py:30-35 | When each key's timestamps increase along the history, the entry kept is the last one with its key. |
| HtmlGenerator.EqualStampsKeepFirst | src/html_generator.py:34 | Of two entries with one key and equal `scraped_at`, the first is kept, not the later one by position. |
| HtmlGenerator.LatestOfFirstAppearance | src/html_generator.py:26-37 | The result lists the keys in the order of their first appearance in the input. |
| HtmlGenerator.UpperAscii | src/html_generator.py:56 | `.upper()`: each lower-case ASCII letter becomes its capital (looked up in the alphabet), and every other character is kept. |
| HtmlGenerator.RemoveRatesSuffix | src/html_generator.py:56 | For a stem `<bank>_rates` without `_` in `<bank>`, `.replace("_rates", "")` leaves `<bank>`. |
| HtmlGenerator.BankNameOfPlainStem | src/html_generator.py:56 | The bank name of such a stem is `<bank>` upper-cased. |
| HtmlGenerator.BnzBankName | src/html_generator.py:55-56 | `bnz_rates` gives `BNZ`. |
| HtmlGenerator.SortRows | src/html_generator.py:61-64 | A bank's rows are ascending by (product, term) and are a permutation of its latest rates. |
| HtmlGenerator.GenerateHtml | src/html_generator.py:49-67 | The loop over the data files builds `BankRates` of the files, and the page is generated from it. |
| HtmlGenerator.BankRatesSources | src/html_generator.py:54-64 | Banks appear once per name, and only for files with latest rates. Each bank's rows are the sorted latest rates of the last file with that name and rates. Every file with rates has its bank listed. |
| HtmlGenerator.AppendRows | src/html_generator.py:171-184 | The inner loop appends one row per rate, in order. The date is reformatted, or kept as is when it cannot be read. |
| HtmlGenerator.AppendSections | src/html_generator.py:155-189 | The page grows by one section per bank, in the given order: the bank's heading, its rows, and the closing of its table. |
| HtmlGenerator.GenerateHtmlContent | src/html_generator.py:151-193 | The page is the header, then the "no data" notice or each bank's section in name order, then the footer. |
| HtmlGenerator.SortBanks | src/html_generator.py:155 | `sorted(bank_rates.items())`: ascending by bank name, a permutation of the items. |
| HtmlGenerator.SortRowsDetermined | src/html_generator.py:61-64 | Rows with distinct (product, term) keys have exactly one ascending arrangement, so the rows `sorted` yields do not depend on tie-breaking. |
| HtmlGenerator.SortBanksDetermined | src/html_generator.py:155 | Banks with distinct names have exactly one ascending arrangement, so the section order does not depend on tie-breaking. |
| Order.SortedUnique | src/html_generator.py:61-64 | Two ascending permutations of the same elements are equal when any two different elements are ordered one way. |
| HtmlGenerator.NoDataIffNoBanks | src/html_generator.py:151-153 | The "No rate data available" notice appears exactly when there are no banks. |
| HtmlGenerator.PageBankOrder | src/html_generator.py:155 | The page opens one section per bank, covering exactly the bank names, in ascending name order. |
| Notifier.NatToStringRoundTrip | src/notifier.py:27-28 | The count in the title reads back as the number of changed rates. |
| Notifier.FormatNotification | src/notifier.py:13-41 | The title is the pluralised count ("rate" only for 1). The body is the lines of the changed rates in order, joined by "\n", each old rate looked up in the last-wins map of the existing entries. |
| Notifier.SplitJoinRoundTrip | src/notifier.py:40 | Splitting the joined lines at "\n" gives them back when there is at least one line and none contains a newline. |
| Notifier.LineShowsLastExistingRate | src/notifier.py:20-38 | A line shows "old% -> new%" with the old rate of the last existing entry with the key. It shows "new% (new)" when no existing entry has the key. |
| Notifier.BodyHasOneLinePerRate | src/notifier.py:30-40 | The body holds exactly one line per changed rate, in order, when names, terms and rendered rates have no newline. No changes give an empty body. |
| Notifier.TitleWording | src/notifier.py:27-28 | The title reads "1 rate changed" for exactly one change, and "<count> rates changed" for any other count, zero included. |

## Left out

- The network client (`src/http.py`, `fetch_with_retry` with its retries and sleeps): each request is a parameter whose outcome is given.
- `load_rates` and `save_rates` (src/storage.py:6-38): the stored history is an input and the saved record an output. A corrupt JSON file, and a file without a `rates` field (a `KeyError` in `scrape_bnz_rates`), are not modelled.
- `src/scraper.py`, the HTTP headers and URLs, and `datetime.now` with its time zone: the current time enters as the ISO string `nowIso`.
- XML parsing: the feed arrives as the elements `parse_rates` and `parse_last_updated` look at.
- `float()` and `strptime("%d %B %Y")` with `.isoformat()` are parameters returning `Result`. Which texts they accept, and the wording of their error messages, are the library's and are not modelled; the model passes each message on unchanged.
- BnzScraper.ApplySnapshot: stamps copies of the changed entries. The source assigns `scraped_at` inside the dicts it shares with `new_rates`, which is not observable afterwards except through `len(new_rates)`.
- Rates are `real` and only compared for equality. NaN, for which Python's `!=` and dictionary comparison behave differently, is not modelled. A `rate_percentage` of `None` in a stored entry (which `format_notification` would treat as missing) is not modelled.
- HtmlGenerator.UpperAscii: upper-cases ASCII letters only. Python's `str.upper` also maps other letters, some to several characters.
- HtmlGenerator.RemoveRatesSuffix: covers stems whose bank part has no `_`. A single pass of `replace` can leave a new `_rates` behind (e.g. in `_ra_ratestes`); no lemma states that.
- The glob and the path sort at src/html_generator.py:49 are not modelled: `GenerateHtml` takes the files, in that order, as input.
- The HTML and CSS text of the template, `.2f` formatting of rates and the `Last updated:` time: the page is a sequence of blocks standing for them. `fromisoformat(...).strftime("%Y-%m-%d")` is the parameter `formatDate`, with `None` for the cases the bare `except` catches.
- Order.Sort: an insertion sort that is ascending and a permutation, but not stable: elements that tie come out in reverse order, where Python's `sorted` keeps them in input order. At the two call sites nothing ties: rows have distinct keys (`HtmlGenerator.LatestOfKeys`) and banks distinct names (`HtmlGenerator.BankRatesSources`), so the order is determined (`HtmlGenerator.SortRowsDetermined`, `HtmlGenerator.SortBanksDetermined`).
- Notifier transport and environment (`get_ntfy_topic`, `send_notification`, `notify_rate_changes`): outside the message text. The float rendering in the f-strings is the parameter `show`.
- Behaviour that the HTML generator's tests expect but `src/html_generator.py` does not implement is not modelled:
  - rate changes, "recent change" and "new product" flags;
  - days since first appearance and the "Last rate change:" header;
  - a two-argument `generate_html_content`;
  - failure on malformed dates.

  The source picks the latest entry by string comparison of `scraped_at` (src/html_generator.py:34), and that is what is modelled.
- The latest entry per key is picked by comparing `scraped_at` strings, keeping the first of equal ones (src/html_generator.py:30-35), and that is what is modelled. The comment at src/html_generator.py:29 also names the alternative of assuming chronological order. tests/test_html_generator.py:49-54 expects the latest entry by position, carrying a `rate_change`; `rate_change` is not produced by the source and is not modelled. `HtmlGenerator.ChosenIsLastWhenStampsIncrease` shows that the string comparison and the last-by-position reading agree when timestamps increase along the history. `HtmlGenerator.EqualStampsKeepFirst` shows where they part.
- The removed-product behaviour is modelled as written, not treated as a defect. A product that leaves the feed is never recorded as removed, so every later run reports `rates_changed` with nothing appended (`BnzScraper.RemovalIsNeverRecorded`). The docstring at src/storage.py:45-47 says that added or removed products trigger an update; nothing in the source records a removal.
