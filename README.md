# Domain list extractor and batch fetcher, modelled in Dafny

The repository has two scripts that share one file.

- `clean_urls.py` is the **domain extractor**. It reads a table of news
  feeds. From each feed URL it takes the `q` query value and matches the
  pattern `site:(?:https?://)?(?:www\.)?([^/\s\+]+)` against it. It then
  writes the distinct domains it found, sorted, one per line, to
  `cleaned_domains.txt`.
- `domain_analyzer.py` is the **batch fetcher**. It reads such a file and
  takes the domains in order. For each domain it picks an API key by the
  "45 / 45 / rest" rotation rule and asks the analytics API for a document,
  trying up to 20 times with 2-second pauses. It saves a truthy document and
  skips anything else. It waits 30 seconds before the next domain.

The model is written in the scripts' own terms.

- The network becomes an outcome oracle. Attempt `k` for the domain at
  position `i` answers `oracle(i)(k)`: a response with a status and a JSON
  body, or a transport error.
- Sleeping, creating the `jsons` directory and saving a document become
  events in a trace.
- Reading a file becomes a function from path to optional text.
- `urlparse` followed by `parse_qs` becomes a parameter: a function from
  URL to an optional map of query values. Nothing means that parsing raised.

Files (one module each):

| file | module | what it holds |
|---|---|---|
| `wrappers.dfy` | `Wrappers` | `Option` and `Result` |
| `pystr.dfy` | `PyStr` | Python's `str.isspace`, `strip`, `rstrip(c)` and text-mode line splitting |
| `key_rotation.dfy` | `KeyRotation` | `select_api_key_for_request` and the logged key segment |
| `retry.dfy` | `Retry` | JSON values and truthiness, attempt outcomes, trace events, `make_request_with_retry` |
| `domain_analyzer.dfy` | `DomainAnalyzer` | `read_domains`, the per-domain loop and `main` |
| `site_pattern.dfy` | `SitePattern` | the `site:` pattern as a leftmost, greedy, backtracking matcher |
| `sorting.dfy` | `Sorting` | Python's order on `str`, `sorted()` and `unique()` |
| `clean_urls.dfy` | `CleanUrls` | `extract_domain_from_url_feed`, the domain list and the file it writes |
| `handoff.dfy` | `Handoff` | reading the written file back gives the list that was written |

Two consequences of the pattern's code, which the model states:

- `[^/\s\+]+` is greedy and nothing follows it in the pattern, so the
  capture is the longest run up to the end of the text, `/`, whitespace or
  `+` (`SitePattern.CaptureIsMaximal`).
- A domain can still start with `www.`. At most one `www.` is skipped, and
  only when a run follows it: `site:www.www.x` gives `www.x` and
  `site:www./` gives `www.` (`SitePattern.ExampleDoubleWww`,
  `SitePattern.ExampleBareWww`). A scheme is kept in the same way when no
  run follows it: `site:https:///x` gives `https:`
  (`SitePattern.ExampleSchemeBackedOff`).

## Model

| member | source | states |
|---|---|---|
| `KeyRotation.SelectApiKey` | domain_analyzer.py:27-39 | An empty pool fails with `NoApiKeys`. A non-negative index on a non-empty pool always gives a key, and that key is one of the first three |
| `KeyRotation.KeySegment` | domain_analyzer.py:112 | The logged segment is always 1, 2 or 3 |
| `KeyRotation.EmptyPoolRaises` | domain_analyzer.py:29-30 | With no keys, every request index raises |
| `KeyRotation.ThreeKeysFollowSegment` | domain_analyzer.py:35-39 | With three or more keys: index < 45 gives `keys[0]`, 45 to 89 gives `keys[1]`, 90 and over gives `keys[2]`. The chosen position is always the logged segment (line 112) minus one |
| `KeyRotation.LaterKeysIgnored` | domain_analyzer.py:35-39 | Keys after the third never change the choice |
| `KeyRotation.SmallPoolFallsBackToLast` | domain_analyzer.py:31-33 | With one or two keys the choice is `keys[min(i, len-1)]`, so the last key serves every index from `len-1` on |
| `KeyRotation.SingleKeyAlways` | domain_analyzer.py:31-33 | A single key serves every request |
| `KeyRotation.NegativeIndex` | domain_analyzer.py:31-39 | A negative index with one or two keys counts from the end of the pool (`keys[len + i]`), and raises `IndexError` below `-len`. With three or more keys a negative index takes the first key |
| `Retry.FirstSuccess` | domain_analyzer.py:54-61 | Gives the first attempt in range that answers 200: none before it did. When there is none, no attempt in range answered 200 |
| `Retry.MakeRequestWithRetry` | domain_analyzer.py:41-72 | The retry loop returns exactly the data and trace of the specification `Fetch` (first 200 body or nothing; attempts with 2-second sleeps between them) |
| `Retry.TriesShape` | domain_analyzer.py:54-69 | m attempts give a trace of 2m-1 events. Attempt j is at position 2j and a 2-second sleep sits between consecutive attempts |
| `Retry.TriesCounts` | domain_analyzer.py:54-69 | m attempts are numbered 0 to m-1 in order, with m-1 sleeps of 2 s (none when m = 0) |
| `Retry.TriesEvents` | domain_analyzer.py:54-69 | A fetch trace holds only attempts at this domain with this key, plus 2-second sleeps |
| `Retry.FirstSuccessReturnsBody` | domain_analyzer.py:54-61 | If attempt k is the first to answer 200, the call returns its body after attempts 0..k |
| `Retry.FirstSuccessCounts` | domain_analyzer.py:54-69 | In that case there are k+1 attempts and exactly k sleeps of 2 s |
| `Retry.AllFailuresReturnNothing` | domain_analyzer.py:54-72 | If every attempt fails (non-200 or transport error), the result is nothing and the trace is exactly `max_retries` attempts. With `max_retries` <= 0 nothing is attempted |
| `Retry.AllFailuresCounts` | domain_analyzer.py:54-72 | In that case the attempts are numbered 0 to `max_retries`-1, with `max_retries`-1 sleeps |
| `Retry.TriesSleepBetween` | domain_analyzer.py:68-69 | A non-empty fetch trace ends with an attempt, and every sleep is followed by an attempt |
| `Retry.NoSleepAfterLastAttempt` | domain_analyzer.py:68-69 | The same holds of every trace the call produces: no sleep after the final attempt |
| `PyStr.StripLeftMeaning` | domain_analyzer.py:21 | `lstrip` keeps the suffix from the first non-whitespace character on, and drops only whitespace |
| `PyStr.StripRightMeaning` | domain_analyzer.py:21 | `rstrip` keeps the prefix up to the last non-whitespace character, and drops only whitespace |
| `PyStr.StripMeaning` | domain_analyzer.py:21 | `strip` gives a slice of its input with no whitespace at either end and only whitespace outside it. It is empty exactly when the line is all whitespace |
| `PyStr.StripIdempotent` | domain_analyzer.py:21 | Stripping twice is stripping once |
| `PyStr.StripUnchanged` | domain_analyzer.py:21 | A string with no whitespace at its ends is its own strip |
| `PyStr.RStripCharMeaning` | clean_urls.py:26 | `rstrip('/')` removes exactly the trailing run of `/` and keeps the rest as a prefix |
| `PyStr.LinesHaveNoBreaks` | domain_analyzer.py:21 | The lines a text-mode file yields contain no line break |
| `PyStr.LinesOfLine` | domain_analyzer.py:21 | A line followed by a newline is the first line read |
| `DomainAnalyzer.KeepNonBlank` | domain_analyzer.py:21 | The filter never returns more lines than it is given |
| `DomainAnalyzer.KeepNonBlankClean` | domain_analyzer.py:21 | Every returned domain is non-empty and already stripped |
| `DomainAnalyzer.KeepNonBlankAppend` | domain_analyzer.py:21 | The filter keeps the order of the lines: it works line by line |
| `DomainAnalyzer.KeepNonBlankLine` | domain_analyzer.py:21 | One line is dropped exactly when its strip is empty, and otherwise kept stripped |
| `DomainAnalyzer.KeepNonBlankKeepsStripped` | domain_analyzer.py:21 | Lines that are non-empty and already stripped come back unchanged |
| `DomainAnalyzer.ProcessDomains` | domain_analyzer.py:107-127 | The loop crashes, before any request, exactly when there are domains and no keys. Otherwise its trace is the specification `Steps` of all domains |
| `DomainAnalyzer.RunAnalyzer` | domain_analyzer.py:85-129 | A wrong argument count gives exit 1 and an empty trace: no directory and no request. A missing file or an empty domain list gives exit 1 after the directory is created and before any request. So does an empty key pool, which raises on the first domain. Otherwise the exit is 0 and the trace is directory creation followed by `Steps` of all domains |
| `DomainAnalyzer.RunsAreFetches` | domain_analyzer.py:111-116 | The fetch for domain i is `make_request_with_retry` with the key selected for index i. It holds only attempts and 2-second sleeps |
| `DomainAnalyzer.StepVerdict` | domain_analyzer.py:118-122 | Each domain gets exactly one verdict, a save or a skip, on that domain |
| `DomainAnalyzer.StepSavesIffTruthy` | domain_analyzer.py:118-122 | A domain's step saves the fetched document exactly when the fetch returned a truthy document. An empty object, an empty list or no data is skipped |
| `DomainAnalyzer.StepsInOrder` | domain_analyzer.py:107 | The verdicts of the first m steps are the first m domains, in list order |
| `DomainAnalyzer.StepUsesSelectedKey` | domain_analyzer.py:111-116 | Every request for domain i names that domain and uses `select_api_key_for_request(i, keys)` |
| `DomainAnalyzer.StepsDomainSleeps` | domain_analyzer.py:124-127 | A whole run holds exactly `len(domains)-1` waits of 30 s: one after each domain but the last |
| `DomainAnalyzer.StepsEndWithLastVerdict` | domain_analyzer.py:124-127 | A run ends with the verdict on the last domain, with no wait after it |
| `DomainAnalyzer.TwoDomainScenario` | domain_analyzer.py:107-127 | Scenario: "a.com" answers 200 with a truthy body and "b.com" always answers 500. The trace is one attempt, the save and a 30 s wait, then 20 attempts at "b.com" with 2 s sleeps between them, then the skip |
| `SitePattern.RunEnd` | clean_urls.py:21 | `[^/\s\+]+` is greedy: the run ends at the end of the text or at `/`, whitespace or `+`, and every character before that is in the class |
| `SitePattern.AfterWwwMeaning` | clean_urls.py:21 | `(?:www\.)?([^/\s\+]+)` at j matches exactly when a class character is at j. It skips `www.` exactly when a non-empty run is left after it |
| `SitePattern.SchemeEndMeaning` | clean_urls.py:21 | `https?://` at i gives the end of `https://` exactly when that occurs there, and the end of `http://` exactly when that occurs. The two never both occur, and otherwise nothing is found |
| `SitePattern.AfterSiteMeaning` | clean_urls.py:21 | After `site:` the pattern matches exactly when one of the six prefixes (`""`, `www.`, `http://`, `http://www.`, `https://`, `https://www.`) occurs and leaves a non-empty run. It then skips the longest such prefix, which is the order the regex tries them in |
| `SitePattern.MatchAtMeaning` | clean_urls.py:21 | The pattern anchored at p matches exactly when `site:` is at p and some prefix after it leaves a non-empty run. The prefix skipped is one that does, and no longer one does |
| `SitePattern.FirstFrom` | clean_urls.py:21 | The first position from p up to n where a match is found, and no match before it. When there is none, no position in range matches |
| `SitePattern.SearchFrom` | clean_urls.py:21 | `re.search` is leftmost: the position returned matches and none before it does. When none is returned, no position matches |
| `SitePattern.SearchMeaning` | clean_urls.py:21 | `re.search` finds a match exactly when some `site:` in the text is followed by one of the six prefixes and a non-empty run |
| `SitePattern.CapturedIsRun` | clean_urls.py:21 | A capture is non-empty and contains no `/`, whitespace or `+` |
| `SitePattern.CaptureIsMaximal` | clean_urls.py:21 | In `q` the capture is preceded by `site:` and a skipped prefix, and followed by the end of `q`, `/`, whitespace or `+` |
| `SitePattern.NoSiteNoMatch` | clean_urls.py:21 | A `q` without `site:` has no match and no capture |
| `SitePattern.StopAfterSiteFails` | clean_urls.py:21 | A `site:` followed by the end, `/`, whitespace or `+` does not match, so the search passes over it to a later occurrence |
| `SitePattern.SchemeBackedOff` | clean_urls.py:21 | At the first `site:`, a scheme followed by the end, `/`, whitespace or `+` is not skipped. The regex backs off, and the capture is the scheme up to its `:` |
| `SitePattern.CanonicalCapture` | clean_urls.py:21 | `pre + "site:" + scheme + www + d + rest` captures exactly `d`. Conditions: this is the first `site:`, scheme is empty, `http://` or `https://`, www is empty or `www.`, d is a run of class characters, and rest starts with a character that ends the run |
| `SitePattern.ExampleFullUrl` | clean_urls.py:21 | `site:https://www.example.com/x` gives `example.com` |
| `SitePattern.ExampleBareWww` | clean_urls.py:21 | `site:www./` gives `www.`: the prefix is kept when no run would follow it |
| `SitePattern.ExampleDoubleWww` | clean_urls.py:21 | `site:www.www.x` gives `www.x`: only one `www.` is skipped |
| `SitePattern.ExampleSchemeBackedOff` | clean_urls.py:21 | `site:https:///x` gives `https:` |
| `Sorting.BelowIrreflexive` | clean_urls.py:59 | No string is below itself under Python's `<` on `str` |
| `Sorting.BelowTransitive` | clean_urls.py:59 | Python's `<` on `str` is transitive |
| `Sorting.BelowTotal` | clean_urls.py:59 | Any two different strings are ordered one way or the other |
| `Sorting.Insert` | clean_urls.py:59 | Inserting into a sorted list keeps it sorted and adds exactly that string |
| `Sorting.Sort` | clean_urls.py:59 | `sorted()` returns an ascending permutation of its input |
| `Sorting.Unique` | clean_urls.py:56 | `unique()` returns a list without repeats holding exactly the strings of its input |
| `Sorting.SortKeepsDistinct` | clean_urls.py:56-59 | Sorting a list without repeats keeps it without repeats |
| `Sorting.SortedDistinctAscending` | clean_urls.py:56-59 | Sorted and without repeats means strictly ascending |
| `Sorting.AscendingUnique` | clean_urls.py:56-59 | Two strictly ascending lists that hold the same strings are equal |
| `CleanUrls.ExtractDomain` | clean_urls.py:7-33 | A missing or empty cell gives nothing. Any result is non-empty and has no `/`, whitespace or `+` |
| `CleanUrls.ExtractWithoutQuery` | clean_urls.py:18-29 | A URL whose query has no `q` parameter is searched as `''` and gives nothing |
| `CleanUrls.ExtractFirstQuery` | clean_urls.py:18-27 | With `q` values, the result is the capture of the first one |
| `CleanUrls.ExtractEmptyQuery` | clean_urls.py:18-33 | An empty list of `q` values makes `[0]` raise. The exception is caught, and the result is nothing |
| `CleanUrls.NoSlashUnchanged` | clean_urls.py:26 | `rstrip('/')` leaves a capture as it is |
| `CleanUrls.ExtractIsCapture` | clean_urls.py:14-29 | For a URL that parses, the result is exactly the pattern's capture on the `q` value |
| `CleanUrls.ExtractOnParseError` | clean_urls.py:31-33 | A URL whose parsing raises gives nothing: the exception does not propagate |
| `CleanUrls.ExtractWithoutSite` | clean_urls.py:21-29 | A `q` value without `site:` gives nothing |
| `CleanUrls.CleanColumn` | clean_urls.py:43 | The new column has one entry per row: that row's extraction result |
| `CleanUrls.Present` | clean_urls.py:50 | The found domains are exactly the non-missing entries of the column |
| `CleanUrls.DomainListMeaning` | clean_urls.py:50-60 | The written list is strictly ascending, so sorted and without repeats. As a set it equals the non-missing extraction results |
| `CleanUrls.DomainListOrderFree` | clean_urls.py:50-60 | Tables with the same rows, in any order and with any repeats, give the same list |
| `CleanUrls.DomainListAreRuns` | clean_urls.py:21-56 | Every listed domain is a non-empty string without `/`, whitespace or `+` |
| `CleanUrls.JoinLinesSnoc` | clean_urls.py:59-60 | Writing one more domain appends its line to the file text |
| `CleanUrls.RunCleaner` | clean_urls.py:35-72 | An unreadable table writes no file. Otherwise the file text is each listed domain followed by a newline, and the reported count is the number of unique domains |
| `CleanUrls.CountIsLines` | clean_urls.py:56-62 | The reported count equals the number of lines written |
| `Handoff.LinesOfJoin` | domain_analyzer.py:21 | Reading the written text gives the written lines, then one empty piece after the last newline |
| `Handoff.ReadBackWritten` | domain_analyzer.py:17-22 | `read_domains` on the extractor's file returns exactly the extractor's list, in the same order |

## Left out

- HTTP (`requests.get`, its URL, headers and timeout) is not modelled. Each attempt's outcome comes from the oracle.
- `response.json()` is not modelled. A 200 answer carries an already-decoded JSON value. Whether a decoding error would be caught at line 65 depends on the `requests` version.
- `time.sleep` is not modelled. Sleeps are only trace events with their length.
- `print` logging is not modelled. This covers the key segment printed at domain_analyzer.py:113, the per-row listing at clean_urls.py:52-53 and every error message.
- File and directory I/O is not modelled: `open`, `os.makedirs`, `json.dump` with its formatting, file encodings. A failing save is reported and ignored by the source (domain_analyzer.py:82-83); in the model, saves always appear as `Save` events.
- `create_jsons_directory` is one `CreateDirectory` event. Whether the directory already existed is not modelled.
- In the fetcher the file is text: the model splits it on `\n` and `\r`, like universal newlines. A `\r\n` pair gives one extra empty piece, which the filter drops anyway.
- The literal API keys at domain_analyzer.py:10 are not part of the model. The pool is a parameter, and the three-key case is covered by `KeyRotation.ThreeKeysFollowSegment`.
- `sys.argv` and `sys.exit` are modelled only as the argument list and the exit code. An uncaught exception is exit status 1.
- pandas is not modelled: `read_csv`, `to_csv` of the augmented table and `pd.isna`. Rows are values with an optional `url_feed` cell. A table that cannot be read, or lacks a column, is nothing. Cells that are not strings are left out.
- `clean_urls.py` writes `lista_with_clean_domains.csv` after the domain file (line 66). That write is not part of the model, and neither is a failure during it.
- `urlparse`/`parse_qs` are not modelled, including percent-decoding and `+` to space. They are the parameter `parse`.
- The general regular-expression engine is not modelled. Only the one fixed pattern is.
- `Sorting.Unique` states no repeats and the same strings as its input. It does not state pandas' first-appearance order, because the list is sorted right after.
