# Email scraper crawl pipeline in Dafny

This project models the email-crawl pipeline of a small Streamlit app with two scraper pages.
The simple page searches the web for a query and fetches each result. It extracts email
addresses from the page text with a regular expression, and stops once it has enough. The
advanced page does the same, with three additions. It skips URLs on a persisted blacklist. It
consults robots.txt before fetching. It blacklists URLs whose fetch raises.

Modules, one per component:

- `EmailRegex` (`email_regex.dfy`) models the extractor shared by both pages. That is
  `EMAIL_REGEX.finditer` followed by `set(...)`. The scan is a deterministic left-to-right
  scanner. It is proved equal to the regular language of the pattern under finditer's
  discipline: leftmost, greedy and non-overlapping. Python's `re` takes the first match its
  backtracking finds; for this pattern that greedy match is also the longest one.
- `PyText` (`py_text.dfy`) models Python's `str.isspace` and `str.strip()`.
- `Blacklist` (`blacklist.dfy`) models `load_blacklist` and `update_blacklist`. The store is the
  in-memory set plus the lines of `blacklist.txt`.
- `Crawl` (`crawl.dfy`) is the crawl loop shared by both pages. It is a fold over the search
  results, in order. It unions each visit's addresses into an accumulator and breaks once the
  accumulator reaches the target. It also models `list(found)[:n]`. `After` is the reference it
  is measured against: the state after `k` visits with no stop test.
- `AdvancedScrape` (`advanced_scrape.dfy`) holds `can_scrape`, the per-URL decision procedure,
  the query composition and the button handler of the advanced page.
- `SimpleScrape` (`simple_scrape.dfy`) holds the per-URL step and the button handler of the
  simple page.
- `Wrappers` (`wrappers.dfy`) holds `Option`.

Some behaviour of the code differs from what a reader of the page might expect. The model follows the code:

- Every fetch exception blacklists the URL, not only a timeout (views/advanced_scrape.py:80-85).
- The "email domain filter" never filters anything. It is only a cache key
  (views/advanced_scrape.py:79, 100). `AdvancedScrape.DomainIsIgnored` states this.
- The local part of an address has no `%` (views/advanced_scrape.py:16).
- The tail after the first `.` may end in dots, so a sentence-ending full stop is kept.
  `EmailRegex.ExtractKeepsTrailingDot` shows this.
- Blacklisted and disallowed URLs still use up the search cap. The cap is `stop=max_urls` of the
  search, so it counts yielded URLs, not fetched pages.
- There is no cancellation and no visited-URL counter. `LoopOut.consumed` counts the results
  taken from the search.

Two edge cases of the code are modelled explicitly:

- `urlparse` in `can_scrape` runs outside its `try`. When it raises, the exception escapes
  `scrape_emails_from_url` and ends the crawl loop. The outer `except` then keeps the
  accumulator. The model has `RobotsOutcome.UrlInvalid` and `StepOut.Raised` for this.
- In the advanced page, `emails` is assigned before `cache_emails` is called. If that call
  raises, the page returns the extracted addresses and also blacklists the URL. The model has
  `Candidate.cacheFails` for this.

## Model

| member | source | states |
|---|---|---|
| `PyText.Strip` | views/advanced_scrape.py:25 | `line.strip()` keeps a contiguous slice of the line. Only whitespace lies outside it. The slice neither starts nor ends with whitespace. It is empty exactly when the line is all whitespace. |
| `PyText.StripOf` | views/advanced_scrape.py:25 | Stripping a text made of leading blanks, a trimmed core and trailing blanks gives back the core. So `strip()` is determined by that decomposition. |
| `PyText.StripIdempotent` | views/advanced_scrape.py:25 | Stripping twice is stripping once. So every loaded blacklist entry is already stripped. |
| `PyText.StripDropsTrailingSpace` | views/advanced_scrape.py:25 | A trailing line break, or any other trailing blank, does not change the stripped text. So a written `url + "\n"` reads back as `url.strip()`. |
| `EmailRegex.MatchAt` | views/advanced_scrape.py:16 | The match found at one position, if any, ends inside the text and is non-empty. |
| `EmailRegex.MatchAtSpec` | views/advanced_scrape.py:16 | The scanner fails at a position exactly when no occurrence of the pattern starts there. Otherwise it returns an occurrence, and no occurrence from that start is longer (greedy runs, no backtracking needed). |
| `EmailRegex.MatchesFrom` | views/advanced_scrape.py:49 | The finditer scan: every match lies inside the text, after the scan's start. |
| `EmailRegex.MatchesAreLongest` | views/advanced_scrape.py:49 | Every match of the scan is an occurrence of the pattern, and the longest one at its start. |
| `EmailRegex.MatchesAreOrdered` | views/advanced_scrape.py:49 | The matches come in text order and do not overlap. |
| `EmailRegex.MatchesMissNothing` | views/advanced_scrape.py:49 | No occurrence of the pattern starts at a position outside every match. |
| `EmailRegex.Extract` | views/advanced_scrape.py:48-49 | Every element of `extract_emails_from_text` is a substring of the input. Repeated matches collapse: there are no more elements than matches. |
| `EmailRegex.ExtractSound` | views/advanced_scrape.py:48-49 | Every extracted element has the shape local part, `@`, label, `.`, tail, with each part drawn from its character class. |
| `EmailRegex.ExtractFindsDelimited` | views/advanced_scrape.py:48-49 | Completeness: an occurrence after a separator (or at the start) and not followed by a tail character is in the extracted set. |
| `EmailRegex.ExtractFindsWord` | views/simple_scrape.py:17-19 | The same completeness for a text written as `before + address + after`. The simple page uses the identical pattern (views/simple_scrape.py:15). |
| `EmailRegex.ExtractExample` | views/advanced_scrape.py:48-49 | `"reach us at a.b+c@example.co.uk or via sales@shop.io"` yields both addresses. |
| `EmailRegex.ExtractKeepsTrailingDot` | views/advanced_scrape.py:16 | `"mail info@shop.com. today"` yields `"info@shop.com."`, with the full stop. |
| `Blacklist.Load` | views/advanced_scrape.py:21-26 | The loaded set always contains the six built-in URLs. It contains every stripped non-blank line of the file. Every other member is a stripped, non-blank line of the file. |
| `Blacklist.Startup` | views/advanced_scrape.py:36 | The blacklist loaded at page start is what reloading its file gives. |
| `Blacklist.Update` | views/advanced_scrape.py:28-32 | After an update the URL is in the set and nothing else is added. A URL already present changes nothing, neither the set nor the file. Otherwise exactly one line, `url + "\n"`, is appended. |
| `Blacklist.UpdateIdempotent` | views/advanced_scrape.py:28-32 | Updating twice with the same URL is updating once. |
| `Blacklist.UpdateAppendsOnly` | views/advanced_scrape.py:30-31 | The file grows by at most one line, at its end. Earlier lines are never rewritten. |
| `Blacklist.UpdateThenLoad` | views/advanced_scrape.py:21-32 | Reloading the file after an update gives the previous reload plus the stripped URL. That holds when the URL was new and strips to something non-blank. |
| `Blacklist.UpdateKeepsSynced` | views/advanced_scrape.py:21-32 | For a URL without surrounding blanks, an update keeps the in-memory set equal to a reload of the file. |
| `Crawl.Pull` | views/advanced_scrape.py:104 | `search(..., stop=max_urls)` yields a prefix of the results, of length `min(max_urls, available)`. |
| `Crawl.Loop` | views/advanced_scrape.py:104-110 | Candidates are visited in order. The result is the state `After` the visits consumed. No earlier visit met the stop test. The loop stops right after the first visit that raised or brought the accumulator to the target, or at the end of the results. The accumulator only grows. |
| `Crawl.Run` | views/advanced_scrape.py:103-113 | Over the capped results, a search exception ends the run like exhaustion and keeps the partial accumulator. At most `max_urls` candidates are consumed. |
| `Crawl.AfterSnoc` | views/simple_scrape.py:56-60 | When visits never raise, the state after `k + 1` visits is the state after `k` extended by visit `k + 1`. |
| `Crawl.HaltsIffTarget` | views/simple_scrape.py:61-62 | When visits never raise, the loop halts after visit `k` exactly when the accumulator then holds at least the target. |
| `Crawl.ListOf` | views/advanced_scrape.py:115 | `list(found)` lists every element of the set exactly once. |
| `Crawl.Report` | views/advanced_scrape.py:115 | `list(found)[:n]` is duplicate-free, drawn from the set, of length `min(n, |found|)`. It lists the whole set when that is small enough. |
| `AdvancedScrape.CanScrape` | views/advanced_scrape.py:51-62 | Fails closed: a robots.txt read that raises gives `False`. Otherwise the result is exactly the parser's verdict for `*`. Only an unparsable URL lets the exception escape. |
| `AdvancedScrape.Step` | views/advanced_scrape.py:64-86 | A blacklisted URL yields nothing and changes nothing. Only an unparsable URL raises. Only a fetched status-200 page yields addresses, namely `extract(text)`. The blacklist gains the URL exactly when it was fetched and the fetch block raised. |
| `AdvancedScrape.BlacklistedIgnoresOracles` | views/advanced_scrape.py:66-68 | A blacklisted URL is skipped whatever robots.txt or the fetch would say. So there is no robots check and no fetch. |
| `AdvancedScrape.DisallowedIgnoresFetch` | views/advanced_scrape.py:69-71 | A disallowed URL, or one with unreadable robots.txt, is skipped whatever the fetch would do, and nothing changes. |
| `AdvancedScrape.FetchExceptionsBlacklist` | views/advanced_scrape.py:80-85 | A timeout and any other fetch exception are handled alike. Both yield nothing and blacklist the URL. |
| `AdvancedScrape.FinalQuery` | views/advanced_scrape.py:97 | The query is unchanged exactly when the country is blank. Otherwise it is the query followed by a space and the country. |
| `AdvancedScrape.Scrape` | views/advanced_scrape.py:100-113 | The search is skipped exactly when the cached addresses already meet the target. At most `max_urls` results are consumed. The cached addresses are kept. |
| `AdvancedScrape.DomainIsIgnored` | views/advanced_scrape.py:79 | The domain filter has no influence on the addresses found or the blacklist. |
| `AdvancedScrape.ScrapeEmails` | views/advanced_scrape.py:99-115 | The button handler reports a duplicate-free list drawn from the accumulator, of length `min(num_emails_needed, |found|)`. |
| `AdvancedScrape.BlacklistGrowth` | views/advanced_scrape.py:28-32 | Along a crawl the blacklist only grows. Every URL it gains is one of the visited candidates. The file only gains lines at its end. |
| `AdvancedScrape.FailedFetchBlacklisted` | views/advanced_scrape.py:80-85 | A robots-allowed candidate whose fetch raised is on the blacklist at the end of the crawl, whether it timed out or failed otherwise. |
| `AdvancedScrape.FailedFetchSkippedNextRun` | views/advanced_scrape.py:36 | Each run of the page reloads the blacklist from the file. After a run in which the fetch of a URL without surrounding blanks raised, the reloaded blacklist makes the next visit to that URL skip it outright. |
| `AdvancedScrape.CrawlKeepsPersisted` | views/advanced_scrape.py:21-32 | Along a crawl, every in-memory blacklisted URL without surrounding blanks is also in a reload of the file, whatever URLs were appended. |
| `Blacklist.UpdateKeepsPersisted` | views/advanced_scrape.py:21-32 | An update with any URL keeps every in-memory URL without surrounding blanks reloadable from the file. |
| `AdvancedScrape.CrawlKeepsSynced` | views/advanced_scrape.py:28-32 | A crawl over URLs without surrounding blanks keeps the in-memory blacklist equal to a reload of its file. |
| `SimpleScrape.Step` | views/simple_scrape.py:21-35 | The simple visit never raises. A status-200 page yields `extract(text)`. Anything else yields nothing. |
| `SimpleScrape.AccumulatorIsHarvest` | views/simple_scrape.py:52-60 | After `k` pages the accumulator is the union of what the answered pages among them contain, independent of order. |
| `SimpleScrape.Scrape` | views/simple_scrape.py:52-65 | The accumulator starts empty and never meets a raising visit. The result is the harvest of the pages consumed. Exhaustion or a search exception consumes every capped result. |
| `SimpleScrape.ScrapeStopsAtFirstSufficientPrefix` | views/simple_scrape.py:61-62 | Every shorter prefix of the results falls short of the target. So no page after the first sufficient prefix is fetched. |
| `SimpleScrape.ScrapeReachesTarget` | views/simple_scrape.py:56-62 | If the first `n` results hold `target` addresses, the crawl reaches the target within `n` pages. |
| `SimpleScrape.ScrapeEmails` | views/simple_scrape.py:50-68 | The button handler reports a duplicate-free list drawn from the found addresses, of length `min(num_emails_needed, |found_emails|)`. |

## Left out

- The Streamlit UI: widgets, titles, `st.info`/`st.warning`/`st.error` messages and logging. This covers the rest of the repository too: navigation, tutorial, about and contact pages.
- `st.cache_data` (views/advanced_scrape.py:38-46) is framework behaviour. The cached addresses are the `cached` parameter of `AdvancedScrape.Scrape`. `cache_emails` matters only through whether it raises (`Candidate.cacheFails`).
- Network calls are inputs. `requests.get` (timeouts of 18 s and 10 s) and `BeautifulSoup(...).get_text()` become the `Fetch` outcome, which carries the page's visible text.
- The search provider is an input. `googlesearch.search` is a function from the query to a finite result list that may end in an exception. Its `tld`, `lang`, `num` and `pause` arguments are not modelled. `stop` is modelled by `Crawl.Pull`.
- robots.txt retrieval and parsing, including `urlparse`/`urljoin` and the `/robots.txt` location, are library code. They become the `RobotsOutcome` oracle.
- `blacklist.txt` is modelled as the sequence of lines iterating over it yields. A missing file reads as no lines. The model does not split lines or translate newlines. So a URL containing a line break, or an append to a file without a final newline, is not modelled. Write failures are not modelled.
- `Blacklist.UpdateKeepsSynced`: holds only for URLs without surrounding blanks. A URL with surrounding blanks is stored raw in memory but stripped on reload, as in the source.
- `AdvancedScrape.FailedFetchBlacklisted`: assumes that no earlier visit hit an unparsable URL. Such a visit ends the crawl before the later candidate is reached.
- The module-level `blacklist` global is threaded through one crawl as a `Store` value, not shared mutable state. Each run of the page executes the script again (main.py:46), so each run starts from `Blacklist.Startup` of the file as it then is.
- `AdvancedScrape.FailedFetchSkippedNextRun`: holds only for a URL without surrounding blanks. Such a URL strips to itself, so it is reloaded as written. A blank-padded URL whose fetch raised is reloaded stripped, so the next run fetches it again and appends it again, as in the source. The lemma also assumes that no earlier visit of the crawl hit an unparsable URL.
- `num_emails_needed` and `max_urls` are at least 1 on the page. The model allows any natural number, except `SimpleScrape.ScrapeReachesTarget`, which needs a positive target.
