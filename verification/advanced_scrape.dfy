/**
 * The advanced scraper page: the per-URL decision procedure (blacklist, robots.txt, fetch,
 * extract, auto-blacklisting) and the crawl it drives.
 */
module AdvancedScrape {
  import opened Wrappers
  import opened PyText
  import opened EmailRegex
  import opened Blacklist
  import opened Crawl

  /** What `can_scrape` meets for a URL: an unparsable URL, a robots.txt read that raises, or the parser's verdict for `*`. */
  datatype RobotsOutcome =
    | UrlInvalid              // `urlparse` raised before the `try` in `can_scrape`
    | ReadRaised              // `rp.read()` raised
    | Read(canFetch: bool)    // `rp.can_fetch("*", url)` after a successful read

  /**
   * One search result with the outcomes of the calls a visit would make for it: the robots
   * check, the fetch, and whether `cache_emails` raises when it is called.
   */
  datatype Candidate = Candidate(url: string, robots: RobotsOutcome, fetch: Fetch, cacheFails: bool)

  /** `can_scrape`: `None` when the exception escapes it, otherwise whether the URL may be fetched. */
  function CanScrape(robots: RobotsOutcome): (r: Option<bool>)
    ensures r.None? <==> robots.UrlInvalid?
    ensures r == Some(true) <==> robots == Read(true)
  {
    match robots
    case UrlInvalid => None
    case ReadRaised => Some(false)
    case Read(ok) => Some(ok)
  }

  /** The fetch block raises for this candidate: in `requests.get`, in parsing, or in `cache_emails`. */
  predicate FetchRaises(c: Candidate) {
    match c.fetch
    case Timeout => true
    case Failed => true
    case Response(status, text) => status == 200 && Extract(text) != {} && c.cacheFails
  }

  /** The candidate gets past the blacklist and robots.txt, so its URL is fetched. */
  predicate Fetched(c: Candidate, st: Store) {
    c.url !in st.urls && c.robots == Read(true)
  }

  /** `scrape_emails_from_url` for one candidate, threading the blacklist. */
  function Step(c: Candidate, st: Store): (r: StepOut<Store>)
    ensures c.url in st.urls ==> r == Visited({}, st)
    ensures r.Raised? <==> c.url !in st.urls && c.robots.UrlInvalid?
    ensures r.Visited? && r.emails != {} ==> Fetched(c, st) && c.fetch.Response? && c.fetch.status == 200
    ensures r.Visited? && Fetched(c, st) && c.fetch.Response? && c.fetch.status == 200 ==> r.emails == Extract(c.fetch.text)
    ensures r.Visited? ==> r.state == (if Fetched(c, st) && FetchRaises(c) then Update(c.url, st) else st)
  {
    if c.url in st.urls then Visited({}, st)
    else
      match CanScrape(c.robots)
      case None => Raised
      case Some(allowed) =>
        if !allowed then Visited({}, st)
        else
          match c.fetch
          case Timeout => Visited({}, Update(c.url, st))
          case Failed => Visited({}, Update(c.url, st))
          case Response(status, text) =>
            if status != 200 then Visited({}, st)
            else
              var emails := Extract(text);
              if emails != {} && c.cacheFails then Visited(emails, Update(c.url, st))
              else Visited(emails, st)
  }

  /** A blacklisted URL is skipped without consulting robots.txt or fetching: those outcomes do not matter. */
  lemma BlacklistedIgnoresOracles(c: Candidate, robots: RobotsOutcome, fetch: Fetch, cacheFails: bool, st: Store)
    requires c.url in st.urls
    ensures Step(Candidate(c.url, robots, fetch, cacheFails), st) == Step(c, st) == Visited({}, st)
  {
  }

  /** A URL robots.txt forbids, or whose robots.txt cannot be read, is never fetched and changes nothing. */
  lemma DisallowedIgnoresFetch(c: Candidate, fetch: Fetch, cacheFails: bool, st: Store)
    requires c.url !in st.urls && (c.robots == ReadRaised || c.robots == Read(false))
    ensures Step(Candidate(c.url, c.robots, fetch, cacheFails), st) == Step(c, st) == Visited({}, st)
  {
  }

  /** A timeout and any other fetch exception are handled alike: no addresses, URL blacklisted. */
  lemma FetchExceptionsBlacklist(c: Candidate, st: Store)
    requires Fetched(c, st) && (c.fetch.Timeout? || c.fetch.Failed?)
    ensures Step(c, st) == Visited({}, Update(c.url, st))
    ensures Step(c.(fetch := Timeout), st) == Step(c.(fetch := Failed), st)
  {
  }

  /** A request as entered on the page. `domain` is only a cache key: no filter is applied with it. */
  datatype Request = Request(domain: string, country: string, query: string, target: nat, maxUrls: nat)

  /** The query sent to the search: the country is appended as a separate word when it is not blank. */
  function FinalQuery(query: string, country: string): (q: string)
    ensures |query| <= |q| && q[..|query|] == query
    ensures q == query <==> Strip(country) == ""
    ensures q != query ==> q[|query|..] == " " + country
  {
    if Strip(country) != "" then query + " " + country else query
  }

  /**
   * The body of `main` after the button press, up to the truncation: start from the cached
   * addresses, and crawl only if they fall short of the target.
   */
  function Scrape(req: Request, search: string -> Stream<Candidate>, cached: set<string>, st: Store): (r: LoopOut<Store>)
    ensures r.stop == NotNeeded <==> |cached| >= req.target
    ensures r.stop == NotNeeded ==> r.found == cached && r.state == st && r.consumed == 0
    ensures r.consumed <= req.maxUrls
    ensures cached <= r.found
    ensures r.stop == TargetReached ==> |r.found| >= req.target
  {
    if |cached| >= req.target then LoopOut(cached, st, 0, NotNeeded)
    else Run(search(FinalQuery(req.query, req.country)), req.maxUrls, Step, cached, st, req.target)
  }

  /** The domain filter never influences the crawl. */
  lemma DomainIsIgnored(req: Request, domain: string, search: string -> Stream<Candidate>, cached: set<string>, st: Store)
    ensures Scrape(req.(domain := domain), search, cached, st) == Scrape(req, search, cached, st)
  {
  }

  /** The button handler: crawl, then keep `num_emails_needed` of the addresses found. */
  method ScrapeEmails(req: Request, search: string -> Stream<Candidate>, cached: set<string>, st: Store)
    returns (emails: seq<string>, out: LoopOut<Store>)
    ensures out == Scrape(req, search, cached, st)
    ensures |emails| == if req.target < |out.found| then req.target else |out.found|
    ensures forall x :: x in emails ==> x in out.found
    ensures forall i, j :: 0 <= i < j < |emails| ==> emails[i] != emails[j]
  {
    out := Scrape(req, search, cached, st);
    emails := Report(out.found, req.target);
  }

  /**
   * Along a crawl the blacklist only grows, every URL it gains is one of the candidates
   * visited, and the file only gains lines at its end.
   */
  lemma {:induction false} BlacklistGrowth(cands: seq<Candidate>, acc: set<string>, st: Store, k: nat)
    requires k <= |cands|
    ensures var st' := After(cands, Step, acc, st, k).1;
      && st.urls <= st'.urls
      && (forall u :: u in st'.urls && u !in st.urls ==> exists j :: 0 <= j < k && cands[j].url == u)
      && |st.file| <= |st'.file| && st'.file[..|st.file|] == st.file
    decreases k
  {
    if k > 0 {
      match Step(cands[0], st)
      case Raised =>
      case Visited(e, st1) =>
        BlacklistGrowth(cands[1..], acc + e, st1, k - 1);
        var st' := After(cands, Step, acc, st, k).1;
        assert st' == After(cands[1..], Step, acc + e, st1, k - 1).1;
        forall u | u in st'.urls && u !in st.urls ensures exists j :: 0 <= j < k && cands[j].url == u {
          if u in st1.urls {
            assert cands[0].url == u;
          } else {
            var j :| 0 <= j < k - 1 && cands[1..][j].url == u;
            assert cands[j + 1].url == u;
          }
        }
        assert st'.file[..|st1.file|] == st1.file;
        assert st1.file[..|st.file|] == st.file;
        assert st'.file[..|st.file|] == st'.file[..|st1.file|][..|st.file|];
    }
  }

  /**
   * A candidate whose robots.txt allows it and whose fetch raises (timeout or otherwise) is
   * blacklisted by the end of the crawl, provided no earlier visit raised.
   */
  lemma {:induction false} FailedFetchBlacklisted(cands: seq<Candidate>, acc: set<string>, st: Store, k: nat, i: nat)
    requires i < k <= |cands|
    requires cands[i].robots == Read(true) && (cands[i].fetch.Timeout? || cands[i].fetch.Failed?)
    requires forall j :: 0 <= j < i ==> !cands[j].robots.UrlInvalid?
    ensures cands[i].url in After(cands, Step, acc, st, k).1.urls
    decreases i
  {
    var o := Step(cands[0], st);
    assert o.Visited?;
    var st1 := o.state;
    assert After(cands, Step, acc, st, k) == After(cands[1..], Step, acc + o.emails, st1, k - 1);
    if i == 0 {
      assert cands[0].url in st1.urls;
      BlacklistGrowth(cands[1..], acc + o.emails, st1, k - 1);
    } else {
      FailedFetchBlacklisted(cands[1..], acc + o.emails, st1, k - 1, i - 1);
    }
  }

  /**
   * Timeout auto-exclusion across runs: each run of the page starts from a fresh
   * `load_blacklist()`. After a crawl in which a clean URL's fetch raised, the next run
   * reloads the file and skips that URL outright.
   */
  lemma FailedFetchSkippedNextRun(req: Request, search: string -> Stream<Candidate>, cached: set<string>, st: Store, i: nat, again: Candidate)
    requires Synced(st)
    requires var r := Scrape(req, search, cached, st);
      var cands := Pull(search(FinalQuery(req.query, req.country)), req.maxUrls);
      && i < r.consumed
      && (forall j :: 0 <= j < i ==> !cands[j].robots.UrlInvalid?)
      && cands[i].robots == Read(true) && (cands[i].fetch.Timeout? || cands[i].fetch.Failed?)
      && Clean(cands[i].url)
      && again.url == cands[i].url
    ensures var next := Startup(Scrape(req, search, cached, st).state.file);
      Step(again, next) == Visited({}, next)
  {
    var r := Scrape(req, search, cached, st);
    var cands := Pull(search(FinalQuery(req.query, req.country)), req.maxUrls);
    FailedFetchBlacklisted(cands, cached, st, r.consumed, i);
    assert Persisted(st);
    CrawlKeepsPersisted(cands, cached, st, r.consumed);
  }

  /** Along a crawl, every clean URL blacklisted in memory stays reloadable from the file. */
  lemma {:induction false} CrawlKeepsPersisted(cands: seq<Candidate>, acc: set<string>, st: Store, k: nat)
    requires k <= |cands| && Persisted(st)
    ensures Persisted(After(cands, Step, acc, st, k).1)
    decreases k
  {
    if k > 0 {
      match Step(cands[0], st)
      case Raised =>
      case Visited(e, st1) =>
        UpdateKeepsPersisted(cands[0].url, st);
        CrawlKeepsPersisted(cands[1..], acc + e, st1, k - 1);
    }
  }

  /** A crawl over clean URLs keeps the in-memory blacklist equal to a reload of its file. */
  lemma {:induction false} CrawlKeepsSynced(cands: seq<Candidate>, acc: set<string>, st: Store, k: nat)
    requires k <= |cands| && Synced(st)
    requires forall j :: 0 <= j < |cands| ==> Clean(cands[j].url)
    ensures Synced(After(cands, Step, acc, st, k).1)
    decreases k
  {
    if k > 0 {
      match Step(cands[0], st)
      case Raised =>
      case Visited(e, st1) =>
        UpdateKeepsSynced(cands[0].url, st);
        CrawlKeepsSynced(cands[1..], acc + e, st1, k - 1);
    }
  }
}
