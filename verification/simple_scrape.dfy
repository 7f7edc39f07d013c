/**
 * The simple scraper page: no blacklist, no robots.txt, no cache. Each search result is
 * fetched and, on status 200, its addresses are extracted.
 */
module SimpleScrape {
  import opened EmailRegex
  import opened Crawl

  /** One search result with the outcome of fetching it. */
  datatype Page = Page(url: string, fetch: Fetch)

  /** The page answered with status 200. */
  predicate Answered(p: Page) {
    p.fetch.Response? && p.fetch.status == 200
  }

  /** `scrape_emails_from_url`: every failure is swallowed; there is no state to thread. */
  function Step(p: Page, u: ()): (r: StepOut<()>)
    ensures r.Visited?
    ensures Answered(p) ==> r.emails == Extract(p.fetch.text)
    ensures r.emails != {} ==> Answered(p)
  {
    match p.fetch
    case Response(status, text) => if status == 200 then Visited(Extract(text), ()) else Visited({}, ())
    case Timeout => Visited({}, ())
    case Failed => Visited({}, ())
  }

  /** The addresses one page contributes: those of its text when it answered with status 200. */
  function Contribution(p: Page): set<string> {
    if Answered(p) then Extract(p.fetch.text) else {}
  }

  /** Every address some page among `pages` contributes. */
  ghost function Harvest(pages: seq<Page>): set<string> {
    set p, w | p in pages && w in Contribution(p) :: w
  }

  lemma HarvestCons(p: Page, pages: seq<Page>)
    ensures Harvest([p] + pages) == Contribution(p) + Harvest(pages)
  {
    var both := [p] + pages;
    forall w | w in Harvest(both) ensures w in Contribution(p) + Harvest(pages) {
      var q :| q in both && w in Contribution(q);
      if q != p {
        assert q in pages;
      }
    }
    forall w | w in Contribution(p) + Harvest(pages) ensures w in Harvest(both) {
      if w in Contribution(p) {
        assert p in both;
      } else {
        var q :| q in pages && w in Contribution(q);
        assert q in both;
      }
    }
  }

  /** One visit of the loop adds exactly the page's contribution. */
  lemma AfterOneMore(pages: seq<Page>, acc: set<string>, k: nat)
    requires 1 <= k <= |pages|
    ensures After(pages, Step, acc, (), k) == After(pages[1..], Step, acc + Contribution(pages[0]), (), k - 1)
  {
  }

  lemma UnionAssoc(a: set<string>, b: set<string>, c: set<string>)
    ensures a + b + c == a + (b + c)
  {
  }

  /**
   * The accumulator after the first `k` pages is the starting set together with every address
   * of every answered page among them, in whatever order they came.
   */
  lemma {:induction false} AccumulatorIsHarvest(pages: seq<Page>, acc: set<string>, k: nat)
    requires k <= |pages|
    ensures After(pages, Step, acc, (), k).0 == acc + Harvest(pages[..k])
    decreases k
  {
    if k == 0 {
      assert pages[..0] == [];
    } else {
      var p, rest := pages[0], pages[1..];
      var c := Contribution(p);
      AfterOneMore(pages, acc, k);
      AccumulatorIsHarvest(rest, acc + c, k - 1);
      var h := Harvest(rest[..k - 1]);
      assert pages[..k] == [p] + rest[..k - 1];
      HarvestCons(p, rest[..k - 1]);
      UnionAssoc(acc, c, h);
    }
  }

  /**
   * The body of `main` after the button press, up to the truncation: the accumulator starts
   * empty and the crawl runs over the results of the query as entered.
   */
  function Scrape(query: string, target: nat, maxUrls: nat, search: string -> Stream<Page>): (r: LoopOut<()>)
    ensures r.consumed <= |Pull(search(query), maxUrls)| <= maxUrls
    ensures r.stop != StepRaised && r.stop != NotNeeded
    ensures r.found == Harvest(Pull(search(query), maxUrls)[..r.consumed])
    ensures r.stop == TargetReached ==> |r.found| >= target
    ensures r.stop == Exhausted || r.stop == SearchRaised ==> r.consumed == |Pull(search(query), maxUrls)|
  {
    var pages := Pull(search(query), maxUrls);
    var r := Run(search(query), maxUrls, Step, {}, (), target);
    AccumulatorIsHarvest(pages, {}, r.consumed);
    r
  }

  /** The button handler: crawl, then keep `num_emails_needed` of the addresses found. */
  method ScrapeEmails(query: string, target: nat, maxUrls: nat, search: string -> Stream<Page>)
    returns (emails: seq<string>, out: LoopOut<()>)
    ensures out == Scrape(query, target, maxUrls, search)
    ensures |emails| == if target < |out.found| then target else |out.found|
    ensures forall x :: x in emails ==> x in out.found
    ensures forall i, j :: 0 <= i < j < |emails| ==> emails[i] != emails[j]
  {
    out := Scrape(query, target, maxUrls, search);
    emails := Report(out.found, target);
  }

  /**
   * The loop stops at the first prefix of the results whose pages hold `target` addresses:
   * no page after that is fetched, and every shorter prefix falls short.
   */
  lemma ScrapeStopsAtFirstSufficientPrefix(query: string, target: nat, maxUrls: nat, search: string -> Stream<Page>)
    ensures var r := Scrape(query, target, maxUrls, search);
      var pages := Pull(search(query), maxUrls);
      && (forall k :: 1 <= k < r.consumed ==> |Harvest(pages[..k])| < target)
      && (r.stop == Exhausted || r.stop == SearchRaised ==> r.consumed == 0 || |Harvest(pages[..r.consumed])| < target)
  {
    var r := Scrape(query, target, maxUrls, search);
    var pages := Pull(search(query), maxUrls);
    assert NeverRaises(Step);
    forall k | 1 <= k <= r.consumed
      ensures Halts(pages, Step, {}, (), target, k) <==> |Harvest(pages[..k])| >= target
    {
      HaltsIffTarget(pages, Step, {}, (), target, k);
      AccumulatorIsHarvest(pages, {}, k);
    }
  }

  /**
   * If the first `n` results hold at least `target` addresses, the crawl reaches the target
   * within those `n` pages.
   */
  lemma ScrapeReachesTarget(query: string, target: nat, maxUrls: nat, search: string -> Stream<Page>, n: nat)
    requires 1 <= target
    requires n <= |Pull(search(query), maxUrls)|
    requires |Harvest(Pull(search(query), maxUrls)[..n])| >= target
    ensures var r := Scrape(query, target, maxUrls, search);
      r.stop == TargetReached && r.consumed <= n && |r.found| >= target
  {
    var r := Scrape(query, target, maxUrls, search);
    var pages := Pull(search(query), maxUrls);
    ScrapeStopsAtFirstSufficientPrefix(query, target, maxUrls, search);
    assert 1 <= n by {
      assert pages[..0] == [];
      assert Harvest([]) == {};
    }
    assert r.consumed <= n;
    assert r.stop == Exhausted || r.stop == SearchRaised ==> r.consumed == n;
    var enough := Harvest(pages[..n]);
    assert r.stop == Exhausted || r.stop == SearchRaised ==> |enough| < target;
  }
}
