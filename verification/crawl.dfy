/**
 * The crawl loop shared by both scraper pages: pull candidate URLs from the search in order,
 * visit each, union the addresses found into an accumulator, and stop once the accumulator
 * holds the requested number of addresses. Finally `list(found)[:n]`.
 *
 * The loop is generic in the candidate type `C` (what the search yields, with the outcomes of
 * the network calls it will cause) and in the state `S` a visit threads (the blacklist of the
 * advanced page; nothing for the simple page).
 */
module Crawl {

  /** What `requests.get` followed by `BeautifulSoup(...).get_text()` produced for one URL. */
  datatype Fetch =
    | Timeout                               // requests.exceptions.Timeout
    | Failed                                // any other exception inside the fetch block
    | Response(status: int, text: string)   // a response, with the page's visible text

  /** The result of visiting one candidate: the addresses and new state, or an escaping exception. */
  datatype StepOut<S> = Visited(emails: set<string>, state: S) | Raised

  /** The search results: the URLs `search` yields, and whether it raises after the last of them. */
  datatype Stream<C> = Stream(items: seq<C>, raises: bool)

  /** Why the crawl stopped. */
  datatype Stop =
    | NotNeeded        // the initial accumulator already met the target; no search was made
    | TargetReached    // the accumulator reached the target after the last visit
    | Exhausted        // the search yielded no further URL
    | SearchRaised     // the search raised while producing the next URL
    | StepRaised       // a visit raised an exception that escaped it

  /** The accumulator, the final state, how many candidates were taken from the search, and why it ended. */
  datatype LoopOut<S> = LoopOut(found: set<string>, state: S, consumed: nat, stop: Stop)

  /** `search(..., stop=cap)`: the generator ends after `cap` URLs. */
  function Pull<C>(s: Stream<C>, cap: nat): (r: seq<C>)
    ensures |r| <= cap && |r| <= |s.items|
    ensures |r| == cap || |r| == |s.items|
    ensures r == s.items[..|r|]
  {
    if |s.items| <= cap then s.items else s.items[..cap]
  }

  /** Whether the search raises before the loop could see the end of the capped result list. */
  predicate SearchFails<C>(s: Stream<C>, cap: nat) {
    s.raises && |s.items| < cap
  }

  /**
   * The accumulator and state after visiting the first `k` candidates without any stop test.
   * A visit that raises ends the run where it is. This is the reference the loop is measured
   * against.
   */
  function After<C, S>(cands: seq<C>, step: (C, S) -> StepOut<S>, acc: set<string>, st: S, k: nat): (set<string>, S)
    requires k <= |cands|
    decreases k
  {
    if k == 0 then (acc, st)
    else
      match step(cands[0], st)
      case Raised => (acc, st)
      case Visited(e, st') => After(cands[1..], step, acc + e, st', k - 1)
  }

  /** The `k`-th visit (counting from 1) ends the loop: it raises, or leaves the accumulator at the target. */
  predicate Halts<C, S>(cands: seq<C>, step: (C, S) -> StepOut<S>, acc: set<string>, st: S, target: nat, k: nat)
    requires 1 <= k <= |cands|
  {
    var prev := After(cands, step, acc, st, k - 1);
    match step(cands[k - 1], prev.1)
    case Raised => true
    case Visited(e, _) => |prev.0 + e| >= target
  }

  /** Peeling off a first visit that did not raise shifts `After` and `Halts` by one. */
  lemma ShiftAfterVisit<C, S>(cands: seq<C>, step: (C, S) -> StepOut<S>, acc: set<string>, st: S, target: nat)
    requires |cands| >= 1 && step(cands[0], st).Visited?
    ensures var o := step(cands[0], st);
      forall k :: 1 <= k <= |cands| ==>
        After(cands, step, acc, st, k) == After(cands[1..], step, acc + o.emails, o.state, k - 1)
    ensures var o := step(cands[0], st);
      forall k :: 2 <= k <= |cands| ==>
        Halts(cands, step, acc, st, target, k) == Halts(cands[1..], step, acc + o.emails, o.state, target, k - 1)
  {
    var o := step(cands[0], st);
    forall k | 2 <= k <= |cands|
      ensures Halts(cands, step, acc, st, target, k) == Halts(cands[1..], step, acc + o.emails, o.state, target, k - 1)
    {
      assert After(cands, step, acc, st, k - 1) == After(cands[1..], step, acc + o.emails, o.state, k - 2);
      assert cands[k - 1] == cands[1..][k - 2];
    }
  }

  /**
   * The `for url in search(...)` loop: visit candidates in order, union each visit's
   * addresses into the accumulator, break once it holds `target` addresses; an exception
   * escaping a visit leaves the loop with the accumulator as it was.
   */
  function Loop<C, S>(cands: seq<C>, step: (C, S) -> StepOut<S>, acc: set<string>, st: S, target: nat): (r: LoopOut<S>)
    ensures r.consumed <= |cands|
    ensures r.stop == Exhausted || r.stop == TargetReached || r.stop == StepRaised
    ensures (r.found, r.state) == After(cands, step, acc, st, r.consumed)
    ensures forall k :: 1 <= k < r.consumed ==> !Halts(cands, step, acc, st, target, k)
    ensures r.stop == Exhausted ==> r.consumed == |cands| && (r.consumed == 0 || !Halts(cands, step, acc, st, target, r.consumed))
    ensures r.stop != Exhausted ==> 1 <= r.consumed && Halts(cands, step, acc, st, target, r.consumed)
    ensures r.stop == TargetReached ==> |r.found| >= target
    ensures r.stop == StepRaised ==> 1 <= r.consumed && step(cands[r.consumed - 1], After(cands, step, acc, st, r.consumed - 1).1).Raised?
    ensures acc <= r.found
    decreases |cands|
  {
    if |cands| == 0 then LoopOut(acc, st, 0, Exhausted)
    else
      match step(cands[0], st)
      case Raised => LoopOut(acc, st, 1, StepRaised)
      case Visited(e, st') =>
        var acc' := acc + e;
        if |acc'| >= target then LoopOut(acc', st', 1, TargetReached)
        else
          var rest := Loop(cands[1..], step, acc', st', target);
          ShiftAfterVisit(cands, step, acc, st, target);
          LoopOut(rest.found, rest.state, rest.consumed + 1, rest.stop)
  }

  /**
   * Running the loop over the capped search results; a search that raises where the loop would
   * have asked for another URL ends the run like an exhausted one, keeping the accumulator.
   */
  function Run<C, S>(s: Stream<C>, cap: nat, step: (C, S) -> StepOut<S>, acc: set<string>, st: S, target: nat): (r: LoopOut<S>)
    ensures r.consumed <= |Pull(s, cap)| <= cap
    ensures r.stop != NotNeeded
    ensures acc <= r.found
    ensures (r.found, r.state) == After(Pull(s, cap), step, acc, st, r.consumed)
    ensures forall k :: 1 <= k < r.consumed ==> !Halts(Pull(s, cap), step, acc, st, target, k)
    ensures r.stop == Exhausted || r.stop == SearchRaised ==>
      && r.consumed == |Pull(s, cap)|
      && (r.consumed == 0 || !Halts(Pull(s, cap), step, acc, st, target, r.consumed))
    ensures r.stop == SearchRaised ==> SearchFails(s, cap)
    ensures r.stop == Exhausted ==> !SearchFails(s, cap)
    ensures r.stop == TargetReached || r.stop == StepRaised ==> 1 <= r.consumed && Halts(Pull(s, cap), step, acc, st, target, r.consumed)
    ensures r.stop == TargetReached ==> |r.found| >= target
    ensures r.stop == StepRaised ==>
      1 <= r.consumed && step(Pull(s, cap)[r.consumed - 1], After(Pull(s, cap), step, acc, st, r.consumed - 1).1).Raised?
  {
    var out := Loop(Pull(s, cap), step, acc, st, target);
    if out.stop == Exhausted && SearchFails(s, cap) then out.(stop := SearchRaised) else out
  }

  /** `list(found)`: the elements of a set in some order, each exactly once. */
  method ListOf(s: set<string>) returns (xs: seq<string>)
    ensures |xs| == |s|
    ensures forall x :: x in xs <==> x in s
    ensures forall i, j :: 0 <= i < j < |xs| ==> xs[i] != xs[j]
  {
    xs := [];
    var rest := s;
    while rest != {}
      invariant rest <= s
      invariant |xs| + |rest| == |s|
      invariant forall x :: x in xs ==> x in s && x !in rest
      invariant forall x :: x in s ==> x in xs || x in rest
      invariant forall i, j :: 0 <= i < j < |xs| ==> xs[i] != xs[j]
      decreases |rest|
    {
      var x :| x in rest;
      xs := xs + [x];
      rest := rest - {x};
    }
  }

  /** `list(found)[:n]`: at most `n` distinct addresses of the accumulator, all of them if it is small enough. */
  method Report(found: set<string>, n: nat) returns (emails: seq<string>)
    ensures |emails| == if n < |found| then n else |found|
    ensures forall x :: x in emails ==> x in found
    ensures forall i, j :: 0 <= i < j < |emails| ==> emails[i] != emails[j]
    ensures |found| <= n ==> forall x :: x in found ==> x in emails
  {
    var xs := ListOf(found);
    emails := if n < |xs| then xs[..n] else xs;
  }

  /** A visit that never lets an exception escape. */
  ghost predicate NeverRaises<C(!new), S(!new)>(step: (C, S) -> StepOut<S>) {
    forall c, x :: step(c, x).Visited?
  }

  /** With visits that never raise, `After` extends one visit at a time at the end. */
  lemma {:induction false} AfterSnoc<C(!new), S(!new)>(cands: seq<C>, step: (C, S) -> StepOut<S>, acc: set<string>, st: S, k: nat)
    requires NeverRaises(step) && k < |cands|
    ensures var prev := After(cands, step, acc, st, k);
      var o := step(cands[k], prev.1);
      After(cands, step, acc, st, k + 1) == (prev.0 + o.emails, o.state)
    decreases k
  {
    var o := step(cands[0], st);
    assert o.Visited?;
    if k > 0 {
      AfterSnoc(cands[1..], step, acc + o.emails, o.state, k - 1);
      assert cands[1..][k - 1] == cands[k];
    }
  }

  /** With visits that never raise, the loop halts after visit `k` exactly when the accumulator then meets the target. */
  lemma HaltsIffTarget<C(!new), S(!new)>(cands: seq<C>, step: (C, S) -> StepOut<S>, acc: set<string>, st: S, target: nat, k: nat)
    requires NeverRaises(step) && 1 <= k <= |cands|
    ensures Halts(cands, step, acc, st, target, k) <==> |After(cands, step, acc, st, k).0| >= target
  {
    AfterSnoc(cands, step, acc, st, k - 1);
    assert step(cands[k - 1], After(cands, step, acc, st, k - 1).1).Visited?;
  }
}
