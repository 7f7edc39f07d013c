/**
 * The email extractor of both scraper pages: `re.finditer` of the pattern
 * `[a-zA-Z0-9_.+-]+@[a-zA-Z0-9-]+\.[a-zA-Z0-9-.]+` over a text, collected into a set.
 *
 * The three character classes never contain `@`, and the middle one never contains `.`,
 * so a backtracking matcher started at a position has exactly one way to succeed: each
 * run is maximal. The scanner below therefore needs no backtracking; the lemmas show it
 * agrees with the regular language `IsEmail` under finditer's discipline: leftmost, greedy
 * and non-overlapping. Python's `re` takes the first match its backtracking finds, not the
 * longest in general; for this pattern the greedy match is the longest one.
 */
module EmailRegex {
  import opened Wrappers

  /** `[a-zA-Z0-9_.+-]` before the `@`, `[a-zA-Z0-9-]` up to the first `.`, `[a-zA-Z0-9-.]` after it. */
  datatype CharClass = Local | Label | Tail

  predicate IsAlnum(c: char) {
    'a' <= c <= 'z' || 'A' <= c <= 'Z' || '0' <= c <= '9'
  }

  predicate InClass(c: char, k: CharClass) {
    match k
    case Local => IsAlnum(c) || c == '_' || c == '.' || c == '+' || c == '-'
    case Label => IsAlnum(c) || c == '-'
    case Tail => IsAlnum(c) || c == '-' || c == '.'
  }

  ghost predicate AllIn(w: string, k: CharClass) {
    forall m :: 0 <= m < |w| ==> InClass(w[m], k)
  }

  /** `w` is `local @ label . tail` with the `@` at `p` and the `.` at `q`. */
  ghost predicate SplitsAt(w: string, p: nat, q: nat) {
    && 0 < p && p + 1 < q && q + 1 < |w|
    && w[p] == '@' && w[q] == '.'
    && AllIn(w[..p], Local) && AllIn(w[p + 1..q], Label) && AllIn(w[q + 1..], Tail)
  }

  /** The language of the pattern, independent of any scanning strategy. */
  ghost predicate IsEmail(w: string) {
    exists p: nat, q: nat :: SplitsAt(w, p, q)
  }

  /** No occurrence of the pattern starts at position `k` of `s`. */
  ghost predicate NoEmailAt(s: string, k: nat)
    requires k <= |s|
  {
    forall j :: k < j <= |s| ==> !IsEmail(s[k..j])
  }

  /** No occurrence of the pattern starting at `a` is longer than `s[a..b]`. */
  ghost predicate Longest(s: string, a: nat, b: nat)
    requires a <= b <= |s|
  {
    forall j :: b < j <= |s| ==> !IsEmail(s[a..j])
  }

  /** The end of the maximal run of class-`k` characters starting at `i`. */
  function RunEnd(s: string, i: nat, k: CharClass): (j: nat)
    requires i <= |s|
    ensures i <= j <= |s|
    ensures forall m :: i <= m < j ==> InClass(s[m], k)
    ensures j < |s| ==> !InClass(s[j], k)
    decreases |s| - i
  {
    if i < |s| && InClass(s[i], k) then RunEnd(s, i + 1, k) else i
  }

  /** The end of the match `EMAIL_REGEX.match(s, i)` would return, if any. */
  function MatchAt(s: string, i: nat): (r: Option<nat>)
    requires i <= |s|
    ensures r.Some? ==> i < r.value <= |s|
  {
    var a := RunEnd(s, i, Local);
    if a == i || a == |s| || s[a] != '@' then None
    else
      var b := RunEnd(s, a + 1, Label);
      if b == a + 1 || b == |s| || s[b] != '.' then None
      else
        var c := RunEnd(s, b + 1, Tail);
        if c == b + 1 then None else Some(c)
  }

  lemma {:induction false} RunEndCovers(s: string, i: nat, k: CharClass, e: nat)
    requires i <= e <= |s|
    requires forall m :: i <= m < e ==> InClass(s[m], k)
    ensures e <= RunEnd(s, i, k)
    decreases e - i
  {
    if i < e {
      RunEndCovers(s, i + 1, k, e);
    }
  }

  /** Any way of reading `s[i..j]` as an email uses the maximal runs the scanner takes. */
  lemma SplitForced(s: string, i: nat, j: nat, p: nat, q: nat)
    requires i <= j <= |s|
    requires SplitsAt(s[i..j], p, q)
    ensures RunEnd(s, i, Local) == i + p
    ensures RunEnd(s, i + p + 1, Label) == i + q
    ensures j <= RunEnd(s, i + q + 1, Tail)
  {
    var w := s[i..j];
    forall m | i <= m < i + p ensures InClass(s[m], Local) {
      assert s[m] == w[..p][m - i];
    }
    RunEndCovers(s, i, Local, i + p);
    assert s[i + p] == w[p];
    forall m | i + p + 1 <= m < i + q ensures InClass(s[m], Label) {
      assert s[m] == w[p + 1..q][m - i - p - 1];
    }
    RunEndCovers(s, i + p + 1, Label, i + q);
    assert s[i + q] == w[q];
    forall m | i + q + 1 <= m < j ensures InClass(s[m], Tail) {
      assert s[m] == w[q + 1..][m - i - q - 1];
    }
    RunEndCovers(s, i + q + 1, Tail, j);
  }

  /** Whatever `MatchAt` returns is an occurrence of the pattern. */
  lemma MatchAtSound(s: string, i: nat)
    requires i <= |s| && MatchAt(s, i).Some?
    ensures IsEmail(s[i..MatchAt(s, i).value])
  {
    var a := RunEnd(s, i, Local);
    var b := RunEnd(s, a + 1, Label);
    var c := RunEnd(s, b + 1, Tail);
    var w := s[i..c];
    var p, q := a - i, b - i;
    assert w[..p] == s[i..a];
    assert w[p + 1..q] == s[a + 1..b];
    assert w[q + 1..] == s[b + 1..c];
    assert SplitsAt(w, p, q);
  }

  /** Every occurrence of the pattern at `i` ends no later than the one `MatchAt` finds. */
  lemma MatchAtGreedy(s: string, i: nat, j: nat)
    requires i < j <= |s| && IsEmail(s[i..j])
    ensures MatchAt(s, i).Some? && j <= MatchAt(s, i).value
  {
    var p: nat, q: nat :| SplitsAt(s[i..j], p, q);
    SplitForced(s, i, j, p, q);
    assert s[i + p] == s[i..j][p];
    assert s[i + q] == s[i..j][q];
  }

  /**
   * `MatchAt` is exactly greedy matching at `i`: it succeeds iff some occurrence starts at
   * `i`, and then returns the longest one.
   */
  lemma MatchAtSpec(s: string, i: nat)
    requires i <= |s|
    ensures MatchAt(s, i).None? <==> NoEmailAt(s, i)
    ensures MatchAt(s, i).Some? ==> IsEmail(s[i..MatchAt(s, i).value]) && Longest(s, i, MatchAt(s, i).value)
  {
    if MatchAt(s, i).Some? {
      MatchAtSound(s, i);
    }
    forall j | i < j <= |s| && IsEmail(s[i..j])
      ensures MatchAt(s, i).Some? && j <= MatchAt(s, i).value
    {
      MatchAtGreedy(s, i, j);
    }
  }

  /** One match found by `finditer`: the half-open span `[start, end)` of the text. */
  datatype Match = Match(start: nat, end: nat)

  /** `EMAIL_REGEX.finditer(s, i)`: try each position in turn, resuming after each match. */
  function MatchesFrom(s: string, i: nat): (ms: seq<Match>)
    requires i <= |s|
    ensures forall m :: m in ms ==> i <= m.start < m.end <= |s|
    decreases |s| - i
  {
    if i == |s| then []
    else
      match MatchAt(s, i)
      case Some(e) => [Match(i, e)] + MatchesFrom(s, e)
      case None => MatchesFrom(s, i + 1)
  }

  /** Position `k` lies inside one of the matches. */
  ghost predicate Covered(ms: seq<Match>, k: nat) {
    exists m :: 0 <= m < |ms| && ms[m].start <= k < ms[m].end
  }

  /** Every match of the scan is a longest occurrence of the pattern at its start. */
  lemma {:induction false} MatchesAreLongest(s: string, i: nat)
    requires i <= |s|
    ensures forall m :: m in MatchesFrom(s, i) ==> IsEmail(s[m.start..m.end]) && Longest(s, m.start, m.end)
    decreases |s| - i
  {
    if i < |s| {
      MatchAtSpec(s, i);
      match MatchAt(s, i)
      case Some(e) => MatchesAreLongest(s, e);
      case None => MatchesAreLongest(s, i + 1);
    }
  }

  /** The spans come in text order and do not overlap. */
  ghost predicate Ordered(ms: seq<Match>) {
    forall m, n :: 0 <= m < n < |ms| ==> ms[m].end <= ms[n].start
  }

  lemma OrderedCons(h: Match, rest: seq<Match>)
    requires Ordered(rest)
    requires forall x :: x in rest ==> h.end <= x.start
    ensures Ordered([h] + rest)
  {
    var ms := [h] + rest;
    forall m, n | 0 <= m < n < |ms| ensures ms[m].end <= ms[n].start {
      assert ms[n] == rest[n - 1];
      if m > 0 {
        assert ms[m] == rest[m - 1];
      }
    }
  }

  /** The matches come in text order and do not overlap. */
  lemma {:induction false} MatchesAreOrdered(s: string, i: nat)
    requires i <= |s|
    ensures Ordered(MatchesFrom(s, i))
    decreases |s| - i
  {
    if i < |s| {
      var r := MatchAt(s, i);
      if r.Some? {
        MatchesAreOrdered(s, r.value);
        OrderedCons(Match(i, r.value), MatchesFrom(s, r.value));
      } else {
        MatchesAreOrdered(s, i + 1);
      }
    }
  }

  lemma CoveredTail(h: Match, rest: seq<Match>, k: nat)
    requires Covered(rest, k)
    ensures Covered([h] + rest, k)
  {
    var m :| 0 <= m < |rest| && rest[m].start <= k < rest[m].end;
    assert ([h] + rest)[m + 1] == rest[m];
  }

  /** No occurrence of the pattern starts at a position the scan left outside every match. */
  lemma {:induction false} MatchesMissNothing(s: string, i: nat)
    requires i <= |s|
    ensures forall k :: i <= k < |s| && !Covered(MatchesFrom(s, i), k) ==> NoEmailAt(s, k)
    decreases |s| - i
  {
    if i < |s| {
      var ms := MatchesFrom(s, i);
      match MatchAt(s, i)
      case Some(e) =>
        var rest := MatchesFrom(s, e);
        MatchesMissNothing(s, e);
        assert ms == [Match(i, e)] + rest;
        forall k | i <= k < |s| && !Covered(ms, k) ensures e <= k && !Covered(rest, k) {
          assert !(ms[0].start <= k < ms[0].end);
          if Covered(rest, k) {
            CoveredTail(Match(i, e), rest, k);
          }
        }
      case None =>
        MatchesMissNothing(s, i + 1);
        assert ms == MatchesFrom(s, i + 1);
        MatchAtSpec(s, i);
    }
  }

  /** `extract_emails_from_text`: the set of the texts of all finditer matches. */
  function Extract(s: string): (r: set<string>)
    ensures forall w :: w in r ==> exists a, b :: 0 <= a <= b <= |s| && s[a..b] == w
    ensures |r| <= |MatchesFrom(s, 0)|
  {
    var ms := MatchesFrom(s, 0);
    CardImage(s, ms);
    set m | m in ms :: s[m.start..m.end]
  }

  /** Every extracted address is an occurrence of the pattern. */
  lemma ExtractSound(s: string)
    ensures forall w :: w in Extract(s) ==> IsEmail(w)
  {
    MatchesAreLongest(s, 0);
  }

  lemma {:induction false} CardImage(s: string, ms: seq<Match>)
    requires forall m :: m in ms ==> m.start <= m.end <= |s|
    ensures |set m | m in ms :: s[m.start..m.end]| <= |ms|
  {
    if ms != [] {
      var tail := ms[1..];
      CardImage(s, tail);
      var h := ms[0];
      assert (set m | m in ms :: s[m.start..m.end])
        == {s[h.start..h.end]} + (set m | m in tail :: s[m.start..m.end]);
    }
  }

  /** Every character of an occurrence is a local-part character or its `@`. */
  lemma EmailChars(w: string, m: nat)
    requires IsEmail(w) && m < |w|
    ensures InClass(w[m], Local) || w[m] == '@'
  {
    var p: nat, q: nat :| SplitsAt(w, p, q);
    if m < p {
      assert w[m] == w[..p][m];
    } else if p < m < q {
      assert w[m] == w[p + 1..q][m - p - 1];
    } else if q < m {
      assert w[m] == w[q + 1..][m - q - 1];
    }
  }

  /** A character that can neither continue nor start the local part, nor be its `@`. */
  predicate Separator(c: char) {
    !InClass(c, Local) && c != '@'
  }

  /** An occurrence cannot end beyond a non-tail character that ends another occurrence at the same start. */
  lemma SameStartEnd(s: string, a: nat, b: nat, e: nat)
    requires a < b <= |s| && a < e <= |s|
    requires IsEmail(s[a..b]) && IsEmail(s[a..e])
    requires b == |s| || !InClass(s[b], Tail)
    ensures e <= b
  {
    var p: nat, q: nat :| SplitsAt(s[a..b], p, q);
    SplitForced(s, a, b, p, q);
    var p2: nat, q2: nat :| SplitsAt(s[a..e], p2, q2);
    SplitForced(s, a, e, p2, q2);
  }

  /** A match that covers the position after a separator starts there. */
  lemma MatchStartsAfterSeparator(s: string, x: Match, a: nat)
    requires x.start <= a < x.end <= |s| && IsEmail(s[x.start..x.end])
    requires a == 0 || Separator(s[a - 1])
    ensures x.start == a
  {
    if x.start < a {
      assert s[a - 1] == s[x.start..x.end][a - 1 - x.start];
      EmailChars(s[x.start..x.end], a - 1 - x.start);
    }
  }

  /**
   * Completeness: an occurrence preceded by a separator (or the start of the text) and not
   * followed by a tail character is one of the extracted addresses.
   */
  lemma ExtractFindsDelimited(s: string, a: nat, b: nat)
    requires a < b <= |s| && IsEmail(s[a..b])
    requires a == 0 || Separator(s[a - 1])
    requires b == |s| || !InClass(s[b], Tail)
    ensures s[a..b] in Extract(s)
  {
    var ms := MatchesFrom(s, 0);
    MatchesMissNothing(s, 0);
    assert Covered(ms, a);
    var m :| 0 <= m < |ms| && ms[m].start <= a < ms[m].end;
    var x := ms[m];
    assert x in ms;
    MatchesAreLongest(s, 0);
    MatchStartsAfterSeparator(s, x, a);
    assert Longest(s, a, x.end);
    SameStartEnd(s, a, b, x.end);
    assert x == Match(a, b);
  }

  /** `ExtractFindsDelimited` for a text written as `before + w + after`. */
  lemma ExtractFindsWord(before: string, w: string, after: string)
    requires IsEmail(w)
    requires before == [] || Separator(before[|before| - 1])
    requires after == [] || !InClass(after[0], Tail)
    ensures w in Extract(before + w + after)
  {
    var s := before + w + after;
    var a, b := |before|, |before| + |w|;
    assert s[a..b] == w;
    assert a > 0 ==> s[a - 1] == before[|before| - 1];
    assert b < |s| ==> s[b] == after[0];
    assert 0 < |w| by {
      var p: nat, q: nat :| SplitsAt(w, p, q);
    }
    ExtractFindsDelimited(s, a, b);
  }

  lemma FirstExampleAddress()
    ensures IsEmail("a.b+c@example.co.uk")
  {
    var w := "a.b+c@example.co.uk";
    assert AllIn(w[..5], Local) && AllIn(w[6..13], Label) && AllIn(w[14..], Tail);
    assert SplitsAt(w, 5, 13);
  }

  lemma SecondExampleAddress()
    ensures IsEmail("sales@shop.io")
  {
    var w := "sales@shop.io";
    assert AllIn(w[..5], Local) && AllIn(w[6..10], Label) && AllIn(w[11..], Tail);
    assert SplitsAt(w, 5, 10);
  }

  /** A sentence with two addresses, separated by plain words. */
  const ExampleText: string := "reach us at " + "a.b+c@example.co.uk" + " or via " + "sales@shop.io"

  /** Both addresses of the sentence are found, including one with dots and a `+` in its local part. */
  lemma ExtractExample()
    ensures "a.b+c@example.co.uk" in Extract(ExampleText)
    ensures "sales@shop.io" in Extract(ExampleText)
  {
    ExampleFirstFound();
    ExampleSecondFound();
  }

  lemma ExampleFirstFound()
    ensures "a.b+c@example.co.uk" in Extract(ExampleText)
  {
    var w1, w2 := "a.b+c@example.co.uk", "sales@shop.io";
    FirstExampleAddress();
    ExtractFindsWord("reach us at ", w1, " or via " + w2);
    ConcatAssoc("reach us at " + w1, " or via ", w2);
  }

  lemma ConcatAssoc(a: string, b: string, c: string)
    ensures a + (b + c) == a + b + c
  {
  }

  lemma ExampleSecondFound()
    ensures "sales@shop.io" in Extract(ExampleText)
  {
    var w2 := "sales@shop.io";
    SecondExampleAddress();
    var before := "reach us at " + "a.b+c@example.co.uk" + " or via ";
    ExtractFindsWord(before, w2, "");
    assert before + w2 + "" == ExampleText;
  }

  /** The tail class contains `.`, so a sentence-ending full stop is kept in the address. */
  lemma ExtractKeepsTrailingDot()
    ensures "info@shop.com." in Extract("mail " + "info@shop.com." + " today")
  {
    var w := "info@shop.com.";
    assert AllIn(w[..4], Local) && AllIn(w[5..9], Label) && AllIn(w[10..], Tail);
    assert SplitsAt(w, 4, 9);
    ExtractFindsWord("mail ", w, " today");
  }
}
