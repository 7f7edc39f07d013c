/** The pieces of Python's `str` behaviour the crawler relies on: `isspace` and `strip()`. */
module PyText {

  /** Python's `str.isspace` for one code point: exactly the characters `strip()` removes. */
  predicate IsSpace(c: char) {
    var n := c as int;
    || (9 <= n <= 13)        // \t \n \v \f \r
    || (28 <= n <= 32)       // the four information separators and the space
    || n == 0x85 || n == 0xA0 || n == 0x1680
    || (0x2000 <= n <= 0x200A)
    || n == 0x2028 || n == 0x2029 || n == 0x202F || n == 0x205F || n == 0x3000
  }

  ghost predicate AllSpace(s: string) {
    forall m :: 0 <= m < |s| ==> IsSpace(s[m])
  }

  /** A string `strip()` leaves alone: empty, or not starting or ending with whitespace. */
  predicate Trimmed(s: string) {
    s == [] || (!IsSpace(s[0]) && !IsSpace(s[|s| - 1]))
  }

  /** The first position at or after `i` that does not hold whitespace, or `|s|`. */
  function SkipSpace(s: string, i: nat): (j: nat)
    requires i <= |s|
    ensures i <= j <= |s|
    ensures forall m :: i <= m < j ==> IsSpace(s[m])
    ensures j < |s| ==> !IsSpace(s[j])
    decreases |s| - i
  {
    if i < |s| && IsSpace(s[i]) then SkipSpace(s, i + 1) else i
  }

  /** Moving down from `j` (not below `lo`), the end of `s[..j]` once trailing whitespace is dropped. */
  function BackSpace(s: string, lo: nat, j: nat): (k: nat)
    requires lo <= j <= |s|
    ensures lo <= k <= j
    ensures forall m :: k <= m < j ==> IsSpace(s[m])
    ensures lo < k ==> !IsSpace(s[k - 1])
    decreases j
  {
    if lo < j && IsSpace(s[j - 1]) then BackSpace(s, lo, j - 1) else j
  }

  /** Where the text `strip()` keeps begins. */
  function StripStart(s: string): nat {
    SkipSpace(s, 0)
  }

  /** Where the text `strip()` keeps ends. */
  function StripEnd(s: string): (e: nat)
    ensures StripStart(s) <= e <= |s|
  {
    BackSpace(s, StripStart(s), |s|)
  }

  /** `s.strip()`: `s` with whitespace removed at both ends. */
  function Strip(s: string): (r: string)
    ensures r == s[StripStart(s)..StripEnd(s)]
    ensures forall m :: 0 <= m < StripStart(s) ==> IsSpace(s[m])
    ensures forall m :: StripEnd(s) <= m < |s| ==> IsSpace(s[m])
    ensures Trimmed(r)
    ensures r == [] <==> AllSpace(s)
  {
    var a, b := StripStart(s), StripEnd(s);
    assert a < b ==> s[a..b][0] == s[a] && s[a..b][b - a - 1] == s[b - 1];
    assert a == b ==> forall m :: 0 <= m < |s| ==> IsSpace(s[m]);
    s[a..b]
  }

  lemma {:induction false} SkipSpaceCovers(s: string, i: nat, e: nat)
    requires i <= e <= |s|
    requires forall m :: i <= m < e ==> IsSpace(s[m])
    ensures e <= SkipSpace(s, i)
    decreases e - i
  {
    if i < e {
      SkipSpaceCovers(s, i + 1, e);
    }
  }

  lemma {:induction false} BackSpaceCovers(s: string, lo: nat, j: nat, e: nat)
    requires lo <= e <= j <= |s|
    requires forall m :: e <= m < j ==> IsSpace(s[m])
    ensures BackSpace(s, lo, j) <= e
    decreases j
  {
    if e < j {
      BackSpaceCovers(s, lo, j - 1, e);
    }
  }

  /** `strip()` is determined by the decomposition into leading blanks, a trimmed core and trailing blanks. */
  lemma StripOf(a: string, r: string, b: string)
    requires AllSpace(a) && AllSpace(b) && Trimmed(r)
    ensures Strip(a + r + b) == r
  {
    var s := a + r + b;
    var i, j := |a|, |a| + |r|;
    forall m | 0 <= m < i ensures IsSpace(s[m]) {
      assert s[m] == a[m];
    }
    forall m | j <= m < |s| ensures IsSpace(s[m]) {
      assert s[m] == b[m - j];
    }
    SkipSpaceCovers(s, 0, i);
    if r == [] {
      SkipSpaceCovers(s, 0, |s|);
      assert s[i..j] == r;
    } else {
      assert s[i] == r[0];
      assert StripStart(s) == i;
      BackSpaceCovers(s, i, |s|, j);
      assert s[j - 1] == r[|r| - 1];
      assert StripEnd(s) == j;
      assert s[i..j] == r;
    }
  }

  /** Stripping twice is stripping once. */
  lemma StripIdempotent(s: string)
    ensures Strip(Strip(s)) == Strip(s)
  {
    var r := Strip(s);
    assert [] + r + [] == r;
    StripOf([], r, []);
  }

  /** A trailing line break (or any other trailing blank) does not change the stripped text. */
  lemma StripDropsTrailingSpace(u: string, c: char)
    requires IsSpace(c)
    ensures Strip(u + [c]) == Strip(u)
  {
    var r := Strip(u);
    var a, b := StripStart(u), StripEnd(u);
    var lead, tail := u[..a], u[b..] + [c];
    assert AllSpace(lead) by {
      forall m | 0 <= m < |lead| ensures IsSpace(lead[m]) {
        assert lead[m] == u[m];
      }
    }
    assert AllSpace(tail) by {
      forall m | 0 <= m < |tail| ensures IsSpace(tail[m]) {
        if m < |u| - b { assert tail[m] == u[b + m]; }
      }
    }
    assert u + [c] == lead + r + tail;
    StripOf(lead, r, tail);
  }
}
