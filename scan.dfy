/** The small pieces out of which the scrapers' fixed regular expressions are
    rebuilt as hand-written scanners: word boundaries, `\.\d`, and `re.search`
    (leftmost position at which a pattern matches). */
module Scan {
  import opened Text
  import opened Collections

  /** `\b` before a word character at `p`: nothing or a non-word character precedes it. */
  predicate WordStart(s: string, p: nat)
    requires p <= |s|
  {
    p == 0 || !IsWordChar(s[p - 1])
  }

  /** `\b` after a word character ending at `e`: nothing or a non-word character follows. */
  predicate WordEnd(s: string, e: nat)
    requires e <= |s|
  {
    e == |s| || !IsWordChar(s[e])
  }

  /** `\.\d` at `i`: a dot followed by a digit. */
  predicate DotDigit(s: string, i: nat) {
    i + 1 < |s| && s[i] == '.' && IsDigit(s[i + 1])
  }

  /** End of the digit run starting at `i` (`\d*` read greedily). */
  function Digits(s: string, i: nat): (e: nat)
    requires i <= |s|
    ensures i <= e <= |s|
    ensures e < |s| ==> !IsDigit(s[e])
    ensures i < |s| && IsDigit(s[i]) ==> i < e && IsDigit(s[e - 1])
    decreases |s| - i
  {
    if i < |s| && IsDigit(s[i]) then Digits(s, i + 1) else i
  }

  /** Every character of a digit run is a digit. */
  lemma {:induction false} DigitsAreDigits(s: string, i: nat)
    requires i <= |s|
    ensures forall k :: i <= k < Digits(s, i) ==> IsDigit(s[k])
    decreases |s| - i
  {
    if i < |s| && IsDigit(s[i]) {
      DigitsAreDigits(s, i + 1);
    }
  }

  /** A digit run read in a window of the text stops where it stops in the text, or at
      the window's end. */
  lemma {:induction false} DigitsSlice(s: string, a: nat, b: nat, i: nat)
    requires a <= i <= b <= |s|
    ensures Digits(s, i) < b ==> Digits(s[a..b], i - a) + a == Digits(s, i)
    ensures Digits(s, i) >= b ==> Digits(s[a..b], i - a) + a == b
    decreases b - i
  {
    if i < b && IsDigit(s[i]) {
      assert s[a..b][i - a] == s[i];
      DigitsSlice(s, a, b, i + 1);
    }
  }

  /** A match found by a search: the matched text is `s[start..end]`. */
  datatype Match = Match(start: nat, end: nat)

  /** A scanner tells, for each position, where a match starting there ends. */
  type Scanner = (string, nat) -> Option<nat>

  /** Every match the scanner reports on `s` is a non-empty slice of `s`. */
  ghost predicate InBounds(s: string, at: Scanner) {
    forall q: nat :: at(s, q).Some? ==> q < at(s, q).value <= |s|
  }

  /** `re.search`: the leftmost position, from `from` on, at which the scanner matches. */
  function Search(s: string, from: nat, at: Scanner): (r: Option<Match>)
    ensures r.Some? ==> from <= r.value.start && at(s, r.value.start) == Some(r.value.end)
    ensures r.Some? ==> forall q: nat :: from <= q < r.value.start ==> at(s, q).None?
    ensures r.None? ==> forall q: nat :: from <= q <= |s| ==> at(s, q).None?
    decreases |s| + 1 - from
  {
    if from > |s| then None
    else match at(s, from)
      case Some(e) => Some(Match(from, e))
      case None => Search(s, from + 1, at)
  }

  /** The search finds the first position from `from` on at which the scanner matches. */
  lemma SearchFinds(s: string, from: nat, at: Scanner, k: nat, e: nat)
    requires from <= k <= |s| && at(s, k) == Some(e)
    requires forall q: nat :: from <= q < k ==> at(s, q).None?
    ensures Search(s, from, at) == Some(Match(k, e))
  {
    var r := Search(s, from, at);
    assert r.Some?;
    assert !(r.value.start < k);
    assert !(r.value.start > k);
  }

  /** The text of a match. */
  function Found(s: string, m: Match): string
    requires m.start <= m.end <= |s|
  {
    s[m.start..m.end]
  }

  /** End of the digit group starting at `j` when the text is read only up to `e`. */
  function GroupEnd(s: string, j: nat, e: nat): (d: nat)
    requires j <= e <= |s|
    ensures j <= d <= e
  {
    if Digits(s, j) < e then Digits(s, j) else e
  }

  /** `s[j..e]`, read in place, is one to `groups` groups of digits separated by single
      dots. */
  predicate NumberIn(s: string, j: nat, e: nat, groups: nat)
    requires e <= |s|
    decreases e - j
  {
    && groups >= 1 && j < e && IsDigit(s[j])
    && var d := GroupEnd(s, j, e);
       d == e || (s[d] == '.' && NumberIn(s, d + 1, e, groups - 1))
  }

  /** A digit group read in a window ends where it ends in the text read up to the
      window's end. */
  lemma GroupEndWindow(s: string, a: nat, j: nat, e: nat)
    requires a <= j <= e <= |s|
    ensures GroupEnd(s[a..e], j - a, e - a) + a == GroupEnd(s, j, e)
  {
    DigitsSlice(s, a, e, j);
  }

  /** `v` is one to `groups` groups of digits separated by single dots (`16`, `16.4`,
      `16.4.1` for three groups). */
  predicate IsNumber(v: string, groups: nat) {
    NumberIn(v, 0, |v|, groups)
  }

  /** Reading a number in place and reading it in the cut-out window agree. */
  lemma {:induction false} NumberInWindow(s: string, a: nat, j: nat, e: nat, groups: nat)
    requires a <= j <= e <= |s|
    ensures NumberIn(s[a..e], j - a, e - a, groups) == NumberIn(s, j, e, groups)
    decreases e - j
  {
    var t := s[a..e];
    if groups >= 1 && j < e {
      assert t[j - a] == s[j];
      GroupEndWindow(s, a, j, e);
      var d := GroupEnd(s, j, e);
      if d < e {
        assert t[d - a] == s[d];
        NumberInWindow(s, a, d + 1, e, groups - 1);
      }
    }
  }

  /** Reading the number in place and reading the cut-out slice agree. */
  lemma NumberInSlice(s: string, j: nat, e: nat, groups: nat)
    requires j <= e <= |s|
    ensures NumberIn(s, j, e, groups) <==> IsNumber(s[j..e], groups)
  {
    NumberInWindow(s, j, j, e, groups);
  }
}
