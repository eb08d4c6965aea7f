/** `normalize_os` and `should_include_os` of the macOS compatibility scraper: the
    version (or version range) is pulled out of an "Operating system" cell, and rows
    older than Mac OS X 10.8 are filtered out. */
module CompatOs {
  import opened Text
  import opened Collections
  import opened Scan

  /** `[–—-]`: en dash, em dash or hyphen. */
  predicate IsDash(c: char) {
    c == '–' || c == '—' || c == '-'
  }

  /** Greedy end of `\d+(?:\.\d+)*` started at `i`: the digit run, then as many
      `.digits` groups as follow. */
  function VEnd(s: string, i: nat): (e: nat)
    requires i <= |s|
    ensures i <= e <= |s|
    decreases |s| - i
  {
    var d := Digits(s, i);
    if DotDigit(s, d) then VEnd(s, d + 1) else d
  }

  /** A greedy version run ends on a digit when it starts on one. */
  lemma {:induction false} VEndDigit(s: string, i: nat)
    requires i < |s| && IsDigit(s[i])
    ensures i < VEnd(s, i) && IsDigit(s[VEnd(s, i) - 1])
    decreases |s| - i
  {
    var d := Digits(s, i);
    if DotDigit(s, d) {
      VEndDigit(s, d + 1);
    }
  }

  /** After a version run ending at `e1`: `\s*[–—-]\s*` and the digit that starts the
      second version, whose position is returned. */
  function RangeTail(s: string, e1: nat): (j: Option<nat>)
    requires e1 <= |s|
    ensures j.Some? ==> e1 < j.value < |s| && IsDigit(s[j.value])
  {
    var i := Run(s, e1, IsSpace);
    if i < |s| && IsDash(s[i]) then
      var j := Run(s, i + 1, IsSpace);
      if j < |s| && IsDigit(s[j]) then Some(j) else None
    else None
  }

  /** The states of `\d+(?:\.\d+)*(?:\s*[–—-]\s*\d+(?:\.\d+)*)?` read left to right:
      before anything, inside the first version, just after a dot in it, in the spaces
      before the dash, in the spaces after the dash, and the same two for the second
      version. The pattern is deterministic, so one state suffices. */
  datatype VState = Begin | Ver1 | Dot1 | Gap1 | Gap2 | Ver2 | Dot2

  /** One character of the pattern. */
  function Step(st: VState, c: char): (r: Option<VState>)
    ensures r == Some(Ver1) || r == Some(Ver2) ==> IsDigit(c)
  {
    match st
    case Begin => if IsDigit(c) then Some(Ver1) else None
    case Ver1 =>
      if IsDigit(c) then Some(Ver1) else if c == '.' then Some(Dot1)
      else if IsSpace(c) then Some(Gap1) else if IsDash(c) then Some(Gap2) else None
    case Dot1 => if IsDigit(c) then Some(Ver1) else None
    case Gap1 => if IsSpace(c) then Some(Gap1) else if IsDash(c) then Some(Gap2) else None
    case Gap2 => if IsSpace(c) then Some(Gap2) else if IsDigit(c) then Some(Ver2) else None
    case Ver2 => if IsDigit(c) then Some(Ver2) else if c == '.' then Some(Dot2) else None
    case Dot2 => if IsDigit(c) then Some(Ver2) else None
  }

  /** The state after reading `s[i..e]` from `st`, or None when the pattern fails. */
  function Walk(s: string, i: nat, e: nat, st: VState): Option<VState>
    requires i <= e <= |s|
    decreases e - i
  {
    if i == e then Some(st)
    else match Step(st, s[i])
      case None => None
      case Some(n) => Walk(s, i + 1, e, n)
  }

  /** `re.fullmatch(r"\d+(?:\.\d+)*(?:\s*[–—-]\s*\d+(?:\.\d+)*)?", s)`: a version, or
      two versions joined by a dash. */
  predicate FullVersion(s: string) {
    Walk(s, 0, |s|, Begin) == Some(Ver1) || Walk(s, 0, |s|, Begin) == Some(Ver2)
  }

  /** Reading up to `k` and then on to `e` is reading up to `e`. */
  lemma {:induction false} WalkThen(s: string, i: nat, k: nat, e: nat, st: VState, m: VState)
    requires i <= k <= e <= |s| && Walk(s, i, k, st) == Some(m)
    ensures Walk(s, i, e, st) == Walk(s, k, e, m)
    decreases k - i
  {
    if i < k {
      WalkThen(s, i + 1, k, e, Step(st, s[i]).value, m);
    }
  }

  /** Reading a window of the text in place is reading the cut-out window. */
  lemma {:induction false} WalkSlice(s: string, a: nat, b: nat, i: nat, st: VState)
    requires a <= i <= b <= |s|
    ensures Walk(s[a..b], i - a, b - a, st) == Walk(s, i, b, st)
    decreases b - i
  {
    if i < b {
      assert s[a..b][i - a] == s[i];
      match Step(st, s[i])
      case None =>
      case Some(n) => WalkSlice(s, a, b, i + 1, n);
    }
  }

  /** An accepting state is only reached on a digit. */
  lemma {:induction false} WalkEndsOnDigit(s: string, i: nat, e: nat, st: VState)
    requires i < e <= |s|
    requires Walk(s, i, e, st) == Some(Ver1) || Walk(s, i, e, st) == Some(Ver2)
    ensures IsDigit(s[e - 1])
    decreases e - i
  {
    if i + 1 < e {
      WalkEndsOnDigit(s, i + 1, e, Step(st, s[i]).value);
    }
  }

  /** `st` moves to the version state `v` on a digit, and `v` stays there. */
  predicate Enters(st: VState, v: VState) {
    || (v == Ver1 && (st == Begin || st == Ver1 || st == Dot1))
    || (v == Ver2 && (st == Gap2 || st == Ver2 || st == Dot2))
  }

  /** A run of digits takes a state that enters `v` to `v`. */
  lemma {:induction false} DigitsWalk(s: string, i: nat, e: nat, st: VState, v: VState)
    requires i <= |s| && i < e <= Digits(s, i) && Enters(st, v)
    ensures Walk(s, i, e, st) == Some(v)
    decreases e - i
  {
    if i + 1 < e {
      DigitsWalk(s, i + 1, e, v, v);
    }
  }

  /** A greedy version run, cut after any of its digits, takes a state that enters `v`
      to `v`. */
  lemma {:induction false} VersionWalk(s: string, i: nat, e: nat, st: VState, v: VState)
    requires i < |s| && i < e <= VEnd(s, i) && IsDigit(s[i]) && IsDigit(s[e - 1]) && Enters(st, v)
    ensures Walk(s, i, e, st) == Some(v)
    decreases |s| - i
  {
    var d := Digits(s, i);
    if e <= d {
      DigitsWalk(s, i, e, st, v);
    } else {
      DigitsWalk(s, i, d, st, v);
      var dot := if v == Ver1 then Dot1 else Dot2;
      VersionWalk(s, d + 1, e, dot, v);
      WalkThen(s, i, d, e, st, v);
    }
  }

  /** A run of spaces keeps a gap state. */
  lemma {:induction false} SpacesWalk(s: string, i: nat, e: nat, g: VState)
    requires i <= |s| && i <= e <= Run(s, i, IsSpace) && (g == Gap1 || g == Gap2)
    ensures Walk(s, i, e, g) == Some(g)
    decreases e - i
  {
    if i < e {
      SpacesWalk(s, i + 1, e, g);
    }
  }

  /** The spaces and dash between the two versions of a range. */
  lemma GapWalk(s: string, e1: nat, j: nat)
    requires e1 <= |s| && RangeTail(s, e1) == Some(j)
    ensures Walk(s, e1, j, Ver1) == Some(Gap2)
  {
    var i := Run(s, e1, IsSpace);
    SpacesWalk(s, i + 1, j, Gap2);
    if e1 < i {
      SpacesWalk(s, e1 + 1, i, Gap1);
      WalkThen(s, e1 + 1, i, j, Gap1, Gap1);
    }
  }

  /** The end a version match takes when `\b` must follow it: the greedy run backtracks,
      group by group and digit by digit, to the longest prefix that ends on a digit
      followed by a non-word character or by the end of the text. */
  function LastBoundary(s: string, j: nat, e: nat): (r: Option<nat>)
    requires j <= e <= |s|
    ensures r.Some? ==> j < r.value <= e && IsDigit(s[r.value - 1]) && WordEnd(s, r.value)
    decreases e
  {
    if e <= j then None
    else if IsDigit(s[e - 1]) && WordEnd(s, e) then Some(e)
    else LastBoundary(s, j, e - 1)
  }

  /** The end chosen is the longest one: no later digit is followed by a boundary, and
      when none is found no end in the run has one. */
  lemma {:induction false} LastBoundaryIsLongest(s: string, j: nat, e: nat, q: nat)
    requires j < q <= e <= |s| && IsDigit(s[q - 1]) && WordEnd(s, q)
    ensures LastBoundary(s, j, e).Some? && q <= LastBoundary(s, j, e).value
    decreases e
  {
    if q < e && !(IsDigit(s[e - 1]) && WordEnd(s, e)) {
      LastBoundaryIsLongest(s, j, e - 1, q);
    }
  }

  /** `\b(\d+(?:\.\d+)*\s*[–—-]\s*\d+(?:\.\d+)*)\b` at `p`. */
  function RangeOsAt(s: string, p: nat): (e: Option<nat>)
    ensures e.Some? ==> p < e.value <= |s|
  {
    if p < |s| && WordStart(s, p) && IsDigit(s[p]) then
      match RangeTail(s, VEnd(s, p))
      case None => None
      case Some(j) => LastBoundary(s, j, VEnd(s, j))
    else None
  }

  /** `\b(\d+(?:\.\d+)*)\b` at `p`. */
  function SingleOsAt(s: string, p: nat): (e: Option<nat>)
    ensures e.Some? ==> p < e.value <= |s|
  {
    if p < |s| && WordStart(s, p) && IsDigit(s[p]) then LastBoundary(s, p, VEnd(s, p))
    else None
  }

  /** `normalize_os`: the stripped text when it is already a version or a range, else
      the first range found in it, else the first version, else the stripped text. */
  function NormalizeOs(osText: string): (r: string)
    ensures FullVersion(Strip(osText)) ==> r == Strip(osText)
  {
    var s := Strip(osText);
    if FullVersion(s) then s
    else match Search(s, 0, RangeOsAt)
      case Some(m) => s[m.start..m.end]
      case None =>
        match Search(s, 0, SingleOsAt)
        case Some(m) => s[m.start..m.end]
        case None => s
  }

  /** A version-range match, cut out, is a full version range. */
  lemma RangeMatchIsFull(s: string, p: nat, e: nat)
    requires RangeOsAt(s, p) == Some(e)
    ensures FullVersion(s[p..e])
  {
    RangeWalk(s, p, e);
    WalkIsFull(s, p, e);
  }

  /** Read in place, a range match ends in the second version's state: the first
      version, the gap with its dash, and the second version up to the match's end. */
  lemma RangeWalk(s: string, p: nat, e: nat)
    requires RangeOsAt(s, p) == Some(e)
    ensures Walk(s, p, e, Begin) == Some(Ver2)
  {
    var e1 := VEnd(s, p);
    var j := RangeTail(s, e1).value;
    RangeWalkParts(s, p, e1, j, e);
  }

  /** The walk over a range: the first version, the gap with its dash, the second. */
  lemma RangeWalkParts(s: string, p: nat, e1: nat, j: nat, e: nat)
    requires p < |s| && IsDigit(s[p]) && e1 == VEnd(s, p)
    requires RangeTail(s, e1) == Some(j) && LastBoundary(s, j, VEnd(s, j)) == Some(e)
    ensures Walk(s, p, e, Begin) == Some(Ver2)
  {
    assert Walk(s, p, e1, Begin) == Some(Ver1) by {
      VEndDigit(s, p);
      VersionWalk(s, p, e1, Begin, Ver1);
    }
    assert Walk(s, j, e, Gap2) == Some(Ver2) by {
      SecondVersionWalk(s, j, e);
    }
    GapWalk(s, e1, j);
    WalkThen(s, e1, j, e, Ver1, Gap2);
    WalkThen(s, p, e1, e, Begin, Ver1);
  }

  /** The second version of a range, up to its last boundary, is read to `Ver2`. */
  lemma SecondVersionWalk(s: string, j: nat, e: nat)
    requires j < |s| && IsDigit(s[j]) && LastBoundary(s, j, VEnd(s, j)) == Some(e)
    ensures Walk(s, j, e, Gap2) == Some(Ver2)
  {
    var v := VEnd(s, j);
    assert j < e <= v && IsDigit(s[e - 1]);
    VersionWalk(s, j, e, Gap2, Ver2);
  }

  /** Text read in place to an accepting state is, cut out, a full version. */
  lemma WalkIsFull(s: string, p: nat, e: nat)
    requires p <= e <= |s|
    requires Walk(s, p, e, Begin) == Some(Ver1) || Walk(s, p, e, Begin) == Some(Ver2)
    ensures FullVersion(s[p..e])
  {
    WalkSlice(s, p, e, p, Begin);
  }

  /** A single-version match, cut out, is a full version. */
  lemma SingleMatchIsFull(s: string, p: nat, e: nat)
    requires SingleOsAt(s, p) == Some(e)
    ensures FullVersion(s[p..e])
  {
    VersionWalk(s, p, e, Begin, Ver1);
    WalkIsFull(s, p, e);
  }

  /** A full version starts and ends with a digit. */
  lemma FullEnds(v: string)
    requires FullVersion(v)
    ensures v != "" && IsDigit(v[0]) && IsDigit(v[|v| - 1])
  {
    WalkEndsOnDigit(v, 0, |v|, Begin);
  }

  /** A full version starts and ends with a digit, so stripping leaves it alone. */
  lemma FullIsStripped(v: string)
    requires FullVersion(v)
    ensures Strip(v) == v
  {
    FullEnds(v);
    StripByNoop(v, IsSpace);
  }

  /** What `normalize_os` returns is either a full version (range) or the stripped text. */
  lemma NormalizeOsShape(osText: string)
    ensures FullVersion(NormalizeOs(osText)) || NormalizeOs(osText) == Strip(osText)
  {
    var s := Strip(osText);
    if !FullVersion(s) {
      match Search(s, 0, RangeOsAt)
      case Some(m) =>
        RangeMatchIsFull(s, m.start, m.end);
      case None =>
        match Search(s, 0, SingleOsAt)
        case Some(m) =>
          SingleMatchIsFull(s, m.start, m.end);
        case None =>
    }
  }

  /** `normalize_os` is idempotent: its result is already a version, a range, or text
      in which neither is found. */
  lemma NormalizeOsIdempotent(osText: string)
    ensures NormalizeOs(NormalizeOs(osText)) == NormalizeOs(osText)
  {
    var r := NormalizeOs(osText);
    NormalizeOsShape(osText);
    if FullVersion(r) {
      FullIsStripped(r);
    } else {
      StripIdempotent(osText, IsSpace);
    }
  }

  /** When the stripped text is not a version by itself, `normalize_os` returns the
      leftmost range in it, else the leftmost version; it falls back to the stripped text
      only when the text holds neither. */
  lemma NormalizeOsExtracts(osText: string)
    ensures var s, r := Strip(osText), NormalizeOs(osText);
      !FullVersion(s) && Search(s, 0, RangeOsAt).Some? ==>
        var m := Search(s, 0, RangeOsAt).value;
        && r == s[m.start..m.end] && FullVersion(r)
        && forall q: nat :: q < m.start ==> RangeOsAt(s, q).None?
    ensures var s, r := Strip(osText), NormalizeOs(osText);
      !FullVersion(s) && Search(s, 0, RangeOsAt).None? && Search(s, 0, SingleOsAt).Some? ==>
        var m := Search(s, 0, SingleOsAt).value;
        && r == s[m.start..m.end] && FullVersion(r)
        && forall q: nat :: q < m.start ==> SingleOsAt(s, q).None?
    ensures var s, r := Strip(osText), NormalizeOs(osText);
      r == s && !FullVersion(s) ==> Search(s, 0, RangeOsAt).None? && Search(s, 0, SingleOsAt).None?
  {
    var s := Strip(osText);
    if !FullVersion(s) {
      match Search(s, 0, RangeOsAt)
      case Some(m) =>
        RangeMatchIsFull(s, m.start, m.end);
      case None =>
        match Search(s, 0, SingleOsAt)
        case Some(m) =>
          SingleMatchIsFull(s, m.start, m.end);
        case None =>
    }
  }

  /** Position `p` holds a digit: where `re.search(r"(\d+)...")` starts. */
  function DigitAt(s: string, p: nat): (e: Option<nat>)
    ensures e.Some? ==> p < e.value <= |s|
  {
    if p < |s| && IsDigit(s[p]) then Some(p + 1) else None
  }

  /** The value of one ASCII digit. */
  function DigitValue(c: char): (n: nat)
    requires IsDigit(c)
    ensures n < 10
  {
    c as int - '0' as int
  }

  /** Python's `int` of a string of ASCII digits. Defined from the end. */
  function DigitsValue(v: string): nat
    requires forall k :: 0 <= k < |v| ==> IsDigit(v[k])
  {
    if v == [] then 0
    else DigitsValue(v[..|v| - 1]) * 10 + DigitValue(v[|v| - 1])
  }

  /** The value of the digit run starting at `i`. */
  function RunValue(s: string, i: nat): nat
    requires i <= |s|
  {
    var e := Digits(s, i);
    DigitsAreDigits(s, i);
    assert forall k :: 0 <= k < e - i ==> IsDigit(s[i..e][k]);
    DigitsValue(s[i..e])
  }

  /** The major and minor numbers of the first `(\d+)(?:\.(\d+))?` match: the digits at
      the first digit of the text, and the digits after a following dot (0 without one). */
  function FirstVersion(s: string): (r: Option<(nat, nat)>)
    ensures r.None? <==> forall k :: 0 <= k < |s| ==> !IsDigit(s[k])
  {
    match Search(s, 0, DigitAt)
    case None =>
      assert forall k :: 0 <= k < |s| ==> !IsDigit(s[k]) by {
        forall k | 0 <= k < |s| ensures !IsDigit(s[k]) {
          assert DigitAt(s, k).None?;
        }
      }
      None
    case Some(m) =>
      var e := Digits(s, m.start);
      var minor := if DotDigit(s, e) then RunValue(s, e + 1) else 0;
      Some((RunValue(s, m.start), minor))
  }

  /** The version read is the one at the first digit of the text: its digit run, and the
      digit run after a dot that directly follows it. */
  lemma FirstVersionAt(s: string, k: nat)
    requires k < |s| && IsDigit(s[k])
    requires forall i :: 0 <= i < k ==> !IsDigit(s[i])
    ensures FirstVersion(s).Some? && FirstVersion(s).value.0 == RunValue(s, k)
    ensures DotDigit(s, Digits(s, k)) ==> FirstVersion(s).value.1 == RunValue(s, Digits(s, k) + 1)
    ensures !DotDigit(s, Digits(s, k)) ==> FirstVersion(s).value.1 == 0
  {
    assert DigitAt(s, k).Some?;
    var m := Search(s, 0, DigitAt).value;
    assert m.start == k;
  }

  /** `should_include_os`: the first version is 10.8 or later. */
  function ShouldIncludeOs(osStr: string): (r: bool)
    ensures (forall k :: 0 <= k < |osStr| ==> !IsDigit(osStr[k])) ==> !r
  {
    match FirstVersion(osStr)
    case None => false
    case Some((major, minor)) => major >= 11 || (major == 10 && minor >= 8)
  }

  /** The threshold the docstring gives: 10.7 is left out. */
  lemma ExcludesTenSeven()
    ensures !ShouldIncludeOs("10.7")
  {
    var s := "10.7";
    assert DigitAt(s, 0) == Some(1);
    assert Digits(s, 0) == 2 && Digits(s, 3) == 4;
    assert s[0..2] == "10" && s[3..4] == "7";
    assert DigitsValue("1") == 1;
    assert FirstVersion(s) == Some((10, 7));
  }

  /** The threshold the docstring gives: 10.8 is kept. */
  lemma IncludesTenEight()
    ensures ShouldIncludeOs("10.8")
  {
    var s := "10.8";
    assert DigitAt(s, 0) == Some(1);
    assert Digits(s, 0) == 2 && Digits(s, 3) == 4;
    assert s[0..2] == "10" && s[3..4] == "8";
    assert DigitsValue("1") == 1;
    assert FirstVersion(s) == Some((10, 8));
  }

  /** A major below 10 is left out whatever its minor. */
  lemma ExcludesNineNine()
    ensures !ShouldIncludeOs("9.9")
  {
    var s := "9.9";
    assert DigitAt(s, 0) == Some(1);
    assert Digits(s, 0) == 1 && Digits(s, 2) == 3;
    assert s[0..1] == "9" && s[2..3] == "9";
    assert FirstVersion(s) == Some((9, 9));
  }

  /** A major of 11 is kept without a minor. */
  lemma IncludesEleven()
    ensures ShouldIncludeOs("11")
  {
    var s := "11";
    assert DigitAt(s, 0) == Some(1);
    assert Digits(s, 0) == 2;
    assert s[0..2] == "11";
    assert DigitsValue("1") == 1;
    assert FirstVersion(s) == Some((11, 0));
  }
}
