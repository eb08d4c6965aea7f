/** The shape of what the version patterns of the Xcode releases scraper match: a digit
    run, a dot, a digit run or `x`, and an optional dot and digit run; the
    strictly dotted pattern leaves out the `x`. */
module VersionForms {
  import opened Text
  import opened Collections
  import opened Scan
  import opened XcodeText
  import opened XcodeVersions

  /** `\d+` as a whole string. */
  predicate IsDigitRun(v: string) {
    v != [] && forall i :: 0 <= i < |v| ==> IsDigit(v[i])
  }

  /** `v` is `\d+\.(?:\d+|x)(?:\.\d+)?`, with its first dot at `a` and its second part
      ending at `b`. */
  predicate VersionSplit(v: string, a: nat, b: nat) {
    && 0 < a < b <= |v|
    && IsDigitRun(v[..a]) && v[a] == '.'
    && (IsDigitRun(v[a + 1..b]) || v[a + 1..b] == "x")
    && (b == |v| || (v[b] == '.' && IsDigitRun(v[b + 1..])))
  }

  /** `v` is `\d+\.\d+(?:\.\d+)?`, split as in `VersionSplit`. */
  predicate DottedSplit(v: string, a: nat, b: nat) {
    VersionSplit(v, a, b) && IsDigitRun(v[a + 1..b])
  }

  ghost predicate IsVersionX(v: string) {
    exists a: nat, b: nat :: VersionSplit(v, a, b)
  }

  ghost predicate IsDotted(v: string) {
    exists a: nat, b: nat :: DottedSplit(v, a, b)
  }

  /** `r` is the range `"A - B"` of the versions `a` and `b`. */
  ghost predicate IsRangeOf(r: string, a: string, b: string) {
    IsVersionX(a) && IsVersionX(b) && r == a + " - " + b
  }

  /** `r` is the bound `"A+"` of the strictly dotted version `a`. */
  ghost predicate IsOrLaterOf(r: string, a: string) {
    IsDotted(a) && r == a + "+"
  }

  /** The digit run read at a digit is a non-empty run of digits. */
  lemma RunIsDigits(s: string, i: nat)
    requires i < |s| && IsDigit(s[i])
    ensures IsDigitRun(s[i..Digits(s, i)])
  {
    DigitsAreDigits(s, i);
  }

  /** The parts of a version read in `s` are the parts of the matched slice. */
  lemma Window(s: string, p: nat, e1: nat, e2: nat, e: nat)
    requires p < e1 < e2 <= e <= |s|
    requires IsDigitRun(s[p..e1]) && s[e1] == '.'
    requires e == e2 || (s[e2] == '.' && IsDigitRun(s[e2 + 1..e]))
    ensures var v := s[p..e];
      && 0 < e1 - p < e2 - p <= |v| && IsDigitRun(v[..e1 - p]) && v[e1 - p] == '.'
      && v[e1 - p + 1..e2 - p] == s[e1 + 1..e2]
      && (e2 - p == |v| || (v[e2 - p] == '.' && IsDigitRun(v[e2 - p + 1..])))
  {
    var v := s[p..e];
    assert v[..e1 - p] == s[p..e1];
    assert v[e1 - p + 1..e2 - p] == s[e1 + 1..e2] by {
      assert forall k :: e1 + 1 <= k < e2 ==> v[k - p] == s[k];
    }
    if e2 < e {
      assert v[e2 - p + 1..] == s[e2 + 1..e];
    }
  }

  /** The optional `(?:\.\d+)` group after `e2` is a dot and a digit run when present. */
  lemma TailGroup(s: string, e2: nat)
    requires e2 <= |s|
    ensures DotDigit(s, e2) ==> e2 < Digits(s, e2 + 1) && IsDigitRun(s[e2 + 1..Digits(s, e2 + 1)])
  {
    if DotDigit(s, e2) {
      RunIsDigits(s, e2 + 1);
    }
  }

  /** A match of `\d+\.(?:\d+|x)(?:\.\d+)?` is a version with an optional `x` part. */
  lemma VersionXShape(s: string, p: nat)
    requires VersionXAt(s, p).Some?
    ensures IsVersionX(s[p..VersionXAt(s, p).value])
  {
    var e := VersionXAt(s, p).value;
    var e1 := Digits(s, p);
    var q := e1 + 1;
    RunIsDigits(s, p);
    var e2 := if IsDigit(s[q]) then Digits(s, q) else q + 1;
    if IsDigit(s[q]) {
      RunIsDigits(s, q);
    } else {
      assert s[q..e2] == "x";
    }
    TailGroup(s, e2);
    Window(s, p, e1, e2, e);
    assert VersionSplit(s[p..e], e1 - p, e2 - p);
  }

  /** `(?:\.\d+)?\b` after `e2` ends the word, after the optional group when it is there. */
  lemma BoundaryShape(s: string, e2: nat)
    requires e2 <= |s| && OptionalGroupThenBoundary(s, e2).Some?
    ensures var e := OptionalGroupThenBoundary(s, e2).value;
      && WordEnd(s, e)
      && (e == e2 || (s[e2] == '.' && IsDigitRun(s[e2 + 1..e])))
  {
    TailGroup(s, e2);
  }

  /** A match of `\b\d+\.(?:\d+|x)(?:\.\d+)?\b` is a version with an optional `x`
      part, with a word boundary on each side. */
  lemma VersionXWordShape(s: string, p: nat)
    requires VersionXWordAt(s, p).Some?
    ensures var e := VersionXWordAt(s, p).value;
      WordStart(s, p) && WordEnd(s, e) && IsVersionX(s[p..e])
  {
    var e := VersionXWordAt(s, p).value;
    var e1 := Digits(s, p);
    var q := e1 + 1;
    RunIsDigits(s, p);
    var e2 := if IsDigit(s[q]) then Digits(s, q) else q + 1;
    if IsDigit(s[q]) {
      RunIsDigits(s, q);
    } else {
      assert s[q..e2] == "x";
    }
    BoundaryShape(s, e2);
    Window(s, p, e1, e2, e);
    assert VersionSplit(s[p..e], e1 - p, e2 - p);
  }

  /** A match of `\b\d+\.\d+(?:\.\d+)?\b` is a strictly dotted version with a word
      boundary on each side. */
  lemma DottedWordShape(s: string, p: nat)
    requires DottedWordAt(s, p).Some?
    ensures var e := DottedWordAt(s, p).value;
      WordStart(s, p) && WordEnd(s, e) && IsDotted(s[p..e])
  {
    var e := DottedWordAt(s, p).value;
    var e1 := Digits(s, p);
    var e2 := Digits(s, e1 + 1);
    RunIsDigits(s, p);
    RunIsDigits(s, e1 + 1);
    BoundaryShape(s, e2);
    Window(s, p, e1, e2, e);
    assert DottedSplit(s[p..e], e1 - p, e2 - p);
  }

  /** The range pattern's two groups are versions, and a hyphen or an en dash follows
      the first after optional whitespace. */
  lemma RangeShape(s: string, p: nat, g: (nat, nat, nat))
    requires RangeParse(s, p) == Some(g)
    ensures IsVersionX(s[p..g.0]) && IsVersionX(s[g.1..g.2])
    ensures var i := Run(s, g.0, IsSpace); i < g.1 && (s[i] == '-' || s[i] == EnDash)
  {
    assert VersionXAt(s, p) == Some(g.0) && VersionXAt(s, g.1) == Some(g.2);
    VersionXShape(s, p);
    VersionXShape(s, g.1);
  }

  /** `parse_macos_versions` yields `"A - B"` when the cleaned text holds a range,
      `"A+"` with a strictly dotted `A` on the "or later" rule, and otherwise a single
      version or nothing. */
  lemma ParseMacosVersionsForms(text: string)
    ensures var t, r := CleanVersionText(text), ParseMacosVersions(text);
      Search(t, 0, RangeAt).Some? ==>
        exists a, b :: IsRangeOf(r, a, b)
    ensures var t, r := CleanVersionText(text), ParseMacosVersions(text);
      Search(t, 0, RangeAt).None? && OrLater(t) && Search(t, 0, DottedWordAt).Some? ==>
        exists a :: IsOrLaterOf(r, a)
    ensures var t, r := CleanVersionText(text), ParseMacosVersions(text);
      Search(t, 0, RangeAt).None? && !(OrLater(t) && Search(t, 0, DottedWordAt).Some?) ==>
        r == "" || IsVersionX(r)
  {
    var t := CleanVersionText(text);
    assert ParseMacosVersions(text) == Cascade(t);
    if Search(t, 0, RangeAt).Some? {
      RangeForm(t);
    } else if OrLater(t) && Search(t, 0, DottedWordAt).Some? {
      OrLaterForm(t);
    } else {
      VersionForm(t);
    }
  }

  lemma RangeForm(t: string)
    requires Search(t, 0, RangeAt).Some?
    ensures exists a, b :: IsRangeOf(Cascade(t), a, b)
  {
    RangeRule(t);
    RangeTextForm(t, Search(t, 0, RangeAt).value);
  }

  /** The text of a range match is its two versions around `" - "`. */
  lemma RangeTextForm(s: string, m: Match)
    requires RangeAt(s, m.start).Some?
    ensures exists a, b :: IsRangeOf(RangeText(s, m), a, b)
  {
    var g := RangeParse(s, m.start).value;
    RangeTextParts(s, m, g);
    RangeShape(s, m.start, g);
    assert IsRangeOf(RangeText(s, m), s[m.start..g.0], s[g.1..g.2]);
  }

  lemma RangeTextParts(s: string, m: Match, g: (nat, nat, nat))
    requires RangeParse(s, m.start) == Some(g)
    ensures RangeAt(s, m.start).Some? && RangeText(s, m) == s[m.start..g.0] + " - " + s[g.1..g.2]
  {
  }

  lemma OrLaterForm(t: string)
    requires Search(t, 0, RangeAt).None? && OrLater(t) && Search(t, 0, DottedWordAt).Some?
    ensures exists a :: IsOrLaterOf(Cascade(t), a)
  {
    var m := Search(t, 0, DottedWordAt).value;
    OrLaterRule(t);
    DottedWordShape(t, m.start);
    assert IsOrLaterOf(Cascade(t), t[m.start..m.end]);
  }

  lemma VersionForm(t: string)
    requires Search(t, 0, RangeAt).None? && !(OrLater(t) && Search(t, 0, DottedWordAt).Some?)
    ensures Cascade(t) == "" || IsVersionX(Cascade(t))
  {
    if Search(t, 0, VersionXWordAt).Some? {
      var m := Search(t, 0, VersionXWordAt).value;
      VersionRule(t);
      VersionXWordShape(t, m.start);
    } else {
      CascadeShape(t);
    }
  }
}
