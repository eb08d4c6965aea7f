/** `parse_macos_versions` of the Xcode releases scraper: the minimum-macOS cell
    of a release row becomes a range `"A - B"`, an "or later" bound `"N.N+"`, a bare
    version, or the empty string. Each regular expression of the source is a
    scanner here; each scanner returns where the leftmost-longest-with-backtracking
    match of its pattern ends, for these patterns a single greedy pass. */
module XcodeVersions {
  import opened Text
  import opened Collections
  import opened Scan
  import opened XcodeText

  /** `\d+\.(?:\d+|x)(?:\.\d+)?` at `p` (no word boundaries). */
  function VersionXAt(s: string, p: nat): (e: Option<nat>)
    ensures e.Some? ==> p < e.value <= |s| && IsDigit(s[p])
  {
    if p < |s| && IsDigit(s[p]) then
      var e1 := Digits(s, p);
      if e1 < |s| && s[e1] == '.' then
        var q := e1 + 1;
        var e2 := if q < |s| && IsDigit(s[q]) then Digits(s, q)
                  else if q < |s| && s[q] == 'x' then q + 1
                  else q;
        if e2 == q then None
        else if DotDigit(s, e2) then Some(Digits(s, e2 + 1))
        else Some(e2)
      else None
    else None
  }

  /** `macOS\s+\w+\s+` at `j`: the codename phrase a range may repeat before its end. */
  function MacosPhraseEnd(s: string, j: nat): (k: Option<nat>)
    ensures k.Some? ==> j < k.value <= |s|
  {
    if StartsAt(s, j, "macOS") then
      var k1 := Run(s, j + 5, IsSpace);
      var k2 := Run(s, k1, IsWordChar);
      var k3 := Run(s, k2, IsSpace);
      if j + 5 < k1 < k2 < k3 then Some(k3) else None
    else None
  }

  /** Where the range pattern `(V)\s*[-–]\s*(?:macOS\s+\w+\s+)?(V)` matches at `p`: the end
      of the first group and the bounds of the second. */
  function RangeParse(s: string, p: nat): (g: Option<(nat, nat, nat)>)
    ensures g.Some? ==> p < g.value.0 < g.value.1 < g.value.2 <= |s|
    ensures g.Some? ==> IsDigit(s[p]) && IsDigit(s[g.value.1])
  {
    match VersionXAt(s, p)
    case None => None
    case Some(e) =>
      var i := Run(s, e, IsSpace);
      if i < |s| && (s[i] == '-' || s[i] == EnDash) then
        var j := Run(s, i + 1, IsSpace);
        var viaPhrase :=
          match MacosPhraseEnd(s, j)
          case Some(k) => (match VersionXAt(s, k) case Some(e2) => Some((e, k, e2)) case None => None)
          case None => None;
        if viaPhrase.Some? then viaPhrase
        else match VersionXAt(s, j)
          case Some(e2) => Some((e, j, e2))
          case None => None
      else None
  }

  function RangeAt(s: string, p: nat): (e: Option<nat>)
    ensures e.Some? ==> p < e.value <= |s|
  {
    match RangeParse(s, p)
    case Some(g) => Some(g.2)
    case None => None
  }

  /** The text a range match yields: `f"{start} - {end}"`. */
  function RangeText(s: string, m: Match): (r: string)
    requires RangeAt(s, m.start).Some?
  {
    var g := RangeParse(s, m.start).value;
    s[m.start..g.0] + " - " + s[g.1..g.2]
  }

  /** `(?:\.\d+)?\b` after a group ending at `e`: the optional group when a word boundary
      follows it, otherwise a word boundary right at `e`. */
  function OptionalGroupThenBoundary(s: string, e: nat): (r: Option<nat>)
    requires e <= |s|
    ensures r.Some? ==> e <= r.value <= |s|
  {
    if DotDigit(s, e) && WordEnd(s, Digits(s, e + 1)) then Some(Digits(s, e + 1))
    else if WordEnd(s, e) then Some(e)
    else None
  }

  /** `\b\d+\.\d+(?:\.\d+)?\b` at `p`: a strictly dotted number. */
  function DottedWordAt(s: string, p: nat): (e: Option<nat>)
    ensures e.Some? ==> p < e.value <= |s| && IsDigit(s[p])
  {
    if p < |s| && IsDigit(s[p]) && WordStart(s, p) then
      var e1 := Digits(s, p);
      if DotDigit(s, e1) then OptionalGroupThenBoundary(s, Digits(s, e1 + 1)) else None
    else None
  }

  /** `\b\d+\.(?:\d+|x)(?:\.\d+)?\b` at `p`: a dotted number whose second part may be `x`. */
  function VersionXWordAt(s: string, p: nat): (e: Option<nat>)
    ensures e.Some? ==> p < e.value <= |s| && IsDigit(s[p])
  {
    if p < |s| && IsDigit(s[p]) && WordStart(s, p) then
      var e1 := Digits(s, p);
      if e1 < |s| && s[e1] == '.' then
        var q := e1 + 1;
        if q < |s| && IsDigit(s[q]) then OptionalGroupThenBoundary(s, Digits(s, q))
        else if q < |s| && s[q] == 'x' then OptionalGroupThenBoundary(s, q + 1)
        else None
      else None
    else None
  }

  /** `"or later" in text.lower()`. */
  predicate OrLater(t: string) {
    Contains(Lower(t), "or later")
  }

  /** `parse_macos_versions`: a non-empty result starts with a digit, and the result is
      empty exactly when the cleaned text holds neither a range nor a `N.N`/`N.x` token. */
  function ParseMacosVersions(text: string): (r: string)
    ensures r != "" ==> IsDigit(r[0])
    ensures var t := CleanVersionText(text);
      r == "" <==> Search(t, 0, RangeAt).None? && Search(t, 0, VersionXWordAt).None?
  {
    var t := CleanVersionText(text);
    CascadeShape(t);
    Cascade(t)
  }

  /** The four rules of `parse_macos_versions`, first match wins, on the cleaned text. */
  function Cascade(t: string): string {
    match Search(t, 0, RangeAt)
    case Some(m) => RangeText(t, m)
    case None =>
      var dotted := Search(t, 0, DottedWordAt);
      if OrLater(t) && dotted.Some? then Found(t, dotted.value) + "+"
      else match Search(t, 0, VersionXWordAt)
        case Some(m) => Found(t, m)
        case None =>
          match dotted
          case Some(m) => Found(t, m)
          case None => ""
  }

  lemma CascadeShape(t: string)
    ensures var r := Cascade(t); r != "" ==> IsDigit(r[0])
    ensures Cascade(t) == "" <==> Search(t, 0, RangeAt).None? && Search(t, 0, VersionXWordAt).None?
  {
    var range, dotted, versionX := Search(t, 0, RangeAt), Search(t, 0, DottedWordAt), Search(t, 0, VersionXWordAt);
    if range.Some? {
      RangeRule(t);
    } else if OrLater(t) && dotted.Some? {
      OrLaterRule(t);
    } else if versionX.Some? {
      VersionRule(t);
    } else {
      FallbackFindsNothing(t);
    }
  }

  lemma RangeRule(t: string)
    requires Search(t, 0, RangeAt).Some?
    ensures Cascade(t) == RangeText(t, Search(t, 0, RangeAt).value)
    ensures Cascade(t) != "" && IsDigit(Cascade(t)[0])
  {
    assert IsDigit(t[Search(t, 0, RangeAt).value.start]);
  }

  lemma OrLaterRule(t: string)
    requires Search(t, 0, RangeAt).None? && OrLater(t) && Search(t, 0, DottedWordAt).Some?
    ensures Cascade(t) == Found(t, Search(t, 0, DottedWordAt).value) + "+"
    ensures Cascade(t) != "" && IsDigit(Cascade(t)[0]) && Search(t, 0, VersionXWordAt).Some?
  {
    var m := Search(t, 0, DottedWordAt).value;
    assert IsDigit(t[m.start]);
    DottedIsVersionX(t, m.start);
  }

  lemma VersionRule(t: string)
    requires Search(t, 0, RangeAt).None? && !(OrLater(t) && Search(t, 0, DottedWordAt).Some?)
    requires Search(t, 0, VersionXWordAt).Some?
    ensures Cascade(t) == Found(t, Search(t, 0, VersionXWordAt).value)
    ensures Cascade(t) != "" && IsDigit(Cascade(t)[0])
  {
    assert IsDigit(t[Search(t, 0, VersionXWordAt).value.start]);
  }

  /** Every strictly dotted number is also a `N.N`/`N.x` token, ending at the same place. */
  lemma DottedIsVersionX(s: string, p: nat)
    requires DottedWordAt(s, p).Some?
    ensures VersionXWordAt(s, p) == DottedWordAt(s, p)
  {
  }

  /** The source's last-resort search (strictly dotted numbers) runs only after the
      `N.N`/`N.x` search failed, and then it cannot find anything either. */
  lemma FallbackFindsNothing(t: string)
    requires Search(t, 0, VersionXWordAt).None?
    ensures Search(t, 0, DottedWordAt).None?
  {
    match Search(t, 0, DottedWordAt)
    case None =>
    case Some(m) =>
      DottedIsVersionX(t, m.start);
  }
}
