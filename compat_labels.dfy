/** `split_category_labels` of the macOS compatibility scraper: a supported-systems
    chunk such as "MacBook Pro (2019 or later) Desktops : Mac Mini (M1 or later)" is
    cut at its "Laptop(s):" / "Desktop(s):" labels, keeping the text on both sides. */
module CompatLabels {
  import opened Text
  import opened Collections
  import opened Scan

  /** The lower-case word `w` is at `p`, ignoring case: `Lower(s[p..p + |w|]) == w`. */
  predicate WordIs(s: string, p: nat, w: string) {
    p + |w| <= |s| && forall k :: 0 <= k < |w| ==> LowerChar(s[p + k]) == w[k]
  }

  /** `Laptop` or `Desktop` at `p`, ignoring case: where the word ends. */
  function LabelWordEnd(s: string, p: nat): (q: Option<nat>)
    ensures q.Some? ==> p < q.value <= |s|
  {
    if WordIs(s, p, "laptop") then Some(p + 6)
    else if WordIs(s, p, "desktop") then Some(p + 7)
    else None
  }

  /** The optional `s` of `Laptops?`/`Desktops?` after a word ending at `q`. */
  function Plural(s: string, q: nat): (q2: nat)
    requires q <= |s|
    ensures q <= q2 <= |s|
  {
    if q < |s| && (s[q] == 's' || s[q] == 'S') then q + 1 else q
  }

  /** `\s*:\s*` at `j`: where the whitespace after the colon ends. */
  function ColonEnd(s: string, j: nat): (e: Option<nat>)
    requires j <= |s|
    ensures e.Some? ==> j < e.value <= |s|
  {
    var i := Run(s, j, IsSpace);
    if i < |s| && s[i] == ':' then Some(Run(s, i + 1, IsSpace)) else None
  }

  /** `\b(Laptops?|Desktops?)\s*:\s*` at `p`, ignoring case: where the label, with the
      whitespace after its colon, ends. */
  function LabelAt(s: string, p: nat): (e: Option<nat>)
    ensures e.Some? ==> p < e.value <= |s|
  {
    if p <= |s| && WordStart(s, p) then
      match LabelWordEnd(s, p)
      case None => None
      case Some(q) => ColonEnd(s, Plural(s, q))
    else None
  }

  /** `LABEL_PAT.search(t)` finds something. */
  predicate HasLabel(t: string) {
    Search(t, 0, LabelAt).Some?
  }

  /** A label inside a window of `s` that starts after a non-word character (or at the
      start) is a label of `s` at the same place. */
  lemma LabelWindow(s: string, a: nat, t: string, q: nat)
    requires a + |t| <= |s| && forall k :: 0 <= k < |t| ==> t[k] == s[a + k]
    requires a == 0 || !IsWordChar(s[a - 1])
    requires LabelAt(t, q).Some?
    ensures LabelAt(s, a + q).Some?
  {
    var qe := LabelAtShape(t, q);
    var j := Plural(t, qe);
    LabelPartsWindow(s, a, t, q, qe, j);
    LabelAtOf(s, a + q, a + qe, a + j);
  }

  /** The parts of a label of a window are found at the same places in `s`. */
  lemma LabelPartsWindow(s: string, a: nat, t: string, q: nat, qe: nat, j: nat)
    requires a + |t| <= |s| && forall k :: 0 <= k < |t| ==> t[k] == s[a + k]
    requires a == 0 || !IsWordChar(s[a - 1])
    requires q <= |t| && WordStart(t, q) && LabelWordEnd(t, q) == Some(qe)
    requires qe < |t| && j == Plural(t, qe) && ColonEnd(t, j).Some?
    ensures a + q <= |s| && WordStart(s, a + q) && LabelWordEnd(s, a + q) == Some(a + qe)
    ensures a + qe <= |s| && Plural(s, a + qe) == a + j && ColonEnd(s, a + j).Some?
  {
    LabelWordWindow(s, a, t, q);
    assert t == s[a..a + |t|];
    PluralWindow(s, a, t, qe);
    ColonWindow(s, a, t, j);
  }

  /** A label word at a word start, its optional `s` and a colon make a label. */
  lemma LabelAtOf(s: string, p: nat, qe: nat, j: nat)
    requires p <= |s| && WordStart(s, p) && LabelWordEnd(s, p) == Some(qe)
    requires qe <= |s| && Plural(s, qe) == j && ColonEnd(s, j).Some?
    ensures LabelAt(s, p).Some?
  {
  }

  /** What a label match at `p` is made of: the word ending at `qe`, then the optional
      `s`, whitespace and a colon. */
  lemma LabelAtShape(s: string, p: nat) returns (qe: nat)
    requires LabelAt(s, p).Some?
    ensures p <= |s| && WordStart(s, p) && LabelWordEnd(s, p) == Some(qe)
    ensures qe < |s| && ColonEnd(s, Plural(s, qe)).Some?
  {
    qe := LabelWordEnd(s, p).value;
  }

  /** The optional `s` after a label word of a window is found at the same place in `s`. */
  lemma PluralWindow(s: string, a: nat, t: string, qe: nat)
    requires a + |t| <= |s| && t == s[a..a + |t|] && qe < |t|
    ensures Plural(s, a + qe) == a + Plural(t, qe)
  {
    assert s[a + qe] == t[qe];
  }

  /** The whitespace and colon after a label word of a window are found at the same
      place in `s`. */
  lemma ColonWindow(s: string, a: nat, t: string, j: nat)
    requires a + |t| <= |s| && t == s[a..a + |t|] && j <= |t|
    requires ColonEnd(t, j).Some?
    ensures ColonEnd(s, a + j).Some?
  {
    var i := Run(t, j, IsSpace);
    assert s[a + i] == t[i];
    SpaceRunWindow(s, a, t, j);
  }

  /** The label word of a window, after a word boundary there, is a label word of `s`. */
  lemma LabelWordWindow(s: string, a: nat, t: string, q: nat)
    requires a + |t| <= |s| && forall k :: 0 <= k < |t| ==> t[k] == s[a + k]
    requires a == 0 || !IsWordChar(s[a - 1])
    requires q <= |t| && WordStart(t, q) && LabelWordEnd(t, q).Some?
    ensures WordStart(s, a + q) && LabelWordEnd(s, a + q) == Some(a + LabelWordEnd(t, q).value)
  {
    assert q > 0 ==> t[q - 1] == s[a + q - 1];
    assert t[q] == s[a + q];
    if WordIs(t, q, "laptop") {
      assert WordIs(s, a + q, "laptop");
    } else {
      assert WordIs(s, a + q, "desktop");
    }
  }

  /** A whitespace run that stops inside a window stops at the same place in `s`. */
  lemma SpaceRunWindow(s: string, a: nat, t: string, j: nat)
    requires a + |t| <= |s| && t == s[a..a + |t|] && j <= |t| && Run(t, j, IsSpace) < |t|
    ensures Run(s, a + j, IsSpace) == a + Run(t, j, IsSpace)
  {
    RunSlice(s, a, a + |t|, a + j, IsSpace);
  }

  /** The text `strip(" ,")` leaves of `s` is a window of `s` after stripped characters. */
  lemma StripWindow(s: string) returns (k: nat)
    ensures k + |StripSpaceComma(s)| <= |s|
    ensures StripSpaceComma(s) == s[k..k + |StripSpaceComma(s)|]
    ensures k == 0 || !IsWordChar(s[k - 1])
  {
    k := Run(s, 0, IsSpaceOrComma);
    var r := StripSpaceComma(s);
    assert r == s[k..k + |r|];
  }

  /** No label starts before position `n`. */
  ghost predicate NoLabelBefore(s: string, n: nat) {
    forall q: nat :: q < n ==> LabelAt(s, q).None?
  }

  /** The text before a position no label starts before, stripped of spaces and commas,
      holds no label. */
  lemma PrefixHasNoLabel(s: string, n: nat)
    requires n <= |s| && NoLabelBefore(s, n)
    ensures !HasLabel(StripSpaceComma(s[..n]))
  {
    var u := s[..n];
    forall q: nat | q < |u| ensures LabelAt(u, q).None? {
      if LabelAt(u, q).Some? {
        WindowOfPrefix(s, n, q);
      }
    }
    StrippedHasNoLabel(u);
  }

  /** Text in which no label starts, stripped of spaces and commas, holds no label. */
  lemma StrippedHasNoLabel(u: string)
    requires NoLabelBefore(u, |u|)
    ensures !HasLabel(StripSpaceComma(u))
  {
    var k := StripWindow(u);
    WindowHasNoLabel(u, k, StripSpaceComma(u));
  }

  /** A window of `u` after a non-word character holds no label when `u` holds none. */
  lemma WindowHasNoLabel(u: string, k: nat, left: string)
    requires k + |left| <= |u| && left == u[k..k + |left|]
    requires k == 0 || !IsWordChar(u[k - 1])
    requires NoLabelBefore(u, |u|)
    ensures !HasLabel(left)
  {
    var found := Search(left, 0, LabelAt);
    if found.Some? {
      var q := found.value.start;
      assert LabelAt(left, q).Some?;
      assert LabelAt(u, k + q).None?;
      LabelWindow(u, k, left, q);
    }
  }

  /** A label inside the text before position `n` is a label of `s`. */
  lemma WindowOfPrefix(s: string, n: nat, p: nat)
    requires n <= |s| && LabelAt(s[..n], p).Some?
    ensures LabelAt(s, p).Some? && p < n
  {
    LabelWindow(s, 0, s[..n], p);
  }

  /** A piece of the result: it holds no label and neither starts nor ends with a space
      or a comma. */
  ghost predicate Fragment(p: string) {
    && !HasLabel(p)
    && (p != "" ==> !IsSpaceOrComma(p[0]) && !IsSpaceOrComma(p[|p| - 1]))
  }

  /** Every piece is a fragment and only the last one may be empty. */
  ghost predicate Fragments(parts: seq<string>) {
    && (forall i :: 0 <= i < |parts| - 1 ==> parts[i] != "")
    && (forall i :: 0 <= i < |parts| ==> Fragment(parts[i]))
  }

  /** The text before the leftmost label, stripped, is a fragment. */
  lemma LeftFragment(s: string, m: Match)
    requires Search(s, 0, LabelAt) == Some(m)
    ensures Fragment(StripSpaceComma(s[..m.start]))
  {
    assert NoLabelBefore(s, m.start);
    PrefixHasNoLabel(s, m.start);
  }

  /** Text without a label, stripped, is a fragment. */
  lemma TailFragment(s: string)
    requires !HasLabel(s)
    ensures Fragment(StripSpaceComma(s))
  {
    assert NoLabelBefore(s, |s|);
    assert s[..|s|] == s;
    PrefixHasNoLabel(s, |s|);
  }

  lemma FragmentsCons(left: string, rest: seq<string>)
    requires Fragment(left) && Fragments(rest)
    ensures Fragments((if left != "" then [left] else []) + rest)
  {
  }

  /** The fragments `split_category_labels` returns for the stripped text `s`: each text
      before a leftmost label, stripped of spaces and commas, when non-empty, then the
      remainder after the last label. */
  function LabelPieces(s: string): seq<string>
    decreases |s|
  {
    match Search(s, 0, LabelAt)
    case None => if s != "" then [StripSpaceComma(s)] else []
    case Some(m) =>
      var left := StripSpaceComma(s[..m.start]);
      (if left != "" then [left] else []) + LabelPieces(Strip(s[m.end..]))
  }

  /** Every fragment but the last is non-empty, none holds a label, and none starts or
      ends with a space or a comma. */
  lemma {:induction false} PiecesAreFragments(s: string)
    ensures Fragments(LabelPieces(s))
    decreases |s|
  {
    match Search(s, 0, LabelAt)
    case None =>
      if s != "" {
        TailFragment(s);
      }
    case Some(m) =>
      var left := StripSpaceComma(s[..m.start]);
      var rest := LabelPieces(Strip(s[m.end..]));
      PiecesAreFragments(Strip(s[m.end..]));
      LeftFragment(s, m);
      FragmentsCons(left, rest);
  }

  /** Text without a label comes back whole, stripped of spaces and commas. */
  lemma NoLabelOnePiece(text: string)
    requires !HasLabel(Strip(text)) && Strip(text) != ""
    ensures LabelPieces(Strip(text)) == [StripSpaceComma(Strip(text))]
  {
  }

  /** One turn of the loop: the text before the leftmost label is appended when it is
      non-empty, and the rest of the text remains to be split. */
  lemma PiecesStep(whole: seq<string>, parts: seq<string>, s: string, m: Match)
    requires parts + LabelPieces(s) == whole
    requires Search(s, 0, LabelAt) == Some(m)
    ensures var left, rest := StripSpaceComma(s[..m.start]), LabelPieces(Strip(s[m.end..]));
      && (left == "" ==> parts + rest == whole)
      && (left != "" ==> (parts + [left]) + rest == whole)
  {
    var left := StripSpaceComma(s[..m.start]);
    var rest := LabelPieces(Strip(s[m.end..]));
    PiecesUnfold(s, m);
    if left != "" {
      assert parts + ([left] + rest) == (parts + [left]) + rest;
    }
  }

  /** `LabelPieces` at a label: the non-empty text before it, then the pieces after it. */
  lemma PiecesUnfold(s: string, m: Match)
    requires Search(s, 0, LabelAt) == Some(m)
    ensures StripSpaceComma(s[..m.start]) == "" ==> LabelPieces(s) == LabelPieces(Strip(s[m.end..]))
    ensures StripSpaceComma(s[..m.start]) != "" ==>
      LabelPieces(s) == [StripSpaceComma(s[..m.start])] + LabelPieces(Strip(s[m.end..]))
  {
    if StripSpaceComma(s[..m.start]) == "" {
    } else {
    }
  }

  /** The loop ends when no label is left: the remainder, stripped, if any. */
  lemma PiecesEnd(whole: seq<string>, parts: seq<string>, s: string)
    requires parts + LabelPieces(s) == whole
    requires Search(s, 0, LabelAt).None?
    ensures s == "" ==> parts == whole
    ensures s != "" ==> parts + [StripSpaceComma(s)] == whole
  {
    if s == "" {
      assert parts + [] == parts;
    }
  }

  /** `split_category_labels`: the shrinking loop over the remaining text. */
  method SplitCategoryLabels(text: string) returns (parts: seq<string>)
    ensures parts == LabelPieces(Strip(text))
  {
    ghost var whole := LabelPieces(Strip(text));
    parts := [];
    var s := Strip(text);
    var m := Search(s, 0, LabelAt);
    while m.Some?
      invariant m == Search(s, 0, LabelAt)
      invariant parts + LabelPieces(s) == whole
      decreases |s|
    {
      PiecesStep(whole, parts, s, m.value);
      var left := StripSpaceComma(s[..m.value.start]);
      if left != "" {
        parts := parts + [left];
      }
      s := Strip(s[m.value.end..]);
      m := Search(s, 0, LabelAt);
    }
    PiecesEnd(whole, parts, s);
    if s != "" {
      parts := parts + [StripSpaceComma(s)];
    }
  }
}
