/** Where the pieces of `split_category_labels` sit in the text: each piece is cut out
    of the stripped text, the pieces come in order without overlapping, the labels cut
    away are exactly the label matches of the text, and every character outside the
    labels that is neither a space nor a comma lies in a piece. */
module LabelLayout {
  import opened Text
  import opened Collections
  import opened Scan
  import opened CompatLabels

  /** Position `k` lies in the span `m`. */
  predicate Inside(k: int, m: Match) {
    m.start <= k < m.end
  }

  /** Every span moved right by `c`. */
  function ShiftSpans(ms: seq<Match>, c: nat): (r: seq<Match>)
    ensures |r| == |ms|
    ensures forall i :: 0 <= i < |ms| ==> r[i] == Match(ms[i].start + c, ms[i].end + c)
  {
    seq(|ms|, i requires 0 <= i < |ms| => Match(ms[i].start + c, ms[i].end + c))
  }

  /** A match end moved right by `c`. */
  function Shifted(e: Option<nat>, c: nat): (r: Option<nat>)
    ensures r.Some? <==> e.Some?
    ensures r.Some? ==> r.value == e.value + c
  {
    match e
    case None => None
    case Some(x) => Some(x + c)
  }

  /** Piece `i` is the text of span `at[i]`. */
  ghost predicate Placed(s: string, pieces: seq<string>, at: seq<Match>) {
    && |at| == |pieces|
    && forall i :: 0 <= i < |at| ==>
         at[i].start <= at[i].end <= |s| && s[at[i].start..at[i].end] == pieces[i]
  }

  /** The spans come left to right and do not overlap. */
  ghost predicate Ordered(at: seq<Match>) {
    forall i, j :: 0 <= i < |at| && 0 <= j < |at| && j == i + 1 ==> at[i].end <= at[j].start
  }

  /** The cuts are matches of `at` in `s`, and every match of `at` in `s` is a cut. */
  ghost predicate CutsAreMatches(s: string, at: Scanner, cuts: seq<Match>) {
    && (forall j :: 0 <= j < |cuts| ==> at(s, cuts[j].start) == Some(cuts[j].end))
    && (forall q: nat :: at(s, q).Some? ==> exists j :: 0 <= j < |cuts| && cuts[j].start == q)
  }

  /** No piece overlaps a cut. */
  ghost predicate Apart(at: seq<Match>, cuts: seq<Match>) {
    forall i, j :: 0 <= i < |at| && 0 <= j < |cuts| ==>
      at[i].end <= cuts[j].start || cuts[j].end <= at[i].start
  }

  /** Every character outside the cuts that is neither a space nor a comma lies in a
      piece. */
  ghost predicate Covered(s: string, at: seq<Match>, cuts: seq<Match>) {
    forall k :: 0 <= k < |s| && !IsSpaceOrComma(s[k]) && (forall j :: 0 <= j < |cuts| ==> !Inside(k, cuts[j])) ==>
      exists i :: 0 <= i < |at| && Inside(k, at[i])
  }

  ghost predicate Layout(s: string, pieces: seq<string>, at: seq<Match>, cuts: seq<Match>) {
    Placed(s, pieces, at) && Ordered(at) && CutsAreMatches(s, LabelAt, cuts) && Apart(at, cuts) && Covered(s, at, cuts)
  }

  /** `split_category_labels` keeps the text on both sides of every label: its pieces
      are cut out of the stripped text in order, apart from the labels, which are all
      the label matches there, and only spaces and commas are lost. */
  lemma PiecesLayout(text: string)
    ensures exists at, cuts :: Layout(Strip(text), LabelPieces(Strip(text)), at, cuts)
  {
    var at, cuts := LayoutOf(Strip(text));
  }

  /** The layout of the pieces of a text that does not end in whitespace. */
  lemma {:induction false} LayoutOf(s: string) returns (at: seq<Match>, cuts: seq<Match>)
    requires s == [] || !IsSpace(s[|s| - 1])
    ensures Layout(s, LabelPieces(s), at, cuts)
    decreases |s|
  {
    match Search(s, 0, LabelAt)
    case None =>
      NoLabelAnywhere(s);
      at, cuts := NoLabelLayout(s);
    case Some(m) =>
      assert FirstMatch(s, LabelAt, m);
      RestIsSuffix(s, m);
      var rest := s[m.end..];
      var at', cuts' := LayoutOf(rest);
      PiecesUnfold(s, m);
      at, cuts := ConsLayout(s, m, LabelPieces(rest), at', cuts');
  }

  /** Outside what `strip` keeps there are only stripped characters. */
  lemma StripOutside(s: string, p: char -> bool)
    ensures forall k :: 0 <= k < |s| && !p(s[k]) ==>
      Run(s, 0, p) <= k < Run(s, 0, p) + |StripBy(s, p)|
  {
    var a := Run(s, 0, p);
    var b := RunBack(s, a, |s|, p);
    assert StripBy(s, p) == s[a..b];
  }

  /** A search that finds no label leaves no label anywhere. */
  lemma NoLabelAnywhere(s: string)
    requires Search(s, 0, LabelAt).None?
    ensures forall q: nat :: LabelAt(s, q).None?
  {
    forall q: nat | LabelAt(s, q).Some?
      ensures false
    {
    }
  }

  /** Text without a label is one piece, after the spaces and commas at its ends. */
  lemma NoLabelLayout(s: string) returns (at: seq<Match>, cuts: seq<Match>)
    requires forall q: nat :: LabelAt(s, q).None?
    ensures Layout(s, if s != "" then [StripSpaceComma(s)] else [], at, cuts)
  {
    cuts := [];
    var r := StripSpaceComma(s);
    var a := Run(s, 0, IsSpaceOrComma);
    at := if s != "" then [Match(a, a + |r|)] else [];
    StripOutside(s, IsSpaceOrComma);
    assert s != "" ==> s[a..a + |r|] == r;
    forall k | 0 <= k < |s| && !IsSpaceOrComma(s[k])
      ensures exists i :: 0 <= i < |at| && Inside(k, at[i])
    {
      assert Inside(k, at[0]);
    }
  }

  /** The label match ends after a colon or a whitespace, and no whitespace follows it. */
  lemma LabelEnd(s: string, p: nat)
    requires LabelAt(s, p).Some?
    ensures var e := LabelAt(s, p).value; !IsWordChar(s[e - 1]) && (e < |s| ==> !IsSpace(s[e]))
  {
    var qe := LabelAtShape(s, p);
    var i := Run(s, Plural(s, qe), IsSpace);
    assert s[i] == ':';
  }

  /** The text after the leftmost label is the suffix after it, with nothing to strip. */
  lemma RestIsSuffix(s: string, m: Match)
    requires s == [] || !IsSpace(s[|s| - 1])
    requires LabelAt(s, m.start) == Some(m.end)
    ensures 0 < m.end <= |s| && !IsWordChar(s[m.end - 1])
    ensures Strip(s[m.end..]) == s[m.end..]
    ensures s[m.end..] == [] || !IsSpace(s[m.end..][|s[m.end..]| - 1])
  {
    LabelEnd(s, m.start);
    StripByNoop(s[m.end..], IsSpace);
  }

  /** A whitespace run in a suffix ends where it ends in the text. */
  lemma RunSuffix(s: string, c: nat, j: nat)
    requires c + j <= |s|
    ensures Run(s[c..], j, IsSpace) + c == Run(s, c + j, IsSpace)
  {
    RunSlice(s, c, |s|, c + j, IsSpace);
    assert s[c..|s|] == s[c..];
  }

  /** `\s*:\s*` in a suffix is found where it is found in the text. */
  lemma ColonSuffix(s: string, c: nat, j: nat)
    requires c + j <= |s|
    ensures Shifted(ColonEnd(s[c..], j), c) == ColonEnd(s, c + j)
  {
    var t := s[c..];
    RunSuffix(s, c, j);
    var i := Run(t, j, IsSpace);
    if i < |t| && t[i] == ':' {
      RunSuffix(s, c, i + 1);
    }
  }

  /** A label word in a suffix is found where it is found in the text. */
  lemma WordSuffix(s: string, c: nat, p: nat)
    requires c + p <= |s|
    ensures LabelWordEnd(s[c..], p).Some? <==> LabelWordEnd(s, c + p).Some?
    ensures LabelWordEnd(s[c..], p).Some? ==> LabelWordEnd(s, c + p).value == c + LabelWordEnd(s[c..], p).value
  {
    var t := s[c..];
    assert WordIs(t, p, "laptop") <==> WordIs(s, c + p, "laptop") by {
      if p + 6 <= |t| {
        assert forall k :: p <= k < p + 6 ==> t[k] == s[c + k];
      }
    }
    assert WordIs(t, p, "desktop") <==> WordIs(s, c + p, "desktop") by {
      if p + 7 <= |t| {
        assert forall k :: p <= k < p + 7 ==> t[k] == s[c + k];
      }
    }
  }

  /** A label in the suffix after a non-word character is a label of the text at the
      same place, and the other way round. */
  lemma LabelSuffix(s: string, c: nat, p: nat)
    requires c <= |s| && (c == 0 || !IsWordChar(s[c - 1]))
    ensures Shifted(LabelAt(s[c..], p), c) == LabelAt(s, c + p)
  {
    var t := s[c..];
    if p <= |t| {
      StartSuffix(s, c, p);
      WordSuffix(s, c, p);
      if WordStart(t, p) && LabelWordEnd(t, p).Some? {
        var q := LabelWordEnd(t, p).value;
        PluralSuffix(s, c, q);
        ColonSuffix(s, c, Plural(t, q));
        WordLabelSuffix(s, t, c, p, q);
      }
    }
  }

  /** Past the label word, the suffix and the text agree on the rest of the label. */
  lemma WordLabelSuffix(s: string, t: string, c: nat, p: nat, q: nat)
    requires p <= |t| && c + p <= |s| && WordStart(t, p) && WordStart(s, c + p)
    requires LabelWordEnd(t, p) == Some(q) && LabelWordEnd(s, c + p) == Some(c + q)
    requires Plural(s, c + q) == c + Plural(t, q)
    requires Shifted(ColonEnd(t, Plural(t, q)), c) == ColonEnd(s, c + Plural(t, q))
    ensures Shifted(LabelAt(t, p), c) == LabelAt(s, c + p)
  {
  }

  /** `\b` in a suffix after a non-word character is `\b` in the text. */
  lemma StartSuffix(s: string, c: nat, p: nat)
    requires c + p <= |s| && (c == 0 || !IsWordChar(s[c - 1]))
    ensures WordStart(s[c..], p) <==> WordStart(s, c + p)
  {
    if p > 0 {
      assert s[c..][p - 1] == s[c + p - 1];
    }
  }

  /** The optional plural `s` in a suffix ends where it ends in the text. */
  lemma PluralSuffix(s: string, c: nat, q: nat)
    requires c + q <= |s|
    ensures Plural(s, c + q) == c + Plural(s[c..], q)
  {
    if q < |s| - c {
      assert s[c..][q] == s[c + q];
    }
  }

  /** No label starts inside a label match. */
  lemma NoLabelInside(s: string, p: nat, q: nat)
    requires LabelAt(s, p).Some? && p < q < LabelAt(s, p).value
    ensures LabelAt(s, q).None?
  {
    var qe := LabelAtShape(s, p);
    var j := Plural(s, qe);
    var i := Run(s, j, IsSpace);
    if q <= qe {
      assert IsWordChar(s[q - 1]) by {
        var w := if WordIs(s, p, "laptop") then "laptop" else "desktop";
        assert LowerChar(s[p + (q - 1 - p)]) == w[q - 1 - p];
      }
    } else if q == qe + 1 && j == qe + 1 {
      assert IsWordChar(s[q - 1]);
    } else {
      assert s[q] == ' ' || s[q] == ':' || IsSpace(s[q]);
      NotWordHere(s, q);
    }
  }

  /** A label word cannot start at a whitespace or a colon. */
  lemma NotWordHere(s: string, q: nat)
    requires q < |s| && (s[q] == ':' || IsSpace(s[q]))
    ensures LabelWordEnd(s, q).None?
  {
    assert LowerChar(s[q]) == s[q];
    assert !WordIs(s, q, "laptop") by {
      assert "laptop"[0] == 'l' != LowerChar(s[q + 0]);
    }
    assert !WordIs(s, q, "desktop") by {
      assert "desktop"[0] == 'd' != LowerChar(s[q + 0]);
    }
  }

  /** The text before the leftmost label at `n`, stripped of spaces and commas, is the
      window at `a`, and nothing else before `n` but spaces and commas. */
  lemma LeftSpan(s: string, n: nat) returns (a: nat)
    requires n <= |s|
    ensures var left := StripSpaceComma(s[..n]);
      && a + |left| <= n && s[a..a + |left|] == left
      && forall k :: 0 <= k < n && !IsSpaceOrComma(s[k]) ==> a <= k < a + |left|
  {
    var u := s[..n];
    a := Run(u, 0, IsSpaceOrComma);
    var left := StripSpaceComma(u);
    StripOutside(u, IsSpaceOrComma);
    assert s[a..a + |left|] == left by {
      assert forall k :: 0 <= k < |left| ==> left[k] == u[a + k] == s[a + k];
    }
    assert forall k :: 0 <= k < n ==> u[k] == s[k];
  }

  /** The span of the left piece, if there is one, covers what is not a space or a
      comma before `n`. */
  lemma LeftPiece(s: string, n: nat) returns (spans: seq<Match>)
    requires n <= |s|
    ensures var left := StripSpaceComma(s[..n]);
      Placed(s, if left != "" then [left] else [], spans)
    ensures |spans| <= 1 && forall i :: 0 <= i < |spans| ==> spans[i].end <= n
    ensures forall k :: 0 <= k < n && !IsSpaceOrComma(s[k]) ==>
      exists i :: 0 <= i < |spans| && Inside(k, spans[i])
  {
    var left := StripSpaceComma(s[..n]);
    var a := LeftSpan(s, n);
    spans := if left != "" then [Match(a, a + |left|)] else [];
    forall k | 0 <= k < n && !IsSpaceOrComma(s[k])
      ensures exists i :: 0 <= i < |spans| && Inside(k, spans[i])
    {
      assert Inside(k, spans[0]);
    }
  }

  /** One turn of the loop adds the left piece, the label and the layout of the rest. */
  lemma ConsLayout(s: string, m: Match, rest: seq<string>, at': seq<Match>, cuts': seq<Match>)
    returns (at: seq<Match>, cuts: seq<Match>)
    requires FirstMatch(s, LabelAt, m)
    requires 0 < m.end <= |s| && !IsWordChar(s[m.end - 1])
    requires Layout(s[m.end..], rest, at', cuts')
    ensures var left := StripSpaceComma(s[..m.start]);
      Layout(s, (if left != "" then [left] else []) + rest, at, cuts)
  {
    var left := StripSpaceComma(s[..m.start]);
    var lefts := if left != "" then [left] else [];
    var spans := LeftPiece(s, m.start);
    at := spans + ShiftSpans(at', m.end);
    cuts := [m] + ShiftSpans(cuts', m.end);
    ConsPlaced(s, m.end, lefts, spans, rest, at');
    ConsOrdered(spans, at', m.end);
    ConsCuts(s, m, cuts');
    ConsApart(spans, m, at', cuts');
    ConsCovered(s, m, spans, at', cuts');
  }

  lemma ConsPlaced(s: string, c: nat, lefts: seq<string>, spans: seq<Match>, rest: seq<string>, at': seq<Match>)
    requires c <= |s| && Placed(s, lefts, spans) && Placed(s[c..], rest, at')
    ensures Placed(s, lefts + rest, spans + ShiftSpans(at', c))
  {
    var at := spans + ShiftSpans(at', c);
    var ps := lefts + rest;
    forall i | 0 <= i < |at|
      ensures at[i].start <= at[i].end <= |s| && s[at[i].start..at[i].end] == ps[i]
    {
      if i >= |spans| {
        var x := at'[i - |spans|];
        assert s[c..][x.start..x.end] == s[c + x.start..c + x.end];
      }
    }
  }

  lemma ConsOrdered(spans: seq<Match>, at': seq<Match>, c: nat)
    requires |spans| <= 1 && Ordered(at')
    requires forall i :: 0 <= i < |spans| ==> spans[i].end <= c
    ensures Ordered(spans + ShiftSpans(at', c))
  {
  }

  lemma ConsCuts(s: string, m: Match, cuts': seq<Match>)
    requires FirstMatch(s, LabelAt, m)
    requires 0 < m.end <= |s| && !IsWordChar(s[m.end - 1])
    requires CutsAreMatches(s[m.end..], LabelAt, cuts')
    ensures CutsAreMatches(s, LabelAt, [m] + ShiftSpans(cuts', m.end))
  {
    NoLabelsInside(s, m.start);
    LabelsShift(s, m.end);
    CutsShift(s, s[m.end..], LabelAt, m, cuts');
  }

  /** `m` is the leftmost match of `at` in `s`. */
  ghost predicate FirstMatch(s: string, at: Scanner, m: Match) {
    && at(s, m.start) == Some(m.end)
    && forall q: nat {:trigger at(s, q)} :: q < m.start ==> at(s, q).None?
  }

  /** No match of `at` starts strictly between `a` and `b`. */
  ghost predicate NoneBetween(s: string, at: Scanner, a: nat, b: nat) {
    forall q: nat {:trigger at(s, q)} :: a < q < b ==> at(s, q).None?
  }

  /** The matches of `at` in `t` are those in `s` from `c` on, moved left by `c`. */
  ghost predicate ShiftsTo(t: string, s: string, at: Scanner, c: nat) {
    forall p: nat {:trigger at(t, p)} :: Shifted(at(t, p), c) == at(s, c + p)
  }

  lemma NoLabelsInside(s: string, p: nat)
    requires LabelAt(s, p).Some?
    ensures NoneBetween(s, LabelAt, p, LabelAt(s, p).value)
  {
    forall q: nat | p < q < LabelAt(s, p).value
      ensures LabelAt(s, q).None?
    {
      NoLabelInside(s, p, q);
    }
  }

  lemma LabelsShift(s: string, c: nat)
    requires c <= |s| && (c == 0 || !IsWordChar(s[c - 1]))
    ensures ShiftsTo(s[c..], s, LabelAt, c)
  {
    forall p: nat
      ensures Shifted(LabelAt(s[c..], p), c) == LabelAt(s, c + p)
    {
      LabelSuffix(s, c, p);
    }
  }

  /** The matches of a scanner in `s` are its leftmost match, none inside it, and the
      matches in the text `t` after it, moved right. */
  lemma CutsShift(s: string, t: string, at: Scanner, m: Match, cuts': seq<Match>)
    requires FirstMatch(s, at, m)
    requires NoneBetween(s, at, m.start, m.end) && ShiftsTo(t, s, at, m.end)
    requires CutsAreMatches(t, at, cuts')
    ensures CutsAreMatches(s, at, [m] + ShiftSpans(cuts', m.end))
  {
    CutsShiftMatch(s, t, at, m, cuts');
    CutsShiftComplete(s, t, at, m, cuts');
  }

  lemma CutsShiftMatch(s: string, t: string, at: Scanner, m: Match, cuts': seq<Match>)
    requires at(s, m.start) == Some(m.end) && ShiftsTo(t, s, at, m.end)
    requires forall j :: 0 <= j < |cuts'| ==> at(t, cuts'[j].start) == Some(cuts'[j].end)
    ensures var cuts := [m] + ShiftSpans(cuts', m.end);
      forall j :: 0 <= j < |cuts| ==> at(s, cuts[j].start) == Some(cuts[j].end)
  {
    var cuts := [m] + ShiftSpans(cuts', m.end);
    forall j | 0 <= j < |cuts|
      ensures at(s, cuts[j].start) == Some(cuts[j].end)
    {
      if j > 0 {
        var x := cuts'[j - 1];
        assert at(t, x.start) == Some(x.end);
      }
    }
  }

  lemma CutsShiftComplete(s: string, t: string, at: Scanner, m: Match, cuts': seq<Match>)
    requires FirstMatch(s, at, m)
    requires NoneBetween(s, at, m.start, m.end) && ShiftsTo(t, s, at, m.end)
    requires forall q: nat :: at(t, q).Some? ==> exists j :: 0 <= j < |cuts'| && cuts'[j].start == q
    ensures var cuts := [m] + ShiftSpans(cuts', m.end);
      forall q: nat :: at(s, q).Some? ==> exists j :: 0 <= j < |cuts| && cuts[j].start == q
  {
    var cuts := [m] + ShiftSpans(cuts', m.end);
    forall q: nat | at(s, q).Some?
      ensures exists j :: 0 <= j < |cuts| && cuts[j].start == q
    {
      if q < m.start {
        assert false;
      } else if q == m.start {
        assert cuts[0].start == q;
      } else if q < m.end {
        assert false;
      } else {
        var p: nat := q - m.end;
        assert at(t, p).Some?;
        var j' :| 0 <= j' < |cuts'| && cuts'[j'].start == p;
        assert cuts[j' + 1].start == q;
      }
    }
  }

  lemma ConsApart(spans: seq<Match>, m: Match, at': seq<Match>, cuts': seq<Match>)
    requires m.start <= m.end && Apart(at', cuts')
    requires forall i :: 0 <= i < |spans| ==> spans[i].end <= m.start
    ensures Apart(spans + ShiftSpans(at', m.end), [m] + ShiftSpans(cuts', m.end))
  {
  }

  lemma ConsCovered(s: string, m: Match, spans: seq<Match>, at': seq<Match>, cuts': seq<Match>)
    requires m.start <= m.end <= |s| && Covered(s[m.end..], at', cuts')
    requires forall k :: 0 <= k < m.start && !IsSpaceOrComma(s[k]) ==>
      exists i :: 0 <= i < |spans| && Inside(k, spans[i])
    ensures Covered(s, spans + ShiftSpans(at', m.end), [m] + ShiftSpans(cuts', m.end))
  {
    var at := spans + ShiftSpans(at', m.end);
    var cuts := [m] + ShiftSpans(cuts', m.end);
    forall k | 0 <= k < |s| && !IsSpaceOrComma(s[k]) && (forall j :: 0 <= j < |cuts| ==> !Inside(k, cuts[j]))
      ensures exists i :: 0 <= i < |at| && Inside(k, at[i])
    {
      if k < m.start {
        var i :| 0 <= i < |spans| && Inside(k, spans[i]);
        assert at[i] == spans[i];
      } else {
        assert !Inside(k, cuts[0]);
        var k' := k - m.end;
        assert s[m.end..][k'] == s[k];
        forall j | 0 <= j < |cuts'| ensures !Inside(k', cuts'[j]) {
          assert !Inside(k, cuts[j + 1]);
        }
        var i' :| 0 <= i' < |at'| && Inside(k', at'[i']);
        assert Inside(k, at[|spans| + i']);
      }
    }
  }
}
