/** The docstring example of `split_category_labels`, worked out: "MacBook Pro (2019 or
    later) Desktops : Mac Mini (M1 or later)" is cut at its label into the two models on
    either side. */
module LabelExample {
  import opened Text
  import opened Collections
  import opened Scan
  import opened CompatLabels

  /** Text without a label that has no space or comma at either end comes back as the
      one piece. */
  lemma OnePiece(t: string)
    requires forall q: nat :: q < |t| ==> LabelAt(t, q).None?
    requires t != "" && StripSpaceComma(t) == t
    ensures LabelPieces(t) == [t]
  {
    NoLabelFound(t);
  }

  lemma NoLabelFound(t: string)
    requires forall q: nat :: q < |t| ==> LabelAt(t, q).None?
    ensures Search(t, 0, LabelAt).None?
  {
    if Search(t, 0, LabelAt).Some? {
      assert false;
    }
  }

  /** Text cut at its leftmost label into a non-empty left side and a rest that is one
      piece gives those two pieces. */
  lemma TwoPieces(s: string, m: Match, left: string, rest: string)
    requires Search(s, 0, LabelAt) == Some(m)
    requires StripSpaceComma(s[..m.start]) == left && left != ""
    requires Strip(s[m.end..]) == rest && LabelPieces(rest) == [rest]
    ensures LabelPieces(s) == [left, rest]
  {
    PiecesUnfold(s, m);
    Pair(left, rest);
  }

  lemma Pair(a: string, b: string)
    ensures [a] + [b] == [a, b]
  {
  }

  /** A mismatch at offset `k` rules the word `w` out at `p`. */
  lemma NotWordAt(s: string, p: nat, w: string, k: nat)
    requires k < |w| && p + k < |s| && LowerChar(s[p + k]) != w[k]
    ensures !WordIs(s, p, w)
  {
  }

  /** Neither label word starts at `p`, so no label does. */
  lemma NoLabelAt(s: string, p: nat, kl: nat, kd: nat)
    requires kl < 6 && p + kl < |s| && LowerChar(s[p + kl]) != "laptop"[kl]
    requires kd < 7 && p + kd < |s| && LowerChar(s[p + kd]) != "desktop"[kd]
    ensures LabelAt(s, p).None?
  {
    NotWordAt(s, p, "laptop", kl);
    NotWordAt(s, p, "desktop", kd);
  }

  /** No label starts in the first `n` characters of a text that has no `d` there and
      whose only `l` there, at `l`, is not followed by "ap". */
  lemma NoLabelIn(t: string, n: nat, l: nat)
    requires n <= |t|
    requires forall q :: 0 <= q < n ==> LowerChar(t[q]) != 'd'
    requires forall q :: 0 <= q < n && LowerChar(t[q]) == 'l' ==> q == l
    requires l + 2 < |t| && LowerChar(t[l + 2]) != 'p'
    ensures forall q: nat :: q < n ==> LabelAt(t, q).None?
  {
    forall q: nat | q < n ensures LabelAt(t, q).None? {
      if q == l {
        NoLabelAt(t, q, 2, 0);
      } else {
        NoLabelAt(t, q, 0, 0);
      }
    }
  }

  const ExampleLeft := "MacBook Pro (2019 or later)"
  const ExampleLabel := " Desktops : "
  const ExampleRight := "Mac Mini (M1 or later)"

  /** `split_category_labels` keeps both sides of the "Desktops :" label. */
  lemma SplitExample(text: string)
    requires text == ExampleLeft + ExampleLabel + ExampleRight
    ensures LabelPieces(Strip(text)) == [ExampleLeft, ExampleRight]
  {
    ExampleStripped(text);
    LabelCut(text);
    RightOnePiece();
    TwoPieces(text, Match(28, 39), ExampleLeft, ExampleRight);
  }

  /** The leftmost label is "Desktops : ", with the left model before it and the right
      model after it. */
  lemma LabelCut(s: string)
    requires s == ExampleLeft + ExampleLabel + ExampleRight
    ensures Search(s, 0, LabelAt) == Some(Match(28, 39))
    ensures StripSpaceComma(s[..28]) == ExampleLeft && Strip(s[39..]) == ExampleRight
  {
    ExampleLabelFound(s);
    ExampleLeftChars(s);
    NoLabelIn(s, 28, 21);
    SearchFinds(s, 0, LabelAt, 28, 39);
    ExampleCut(s);
  }

  /** The right model holds no label: it is one piece. */
  lemma RightOnePiece()
    ensures LabelPieces(ExampleRight) == [ExampleRight]
  {
    RightChars();
    NoLabelIn(ExampleRight, |ExampleRight|, 16);
    StripByNoop(ExampleRight, IsSpaceOrComma);
    OnePiece(ExampleRight);
  }

  lemma LeftChars()
    ensures |ExampleLeft| == 27 && ExampleLeft[0] == 'M' && ExampleLeft[26] == ')'
    ensures ExampleLeft[23] == 't'
    ensures forall q :: 0 <= q < |ExampleLeft| ==> LowerChar(ExampleLeft[q]) != 'd'
    ensures forall q :: 0 <= q < |ExampleLeft| && LowerChar(ExampleLeft[q]) == 'l' ==> q == 21
  {
  }

  lemma LabelChars()
    ensures |ExampleLabel| == 12 && ExampleLabel[0] == ' ' && ExampleLabel[8] == 's'
    ensures ExampleLabel[9] == ' ' && ExampleLabel[10] == ':' && ExampleLabel[11] == ' '
  {
  }

  lemma RightChars()
    ensures |ExampleRight| == 22 && ExampleRight[0] == 'M' && ExampleRight[21] == ')'
    ensures ExampleRight[18] == 't'
    ensures forall q :: 0 <= q < |ExampleRight| ==> LowerChar(ExampleRight[q]) != 'd'
    ensures forall q :: 0 <= q < |ExampleRight| && LowerChar(ExampleRight[q]) == 'l' ==> q == 16
  {
  }

  lemma ExampleStripped(s: string)
    requires s == ExampleLeft + ExampleLabel + ExampleRight
    ensures Strip(s) == s
  {
    LeftChars();
    LabelChars();
    RightChars();
    StripByNoop(s, IsSpace);
  }

  lemma ExampleLeftChars(s: string)
    requires s == ExampleLeft + ExampleLabel + ExampleRight
    ensures 28 <= |s| && LowerChar(s[23]) != 'p'
    ensures forall q :: 0 <= q < 28 ==> LowerChar(s[q]) != 'd'
    ensures forall q :: 0 <= q < 28 && LowerChar(s[q]) == 'l' ==> q == 21
  {
    LeftChars();
    LabelChars();
    assert forall q :: 0 <= q < 27 ==> s[q] == ExampleLeft[q];
  }

  lemma ExampleLabelFound(s: string)
    requires s == ExampleLeft + ExampleLabel + ExampleRight
    ensures LabelAt(s, 28) == Some(39)
  {
    LeftChars();
    LabelChars();
    RightChars();
    assert s[28..35] == "Desktop";
    assert WordIs(s, 28, "desktop");
    NotWordAt(s, 28, "laptop", 0);
    assert LabelWordEnd(s, 28) == Some(35);
    assert Plural(s, 35) == 36;
    assert Run(s, 37, IsSpace) == 37;
    assert Run(s, 39, IsSpace) == 39;
  }

  lemma ExampleCut(s: string)
    requires s == ExampleLeft + ExampleLabel + ExampleRight
    ensures StripSpaceComma(s[..28]) == ExampleLeft
    ensures Strip(s[39..]) == ExampleRight
  {
    LeftChars();
    LabelChars();
    RightChars();
    var u := s[..28];
    assert u == ExampleLeft + " ";
    assert Run(u, 0, IsSpaceOrComma) == 0;
    assert RunBack(u, 0, 27, IsSpaceOrComma) == 27;
    assert u[..27] == ExampleLeft;
    assert s[39..] == ExampleRight;
    StripByNoop(ExampleRight, IsSpace);
  }
}
