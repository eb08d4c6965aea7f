/** Two docstring examples of `parse_macos_versions`, worked out: "macOS Sonoma 14.0 or
    later" has no range, says "or later" and holds the dotted number 14.0, so the result is
    "14.0+"; "macOS Sonoma 14.5 - macOS Sequoia 15.x" is a range whose second end repeats
    the codename phrase, so the result is "14.5 - 15.x". */
module XcodeExample {
  import opened Text
  import opened Collections
  import opened Scan
  import opened XcodeText
  import opened XcodeVersions

  /** The characters the two examples are made of. */
  predicate PlainChar(c: char) {
    IsWordChar(c) || c == ' ' || c == '.' || c == '-'
  }

  /** Plain characters, no space at either end and no two spaces in a row. */
  predicate PlainText(s: string) {
    && s != [] && s[0] != ' ' && s[|s| - 1] != ' '
    && (forall q :: 0 <= q < |s| ==> PlainChar(s[q]))
    && (forall q :: 0 <= q < |s| - 1 && s[q] == ' ' ==> s[q + 1] != ' ')
  }

  /** Plain text is its own cleaning. */
  lemma PlainClean(s: string)
    requires PlainText(s)
    ensures CleanVersionText(s) == s
  {
    assert '&' !in s && Nbsp !in s && EnDash !in s && EmDash !in s;
    assert NoDoubleSpace(s) by {
      forall i, j | 0 <= i < |s| && 0 <= j < |s| && j == i + 1
        ensures !(IsSpace(s[i]) && IsSpace(s[j]))
      {
        assert PlainChar(s[i]) && PlainChar(s[j]);
      }
    }
    AbsentChar(s, '&');
    AbsentExtension(s, "&", "nbsp");
    assert "&" + "nbsp" == "&nbsp";
    CleanNoop(s);
  }

  /** Four known characters make a four-character slice. */
  lemma Slice4(s: string, i: nat, w: string)
    requires |w| == 4 && i + 4 <= |s|
    requires s[i] == w[0] && s[i + 1] == w[1] && s[i + 2] == w[2] && s[i + 3] == w[3]
    ensures s[i..i + 4] == w
  {
  }

  /** No position matches, so the search finds nothing. */
  lemma NothingFound(s: string, at: Scanner)
    requires forall q: nat :: at(s, q).None?
    ensures Search(s, 0, at).None?
  {
    if Search(s, 0, at).Some? {
      assert false;
    }
  }

  // "macOS Sonoma 14.0 or later" -> "14.0+"

  const OrLaterText := "macOS Sonoma 14.0 or later"

  /** The characters around the one number of the or-later example. */
  predicate OrLaterShape(s: string) {
    && |s| == 26 && s[12] == ' '
    && s[13] == '1' && s[14] == '4' && s[15] == '.' && s[16] == '0'
    && s[17] == ' ' && s[18] == 'o'
    && (forall q :: 0 <= q < |s| && IsDigit(s[q]) ==> 13 <= q <= 16)
  }

  lemma OrLaterChars()
    ensures OrLaterShape(OrLaterText)
  {
  }

  lemma OrLaterPlain()
    ensures PlainText(OrLaterText)
  {
  }

  lemma OrLaterLower()
    ensures Lower(OrLaterText)[18..26] == "or later"
  {
  }

  /** `parse_macos_versions` reads "macOS Sonoma 14.0 or later" as "14.0+". */
  lemma OrLaterExample(text: string)
    requires text == OrLaterText
    ensures ParseMacosVersions(text) == "14.0+"
  {
    OrLaterChars();
    OrLaterPlain();
    OrLaterLower();
    PlainClean(text);
    OrLaterCascade(text);
  }

  /** The cascade takes its "or later" rule: no range comes first, and the leftmost
      dotted number is 14.0. */
  lemma OrLaterCascade(s: string)
    requires OrLaterShape(s) && Lower(s)[18..26] == "or later"
    ensures Cascade(s) == "14.0+"
  {
    NoRange(s);
    assert OrLater(s) by {
      assert StartsAt(Lower(s), 18, "or later");
    }
    DottedFound(s);
    OrLaterRule(s);
  }

  /** "14.0" is read as a version by `\d+\.(?:\d+|x)`, "4.0" too, "0" is not. */
  lemma OrLaterVersions(s: string)
    requires OrLaterShape(s)
    ensures VersionXAt(s, 13) == Some(17) && VersionXAt(s, 14) == Some(17)
    ensures VersionXAt(s, 16).None?
  {
    DigitsAreDigits(s, 13);
    DigitsAreDigits(s, 14);
    DigitsAreDigits(s, 16);
    assert Digits(s, 13) == 15 && Digits(s, 14) == 15 && Digits(s, 16) == 17;
  }

  /** No dash follows the number, so there is no range. */
  lemma NoRange(s: string)
    requires OrLaterShape(s)
    ensures Search(s, 0, RangeAt).None?
  {
    OrLaterVersions(s);
    assert Run(s, 17, IsSpace) == 18;
    forall q: nat
      ensures RangeAt(s, q).None?
    {
      if q < |s| && IsDigit(s[q]) {
        assert q == 13 || q == 14 || q == 16;
      }
    }
    NothingFound(s, RangeAt);
  }

  lemma DottedFound(s: string)
    requires OrLaterShape(s)
    ensures Search(s, 0, DottedWordAt) == Some(Match(13, 17)) && Found(s, Match(13, 17)) == "14.0"
  {
    DigitsAreDigits(s, 13);
    DigitsAreDigits(s, 16);
    assert Digits(s, 13) == 15 && Digits(s, 16) == 17;
    assert DottedWordAt(s, 13) == Some(17);
    SearchFinds(s, 0, DottedWordAt, 13, 17);
    Slice4(s, 13, "14.0");
  }

  // "macOS Sonoma 14.5 - macOS Sequoia 15.x" -> "14.5 - 15.x"

  const RangeTextExample := "macOS Sonoma 14.5 - macOS Sequoia 15.x"

  /** The first version, "14.5", after a text without digits. */
  predicate FirstVersion(s: string) {
    && |s| == 38 && s[13] == '1' && s[14] == '4' && s[15] == '.' && s[16] == '5' && s[17] == ' '
    && (forall q :: 0 <= q < 13 ==> !IsDigit(s[q]))
  }

  /** The dash between spaces and the phrase "macOS Sequoia ". */
  predicate DashAndPhrase(s: string) {
    && |s| == 38 && s[17] == ' ' && s[18] == '-' && s[19] == ' '
    && s[20] == 'm' && s[21] == 'a' && s[22] == 'c' && s[23] == 'O' && s[24] == 'S'
    && s[25] == ' ' && s[33] == ' '
    && (forall q :: 26 <= q < 33 ==> IsWordChar(s[q]))
  }

  /** The second version, "15.x", at the end. */
  predicate SecondVersion(s: string) {
    |s| == 38 && s[34] == '1' && s[35] == '5' && s[36] == '.' && s[37] == 'x'
  }

  lemma RangeChars()
    ensures FirstVersion(RangeTextExample) && SecondVersion(RangeTextExample)
  {
  }

  lemma RangePlain()
    ensures PlainText(RangeTextExample)
  {
  }

  lemma PhraseChars()
    ensures DashAndPhrase(RangeTextExample)
  {
  }

  /** `parse_macos_versions` reads "macOS Sonoma 14.5 - macOS Sequoia 15.x" as
      "14.5 - 15.x". */
  lemma RangeExample(text: string)
    requires text == RangeTextExample
    ensures ParseMacosVersions(text) == "14.5 - 15.x"
  {
    RangeChars();
    PhraseChars();
    RangePlain();
    PlainClean(text);
    RangeCascade(text);
  }

  /** The cascade takes its range rule, with the range found at 13. */
  lemma RangeCascade(s: string)
    requires FirstVersion(s) && DashAndPhrase(s) && SecondVersion(s)
    ensures Cascade(s) == "14.5 - 15.x"
  {
    RangeFound(s);
    RangeSlices(s);
    RangeRule(s);
    RangeParts(s);
  }

  lemma RangeFound(s: string)
    requires FirstVersion(s) && DashAndPhrase(s) && SecondVersion(s)
    ensures Search(s, 0, RangeAt) == Some(Match(13, 38))
    ensures RangeParse(s, 13) == Some((17, 34, 38))
  {
    RangeParseAt(s);
    SearchFinds(s, 0, RangeAt, 13, 38);
  }

  lemma RangeSlices(s: string)
    requires FirstVersion(s) && SecondVersion(s)
    ensures s[13..17] == "14.5" && s[34..38] == "15.x"
  {
    Slice4(s, 13, "14.5");
    Slice4(s, 34, "15.x");
  }

  /** `\d+\.\d+` reads "14.5" at 13 and `\d+\.x` reads "15.x" at 34. */
  lemma RangeVersions(s: string)
    requires FirstVersion(s) && SecondVersion(s)
    ensures VersionXAt(s, 13) == Some(17) && VersionXAt(s, 34) == Some(38)
  {
    DigitsAreDigits(s, 13);
    DigitsAreDigits(s, 16);
    DigitsAreDigits(s, 34);
    assert Digits(s, 13) == 15 && Digits(s, 16) == 17;
    assert Digits(s, 34) == 36;
  }

  /** `macOS\s+\w+\s+` reads "macOS Sequoia " at 20. */
  lemma RangePhrase(s: string)
    requires DashAndPhrase(s) && SecondVersion(s)
    ensures MacosPhraseEnd(s, 20) == Some(34)
    ensures Run(s, 17, IsSpace) == 18 && Run(s, 19, IsSpace) == 20
  {
    assert s[20..25] == "macOS";
    assert Run(s, 25, IsSpace) == 26;
    assert Run(s, 26, IsWordChar) == 33;
    assert Run(s, 33, IsSpace) == 34;
  }

  /** The range pattern matches at 13, with its groups at 13..17 and 34..38, and nowhere
      before. */
  lemma RangeParseAt(s: string)
    requires FirstVersion(s) && DashAndPhrase(s) && SecondVersion(s)
    ensures RangeParse(s, 13) == Some((17, 34, 38)) && RangeAt(s, 13) == Some(38)
    ensures forall q: nat :: q < 13 ==> RangeAt(s, q).None?
  {
    RangeVersions(s);
    RangePhrase(s);
  }

  lemma RangeParts(s: string)
    requires RangeParse(s, 13) == Some((17, 34, 38))
    requires s[13..17] == "14.5" && s[34..38] == "15.x"
    ensures RangeText(s, Match(13, 38)) == "14.5 - 15.x"
  {
  }
}
