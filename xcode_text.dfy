/** `clean_version_text` of the Xcode releases scraper: the pre-processing every
    version and SDK cell goes through before it is scanned. */
module XcodeText {
  import opened Text

  const Nbsp: char := '\U{A0}'
  const EnDash: char := '\U{2013}'
  const EmDash: char := '\U{2014}'

  /** The HTML entity, with and without its semicolon, becomes a space. */
  function ReplaceEntities(text: string): string {
    ReplaceAll(ReplaceAll(text, "&nbsp;", " "), "&nbsp", " ")
  }

  /** The no-break space character becomes a plain space (the source replaces it twice,
      once spelt `\xa0` and once ` `). */
  function ReplaceNbsp(text: string): string {
    ReplaceAll(ReplaceAll(text, [Nbsp], " "), [Nbsp], " ")
  }

  /** En and em dashes become hyphens (each spelt once literally and once escaped). */
  function ReplaceDashes(text: string): string {
    ReplaceAll(ReplaceAll(ReplaceAll(ReplaceAll(text, [EnDash], "-"), [EmDash], "-"), [EnDash], "-"), [EmDash], "-")
  }

  /** The string is in the shape `clean_version_text` produces. */
  predicate IsClean(r: string) {
    && !Contains(r, "&nbsp")
    && Nbsp !in r && EnDash !in r && EmDash !in r
    && (r != [] ==> !IsSpace(r[0]) && !IsSpace(r[|r| - 1]))
    && OnlyPlainSpaces(r) && NoDoubleSpace(r)
  }

  /** `clean_version_text`: no entity, no no-break space, no en or em dash is left, the
      ends carry no whitespace and every whitespace is a single plain space. */
  function CleanVersionText(text: string): (r: string)
    ensures IsClean(r)
  {
    var t1 := ReplaceEntities(text);
    var t2 := ReplaceNbsp(t1);
    var t3 := ReplaceDashes(t2);
    var t4 := CollapseSpaces(t3);
    var r := Strip(t4);
    CleanStages(text);
    r
  }

  /** What each stage of the cleaning establishes and the later stages keep. */
  lemma CleanStages(text: string)
    ensures IsClean(Strip(CollapseSpaces(ReplaceDashes(ReplaceNbsp(ReplaceEntities(text))))))
  {
    var t1 := ReplaceEntities(text);
    ReplaceRemoves(ReplaceAll(text, "&nbsp;", " "), "&nbsp", ' ');
    var t2 := ReplaceNbsp(t1);
    NbspStage(t1);
    var t3 := ReplaceDashes(t2);
    DashStage(t2);
    SpaceStage(t3);
  }

  lemma NbspStage(t1: string)
    requires !Contains(t1, "&nbsp")
    ensures !Contains(ReplaceNbsp(t1), "&nbsp") && Nbsp !in ReplaceNbsp(t1)
  {
    var t2a := ReplaceAll(t1, [Nbsp], " ");
    ReplaceCharKeepsAbsent(t1, Nbsp, ' ', "&nbsp");
    ReplaceCharKeepsAbsent(t2a, Nbsp, ' ', "&nbsp");
    ReplaceCharChars(t1, Nbsp, ' ');
    ReplaceCharChars(t2a, Nbsp, ' ');
  }

  lemma DashStage(t2: string)
    requires !Contains(t2, "&nbsp") && Nbsp !in t2
    ensures var t3 := ReplaceDashes(t2);
      !Contains(t3, "&nbsp") && Nbsp !in t3 && EnDash !in t3 && EmDash !in t3
  {
    var nb := "&nbsp";
    var d1 := ReplaceAll(t2, [EnDash], "-");
    var d2 := ReplaceAll(d1, [EmDash], "-");
    var d3 := ReplaceAll(d2, [EnDash], "-");
    ReplaceCharKeepsAbsent(t2, EnDash, '-', nb);
    ReplaceCharKeepsAbsent(d1, EmDash, '-', nb);
    ReplaceCharKeepsAbsent(d2, EnDash, '-', nb);
    ReplaceCharKeepsAbsent(d3, EmDash, '-', nb);
    ReplaceCharChars(t2, EnDash, '-');
    ReplaceCharChars(d1, EmDash, '-');
    ReplaceCharChars(d2, EnDash, '-');
    ReplaceCharChars(d3, EmDash, '-');
  }

  lemma SpaceStage(t3: string)
    requires !Contains(t3, "&nbsp") && Nbsp !in t3 && EnDash !in t3 && EmDash !in t3
    ensures IsClean(Strip(CollapseSpaces(t3)))
  {
    var t4 := CollapseSpaces(t3);
    assert !Contains(t4, "&nbsp") by {
      CollapseKeepsAbsent(t3, "&nbsp");
    }
    assert EnDash !in t4 && EmDash !in t4 by {
      CollapseAbsent(t3, EnDash);
      CollapseAbsent(t3, EmDash);
    }
    StripClean(t4);
  }

  /** A character other than whitespace that the text lacks is still missing after
      collapsing. */
  lemma CollapseAbsent(t3: string, c: char)
    requires c !in t3 && !IsSpace(c)
    ensures c !in CollapseSpaces(t3)
  {
    var t4 := CollapseSpaces(t3);
    forall k | 0 <= k < |t4| ensures t4[k] != c {
      if !IsSpace(t4[k]) {
        assert t4[k] in t3;
      }
    }
  }

  /** Stripping collapsed text without entities or dashes gives clean text. */
  lemma StripClean(t4: string)
    requires !Contains(t4, "&nbsp") && EnDash !in t4 && EmDash !in t4
    requires OnlyPlainSpaces(t4) && NoDoubleSpace(t4)
    ensures IsClean(Strip(t4))
  {
    var r := Strip(t4);
    var a := Run(t4, 0, IsSpace);
    assert !Contains(r, "&nbsp") by {
      WindowKeepsAbsent(t4, r, a, "&nbsp");
    }
    assert OnlyPlainSpaces(r) && NoDoubleSpace(r) by {
      WindowKeepsSpacing(t4, r, a);
    }
    assert Nbsp !in r && EnDash !in r && EmDash !in r by {
      forall k | 0 <= k < |r| ensures r[k] != Nbsp && r[k] != EnDash && r[k] != EmDash {
        assert r[k] == t4[a + k];
      }
    }
    assert r != [] ==> !IsSpace(r[0]) && !IsSpace(r[|r| - 1]);
  }

  /** Cleaning a cleaned string changes nothing. */
  lemma CleanIdempotent(text: string)
    ensures CleanVersionText(CleanVersionText(text)) == CleanVersionText(text)
  {
    CleanNoop(CleanVersionText(text));
  }

  /** A string already in the cleaned shape is left as it is. */
  lemma CleanNoop(x: string)
    requires IsClean(x)
    ensures CleanVersionText(x) == x
  {
    AbsentExtension(x, "&nbsp", ";");
    assert "&nbsp;" == "&nbsp" + ";";
    ReplaceAbsent(x, "&nbsp;", " ");
    ReplaceAbsent(x, "&nbsp", " ");
    AbsentChar(x, Nbsp);
    ReplaceAbsent(x, [Nbsp], " ");
    AbsentChar(x, EnDash);
    ReplaceAbsent(x, [EnDash], "-");
    AbsentChar(x, EmDash);
    ReplaceAbsent(x, [EmDash], "-");
    assert ReplaceDashes(ReplaceNbsp(ReplaceEntities(x))) == x;
    CollapseNoop(x);
    StripByNoop(x, IsSpace);
  }
}
