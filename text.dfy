/** Character classes and the string operations the two scrapers take from
    Python's `str` type (`strip`, `split`, `replace`, `lower`, `in`) and the
    two whitespace-collapsing substitutions they run through `re.sub`. */
module Text {

  /** Python's `\s` (and `str.isspace`): the ASCII controls, the information
      separators, NEL, NBSP and the Unicode space separators. */
  predicate IsSpace(c: char) {
    c == ' ' || ('\t' <= c <= '\r') || ('\U{1C}' <= c <= '\U{1F}') || c == '\U{85}' ||
    c == '\U{A0}' || c == '\U{1680}' || ('\U{2000}' <= c <= '\U{200A}') ||
    c == '\U{2028}' || c == '\U{2029}' || c == '\U{202F}' || c == '\U{205F}' || c == '\U{3000}'
  }

  /** `\d`, ASCII digits only. */
  predicate IsDigit(c: char) {
    '0' <= c <= '9'
  }

  /** `\w`, ASCII word characters only. */
  predicate IsWordChar(c: char) {
    ('a' <= c <= 'z') || ('A' <= c <= 'Z') || IsDigit(c) || c == '_'
  }

  /** The characters `str.strip(" ,")` removes. */
  predicate IsSpaceOrComma(c: char) {
    c == ' ' || c == ','
  }

  /** ASCII lower-casing of one character, as `str.lower` does on ASCII. */
  function LowerChar(c: char): (r: char)
    ensures 'A' <= c <= 'Z' ==> r as int == c as int + 32
    ensures !('A' <= c <= 'Z') ==> r == c
  {
    if 'A' <= c <= 'Z' then (c as int + 32) as char else c
  }

  function Lower(s: string): (r: string)
    ensures |r| == |s|
    ensures forall i :: 0 <= i < |s| ==> r[i] == LowerChar(s[i])
  {
    seq(|s|, i requires 0 <= i < |s| => LowerChar(s[i]))
  }

  /** End of the longest run of `p`-characters that starts at `i`. */
  function Run(s: string, i: nat, p: char -> bool): (r: nat)
    requires i <= |s|
    ensures i <= r <= |s|
    ensures forall k :: i <= k < r ==> p(s[k])
    ensures r < |s| ==> !p(s[r])
    decreases |s| - i
  {
    if i < |s| && p(s[i]) then Run(s, i + 1, p) else i
  }

  /** Start of the longest run of `p`-characters that ends at `hi` and does not reach below `lo`. */
  function RunBack(s: string, lo: nat, hi: nat, p: char -> bool): (r: nat)
    requires lo <= hi <= |s|
    ensures lo <= r <= hi
    ensures forall k :: r <= k < hi ==> p(s[k])
    ensures r > lo ==> !p(s[r - 1])
    decreases hi
  {
    if hi > lo && p(s[hi - 1]) then RunBack(s, lo, hi - 1, p) else hi
  }

  /** A run computed on a slice agrees with the run on the whole string, cut at the slice's end. */
  lemma {:induction false} RunSlice(s: string, a: nat, b: nat, i: nat, p: char -> bool)
    requires a <= i <= b <= |s|
    ensures Run(s[a..b], i - a, p) + a == if Run(s, i, p) < b then Run(s, i, p) else b
    decreases b - i
  {
    if i < b && p(s[i]) {
      RunSlice(s, a, b, i + 1, p);
    }
  }

  /** `str.strip(chars)` with the character class `p`: both ends lose their `p`-characters. */
  function StripBy(s: string, p: char -> bool): (r: string)
    ensures |r| <= |s|
    ensures r != [] ==> !p(r[0]) && !p(r[|r| - 1])
    ensures r == [] <==> forall k :: 0 <= k < |s| ==> p(s[k])
    ensures Run(s, 0, p) + |r| <= |s|
    ensures forall k :: 0 <= k < |r| ==> r[k] == s[Run(s, 0, p) + k]
  {
    var a := Run(s, 0, p);
    var b := RunBack(s, a, |s|, p);
    assert a == |s| || (a < b && !p(s[a]));
    s[a..b]
  }

  /** Python's `str.strip()`. */
  function Strip(s: string): string {
    StripBy(s, IsSpace)
  }

  /** Python's `str.strip(" ,")`. */
  function StripSpaceComma(s: string): string {
    StripBy(s, IsSpaceOrComma)
  }

  /** A string that has no stripped characters at either end is left as it is. */
  lemma StripByNoop(s: string, p: char -> bool)
    requires s != [] ==> !p(s[0]) && !p(s[|s| - 1])
    ensures Run(s, 0, p) == 0 && StripBy(s, p) == s
  {
    assert Run(s, 0, p) == 0;
  }

  lemma StripIdempotent(s: string, p: char -> bool)
    ensures StripBy(StripBy(s, p), p) == StripBy(s, p)
  {
    StripByNoop(StripBy(s, p), p);
  }

  /** `pat` occurs in `s` at position `i`. */
  predicate StartsAt(s: string, i: nat, pat: string) {
    i + |pat| <= |s| && s[i..i + |pat|] == pat
  }

  /** Python's `pat in s`. */
  predicate Contains(s: string, pat: string) {
    exists i: nat | i <= |s| :: StartsAt(s, i, pat)
  }

  /** A window of `s` (the characters from `a` on) cannot hold an occurrence `s` lacks. */
  lemma WindowKeepsAbsent(s: string, t: string, a: nat, pat: string)
    requires a + |t| <= |s|
    requires forall k :: 0 <= k < |t| ==> t[k] == s[a + k]
    requires !Contains(s, pat)
    ensures !Contains(t, pat)
  {
    forall i: nat | i <= |t| ensures !StartsAt(t, i, pat) {
      if StartsAt(t, i, pat) {
        assert s[a + i..a + i + |pat|] == t[i..i + |pat|];
        assert StartsAt(s, a + i, pat);
      }
    }
  }

  /** Python's `s.replace(pat, rep)`: every non-overlapping occurrence, left to right. */
  function ReplaceAll(s: string, pat: string, rep: string): (r: string)
    requires pat != []
    decreases |s|
  {
    if |s| < |pat| then s
    else if s[..|pat|] == pat then rep + ReplaceAll(s[|pat|..], pat, rep)
    else [s[0]] + ReplaceAll(s[1..], pat, rep)
  }

  /** Replacing by a character foreign to `pat` keeps every prefix free of that
      character identical to the same prefix of the input. */
  lemma {:induction false} ReplacePrefix(s: string, pat: string, c: char, j: nat)
    requires pat != [] && c !in pat
    requires j <= |ReplaceAll(s, pat, [c])|
    requires forall k :: 0 <= k < j ==> ReplaceAll(s, pat, [c])[k] != c
    ensures j <= |s| && ReplaceAll(s, pat, [c])[..j] == s[..j]
    decreases |s|
  {
    var r := ReplaceAll(s, pat, [c]);
    if |s| < |pat| {
    } else if s[..|pat|] == pat {
      assert r[0] == c;
    } else if j > 0 {
      var rest := ReplaceAll(s[1..], pat, [c]);
      assert r == [s[0]] + rest;
      forall k | 0 <= k < j - 1 ensures rest[k] != c {
        assert rest[k] == r[k + 1];
      }
      ReplacePrefix(s[1..], pat, c, j - 1);
      assert r[..j] == [s[0]] + rest[..j - 1];
    }
  }

  /** After `s.replace(pat, c)`, with `c` not in `pat`, no occurrence of `pat` is left. */
  lemma {:induction false} ReplaceRemoves(s: string, pat: string, c: char)
    requires pat != [] && c !in pat
    ensures !Contains(ReplaceAll(s, pat, [c]), pat)
    decreases |s|
  {
    var r := ReplaceAll(s, pat, [c]);
    if |s| < |pat| {
    } else if s[..|pat|] == pat {
      var rest := ReplaceAll(s[|pat|..], pat, [c]);
      assert r[1..] == rest;
      ReplaceRemoves(s[|pat|..], pat, c);
      assert !StartsAt(r, 0, pat) by {
        assert r[0] == c && pat[0] in pat;
      }
      ShiftKeepsAbsent(r, rest, pat);
    } else {
      var rest := ReplaceAll(s[1..], pat, [c]);
      assert r[1..] == rest;
      ReplaceRemoves(s[1..], pat, c);
      assert !StartsAt(r, 0, pat) by {
        if StartsAt(r, 0, pat) {
          ReplacePrefix(s, pat, c, |pat|);
        }
      }
      ShiftKeepsAbsent(r, rest, pat);
    }
  }

  /** Replacing something that does not occur changes nothing. */
  lemma {:induction false} ReplaceAbsent(s: string, pat: string, rep: string)
    requires pat != [] && !Contains(s, pat)
    ensures ReplaceAll(s, pat, rep) == s
    decreases |s|
  {
    if |s| >= |pat| {
      assert !StartsAt(s, 0, pat);
      WindowKeepsAbsent(s, s[1..], 1, pat);
      ReplaceAbsent(s[1..], pat, rep);
    }
  }

  /** Replacing one character by another rewrites exactly that character. */
  lemma {:induction false} ReplaceCharAt(s: string, x: char, y: char)
    ensures |ReplaceAll(s, [x], [y])| == |s|
    ensures forall k :: 0 <= k < |s| ==> ReplaceAll(s, [x], [y])[k] == if s[k] == x then y else s[k]
    decreases |s|
  {
    if s != [] {
      ReplaceCharAt(s[1..], x, y);
      var rest := ReplaceAll(s[1..], [x], [y]);
      assert s[..1] == [x] <==> s[0] == x;
      assert ReplaceAll(s, [x], [y]) == [if s[0] == x then y else s[0]] + rest;
    }
  }

  /** A one-character replacement that neither removes nor introduces a character
      of `pat` cannot create an occurrence of `pat`. */
  lemma ReplaceCharKeepsAbsent(s: string, x: char, y: char, pat: string)
    requires x !in pat && y !in pat && !Contains(s, pat)
    ensures !Contains(ReplaceAll(s, [x], [y]), pat)
  {
    var r := ReplaceAll(s, [x], [y]);
    ReplaceCharAt(s, x, y);
    forall i: nat | i <= |r| ensures !StartsAt(r, i, pat) {
      if StartsAt(r, i, pat) {
        forall k | 0 <= k < |pat| ensures s[i + k] == pat[k] {
          assert r[i + k] == pat[k];
        }
        assert s[i..i + |pat|] == pat;
        assert StartsAt(s, i, pat);
      }
    }
  }

  /** Every whitespace character of `s` is a plain space. */
  predicate OnlyPlainSpaces(s: string) {
    forall k :: 0 <= k < |s| && IsSpace(s[k]) ==> s[k] == ' '
  }

  /** No two whitespace characters of `s` are adjacent. */
  predicate NoDoubleSpace(s: string) {
    forall i, j :: 0 <= i < |s| && 0 <= j < |s| && j == i + 1 ==> !(IsSpace(s[i]) && IsSpace(s[j]))
  }

  /** `re.sub(r'\s+', ' ', s)`: every whitespace run becomes one plain space. */
  function CollapseSpaces(s: string): (r: string)
    ensures s == [] <==> r == []
    ensures s != [] && IsSpace(s[0]) ==> r[0] == ' '
    ensures s != [] && !IsSpace(s[0]) ==> r[0] == s[0]
    ensures OnlyPlainSpaces(r) && NoDoubleSpace(r)
    ensures forall k :: 0 <= k < |r| && !IsSpace(r[k]) ==> r[k] in s
    decreases |s|
  {
    if s == [] then []
    else if IsSpace(s[0]) then " " + CollapseSpaces(s[Run(s, 0, IsSpace)..])
    else [s[0]] + CollapseSpaces(s[1..])
  }

  /** Collapsing keeps every whitespace-free prefix of the result equal to the input's. */
  lemma {:induction false} CollapsePrefix(s: string, j: nat)
    requires j <= |CollapseSpaces(s)|
    requires forall k :: 0 <= k < j ==> !IsSpace(CollapseSpaces(s)[k])
    ensures j <= |s| && CollapseSpaces(s)[..j] == s[..j]
    decreases |s|
  {
    if s != [] && !IsSpace(s[0]) && j > 0 {
      var r, rest := CollapseSpaces(s), CollapseSpaces(s[1..]);
      assert r == [s[0]] + rest;
      forall k | 0 <= k < j - 1 ensures !IsSpace(rest[k]) {
        assert rest[k] == r[k + 1];
      }
      CollapsePrefix(s[1..], j - 1);
      assert r[..j] == [s[0]] + rest[..j - 1];
    }
  }

  /** Collapsing whitespace cannot create an occurrence of a whitespace-free pattern. */
  lemma {:induction false} CollapseKeepsAbsent(s: string, pat: string)
    requires pat != [] && forall k :: 0 <= k < |pat| ==> !IsSpace(pat[k])
    requires !Contains(s, pat)
    ensures !Contains(CollapseSpaces(s), pat)
    decreases |s|
  {
    var r := CollapseSpaces(s);
    if s != [] {
      var e := if IsSpace(s[0]) then Run(s, 0, IsSpace) else 1;
      var rest := CollapseSpaces(s[e..]);
      assert !Contains(rest, pat) by {
        WindowKeepsAbsent(s, s[e..], e, pat);
        CollapseKeepsAbsent(s[e..], pat);
      }
      assert !StartsAt(r, 0, pat) by {
        if StartsAt(r, 0, pat) {
          CollapsePrefix(s, |pat|);
          assert StartsAt(s, 0, pat);
        }
      }
      ShiftKeepsAbsent(r, rest, pat);
    }
  }

  /** A string whose first character is followed by text without `pat` holds `pat` only
      at its start, if anywhere. */
  lemma ShiftKeepsAbsent(r: string, rest: string, pat: string)
    requires r != [] && r[1..] == rest && !Contains(rest, pat) && !StartsAt(r, 0, pat)
    ensures !Contains(r, pat)
  {
    forall i: nat | 1 <= i <= |r| ensures !StartsAt(r, i, pat) {
      if StartsAt(r, i, pat) {
        assert rest[i - 1..i - 1 + |pat|] == r[i..i + |pat|];
        assert StartsAt(rest, i - 1, pat);
      }
    }
  }

  /** A string already spaced by single plain spaces is left as it is. */
  lemma {:induction false} CollapseNoop(s: string)
    requires OnlyPlainSpaces(s) && NoDoubleSpace(s)
    ensures CollapseSpaces(s) == s
    decreases |s|
  {
    if s != [] {
      if IsSpace(s[0]) {
        assert Run(s, 0, IsSpace) == 1 by {
          assert |s| > 1 ==> !IsSpace(s[1]);
          assert Run(s, 1, IsSpace) == 1;
        }
      }
      CollapseNoop(s[1..]);
    }
  }

  /** `re.sub(r"\s{2,}", " ", s)`: runs of two or more whitespace characters become
      one plain space; a lone whitespace character stays as it is. */
  function CollapseLongSpaces(s: string): (r: string)
    ensures s == [] <==> r == []
    ensures s != [] ==> (IsSpace(r[0]) <==> IsSpace(s[0]))
    ensures s != [] && !IsSpace(s[0]) ==> r[0] == s[0]
    ensures NoDoubleSpace(r)
    decreases |s|
  {
    if s == [] then []
    else
      var e := if IsSpace(s[0]) then Run(s, 0, IsSpace) else 1;
      var head := if e >= 2 then " " else s[..1];
      var rest := CollapseLongSpaces(s[e..]);
      assert IsSpace(s[0]) && e < |s| ==> !IsSpace(s[e]) && !IsSpace(rest[0]);
      head + rest
  }

  /** The head the collapse emits for the first run of `s`, and the remainder it recurses on. */
  lemma CollapseLongStep(s: string)
    requires s != []
    ensures var e := if IsSpace(s[0]) then Run(s, 0, IsSpace) else 1;
            CollapseLongSpaces(s) == (if e >= 2 then " " else s[..1]) + CollapseLongSpaces(s[e..])
  {
  }

  /** Collapsing keeps a non-whitespace last character. */
  lemma {:induction false} CollapseLongLast(s: string)
    requires s != [] && !IsSpace(s[|s| - 1])
    ensures var r := CollapseLongSpaces(s); r[|r| - 1] == s[|s| - 1]
    decreases |s|
  {
    CollapseLongStep(s);
    var e := if IsSpace(s[0]) then Run(s, 0, IsSpace) else 1;
    if e < |s| {
      CollapseLongLast(s[e..]);
    }
  }

  /** Every character of the collapsed string is a plain space or comes from the input. */
  lemma {:induction false} CollapseLongChars(s: string)
    ensures forall k :: 0 <= k < |CollapseLongSpaces(s)| ==> CollapseLongSpaces(s)[k] == ' ' || CollapseLongSpaces(s)[k] in s
    decreases |s|
  {
    if s != [] {
      CollapseLongStep(s);
      var e := if IsSpace(s[0]) then Run(s, 0, IsSpace) else 1;
      CollapseLongChars(s[e..]);
      var rest := CollapseLongSpaces(s[e..]);
      forall c | c in rest ensures c == ' ' || c in s {
        if c != ' ' { assert c in s[e..]; }
      }
    }
  }

  /** A collapsed string without whitespace is the input itself: nothing was collapsed. */
  lemma {:induction false} CollapseLongNoSpaces(s: string)
    requires forall k :: 0 <= k < |CollapseLongSpaces(s)| ==> !IsSpace(CollapseLongSpaces(s)[k])
    ensures CollapseLongSpaces(s) == s
    decreases |s|
  {
    if s != [] {
      CollapseLongStep(s);
      var rest := CollapseLongSpaces(s[1..]);
      forall k | 0 <= k < |rest| ensures !IsSpace(rest[k]) {
        assert rest[k] == CollapseLongSpaces(s)[k + 1];
      }
      CollapseLongNoSpaces(s[1..]);
    }
  }

  /** A string without two adjacent whitespace characters is left as it is. */
  lemma {:induction false} CollapseLongNoop(s: string)
    requires NoDoubleSpace(s)
    ensures CollapseLongSpaces(s) == s
    decreases |s|
  {
    if s != [] {
      CollapseLongStep(s);
      if IsSpace(s[0]) {
        assert Run(s, 0, IsSpace) == 1 by {
          assert |s| > 1 ==> !IsSpace(s[1]);
          assert Run(s, 1, IsSpace) == 1;
        }
      }
      CollapseLongNoop(s[1..]);
      assert s == s[..1] + s[1..];
    }
  }

  /** Python's `s.split(sep)`: the pieces between the separators, empty ones included. */
  function Split(s: string, sep: char): (parts: seq<string>)
    ensures |parts| >= 1
    ensures forall i :: 0 <= i < |parts| ==> sep !in parts[i]
    ensures Join(parts, sep) == s
    decreases |s|
  {
    var i := Run(s, 0, c => c != sep);
    if i == |s| then [s]
    else
      assert s == s[..i] + [sep] + s[i + 1..];
      [s[..i]] + Split(s[i + 1..], sep)
  }

  /** Text without the separator is not split. */
  lemma SplitWithout(s: string, sep: char)
    requires sep !in s
    ensures Split(s, sep) == [s]
  {
    assert forall k :: 0 <= k < |s| ==> s[k] != sep;
  }

  /** Python's `sep.join(parts)`. */
  function Join(parts: seq<string>, sep: char): string {
    if parts == [] then ""
    else if |parts| == 1 then parts[0]
    else parts[0] + [sep] + Join(parts[1..], sep)
  }

  /** After replacing `x` by `y`, `x` is gone and no other character appears that was not there. */
  lemma ReplaceCharChars(s: string, x: char, y: char)
    requires x != y
    ensures x !in ReplaceAll(s, [x], [y])
    ensures forall c :: c != y && c !in s ==> c !in ReplaceAll(s, [x], [y])
  {
    ReplaceCharAt(s, x, y);
  }

  /** A missing character is a missing one-character pattern. */
  lemma AbsentChar(s: string, c: char)
    requires c !in s
    ensures !Contains(s, [c])
  {
    forall i: nat | i <= |s| ensures !StartsAt(s, i, [c]) {
      if i < |s| {
        assert s[i..i + 1] == [s[i]];
      }
    }
  }

  /** Whoever contains `p + q` contains `p`. */
  lemma AbsentExtension(s: string, p: string, q: string)
    requires !Contains(s, p)
    ensures !Contains(s, p + q)
  {
    forall i: nat | i <= |s| ensures !StartsAt(s, i, p + q) {
      if StartsAt(s, i, p + q) {
        assert s[i..i + |p|] == (p + q)[..|p|] == p;
        assert StartsAt(s, i, p);
      }
    }
  }

  /** A window of a single-spaced string is single-spaced. */
  lemma WindowKeepsSpacing(s: string, t: string, a: nat)
    requires a + |t| <= |s|
    requires forall k :: 0 <= k < |t| ==> t[k] == s[a + k]
    requires OnlyPlainSpaces(s) && NoDoubleSpace(s)
    ensures OnlyPlainSpaces(t) && NoDoubleSpace(t)
  {
    forall k | 0 <= k < |t| - 1 ensures !(IsSpace(t[k]) && IsSpace(t[k + 1])) {
      assert t[k] == s[a + k] && t[k + 1] == s[a + k + 1];
    }
  }
}
