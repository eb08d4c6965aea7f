/** `parse_sdk_column` of the Xcode releases scraper: the SDK cell of a release row
    ("iOS 17.0, iPadOS 17.0, macOS 14.0, ...") becomes a platform-to-version
    dictionary. */
module XcodeSdk {
  import opened Text
  import opened Collections
  import opened Scan
  import opened XcodeText

  /** The alternatives of the platform group, in the order the pattern lists them. */
  const Platforms: seq<string> := ["iOS", "iPadOS", "macOS", "tvOS", "watchOS", "visionOS", "DriverKit"]

  /** A platform name as the case-insensitive pattern accepts it, in any spelling. */
  predicate IsPlatformName(n: string) {
    exists i :: 0 <= i < |Platforms| && Lower(n) == Lower(Platforms[i])
  }

  /** The first alternative, from index `i` on, that matches at `p` ignoring case; the end
      of the name. */
  function PlatformFrom(s: string, p: nat, i: nat): (q: Option<nat>)
    requires i <= |Platforms|
    ensures q.Some? ==> p < q.value <= |s| && IsPlatformName(s[p..q.value])
    decreases |Platforms| - i
  {
    if i == |Platforms| then None
    else
      var name := Platforms[i];
      if p + |name| <= |s| && Lower(s[p..p + |name|]) == Lower(name) then Some(p + |name|)
      else PlatformFrom(s, p, i + 1)
  }

  /** `(iOS|iPadOS|...|DriverKit)\s+(\d+(?:\.\d+)?(?:\.\d+)?)` at `p`, ignoring case: the end
      of the name and the bounds of the version. */
  function SdkAt(s: string, p: nat): (g: Option<(nat, nat, nat)>)
    ensures g.Some? ==> p < g.value.0 < g.value.1 < g.value.2 <= |s|
    ensures g.Some? ==> IsPlatformName(s[p..g.value.0]) && IsNumber(s[g.value.1..g.value.2], 3)
  {
    match PlatformFrom(s, p, 0)
    case None => None
    case Some(q) =>
      var j := Run(s, q, IsSpace);
      if q < j && j < |s| && IsDigit(s[j]) then
        var e1 := Digits(s, j);
        var e2 := if DotDigit(s, e1) then Digits(s, e1 + 1) else e1;
        var e3 := if DotDigit(s, e2) then Digits(s, e2 + 1) else e2;
        VersionShape(s, j, e1, e2, e3);
        Some((q, j, e3))
      else None
  }

  /** Up to two optional `.digits` groups after the first digit run make a number of at
      most three groups. */
  lemma VersionShape(s: string, j: nat, e1: nat, e2: nat, e3: nat)
    requires j < |s| && IsDigit(s[j]) && e1 == Digits(s, j)
    requires e2 == if DotDigit(s, e1) then Digits(s, e1 + 1) else e1
    requires e3 == if DotDigit(s, e2) then Digits(s, e2 + 1) else e2
    ensures j < e3 <= |s| && IsNumber(s[j..e3], 3)
  {
    if e2 < e3 {
      assert NumberIn(s, e2 + 1, e3, 1);
    }
    if e1 < e2 {
      assert NumberIn(s, e1 + 1, e3, 2);
    }
    assert NumberIn(s, j, e3, 3);
    NumberInSlice(s, j, e3, 3);
  }

  /** `re.findall` of the SDK pattern from `from` on: the (platform, version) pairs of the
      non-overlapping matches, left to right. */
  function SdkMatches(s: string, from: nat): (ms: seq<(string, string)>)
    ensures forall m :: m in ms ==> IsPlatformName(m.0) && IsNumber(m.1, 3)
    decreases |s| - from
  {
    if from >= |s| then []
    else match SdkAt(s, from)
      case Some(g) => [(s[from..g.0], s[g.1..g.2])] + SdkMatches(s, g.2)
      case None => SdkMatches(s, from + 1)
  }

  /** The version of the last match naming `k`, if any: what a dictionary written match by
      match holds for `k` at the end. */
  function LastValue(ms: seq<(string, string)>, k: string): Option<string> {
    if ms == [] then None
    else if ms[|ms| - 1].0 == k then Some(ms[|ms| - 1].1)
    else LastValue(ms[..|ms| - 1], k)
  }

  /** The dictionary after writing the matches one by one, `d[platform] = version`. */
  function WriteAll(ms: seq<(string, string)>): (d: Dict)
    ensures KeysUnique(d)
  {
    if ms == [] then [] else Put(WriteAll(ms[..|ms| - 1]), ms[|ms| - 1].0, ms[|ms| - 1].1)
  }

  /** The dictionary `parse_sdk_column` returns for a cell. */
  function SdkDict(text: string): Dict {
    WriteAll(SdkMatches(CleanVersionText(text), 0))
  }

  /** What the dictionary holds after the first `i` matches have been written into it. */
  ghost predicate WrittenUpTo(sdks: Dict, ms: seq<(string, string)>, i: nat)
    requires i <= |ms|
  {
    && KeysUnique(sdks)
    && Keys(sdks) == Dedup(Keys(ms[..i]))
    && (forall k :: Get(sdks, k) == LastValue(ms[..i], k))
    && (forall e :: e in sdks ==> e in ms)
  }

  /** Writing the matches one by one leaves each platform, in the order of its first
      occurrence, with the version of its last occurrence; every entry is a match. */
  lemma {:induction false} WriteAllSpec(ms: seq<(string, string)>, n: nat)
    requires n <= |ms|
    ensures WrittenUpTo(WriteAll(ms[..n]), ms, n)
  {
    if n > 0 {
      WriteAllSpec(ms, n - 1);
      assert ms[..n][..n - 1] == ms[..n - 1];
      WriteStep(WriteAll(ms[..n - 1]), ms, n - 1);
    }
  }

  /** Writing one more match is one more `Put`. */
  lemma WriteNext(ms: seq<(string, string)>, i: nat)
    requires i < |ms|
    ensures WriteAll(ms[..i + 1]) == Put(WriteAll(ms[..i]), ms[i].0, ms[i].1)
  {
    assert ms[..i + 1][..i] == ms[..i];
  }

  /** Writing all the matches: each platform once, in the order of its first occurrence,
      with the version of its last occurrence; every entry is a match. */
  lemma WrittenAll(ms: seq<(string, string)>)
    ensures var d := WriteAll(ms);
      && KeysUnique(d)
      && Keys(d) == Dedup(Keys(ms))
      && (forall k :: Get(d, k) == LastValue(ms, k))
      && (forall e :: e in d ==> e in ms)
  {
    WriteAllSpec(ms, |ms|);
    assert ms[..|ms|] == ms;
  }

  /** Writing match `i` into the dictionary extends what it holds by that match. */
  lemma WriteStep(sdks: Dict, ms: seq<(string, string)>, i: nat)
    requires i < |ms| && WrittenUpTo(sdks, ms, i)
    ensures WrittenUpTo(Put(sdks, ms[i].0, ms[i].1), ms, i + 1)
  {
    var r := Put(sdks, ms[i].0, ms[i].1);
    assert Keys(r) == Dedup(Keys(ms[..i + 1])) by {
      KeysStep(ms, i);
    }
    assert forall k :: Get(r, k) == LastValue(ms[..i + 1], k) by {
      GetStep(sdks, ms, i);
    }
  }

  lemma GetStep(sdks: Dict, ms: seq<(string, string)>, i: nat)
    requires i < |ms| && KeysUnique(sdks)
    requires forall k :: Get(sdks, k) == LastValue(ms[..i], k)
    ensures forall k :: Get(Put(sdks, ms[i].0, ms[i].1), k) == LastValue(ms[..i + 1], k)
  {
    LastValueStep(ms, i);
  }

  lemma KeysStep(ms: seq<(string, string)>, i: nat)
    requires i < |ms|
    ensures var d := Dedup(Keys(ms[..i]));
      Dedup(Keys(ms[..i + 1])) == if ms[i].0 in d then d else d + [ms[i].0]
  {
    var xs := Keys(ms[..i + 1]);
    assert xs[..|xs| - 1] == Keys(ms[..i]);
  }

  lemma LastValueStep(ms: seq<(string, string)>, i: nat)
    requires i < |ms|
    ensures forall k :: LastValue(ms[..i + 1], k) == if k == ms[i].0 then Some(ms[i].1) else LastValue(ms[..i], k)
  {
    var p := ms[..i + 1];
    assert p[..i] == ms[..i] && p[i] == ms[i] && |p| == i + 1;
    forall k ensures LastValue(p, k) == if k == ms[i].0 then Some(ms[i].1) else LastValue(ms[..i], k) {
    }
  }

  /** The dictionary of a cell: keys are the platform names in the spelling found, each
      once, in the order they first appear; each key holds the version of its last
      occurrence; every value is a number of one to three groups; an empty cell gives no
      entries. */
  lemma SdkDictSpec(text: string)
    ensures var ms, d := SdkMatches(CleanVersionText(text), 0), SdkDict(text);
      && KeysUnique(d)
      && Keys(d) == Dedup(Keys(ms))
      && (forall k :: Get(d, k) == LastValue(ms, k))
      && (forall e :: e in d ==> IsPlatformName(e.0) && IsNumber(e.1, 3))
    ensures text == "" ==> SdkDict(text) == []
  {
    WrittenAll(SdkMatches(CleanVersionText(text), 0));
    if text == "" {
      CleanEmpty();
    }
  }

  lemma CleanEmpty()
    ensures CleanVersionText("") == ""
  {
  }

  /** `parse_sdk_column`: the matches of the cleaned cell written one by one into a
      dictionary; `SdkDictSpec` states what that dictionary holds. */
  method ParseSdkColumn(text: string) returns (sdks: Dict)
    ensures sdks == SdkDict(text)
  {
    var t := CleanVersionText(text);
    var ms := SdkMatches(t, 0);
    sdks := [];
    for i := 0 to |ms|
      invariant sdks == WriteAll(ms[..i])
    {
      WriteNext(ms, i);
      sdks := Put(sdks, ms[i].0, ms[i].1);
    }
    assert ms[..|ms|] == ms;
  }
}
