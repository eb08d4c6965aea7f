/** `parse_table` of the Xcode releases scraper: the header row picks the Xcode,
    minimum-macOS and SDK columns, and every later row with enough cells and a version
    number in its Xcode cell becomes one release record. */
module XcodeTable {
  import opened Text
  import opened Collections
  import opened Rows
  import opened Scan
  import opened XcodeText
  import opened XcodeVersions
  import opened XcodeSdk

  /** `\b(\d+(?:\.\d+)?(?:\.\d+)?)\b` at `p`: a number of one to three groups standing as a
      word of its own; the optional groups are given up, last first, until a word
      boundary follows. */
  function NumberWordAt(s: string, p: nat): (e: Option<nat>)
    ensures e.Some? ==> p < e.value <= |s| && WordStart(s, p) && WordEnd(s, e.value)
    ensures e.Some? ==> IsNumber(s[p..e.value], 3)
  {
    if p < |s| && IsDigit(s[p]) && WordStart(s, p) then
      var e1 := Digits(s, p);
      if DotDigit(s, e1) then
        var e2 := Digits(s, e1 + 1);
        var e := if DotDigit(s, e2) && WordEnd(s, Digits(s, e2 + 1)) then Digits(s, e2 + 1)
                 else if WordEnd(s, e2) then e2
                 else e1;
        NumberWordShape(s, p, e1, e2, e);
        Some(e)
      else if WordEnd(s, e1) then
        NumberWordShape(s, p, e1, e1, e1);
        Some(e1)
      else None
    else None
  }

  /** Stopping after the first, second or third digit group leaves a number of at most
      three groups. */
  lemma NumberWordShape(s: string, p: nat, e1: nat, e2: nat, e: nat)
    requires p < |s| && IsDigit(s[p]) && e1 == Digits(s, p)
    requires e2 == e1 || (DotDigit(s, e1) && e2 == Digits(s, e1 + 1))
    requires e == e1 || e == e2 || (e2 > e1 && DotDigit(s, e2) && e == Digits(s, e2 + 1))
    ensures p < e <= |s| && IsNumber(s[p..e], 3)
  {
    if e > e2 {
      assert NumberIn(s, e2 + 1, e, 1);
      assert NumberIn(s, e1 + 1, e, 2);
    } else if e > e1 {
      assert NumberIn(s, e1 + 1, e, 1);
    }
    assert NumberIn(s, p, e, 3);
    NumberInSlice(s, p, e, 3);
  }

  /** What the header chain of `if`/`elif` makes of a (lower-cased) header. */
  datatype Role = XcodeRole | MacosRole | SdkRole | NoRole

  function RoleOf(h: string): (r: Role)
    ensures r == XcodeRole <==> Contains(h, "xcode")
    ensures r == MacosRole <==>
      !Contains(h, "xcode") && (Contains(h, "macos") || Contains(h, "minimum") || Contains(h, "os"))
    ensures r == SdkRole <==>
      !Contains(h, "xcode") && !Contains(h, "macos") && !Contains(h, "minimum") && !Contains(h, "os")
      && Contains(h, "sdk")
  {
    if Contains(h, "xcode") then XcodeRole
    else if Contains(h, "macos") || Contains(h, "minimum") || Contains(h, "os") then MacosRole
    else if Contains(h, "sdk") then SdkRole
    else NoRole
  }

  /** The headers as the source reads them: lower-cased. */
  function LowerAll(headers: seq<string>): (hs: seq<string>)
    ensures |hs| == |headers| && forall i :: 0 <= i < |hs| ==> hs[i] == Lower(headers[i])
  {
    seq(|headers|, i requires 0 <= i < |headers| => Lower(headers[i]))
  }

  /** The index a column variable holds after the header loop: the last header with
      that role wins. */
  function LastWith(hs: seq<string>, role: Role): (r: Option<nat>)
    ensures r.Some? ==> r.value < |hs| && RoleOf(hs[r.value]) == role
    ensures r.Some? ==> forall j :: r.value < j < |hs| ==> RoleOf(hs[j]) != role
    ensures r.None? ==> forall j :: 0 <= j < |hs| ==> RoleOf(hs[j]) != role
  {
    if hs == [] then None
    else if RoleOf(hs[|hs| - 1]) == role then Some(|hs| - 1)
    else LastWith(hs[..|hs| - 1], role)
  }

  /** The column indices the table is read with; the macOS and SDK columns may be absent. */
  datatype Columns = Columns(xcode: nat, macos: Option<nat>, sdk: Option<nat>)

  /** The columns chosen from the lower-cased headers, or the error raised when no header
      names Xcode. A header naming Xcode never serves as the macOS or SDK column, and
      the three columns are distinct. */
  function ColumnsOf(hs: seq<string>): (r: Result<Columns>)
    ensures r.MissingColumn? <==> forall i :: 0 <= i < |hs| ==> !Contains(hs[i], "xcode")
    ensures r.MissingColumn? ==> r.headers == hs
    ensures r.Ok? ==> var c := r.value;
      && c.xcode < |hs| && Contains(hs[c.xcode], "xcode")
      && (forall j :: c.xcode < j < |hs| ==> !Contains(hs[j], "xcode"))
      && (c.macos.Some? ==> c.macos.value < |hs| && !Contains(hs[c.macos.value], "xcode"))
      && (c.sdk.Some? ==> c.sdk.value < |hs| && !Contains(hs[c.sdk.value], "xcode")
                          && Contains(hs[c.sdk.value], "sdk"))
      && (c.macos.Some? ==> c.macos.value != c.xcode)
      && (c.sdk.Some? ==> c.sdk.value != c.xcode)
      && (c.macos.Some? && c.sdk.Some? ==> c.macos.value != c.sdk.value)
  {
    match LastWith(hs, XcodeRole)
    case None => MissingColumn(hs)
    case Some(x) => Ok(Columns(x, LastWith(hs, MacosRole), LastWith(hs, SdkRole)))
  }

  /** The header loop of `parse_table`, over the lower-cased headers. */
  method FindColumns(hs: seq<string>) returns (r: Result<Columns>)
    ensures r == ColumnsOf(hs)
  {
    var idxXcode, idxMacos, idxSdk: Option<nat> := None, None, None;
    for i := 0 to |hs|
      invariant idxXcode == LastWith(hs[..i], XcodeRole)
      invariant idxMacos == LastWith(hs[..i], MacosRole)
      invariant idxSdk == LastWith(hs[..i], SdkRole)
    {
      assert hs[..i + 1][..i] == hs[..i];
      var h := hs[i];
      if Contains(h, "xcode") {
        idxXcode := Some(i);
      } else if Contains(h, "macos") || Contains(h, "minimum") || Contains(h, "os") {
        idxMacos := Some(i);
      } else if Contains(h, "sdk") {
        idxSdk := Some(i);
      }
    }
    assert hs[..|hs|] == hs;
    if idxXcode == None {
      return MissingColumn(hs);
    }
    r := Ok(Columns(idxXcode.value, idxMacos, idxSdk));
  }

  /** One release of the output list. */
  datatype XcodeRelease = XcodeRelease(xcodeVersion: string, macosVersion: string, sdks: Dict)

  /** The largest column index in use: a row needs more cells than this. */
  function MaxIndex(c: Columns): (m: nat)
    ensures m >= c.xcode
    ensures c.macos.Some? ==> m >= c.macos.value
    ensures c.sdk.Some? ==> m >= c.sdk.value
    ensures m == c.xcode || c.macos == Some(m) || c.sdk == Some(m)
  {
    var m := c.xcode;
    var m := if c.macos.Some? && c.macos.value > m then c.macos.value else m;
    if c.sdk.Some? && c.sdk.value > m then c.sdk.value else m
  }

  /** The Xcode version of a row: the first number standing as a word of its own in the
      cleaned Xcode cell, if there is one. */
  function XcodeVersionOf(cell: string): (v: Option<string>)
    ensures v.None? <==> Search(CleanVersionText(cell), 0, NumberWordAt).None?
    ensures v.Some? ==> IsNumber(v.value, 3)
  {
    var t := CleanVersionText(cell);
    match Search(t, 0, NumberWordAt)
    case None => None
    case Some(m) => Some(Found(t, m))
  }

  /** What one table row becomes: nothing when it is too short or its cleaned Xcode
      cell holds no number; otherwise the first number of the Xcode cell, the parsed
      macOS cell (empty without a macOS column) and the SDK dictionary (empty without
      an SDK column). */
  function ReleaseOf(c: Columns, cells: seq<string>): (r: Option<XcodeRelease>)
    ensures r.None? <==> |cells| <= MaxIndex(c) || XcodeVersionOf(cells[c.xcode]).None?
    ensures r.Some? ==> IsNumber(r.value.xcodeVersion, 3)
    ensures r.Some? ==>
      r.value.macosVersion == if c.macos.Some? then ParseMacosVersions(cells[c.macos.value]) else ""
    ensures r.Some? ==> r.value.sdks == if c.sdk.Some? then SdkDict(cells[c.sdk.value]) else []
  {
    if |cells| <= MaxIndex(c) then None
    else
      match XcodeVersionOf(cells[c.xcode])
      case None => None
      case Some(v) =>
        var macos := if c.macos.Some? then ParseMacosVersions(cells[c.macos.value]) else "";
        var sdks := if c.sdk.Some? then SdkDict(cells[c.sdk.value]) else [];
        Some(XcodeRelease(v, macos, sdks))
  }

  /** What each row yields, row by row. */
  function Outcomes(c: Columns, rows: seq<seq<string>>): (os: seq<Option<XcodeRelease>>)
    ensures |os| == |rows| && forall i :: 0 <= i < |rows| ==> os[i] == ReleaseOf(c, rows[i])
  {
    seq(|rows|, i requires 0 <= i < |rows| => ReleaseOf(c, rows[i]))
  }

  /** The records of the rows that yield one, in row order. */
  function Releases(c: Columns, rows: seq<seq<string>>): (rs: seq<XcodeRelease>)
    ensures |rs| <= |rows|
    ensures forall r :: r in rs ==> IsNumber(r.xcodeVersion, 3)
  {
    var os := Outcomes(c, rows);
    var rs := Present(os);
    assert forall r :: r in rs ==> IsNumber(r.xcodeVersion, 3) by {
      forall r | r in rs ensures IsNumber(r.xcodeVersion, 3) {
        var i :| 0 <= i < |os| && os[i] == Some(r);
      }
    }
    rs
  }

  /** The output lists, in row order, exactly the records of the rows that yield one:
      record `k` comes from row `ks[k]`, those row indices increase, and every row left
      out yields nothing. */
  lemma ReleasesInRowOrder(c: Columns, rows: seq<seq<string>>)
    ensures var rs, ks := Releases(c, rows), PresentAt(Outcomes(c, rows));
      && |rs| == |ks|
      && (forall k :: 0 <= k < |ks| ==> ks[k] < |rows| && ReleaseOf(c, rows[ks[k]]) == Some(rs[k]))
      && (forall k, l :: 0 <= k < l < |ks| ==> ks[k] < ks[l])
      && (forall i :: 0 <= i < |rows| && i !in ks ==> ReleaseOf(c, rows[i]).None?)
  {
    PresentInOrder(Outcomes(c, rows));
  }

  /** Reading one more row appends what that row yields. */
  lemma OutcomesStep(c: Columns, body: seq<seq<string>>, i: nat)
    requires i < |body|
    ensures Present(Outcomes(c, body[..i + 1])) ==
      Present(Outcomes(c, body[..i])) + match ReleaseOf(c, body[i]) case Some(r) => [r] case None => []
  {
    var os := Outcomes(c, body[..i + 1]);
    assert os[..i] == Outcomes(c, body[..i]);
  }

  /** `parse_table` on a table whose header cells read `headers` and whose rows read
      `rows`: the error when no header names Xcode, otherwise at most one record per
      row below the header row, each with a version number of one to three groups. */
  function TableOf(headers: seq<string>, rows: seq<seq<string>>): (r: Result<seq<XcodeRelease>>)
    ensures r.MissingColumn? <==> forall i :: 0 <= i < |headers| ==> !Contains(Lower(headers[i]), "xcode")
    ensures r.Ok? ==> |r.value| <= |Body(rows)|
    ensures r.Ok? ==> forall x :: x in r.value ==> IsNumber(x.xcodeVersion, 3)
  {
    match ColumnsOf(LowerAll(headers))
    case MissingColumn(hs) => MissingColumn(hs)
    case Ok(c) => Ok(Releases(c, Body(rows)))
  }

  /** The body of the row loop of `parse_table`: a row too short for the chosen columns,
      or whose Xcode cell holds no number, is skipped. */
  method ParseRow(c: Columns, cells: seq<string>) returns (release: Option<XcodeRelease>)
    ensures release == ReleaseOf(c, cells)
  {
    if |cells| <= MaxIndex(c) {
      return None;
    }
    var xcodeText := CleanVersionText(cells[c.xcode]);
    var xcodeMatch := Search(xcodeText, 0, NumberWordAt);
    if xcodeMatch.None? {
      return None;
    }
    var xcodeVersion := Found(xcodeText, xcodeMatch.value);
    assert XcodeVersionOf(cells[c.xcode]) == Some(xcodeVersion);
    var macosVersion := "";
    if c.macos.Some? && c.macos.value < |cells| {
      macosVersion := ParseMacosVersions(cells[c.macos.value]);
    }
    var sdks: Dict := [];
    if c.sdk.Some? && c.sdk.value < |cells| {
      sdks := ParseSdkColumn(cells[c.sdk.value]);
    }
    release := Some(XcodeRelease(xcodeVersion, macosVersion, sdks));
  }

  /** The row loop of `parse_table`, calling `parse_sdk_column` for each row's SDK cell. */
  method ParseTable(headers: seq<string>, rows: seq<seq<string>>) returns (r: Result<seq<XcodeRelease>>)
    ensures r == TableOf(headers, rows)
  {
    var hs := LowerAll(headers);
    var cols := FindColumns(hs);
    if cols.MissingColumn? {
      return MissingColumn(hs);
    }
    var c := cols.value;
    var body := Body(rows);
    var results: seq<XcodeRelease> := [];
    for i := 0 to |body|
      invariant results == Present(Outcomes(c, body[..i]))
    {
      OutcomesStep(c, body, i);
      var release := ParseRow(c, body[i]);
      if release.Some? {
        results := results + [release.value];
      }
    }
    assert body[..|body|] == body;
    assert results == Releases(c, body);
    r := Ok(results);
  }
}
