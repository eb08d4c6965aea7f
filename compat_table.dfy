/** `parse_table` and `build_clean_json` of the macOS compatibility scraper: the
    "Hardware compatibility" table is read into raw rows (an operating-system cell and
    the comma-separated supported-systems items), and the raw rows are turned into the
    cleaned records the scraper writes out. */
module CompatTable {
  import opened Text
  import opened Collections
  import opened Rows
  import opened CompatSystems
  import opened CompatOs

  const OsHeader: string := "operating system"
  const SupportedHeader: string := "supported systems"

  /** The header starts with `prefix` once lower-cased (`h.lower().startswith(prefix)`). */
  predicate HeaderIs(h: string, prefix: string) {
    StartsAt(Lower(h), 0, prefix)
  }

  /** The index a column variable holds after the header loop: the last header that
      starts with `prefix` wins. */
  function LastHeader(headers: seq<string>, prefix: string): (r: Option<nat>)
    ensures r.Some? ==> r.value < |headers| && HeaderIs(headers[r.value], prefix)
    ensures r.Some? ==> forall j :: r.value < j < |headers| ==> !HeaderIs(headers[j], prefix)
    ensures r.None? ==> forall j :: 0 <= j < |headers| ==> !HeaderIs(headers[j], prefix)
  {
    if headers == [] then None
    else if HeaderIs(headers[|headers| - 1], prefix) then Some(|headers| - 1)
    else LastHeader(headers[..|headers| - 1], prefix)
  }

  /** The two column indices the table is read with. */
  datatype Columns = Columns(os: nat, supported: nat)

  /** The columns chosen from the headers, or the error raised, carrying the headers,
      when either column is missing. */
  function ColumnsOf(headers: seq<string>): (r: Result<Columns>)
    ensures r.MissingColumn? <==>
      (forall i :: 0 <= i < |headers| ==> !HeaderIs(headers[i], OsHeader))
      || (forall i :: 0 <= i < |headers| ==> !HeaderIs(headers[i], SupportedHeader))
    ensures r.MissingColumn? ==> r.headers == headers
    ensures r.Ok? ==> var c := r.value;
      && c.os < |headers| && HeaderIs(headers[c.os], OsHeader)
      && (forall j :: c.os < j < |headers| ==> !HeaderIs(headers[j], OsHeader))
      && c.supported < |headers| && HeaderIs(headers[c.supported], SupportedHeader)
      && (forall j :: c.supported < j < |headers| ==> !HeaderIs(headers[j], SupportedHeader))
  {
    match (LastHeader(headers, OsHeader), LastHeader(headers, SupportedHeader))
    case (Some(o), Some(s)) => Ok(Columns(o, s))
    case _ => MissingColumn(headers)
  }

  /** The header loop of `parse_table`: two independent tests per header. */
  method FindColumns(headers: seq<string>) returns (r: Result<Columns>)
    ensures r == ColumnsOf(headers)
  {
    var idxOs, idxSup: Option<nat> := None, None;
    for i := 0 to |headers|
      invariant idxOs == LastHeader(headers[..i], OsHeader)
      invariant idxSup == LastHeader(headers[..i], SupportedHeader)
    {
      assert headers[..i + 1][..i] == headers[..i];
      var hl := Lower(headers[i]);
      if StartsAt(hl, 0, OsHeader) {
        idxOs := Some(i);
      }
      if StartsAt(hl, 0, SupportedHeader) {
        idxSup := Some(i);
      }
    }
    assert headers[..|headers|] == headers;
    if idxOs.None? || idxSup.None? {
      return MissingColumn(headers);
    }
    r := Ok(Columns(idxOs.value, idxSup.value));
  }

  /** `max(idx_os, idx_sup)`: a row needs more cells than this. */
  function MaxIndex(c: Columns): (m: nat)
    ensures m >= c.os && m >= c.supported
    ensures m == c.os || m == c.supported
  {
    if c.os >= c.supported then c.os else c.supported
  }

  /** `" ".join(text.split())`: the words of the text, one plain space between each. */
  function JoinWords(text: string): string {
    Strip(CollapseSpaces(text))
  }

  /** Joined words carry no whitespace at either end and single plain spaces inside. */
  lemma JoinWordsShape(text: string)
    ensures var r := JoinWords(text);
      && (r != [] ==> !IsSpace(r[0]) && !IsSpace(r[|r| - 1]))
      && OnlyPlainSpaces(r) && NoDoubleSpace(r)
  {
    var t := CollapseSpaces(text);
    WindowKeepsSpacing(t, Strip(t), Run(t, 0, IsSpace));
  }

  /** Joining the words of joined words changes nothing. */
  lemma JoinWordsIdempotent(text: string)
    ensures JoinWords(JoinWords(text)) == JoinWords(text)
  {
    var r := JoinWords(text);
    JoinWordsShape(text);
    CollapseNoop(r);
    StripByNoop(r, IsSpace);
  }

  predicate IsComma(c: char) {
    c == ','
  }

  /** `[p.strip().strip(",") for p in ps if p.strip()]`. Defined from the end. */
  function RawItems(ps: seq<string>): seq<string>
    decreases |ps|
  {
    if ps == [] then []
    else
      var rest := RawItems(ps[..|ps| - 1]);
      var p := ps[|ps| - 1];
      if Strip(p) != "" then rest + [StripBy(Strip(p), IsComma)] else rest
  }

  /** The raw supported-systems items of a cell: its comma-separated pieces, stripped,
      empty ones dropped. */
  function RawItemsOf(sup: string): seq<string> {
    RawItems(Split(sup, ','))
  }

  /** The `strip(",")` never removes anything, since a piece of a comma split holds no
      comma: the raw items are the stripped non-empty pieces, and each is non-empty,
      comma-free and stripped. */
  lemma RawItemsAreSubs(sup: string)
    ensures RawItemsOf(sup) == Subs(sup)
    ensures forall x :: x in RawItemsOf(sup) ==> IsSub(x)
  {
    RawItemsStripped(Split(sup, ','));
    SubsAreSubs(Split(sup, ','));
  }

  lemma {:induction false} RawItemsStripped(ps: seq<string>)
    requires forall i :: 0 <= i < |ps| ==> ',' !in ps[i]
    ensures RawItems(ps) == NonEmptyStripped(ps)
    decreases |ps|
  {
    if ps != [] {
      var p := ps[|ps| - 1];
      RawItemsStripped(ps[..|ps| - 1]);
      var c := Strip(p);
      if c != "" {
        assert c[0] == p[Run(p, 0, IsSpace)] && c[|c| - 1] == p[Run(p, 0, IsSpace) + |c| - 1];
        assert p[Run(p, 0, IsSpace)] in p && p[Run(p, 0, IsSpace) + |c| - 1] in p;
        StripByNoop(c, IsComma);
      }
    }
  }

  /** A raw row: the operating-system text and the raw supported-systems items. */
  datatype RawRow = RawRow(os: string, supportedSystems: seq<string>)

  /** What one table row becomes: nothing when it has too few cells for both columns;
      otherwise its operating-system cell with single spaces and its raw items. */
  function RowOf(c: Columns, cells: seq<string>): (r: Option<RawRow>)
    ensures r.None? <==> |cells| <= c.os || |cells| <= c.supported
  {
    if |cells| <= MaxIndex(c) then None
    else Some(RawRow(JoinWords(cells[c.os]), RawItemsOf(cells[c.supported])))
  }

  /** Every raw row read from a row has a single-spaced operating-system text and raw
      items that are non-empty, comma-free and stripped. */
  lemma RowShape(c: Columns, cells: seq<string>)
    requires RowOf(c, cells).Some?
    ensures var r := RowOf(c, cells).value;
      && OnlyPlainSpaces(r.os) && NoDoubleSpace(r.os)
      && (r.os != [] ==> !IsSpace(r.os[0]) && !IsSpace(r.os[|r.os| - 1]))
      && forall x :: x in r.supportedSystems ==> IsSub(x)
  {
    JoinWordsShape(cells[c.os]);
    RawItemsAreSubs(cells[c.supported]);
  }

  /** What each row yields, row by row. */
  function RowOutcomes(c: Columns, rows: seq<seq<string>>): (os: seq<Option<RawRow>>)
    ensures |os| == |rows| && forall i :: 0 <= i < |rows| ==> os[i] == RowOf(c, rows[i])
  {
    seq(|rows|, i requires 0 <= i < |rows| => RowOf(c, rows[i]))
  }

  /** `parse_table` on a table whose header cells read `headers` and whose rows read
      `rows`: the error when a column is missing, otherwise the raw rows of the rows
      below the header row that have enough cells, in order. */
  function TableOf(headers: seq<string>, rows: seq<seq<string>>): Result<seq<RawRow>> {
    match ColumnsOf(headers)
    case MissingColumn(hs) => MissingColumn(hs)
    case Ok(c) => Ok(Present(RowOutcomes(c, Body(rows))))
  }

  /** The table fails exactly when a column is missing; otherwise raw row `k` comes from
      body row `ks[k]`, those rows increase, and every body row left out is too short. */
  lemma TableInRowOrder(headers: seq<string>, rows: seq<seq<string>>)
    ensures TableOf(headers, rows).MissingColumn? <==> ColumnsOf(headers).MissingColumn?
    ensures TableOf(headers, rows).MissingColumn? ==> TableOf(headers, rows).headers == headers
    ensures TableOf(headers, rows).Ok? ==>
      var c, body := ColumnsOf(headers).value, Body(rows);
      var rs, ks := TableOf(headers, rows).value, PresentAt(RowOutcomes(c, body));
      && |rs| == |ks|
      && (forall k :: 0 <= k < |ks| ==> ks[k] < |body| && RowOf(c, body[ks[k]]) == Some(rs[k]))
      && (forall k, l :: 0 <= k < l < |ks| ==> ks[k] < ks[l])
      && (forall i :: 0 <= i < |body| && i !in ks ==> |body[i]| <= MaxIndex(c))
  {
    if ColumnsOf(headers).Ok? {
      PresentInOrder(RowOutcomes(ColumnsOf(headers).value, Body(rows)));
    }
  }

  /** Reading one more row appends what that row yields. */
  lemma RowOutcomesStep(c: Columns, body: seq<seq<string>>, i: nat)
    requires i < |body|
    ensures Present(RowOutcomes(c, body[..i + 1])) ==
      Present(RowOutcomes(c, body[..i])) + match RowOf(c, body[i]) case Some(r) => [r] case None => []
  {
    var os := RowOutcomes(c, body[..i + 1]);
    assert os[..i] == RowOutcomes(c, body[..i]);
  }

  /** The body of the row loop of `parse_table`. */
  method ParseRow(c: Columns, cells: seq<string>) returns (row: Option<RawRow>)
    ensures row == RowOf(c, cells)
  {
    if |cells| <= MaxIndex(c) {
      return None;
    }
    var osText := JoinWords(cells[c.os]);
    var supText := cells[c.supported];
    var rawItems := RawItems(Split(supText, ','));
    row := Some(RawRow(osText, rawItems));
  }

  /** `parse_table`: the header loop, then the loop over the rows below the header row. */
  method ParseTable(headers: seq<string>, rows: seq<seq<string>>) returns (r: Result<seq<RawRow>>)
    ensures r == TableOf(headers, rows)
  {
    var cols := FindColumns(headers);
    if cols.MissingColumn? {
      return MissingColumn(headers);
    }
    var c := cols.value;
    var body := Body(rows);
    var results: seq<RawRow> := [];
    for i := 0 to |body|
      invariant results == Present(RowOutcomes(c, body[..i]))
    {
      RowOutcomesStep(c, body, i);
      var row := ParseRow(c, body[i]);
      if row.Some? {
        results := results + [row.value];
      }
    }
    assert body[..|body|] == body;
    r := Ok(results);
  }

  /** A cleaned record: the normalised version (or range) and the cleaned systems. */
  datatype CleanRow = CleanRow(os: string, supportedSystems: seq<string>)

  /** What one raw row becomes: nothing when its normalised operating system is older
      than 10.8. */
  function CleanRowOf(r: RawRow): (o: Option<CleanRow>)
    ensures o.Some? <==> ShouldIncludeOs(NormalizeOs(Strip(r.os)))
  {
    var osNorm := NormalizeOs(Strip(r.os));
    if ShouldIncludeOs(osNorm) then Some(CleanRow(osNorm, CleanSystems(r.supportedSystems))) else None
  }

  function CleanOutcomes(rows: seq<RawRow>): (os: seq<Option<CleanRow>>)
    ensures |os| == |rows| && forall i :: 0 <= i < |rows| ==> os[i] == CleanRowOf(rows[i])
  {
    seq(|rows|, i requires 0 <= i < |rows| => CleanRowOf(rows[i]))
  }

  /** `build_clean_json`: the cleaned records of the raw rows that are kept, in order. */
  function CleanRows(rows: seq<RawRow>): seq<CleanRow> {
    Present(CleanOutcomes(rows))
  }

  /** The output is an order-preserving selection of the rows: record `k` comes from row
      `ks[k]`, those rows increase, every row left out is older than 10.8, and every
      record holds its row's normalised operating system, which passes the filter, and
      its row's cleaned systems. */
  lemma CleanRowsInOrder(rows: seq<RawRow>)
    ensures var rs, ks := CleanRows(rows), PresentAt(CleanOutcomes(rows));
      && |rs| == |ks|
      && (forall k, l :: 0 <= k < l < |ks| ==> ks[k] < ks[l])
      && (forall i :: 0 <= i < |rows| && i !in ks ==> !ShouldIncludeOs(NormalizeOs(Strip(rows[i].os))))
      && (forall k :: 0 <= k < |ks| ==>
            && ks[k] < |rows|
            && rs[k].os == NormalizeOs(Strip(rows[ks[k]].os)) && ShouldIncludeOs(rs[k].os)
            && rs[k].supportedSystems == CleanSystems(rows[ks[k]].supportedSystems))
  {
    PresentInOrder(CleanOutcomes(rows));
  }

  /** The systems of every record are distinct system names. */
  lemma CleanRowsSystems(rows: seq<RawRow>)
    ensures forall r :: r in CleanRows(rows) ==>
      && (forall x :: x in r.supportedSystems ==> IsSystem(x))
      && (forall i, j :: 0 <= i < j < |r.supportedSystems| ==> r.supportedSystems[i] != r.supportedSystems[j])
  {
    var os := CleanOutcomes(rows);
    forall r | r in CleanRows(rows)
      ensures forall x :: x in r.supportedSystems ==> IsSystem(x)
      ensures forall i, j :: 0 <= i < j < |r.supportedSystems| ==> r.supportedSystems[i] != r.supportedSystems[j]
    {
      var i :| 0 <= i < |os| && os[i] == Some(r);
      CleanSystemsShape(rows[i].supportedSystems);
    }
  }

  /** Cleaning one more row appends what that row yields. */
  lemma CleanOutcomesStep(rows: seq<RawRow>, i: nat)
    requires i < |rows|
    ensures CleanRows(rows[..i + 1]) ==
      CleanRows(rows[..i]) + match CleanRowOf(rows[i]) case Some(r) => [r] case None => []
  {
    var os := CleanOutcomes(rows[..i + 1]);
    assert os[..i] == CleanOutcomes(rows[..i]);
  }

  /** `build_clean_json`: the loop over the raw rows, calling `clean_supported_systems`
      for each row that is kept. */
  method BuildCleanJson(rows: seq<RawRow>) returns (cleaned: seq<CleanRow>)
    ensures cleaned == CleanRows(rows)
  {
    cleaned := [];
    for i := 0 to |rows|
      invariant cleaned == CleanRows(rows[..i])
    {
      CleanOutcomesStep(rows, i);
      var osText := Strip(rows[i].os);
      var osNorm := NormalizeOs(osText);
      if !ShouldIncludeOs(osNorm) {
        continue;
      }
      var systemsClean := CleanSupportedSystems(rows[i].supportedSystems);
      cleaned := cleaned + [CleanRow(osNorm, systemsClean)];
    }
    assert rows[..|rows|] == rows;
  }
}
