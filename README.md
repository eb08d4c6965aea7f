# Scraper text normalisation, modelled in Dafny

Two small scrapers turn web tables into JSON:

- `xcode_releases_scraper.py` reads the Xcode releases tables. For each release row it
  produces the Xcode version, the minimum macOS version (a range `"A - B"`, an
  "or later" bound `"N.N+"`, a bare version or `""`) and a platform-to-SDK-version
  dictionary.
- `macos_compat_scraper.py` reads the "Hardware compatibility" table of macOS
  releases. For each row it produces the operating-system version (or range) and the
  list of supported Mac models. The models are cut at "Laptops:"/"Desktops:" labels
  and at commas, tidied and de-duplicated. Releases older than 10.8 are dropped.

This project models the text-normalisation layer of both scrapers and their row
extraction. The HTML document is replaced by plain data: the header texts are a
`seq<string>` and each table row is a `seq<string>` of cell texts.

Every regular expression of the source is a hand-written scanner for that one
pattern. A scanner takes a text and a position and returns where the pattern's match
starts there, and where it ends (`Scan.Search` gives the leftmost match). The
`re.fullmatch` of `normalize_os` is a small automaton over the characters
(`CompatOs.Walk`).

Pure code is modelled as functions:

- `clean_version_text`, `parse_macos_versions`, `normalize_os` and
  `should_include_os`;
- the list comprehensions (`Subs`, `RawItems`).

Code that works by updating variables in loops is modelled as methods with loop
invariants:

- `split_category_labels`, `clean_supported_systems` and `parse_sdk_column`;
- both `parse_table` functions and `build_clean_json`.

Each method's `ensures` ties its result to a specification function. The properties
the scrapers promise are proved about those functions as lemmas.

Modules, one concept each:

- `Text`: character classes, `strip`, `lower`, `replace`, `\s+` and `\s{2,}` collapsing, and `split`.
- `Scan`: digit runs, `\b`, leftmost search, and dotted numbers.
- `Collections`: de-duplication in first-seen order, and Python's insertion-ordered `dict`.
- `Rows`: keeping the rows that yield a record, in order.
- `XcodeText`: `clean_version_text`.
- `XcodeVersions`: `parse_macos_versions`.
- `VersionForms`: the shape of the version texts that `parse_macos_versions` returns.
- `XcodeSdk`: `parse_sdk_column`.
- `XcodeTable`: `parse_table` of the Xcode scraper.
- `CompatLabels`: `LABEL_PAT` and `split_category_labels`.
- `LabelLayout`: where the pieces of `split_category_labels` sit in the text.
- `CompatSystems`: `clean_supported_systems`.
- `CompatOs`: `normalize_os` and `should_include_os`.
- `CompatTable`: `parse_table` and `build_clean_json` of the macOS scraper.
- `XcodeExample` and `LabelExample`: docstring examples of `parse_macos_versions` and
  `split_category_labels`, worked out on the model.

## Model

| member | source | states |
|---|---|---|
| XcodeText.CleanVersionText | xcode_releases_scraper.py:66-75 | the result contains no `&nbsp`, no U+00A0, no en or em dash; it has no whitespace at either end; every whitespace is a plain space and no two are adjacent |
| XcodeText.CleanStages | xcode_releases_scraper.py:69-75 | the chain of replacements, whitespace collapsing and stripping yields a clean string |
| XcodeText.CleanIdempotent | xcode_releases_scraper.py:66-75 | cleaning a cleaned text changes nothing |
| XcodeText.CleanNoop | xcode_releases_scraper.py:66-75 | a text already in the cleaned shape is its own cleaning: no replacement finds anything, and collapsing and stripping change nothing |
| VersionForms.VersionXShape | xcode_releases_scraper.py:93 | a match of the group `\d+\.(?:\d+\|x)(?:\.\d+)?` is a digit run, a dot, a digit run or `x`, and an optional dot and digit run |
| VersionForms.RangeShape | xcode_releases_scraper.py:93 | both groups of a range match have that version shape, and a hyphen or en dash follows the first after optional whitespace |
| VersionForms.DottedWordShape | xcode_releases_scraper.py:101 | a match of `\b\d+\.\d+(?:\.\d+)?\b` is a strictly dotted version with a word boundary on each side |
| VersionForms.VersionXWordShape | xcode_releases_scraper.py:106 | a match of `\b\d+\.(?:\d+\|x)(?:\.\d+)?\b` has the version shape and a word boundary on each side |
| VersionForms.ParseMacosVersionsForms | xcode_releases_scraper.py:89-112 | with a range in the cleaned text the result is `"A - B"` of two versions; on the "or later" rule it is `"A+"` with `A` strictly dotted; otherwise it is one version or `""` |
| XcodeVersions.ParseMacosVersions | xcode_releases_scraper.py:78-112 | a non-empty result starts with a digit; the result is empty exactly when the cleaned text has neither a range nor a bounded `N.N`/`N.x` token |
| XcodeVersions.CascadeShape | xcode_releases_scraper.py:89-112 | the same two facts for the four-rule cascade on the cleaned text |
| XcodeVersions.RangeRule | xcode_releases_scraper.py:91-97 | when a range is found the result is `"A - B"` from its two groups, whatever else the text holds ("or later" included) |
| XcodeVersions.OrLaterRule | xcode_releases_scraper.py:99-103 | with no range, "or later" and a dotted number, the result is the first dotted number followed by `+`; a `N.N`/`N.x` token exists too |
| XcodeVersions.VersionRule | xcode_releases_scraper.py:105-108 | otherwise the first bounded `N.N`/`N.x` token is the result |
| XcodeVersions.DottedIsVersionX | xcode_releases_scraper.py:101-106 | every strictly dotted number is also a `N.N`/`N.x` token with the same end |
| XcodeVersions.FallbackFindsNothing | xcode_releases_scraper.py:110-112 | the last-resort search cannot find anything the `N.N`/`N.x` search missed |
| XcodeExample.PlainClean | xcode_releases_scraper.py:66-75 | text made of letters, digits, `_`, `.`, `-` and single inner spaces is its own cleaning |
| XcodeExample.OrLaterExample | xcode_releases_scraper.py:78-103 | "macOS Sonoma 14.0 or later" gives "14.0+": it has no range, says "or later", and 14.0 is its first dotted number |
| XcodeExample.RangeExample | xcode_releases_scraper.py:78-97 | "macOS Sonoma 14.5 - macOS Sequoia 15.x" gives "14.5 - 15.x": the range skips the repeated "macOS Sequoia" phrase before its second version |
| XcodeSdk.PlatformFrom | xcode_releases_scraper.py:132-133 | a platform match is one of the seven names, ignoring case, in the spelling of the text |
| XcodeSdk.SdkAt | xcode_releases_scraper.py:132-133 | a match yields a platform name and a version of one to three dot-separated digit groups |
| XcodeSdk.SdkMatches | xcode_releases_scraper.py:133 | every pair found by the left-to-right scan is a platform name and a one-to-three-group version |
| XcodeSdk.WrittenAll | xcode_releases_scraper.py:135-138 | writing the pairs one by one gives distinct keys in first-seen order; each key has the value of its last pair, and every entry is one of the pairs |
| XcodeSdk.SdkDictSpec | xcode_releases_scraper.py:127-140 | keys are distinct platform names in first-seen order and text spelling; each value is the last version given for it and has one to three groups; an empty cell gives an empty dictionary |
| XcodeSdk.ParseSdkColumn | xcode_releases_scraper.py:115-140 | the loop builds exactly the dictionary `SdkDict` of the cell |
| XcodeTable.NumberWordAt | xcode_releases_scraper.py:174 | a match stands between word boundaries and is a number of one to three groups |
| XcodeTable.RoleOf | xcode_releases_scraper.py:152-158 | the `if`/`elif` chain: a header with "xcode" is the Xcode column and nothing else; macOS needs "macos", "minimum" or "os" and no "xcode"; SDK needs "sdk" and none of the earlier words |
| XcodeTable.LastWith | xcode_releases_scraper.py:152-158 | the chosen index has the role and no later header has it (last match wins); none is chosen when no header has it |
| XcodeTable.ColumnsOf | xcode_releases_scraper.py:152-161 | the error is raised exactly when no header contains "xcode"; otherwise the Xcode column is the last such header, and the macOS and SDK columns never contain "xcode" and are distinct from it and from each other |
| XcodeTable.FindColumns | xcode_releases_scraper.py:146-161 | the header loop computes `ColumnsOf` of the lower-cased headers |
| XcodeTable.MaxIndex | xcode_releases_scraper.py:167 | the largest of the column indices in use |
| XcodeTable.XcodeVersionOf | xcode_releases_scraper.py:171-177 | no version exactly when the cleaned Xcode cell has no bounded number; a version is one to three digit groups |
| XcodeTable.ReleaseOf | xcode_releases_scraper.py:165-195 | a row is dropped exactly when it has at most max-index cells or its Xcode cell has no number; otherwise its record holds that number, the parsed macOS cell (or `""`) and the SDK dictionary (or empty) |
| XcodeTable.Releases | xcode_releases_scraper.py:163-197 | at most one record per row, each with a one-to-three-group Xcode version |
| XcodeTable.ReleasesInRowOrder | xcode_releases_scraper.py:163-197 | record `k` comes from row `ks[k]`; the `ks` increase; every row left out yields nothing |
| XcodeTable.TableOf | xcode_releases_scraper.py:143-197 | the error exactly when no header contains "xcode"; otherwise at most one record per row below the header row, each with a numeric Xcode version |
| XcodeTable.ParseRow | xcode_releases_scraper.py:166-195 | the row body computes `ReleaseOf` |
| XcodeTable.ParseTable | xcode_releases_scraper.py:143-197 | the header loop and row loop compute `TableOf` |
| CompatLabels.LabelAt | macos_compat_scraper.py:103 | a label match ends after where it starts and inside the text |
| CompatLabels.LeftFragment | macos_compat_scraper.py:115-118 | the text before the leftmost label, stripped of spaces and commas, holds no label and has no space or comma at either end |
| CompatLabels.PiecesAreFragments | macos_compat_scraper.py:112-124 | no returned fragment contains a label; none starts or ends with a space or comma; only the last may be empty |
| CompatLabels.NoLabelOnePiece | macos_compat_scraper.py:113-123 | text with no label comes back as the single stripped fragment |
| CompatLabels.SplitCategoryLabels | macos_compat_scraper.py:106-124 | the shrinking loop returns exactly `LabelPieces` of the stripped text |
| LabelLayout.PiecesLayout | macos_compat_scraper.py:106-124 | each piece is a slice of the stripped text; the pieces come in order and do not overlap; no piece overlaps a label match; the labels cut away are exactly the label matches of the text; every character outside them that is not a space or a comma lies in a piece |
| LabelExample.SplitExample | macos_compat_scraper.py:106-124 | "MacBook Pro (2019 or later) Desktops : Mac Mini (M1 or later)" gives the two models on either side of the label, in order |
| CompatSystems.SubsAreSubs | macos_compat_scraper.py:137 | the comma pieces kept are non-empty, comma-free and stripped |
| CompatSystems.TidySub | macos_compat_scraper.py:138-143 | a piece is dropped exactly when it is "and" in any case; otherwise it is kept with long whitespace runs collapsed, so the `strip(" ,")` and `if sub` never change anything |
| CompatSystems.AllAreSystems | macos_compat_scraper.py:134-143 | every appended entry is non-empty, comma-free, stripped, has no two adjacent whitespaces and is not "and" |
| CompatSystems.CleanSystemsShape | macos_compat_scraper.py:133-152 | the output has those properties, no duplicates, and follows the order of first occurrence |
| CompatSystems.PlainItem | macos_compat_scraper.py:133-143 | an item that is already one clean name (no label, no comma, not "and") yields itself, stripped; only "and" tokens are dropped |
| CompatSystems.AppendTidied | macos_compat_scraper.py:137-143 | the inner loop appends the tidied pieces in order |
| CompatSystems.DedupSeen | macos_compat_scraper.py:145-152 | the seen-set loop computes `Dedup` |
| CompatSystems.CleanSupportedSystems | macos_compat_scraper.py:127-152 | the nested loops and the dedup loop compute `CleanSystems` |
| Collections.Dedup | macos_compat_scraper.py:145-152 | same elements as the input, none twice |
| Collections.DedupFirstSeenOrder | macos_compat_scraper.py:145-152 | entries appear in the order of their first occurrence in the input |
| Collections.Put | xcode_releases_scraper.py:138 | `d[k] = v`: keys stay distinct; an existing key keeps its place, a new one is appended; `k` maps to `v` and the other keys are unchanged |
| Collections.Get | xcode_releases_scraper.py:138 | a lookup finds a value exactly for a key present, and that entry is in the dictionary |
| CompatOs.LastBoundary | macos_compat_scraper.py:166-170 | a version match backtracks to an end on a digit followed by a word boundary |
| CompatOs.LastBoundaryIsLongest | macos_compat_scraper.py:166-170 | the end chosen is the longest one with a boundary |
| CompatOs.RangeOsAt | macos_compat_scraper.py:166 | a range match ends after where it starts and inside the text |
| CompatOs.SingleOsAt | macos_compat_scraper.py:170 | a single-version match ends after where it starts and inside the text |
| CompatOs.NormalizeOs | macos_compat_scraper.py:155-171 | a stripped input that fully matches the version-or-range grammar comes back unchanged, dashes included |
| CompatOs.NormalizeOsExtracts | macos_compat_scraper.py:164-171 | when the stripped text is not a full match, the result is the leftmost range in it, else its leftmost version; the stripped text comes back only when it holds neither |
| CompatOs.RangeMatchIsFull | macos_compat_scraper.py:166-168 | an embedded range found by the search fully matches the grammar |
| CompatOs.SingleMatchIsFull | macos_compat_scraper.py:170-171 | an embedded version found by the search fully matches the grammar |
| CompatOs.FullIsStripped | macos_compat_scraper.py:160-163 | a full match starts and ends with a digit, so stripping keeps it |
| CompatOs.NormalizeOsShape | macos_compat_scraper.py:160-171 | the result is a full version or range, or else the stripped input |
| CompatOs.NormalizeOsIdempotent | macos_compat_scraper.py:155-171 | normalising a normalised text changes nothing |
| CompatOs.FirstVersion | macos_compat_scraper.py:180-185 | no version exactly when the text has no digit |
| CompatOs.FirstVersionAt | macos_compat_scraper.py:180-185 | major is the digit run at the first digit; minor is the run after a directly following dot, or 0 |
| CompatOs.ShouldIncludeOs | macos_compat_scraper.py:174-188 | false when the text has no digit; otherwise major ≥ 11, or major 10 and minor ≥ 8 |
| CompatOs.ExcludesTenSeven | macos_compat_scraper.py:176-188 | "10.7" is excluded |
| CompatOs.IncludesTenEight | macos_compat_scraper.py:176-188 | "10.8" is included |
| CompatOs.ExcludesNineNine | macos_compat_scraper.py:176-188 | "9.9" is excluded |
| CompatOs.IncludesEleven | macos_compat_scraper.py:176-188 | "11" is included, its minor defaulting to 0 |
| CompatTable.LastHeader | macos_compat_scraper.py:79-84 | the chosen header starts with the prefix, lower-cased, and no later one does (last match wins) |
| CompatTable.ColumnsOf | macos_compat_scraper.py:79-87 | the error is raised exactly when either the "operating system" or the "supported systems" header is missing; otherwise both columns are the last matching headers |
| CompatTable.FindColumns | macos_compat_scraper.py:76-87 | the header loop computes `ColumnsOf` |
| CompatTable.MaxIndex | macos_compat_scraper.py:92 | `max(idx_os, idx_sup)` |
| CompatTable.JoinWordsShape | macos_compat_scraper.py:94 | the joined words have no whitespace at either end and single plain spaces inside |
| CompatTable.JoinWordsIdempotent | macos_compat_scraper.py:94 | joining joined words changes nothing |
| CompatTable.RawItemsAreSubs | macos_compat_scraper.py:97 | the raw items are the stripped non-empty comma pieces, each non-empty, comma-free and stripped (the `strip(",")` never removes anything) |
| CompatTable.RowOf | macos_compat_scraper.py:91-98 | a row is skipped exactly when it lacks the operating-system or the supported-systems cell |
| CompatTable.RowShape | macos_compat_scraper.py:94-98 | a raw row's os text is single-spaced and stripped; its items are non-empty, comma-free and stripped |
| CompatTable.TableInRowOrder | macos_compat_scraper.py:73-100 | the error exactly when a column is missing; otherwise raw row `k` comes from body row `ks[k]`, in increasing order, and every row left out is too short |
| CompatTable.ParseRow | macos_compat_scraper.py:91-98 | the row body computes `RowOf` |
| CompatTable.ParseTable | macos_compat_scraper.py:73-100 | the two loops compute `TableOf` |
| CompatTable.CleanRowOf | macos_compat_scraper.py:194-203 | a row is kept exactly when its normalised stripped os passes `should_include_os` |
| CompatTable.CleanRowsInOrder | macos_compat_scraper.py:191-204 | the output is an order-preserving selection of the rows; each record's os is the normalised stripped input and passes the filter; each record holds its row's cleaned systems; every row left out fails the filter |
| CompatTable.CleanRowsSystems | macos_compat_scraper.py:201-203 | every record's systems are distinct clean system names |
| CompatTable.BuildCleanJson | macos_compat_scraper.py:191-204 | the loop computes `CleanRows` |

## Left out

- `fetch_html` in both scrapers: network I/O (HTTP request, timeout, status check).
- `find_xcode_tables`, `find_hardware_table` and all HTML traversal (`find_all`, `get_text`, siblings, classes) are not part of this model. Header texts and cell texts are given as strings, already extracted with `get_text(" ", strip=True)`.
- `main` in both scrapers: argument parsing, writing JSON to a file, console output.
- General Python regular expressions: each pattern is a scanner of its own. `\s` is one whitespace predicate, Python's `str.isspace` set written out (ASCII whitespace and separators, NEL, NBSP and the Unicode space, line and paragraph separators). `\w` and `\d` are ASCII, and `lower()` folds ASCII letters only. `re.IGNORECASE` is ASCII case-insensitivity (`CompatLabels.LabelWordEnd`, `XcodeSdk.IsPlatformName`): Python's Unicode matching also takes U+017F (long s) for `s`, U+212A (Kelvin sign) for `k` and U+0131 (dotless i) for `i`, so a text such as "Desktopſ :" holds a label for Python and none in the model.
- `str.split()` with no argument is modelled as collapsing whitespace runs and stripping, using the same whitespace predicate.
- Python's `dict` is an association list with distinct keys, so that insertion order is part of the value.
- The raising of `RuntimeError` is the `MissingColumn` result, which carries the headers the message prints.
- build_clean_json's `r.get(..., default)`, `or []` and `str(x)` are not modelled: the rows given to it are the records that `parse_table` builds, which always have both fields as strings.
- XcodeSdk.ParseSdkColumn: its `ensures` only ties the result to `SdkDict`; what the dictionary holds is stated by `XcodeSdk.SdkDictSpec`.
- CompatOs.NormalizeOs: its `ensures` states only the full-match case; the range, version and fallback cases are stated by `CompatOs.NormalizeOsExtracts`.
- CompatOs.LastBoundary: its `ensures` states that the end has a boundary; that it is the longest such end is `CompatOs.LastBoundaryIsLongest`.
- XcodeVersions.RangeRule, XcodeVersions.OrLaterRule and XcodeVersions.VersionRule are stated of the cascade on the cleaned text; `ParseMacosVersions(text)` is that cascade applied to `CleanVersionText(text)`.
- The innermost loop of `clean_supported_systems`, its de-duplication loop and the row body of each `parse_table` are separate methods (`AppendTidied`, `DedupSeen`, `ParseRow`). They are called from the loops where the source has them inline.
- Of the docstring examples, only the first and third of `parse_macos_versions` and the one of `split_category_labels` are worked out as lemmas. The other `parse_macos_versions` examples and those of `parse_sdk_column` follow the same rules but are not stated.
