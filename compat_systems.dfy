/** `clean_supported_systems` of the macOS compatibility scraper: the raw
    supported-systems items of one table row are cut at their category labels and at
    their commas, tidied, filtered and de-duplicated in first-seen order. */
module CompatSystems {
  import opened Text
  import opened Collections
  import opened CompatLabels

  /** `[c.strip() for c in ps if c.strip()]`: the pieces, stripped, empty ones dropped.
      Defined from the end, one piece at a time. */
  function NonEmptyStripped(ps: seq<string>): seq<string>
    decreases |ps|
  {
    if ps == [] then []
    else
      var rest := NonEmptyStripped(ps[..|ps| - 1]);
      var c := Strip(ps[|ps| - 1]);
      if c != "" then rest + [c] else rest
  }

  /** The comma-separated pieces of a chunk, stripped, empty ones dropped. */
  function Subs(ch: string): seq<string> {
    NonEmptyStripped(Split(ch, ','))
  }

  /** What a piece of `Subs` looks like: non-empty, comma-free, no whitespace at either end. */
  predicate IsSub(c: string) {
    c != "" && ',' !in c && !IsSpace(c[0]) && !IsSpace(c[|c| - 1])
  }

  /** What ends up in the cleaned list: non-empty, comma-free, no whitespace at either
      end, no two whitespace characters side by side, and not the junk word "and". */
  predicate IsSystem(x: string) {
    IsSub(x) && NoDoubleSpace(x) && Lower(x) != "and"
  }

  /** One piece of a chunk: the junk word "and" (in any case) is dropped, other pieces
      have their long whitespace runs collapsed and are stripped of spaces and commas,
      and are kept when something is left. */
  function Tidy(sub: string): Option<string> {
    if Lower(sub) == "and" then None
    else
      var t := StripSpaceComma(CollapseLongSpaces(sub));
      if t != "" then Some(t) else None
  }

  /** The tidied pieces in order. Defined from the end, one piece at a time. */
  function TidyAll(subs: seq<string>): seq<string>
    decreases |subs|
  {
    if subs == [] then []
    else
      var rest := TidyAll(subs[..|subs| - 1]);
      match Tidy(subs[|subs| - 1])
      case None => rest
      case Some(t) => rest + [t]
  }

  /** The systems one chunk contributes. */
  function ChunkSystems(ch: string): seq<string> {
    TidyAll(Subs(ch))
  }

  /** The systems the chunks contribute, in order. Defined from the end. */
  function ChunksSystems(chunks: seq<string>): seq<string>
    decreases |chunks|
  {
    if chunks == [] then []
    else ChunksSystems(chunks[..|chunks| - 1]) + ChunkSystems(chunks[|chunks| - 1])
  }

  /** The systems one raw item contributes: its label-free fragments, cut at commas. */
  function ItemSystems(item: string): seq<string> {
    ChunksSystems(LabelPieces(Strip(item)))
  }

  /** The systems all raw items contribute, in order, duplicates included. Defined from the end. */
  function AllSystems(items: seq<string>): seq<string>
    decreases |items|
  {
    if items == [] then []
    else AllSystems(items[..|items| - 1]) + ItemSystems(items[|items| - 1])
  }

  /** What `clean_supported_systems` returns: every system, at its first occurrence. */
  function CleanSystems(items: seq<string>): seq<string> {
    Dedup(AllSystems(items))
  }

  /** Each piece of `Subs` is non-empty, comma-free and stripped. */
  lemma {:induction false} SubsAreSubs(ps: seq<string>)
    requires forall i :: 0 <= i < |ps| ==> ',' !in ps[i]
    ensures forall c :: c in NonEmptyStripped(ps) ==> IsSub(c)
    decreases |ps|
  {
    if ps != [] {
      var p := ps[|ps| - 1];
      SubsAreSubs(ps[..|ps| - 1]);
      var c := Strip(p);
      if c != "" {
        forall k | 0 <= k < |c| ensures c[k] != ',' {
          assert c[k] == p[Run(p, 0, IsSpace) + k];
        }
      }
    }
  }

  /** The `strip(" ,")` after the collapse never removes anything from a piece: a piece
      starts and ends with neither a space nor a comma, and collapsing keeps its ends. So
      the `if sub` test that follows never fails, and a piece is dropped only when it is
      the word "and". The kept text is a system. */
  lemma TidySub(sub: string)
    requires IsSub(sub)
    ensures Tidy(sub).None? <==> Lower(sub) == "and"
    ensures Tidy(sub).Some? ==> Tidy(sub).value == CollapseLongSpaces(sub) && IsSystem(Tidy(sub).value)
  {
    if Lower(sub) != "and" {
      TidyKeeps(sub);
      CollapsedSystem(sub);
    }
  }

  /** A piece other than "and" is kept with its long whitespace runs collapsed. */
  lemma TidyKeeps(sub: string)
    requires IsSub(sub) && Lower(sub) != "and"
    ensures Tidy(sub) == Some(CollapseLongSpaces(sub))
  {
    var c := CollapseLongSpaces(sub);
    assert StripSpaceComma(c) == c && c != "" by {
      CollapsedSub(sub);
      SubEnds(c);
      StripByNoop(c, IsSpaceOrComma);
    }
  }

  /** A piece neither starts nor ends with whitespace or a comma. */
  lemma SubEnds(c: string)
    requires IsSub(c)
    ensures !IsSpaceOrComma(c[0]) && !IsSpaceOrComma(c[|c| - 1])
  {
    assert c[0] in c && c[|c| - 1] in c;
  }

  /** Collapsing a piece other than "and" gives a system. */
  lemma CollapsedSystem(sub: string)
    requires IsSub(sub) && Lower(sub) != "and"
    ensures IsSystem(CollapseLongSpaces(sub))
  {
    CollapsedSub(sub);
    if Lower(CollapseLongSpaces(sub)) == "and" {
      AndUncollapsed(sub);
    }
  }

  /** Collapsing a piece gives a piece. */
  lemma CollapsedSub(sub: string)
    requires IsSub(sub)
    ensures IsSub(CollapseLongSpaces(sub))
  {
    var c := CollapseLongSpaces(sub);
    CollapseLongLast(sub);
    CollapseLongChars(sub);
    assert c[0] == sub[0];
  }

  /** Only "and" itself collapses to "and". */
  lemma AndUncollapsed(sub: string)
    requires Lower(CollapseLongSpaces(sub)) == "and"
    ensures Lower(sub) == "and"
  {
    var c := CollapseLongSpaces(sub);
    forall k | 0 <= k < |c| ensures !IsSpace(c[k]) {
      assert Lower(c)[k] == LowerChar(c[k]);
    }
    CollapseLongNoSpaces(sub);
  }

  lemma {:induction false} TidyAllSystems(subs: seq<string>)
    requires forall i :: 0 <= i < |subs| ==> IsSub(subs[i])
    ensures forall x :: x in TidyAll(subs) ==> IsSystem(x)
    decreases |subs|
  {
    if subs != [] {
      var p, last := subs[..|subs| - 1], subs[|subs| - 1];
      TidyAllSystems(p);
      TidySub(last);
    }
  }

  /** One more piece: its tidied text, if any, is appended. */
  lemma TidyAllStep(done: seq<string>, subs: seq<string>, k: nat)
    requires k < |subs|
    ensures Tidy(subs[k]).None? ==> done + TidyAll(subs[..k + 1]) == done + TidyAll(subs[..k])
    ensures Tidy(subs[k]).Some? ==>
      done + TidyAll(subs[..k + 1]) == (done + TidyAll(subs[..k])) + [Tidy(subs[k]).value]
  {
    assert subs[..k + 1][..k] == subs[..k];
  }

  /** Every system a chunk contributes is tidy. */
  lemma ChunkIsSystems(ch: string)
    ensures forall x :: x in ChunkSystems(ch) ==> IsSystem(x)
  {
    SubsAreSubs(Split(ch, ','));
    TidyAllSystems(Subs(ch));
  }

  lemma {:induction false} ChunksAreSystems(chunks: seq<string>)
    ensures forall x :: x in ChunksSystems(chunks) ==> IsSystem(x)
    decreases |chunks|
  {
    if chunks != [] {
      ChunksAreSystems(chunks[..|chunks| - 1]);
      ChunkIsSystems(chunks[|chunks| - 1]);
    }
  }

  lemma {:induction false} AllAreSystems(items: seq<string>)
    ensures forall x :: x in AllSystems(items) ==> IsSystem(x)
    decreases |items|
  {
    if items != [] {
      AllAreSystems(items[..|items| - 1]);
      ChunksAreSystems(LabelPieces(Strip(items[|items| - 1])));
    }
  }

  /** The cleaned list: each entry non-empty, comma-free, stripped, single-spaced and
      not "and"; no entry twice; entries in the order they were first seen. */
  lemma CleanSystemsShape(items: seq<string>)
    ensures forall x :: x in CleanSystems(items) ==> IsSystem(x)
    ensures forall i, j :: 0 <= i < j < |CleanSystems(items)| ==> CleanSystems(items)[i] != CleanSystems(items)[j]
    ensures forall i, j :: 0 <= i < j < |CleanSystems(items)| ==>
      FirstIndex(AllSystems(items), CleanSystems(items)[i]) < FirstIndex(AllSystems(items), CleanSystems(items)[j])
  {
    AllAreSystems(items);
    DedupFirstSeenOrder(AllSystems(items));
  }

  /** An item that is already one clean system name (no label, no comma, single-spaced,
      not "and") comes back as itself, stripped. */
  lemma PlainItem(item: string)
    requires Strip(item) != "" && ',' !in item && !HasLabel(Strip(item))
    requires NoDoubleSpace(Strip(item)) && Lower(Strip(item)) != "and"
    ensures ItemSystems(item) == [Strip(item)]
  {
    var s := Strip(item);
    StrippedSub(item);
    PlainPieces(item);
    PlainChunk(s);
    ChunksOne(s);
  }

  /** Comma-free text, stripped, is a piece when something is left. */
  lemma StrippedSub(item: string)
    requires Strip(item) != "" && ',' !in item
    ensures IsSub(Strip(item))
  {
    var s := Strip(item);
    forall k | 0 <= k < |s| ensures s[k] != ',' {
      assert s[k] == item[Run(item, 0, IsSpace) + k];
    }
  }

  /** Text without a label or a comma is its only fragment. */
  lemma PlainPieces(item: string)
    requires Strip(item) != "" && ',' !in Strip(item) && !HasLabel(Strip(item))
    ensures LabelPieces(Strip(item)) == [Strip(item)]
  {
    var s := Strip(item);
    assert s[0] in s && s[|s| - 1] in s;
    StripByNoop(s, IsSpaceOrComma);
    NoLabelOnePiece(item);
  }

  lemma ChunksOne(s: string)
    ensures ChunksSystems([s]) == ChunkSystems(s)
  {
    assert ChunksSystems([s]) == ChunksSystems([]) + ChunkSystems(s);
  }

  /** A chunk that is already a system is the one system it contributes. */
  lemma PlainChunk(s: string)
    requires IsSystem(s)
    ensures ChunkSystems(s) == [s]
  {
    PlainSubs(s);
    PlainTidy(s);
    TidyAllOne(s);
  }

  lemma TidyAllOne(s: string)
    requires Tidy(s) == Some(s)
    ensures TidyAll([s]) == [s]
  {
    assert TidyAll([s]) == TidyAll([]) + [s];
  }

  /** A piece is its chunk's only piece. */
  lemma PlainSubs(s: string)
    requires IsSub(s)
    ensures Subs(s) == [s]
  {
    SplitWithout(s, ',');
    StripByNoop(s, IsSpace);
    assert NonEmptyStripped([s]) == NonEmptyStripped([]) + [s];
  }

  /** A single-spaced piece other than "and" is kept as it is. */
  lemma PlainTidy(s: string)
    requires IsSub(s) && NoDoubleSpace(s) && Lower(s) != "and"
    ensures Tidy(s) == Some(s)
  {
    CollapseLongNoop(s);
    assert s[0] in s && s[|s| - 1] in s;
    StripByNoop(s, IsSpaceOrComma);
  }

  /** The systems of one more chunk are appended. */
  lemma ChunksStep(before: seq<string>, chunks: seq<string>, j: nat)
    requires j < |chunks|
    ensures before + ChunksSystems(chunks[..j + 1]) == (before + ChunksSystems(chunks[..j])) + ChunkSystems(chunks[j])
  {
    assert chunks[..j + 1][..j] == chunks[..j];
  }

  /** The systems of one more item are appended. */
  lemma AllStep(items: seq<string>, i: nat, chunks: seq<string>)
    requires i < |items| && chunks == LabelPieces(Strip(items[i]))
    ensures AllSystems(items[..i + 1]) == AllSystems(items[..i]) + ChunksSystems(chunks)
  {
    assert items[..i + 1][..i] == items[..i];
  }

  /** One more element of the de-duplication loop: kept when not seen before. */
  lemma DedupStep(xs: seq<string>, i: nat)
    requires i < |xs|
    ensures xs[i] in Dedup(xs[..i]) ==> Dedup(xs[..i + 1]) == Dedup(xs[..i])
    ensures xs[i] !in Dedup(xs[..i]) ==> Dedup(xs[..i + 1]) == Dedup(xs[..i]) + [xs[i]]
  {
    assert xs[..i + 1][..i] == xs[..i];
  }

  /** `clean_supported_systems`: a loop over the items, their chunks and the chunks'
      comma-separated pieces, then the de-duplication loop. */
  method CleanSupportedSystems(rawItems: seq<string>) returns (uniq: seq<string>)
    ensures uniq == CleanSystems(rawItems)
  {
    var out: seq<string> := [];
    for i := 0 to |rawItems|
      invariant out == AllSystems(rawItems[..i])
    {
      var chunks := SplitCategoryLabels(rawItems[i]);
      ghost var before := out;
      for j := 0 to |chunks|
        invariant out == before + ChunksSystems(chunks[..j])
      {
        out := AppendTidied(out, Subs(chunks[j]));
        ChunksStep(before, chunks, j);
      }
      assert out == AllSystems(rawItems[..i + 1]) by {
        assert chunks[..|chunks|] == chunks;
        AllStep(rawItems, i, chunks);
      }
    }
    assert out == AllSystems(rawItems) by {
      assert rawItems[..|rawItems|] == rawItems;
    }

    uniq := DedupSeen(out);
  }

  /** The innermost loop of `clean_supported_systems`: each comma-separated piece of a
      chunk that is not "and" is collapsed, stripped of spaces and commas, and appended
      when something is left. */
  method AppendTidied(out: seq<string>, subs: seq<string>) returns (out': seq<string>)
    ensures out' == out + TidyAll(subs)
  {
    out' := out;
    for k := 0 to |subs|
      invariant out' == out + TidyAll(subs[..k])
    {
      var sub := subs[k];
      TidyAllStep(out, subs, k);
      if Lower(sub) != "and" {
        var t := StripSpaceComma(CollapseLongSpaces(sub));
        if t != "" {
          out' := out' + [t];
        }
      }
    }
    assert subs[..|subs|] == subs;
  }

  /** The de-duplication loop of `clean_supported_systems`: a name is appended the first
      time it is met, and remembered in a set of seen names. */
  method DedupSeen(xs: seq<string>) returns (uniq: seq<string>)
    ensures uniq == Dedup(xs)
  {
    var seen: set<string> := {};
    uniq := [];
    for i := 0 to |xs|
      invariant uniq == Dedup(xs[..i])
      invariant forall x :: x in seen <==> x in uniq
    {
      DedupStep(xs, i);
      if xs[i] !in seen {
        seen := seen + {xs[i]};
        uniq := uniq + [xs[i]];
      }
    }
    assert xs[..|xs|] == xs;
  }
}
