/**
 * glyph-catcher's `process_data_files` and `filter_by_unicode_blocks`.
 * Its parsers turn a missing or unreadable file, and any error, into `{}`.
 */
module GlyphProcessor {
  import opened Wrappers
  import opened OrderedDict
  import opened UnicodeDataFile
  import NameAliasesFile
  import NamesListFile
  import CldrAnnotations
  import AliasMerge

  /** glyph-catcher's `parse_unicode_data`: entries carry their block; failure gives `{}`. */
  function UnicodeData(file: Option<seq<string>>): Assoc<CharInfo> {
    if file.None? then [] else ParseUnicodeData(file.value, true).GetOr([])
  }

  function NameAliases(file: Option<seq<string>>): Assoc<seq<string>> {
    if file.None? then [] else NameAliasesFile.ParseNameAliases(file.value)
  }

  function NamesList(file: Option<seq<string>>): Assoc<seq<string>> {
    if file.None? then [] else NamesListFile.ParseNamesList(file.value)
  }

  /** `None` when the XML file is missing or does not parse. */
  function CldrFile(file: Option<seq<CldrAnnotations.Annotation>>): Assoc<seq<string>> {
    if file.None? then [] else CldrAnnotations.ParseCldr(file.value).GetOr([])
  }

  function CldrOf(src: CldrAnnotations.CldrSource): Assoc<seq<string>> {
    if src.Configured? then CldrFile(src.file) else []
  }

  /** `process_data_files`: the four parses, then the three `extend` loops. */
  method ProcessDataFiles(unicodeFile: Option<seq<string>>, aliasesFile: Option<seq<string>>,
                          namesFile: Option<seq<string>>, cldr: CldrAnnotations.CldrSource)
    returns (unicodeData: Assoc<CharInfo>, aliasesData: Assoc<seq<string>>)
    ensures unicodeData == UnicodeData(unicodeFile)
    ensures aliasesData == AliasMerge.Merged(NameAliases(aliasesFile), NamesList(namesFile), CldrOf(cldr))
  {
    unicodeData := [];
    if unicodeFile.Some? {
      var parsed := ParseUnicodeDataLines(unicodeFile.value, true);
      unicodeData := parsed.GetOr([]);
    }
    var formal: Assoc<seq<string>> := [];
    if aliasesFile.Some? {
      formal := NameAliasesFile.ParseNameAliasesLines(aliasesFile.value);
    }
    var informative: Assoc<seq<string>> := [];
    if namesFile.Some? {
      informative := NamesListFile.ParseNamesListLines(namesFile.value);
    }
    var annotations: Assoc<seq<string>> := [];
    if cldr.Configured? && cldr.file.Some? {
      var parsed := CldrAnnotations.ParseCldrElements(cldr.file.value);
      annotations := parsed.GetOr([]);
    }
    aliasesData := AliasMerge.MergeAliases(formal, informative, Some(annotations));
  }

  lemma FormalIsDict(file: Option<seq<string>>)
    ensures DistinctKeys(NameAliases(file))
  {
    if file.Some? {
      NameAliasesFile.KeysDistinct(file.value);
    }
  }

  /** The informative map is a dict whose keys are already upper case. */
  lemma InformativeIsUpperDict(file: Option<seq<string>>)
    ensures DistinctKeys(NamesList(file))
    ensures forall i :: 0 <= i < |NamesList(file)| ==> Text.Upper(NamesList(file)[i].0) == NamesList(file)[i].0
  {
    if file.Some? {
      var informative := NamesListFile.ParseNamesList(file.value);
      NamesListFile.KeysDistinct(file.value);
      forall i | 0 <= i < |informative|
        ensures Text.Upper(informative[i].0) == informative[i].0
      {
        assert informative[i].0 == Keys(informative)[i];
        NamesListFile.KeysUpper(file.value, informative[i].0);
      }
    }
  }

  lemma CldrIsDict(src: CldrAnnotations.CldrSource)
    ensures DistinctKeys(CldrOf(src))
  {
    if src.Configured? && src.file.Some? && CldrAnnotations.ParseCldr(src.file.value).Some? {
      CldrAnnotations.KeysDistinct(src.file.value);
    }
  }

  /** Each code point's merged list: `NameAliases.txt`, then `NamesList.txt`, then CLDR, in file order. */
  lemma ProcessedAliases(aliasesFile: Option<seq<string>>, namesFile: Option<seq<string>>, cldr: CldrAnnotations.CldrSource, k: string)
    ensures GetOr(AliasMerge.Merged(NameAliases(aliasesFile), NamesList(namesFile), CldrOf(cldr)), k, []) ==
      GetOr(NameAliases(aliasesFile), k, []) + GetOr(NamesList(namesFile), k, []) + GetOr(CldrOf(cldr), k, [])
  {
    FormalIsDict(aliasesFile);
    InformativeIsUpperDict(namesFile);
    CldrIsDict(cldr);
    AliasMerge.MergedPerKey(NameAliases(aliasesFile), NamesList(namesFile), CldrOf(cldr), k);
  }

  /** Without a `cldr_annotations` entry, no CLDR alias is merged. */
  lemma NoCldrWithoutKey(aliasesFile: Option<seq<string>>, namesFile: Option<seq<string>>, k: string)
    ensures GetOr(AliasMerge.Merged(NameAliases(aliasesFile), NamesList(namesFile), CldrOf(CldrAnnotations.NotConfigured)), k, []) ==
      Collected(NameAliases(aliasesFile), k) + Collected(AliasMerge.UpperKeys(NamesList(namesFile)), k)
  {
    AliasMerge.NoCldrNoChange(NameAliases(aliasesFile), NamesList(namesFile), None, k);
  }

  /** `'block' in char_info and char_info['block'] in blocks`. */
  predicate Kept(info: CharInfo, blocks: seq<string>) {
    info.block.Some? && info.block.value in blocks
  }

  /** The filtered `unicode_data` after the given entries. */
  function FilteredData(ud: Assoc<CharInfo>, blocks: seq<string>): Assoc<CharInfo>
    decreases |ud|
  {
    if ud == [] then []
    else
      var n := |ud| - 1;
      var p := FilteredData(ud[..n], blocks);
      if Kept(ud[n].1, blocks) then Put(p, ud[n].0, ud[n].1) else p
  }

  /** The filtered `aliases_data` after the given `unicode_data` entries. */
  function FilteredAliases(ud: Assoc<CharInfo>, aliases: Assoc<seq<string>>, blocks: seq<string>): Assoc<seq<string>>
    decreases |ud|
  {
    if ud == [] then []
    else
      var n := |ud| - 1;
      var p := FilteredAliases(ud[..n], aliases, blocks);
      var found := Find(aliases, ud[n].0);
      if Kept(ud[n].1, blocks) && found.Some? then Put(p, ud[n].0, found.value) else p
  }

  /** `filter_by_unicode_blocks`: `if not blocks`, both inputs come back as they are. */
  function Filtered(ud: Assoc<CharInfo>, aliases: Assoc<seq<string>>, blocks: Option<seq<string>>): (Assoc<CharInfo>, Assoc<seq<string>>) {
    if blocks.None? || blocks.value == [] then (ud, aliases)
    else (FilteredData(ud, blocks.value), FilteredAliases(ud, aliases, blocks.value))
  }

  /** The loop of `filter_by_unicode_blocks`, proved to compute `Filtered`. */
  method FilterByUnicodeBlocks(unicodeData: Assoc<CharInfo>, aliasesData: Assoc<seq<string>>, blocks: Option<seq<string>>)
    returns (filteredData: Assoc<CharInfo>, filteredAliases: Assoc<seq<string>>)
    ensures (filteredData, filteredAliases) == Filtered(unicodeData, aliasesData, blocks)
  {
    if blocks.None? || blocks.value == [] {
      return unicodeData, aliasesData;
    }
    var bs := blocks.value;
    filteredData, filteredAliases := [], [];
    var i := 0;
    while i < |unicodeData|
      invariant 0 <= i <= |unicodeData|
      invariant filteredData == FilteredData(unicodeData[..i], bs)
      invariant filteredAliases == FilteredAliases(unicodeData[..i], aliasesData, bs)
    {
      assert unicodeData[..i + 1][..i] == unicodeData[..i];
      var (cp, info) := unicodeData[i];
      if info.block.Some? && info.block.value in bs {
        filteredData := Put(filteredData, cp, info);
        var found := Find(aliasesData, cp);
        if found.Some? {
          filteredAliases := Put(filteredAliases, cp, found.value);
        }
      }
      i := i + 1;
    }
    assert unicodeData[..i] == unicodeData;
  }

  /** Looking up `p + [e]` in a dict with distinct keys. */
  lemma FindLast<V>(d: Assoc<V>, k: string)
    requires DistinctKeys(d) && d != []
    ensures DistinctKeys(d[..|d| - 1])
    ensures Find(d, k) == if k == d[|d| - 1].0 then Some(d[|d| - 1].1) else Find(d[..|d| - 1], k)
  {
    var n := |d| - 1;
    assert d == d[..n] + [d[n]];
    FindAppend(d[..n], d[n], k);
    if k == d[n].0 {
      assert k !in Keys(d[..n]);
    }
  }

  /** A code point stays, with its entry, exactly when its block is listed. */
  lemma {:induction false} FilteredDataFind(ud: Assoc<CharInfo>, blocks: seq<string>, k: string)
    requires DistinctKeys(ud)
    ensures Find(FilteredData(ud, blocks), k) ==
      if Find(ud, k).Some? && Kept(Find(ud, k).value, blocks) then Find(ud, k) else None
    decreases |ud|
  {
    if ud != [] {
      var n := |ud| - 1;
      FindLast(ud, k);
      FilteredDataFind(ud[..n], blocks, k);
      if Kept(ud[n].1, blocks) {
        PutFind(FilteredData(ud[..n], blocks), ud[n].0, ud[n].1, k);
      }
    }
  }

  /** Aliases stay, unchanged, exactly for the code points that stay and have aliases. */
  lemma {:induction false} FilteredAliasesFind(ud: Assoc<CharInfo>, aliases: Assoc<seq<string>>, blocks: seq<string>, k: string)
    requires DistinctKeys(ud)
    ensures Find(FilteredAliases(ud, aliases, blocks), k) ==
      if Find(ud, k).Some? && Kept(Find(ud, k).value, blocks) then Find(aliases, k) else None
    decreases |ud|
  {
    if ud != [] {
      var n := |ud| - 1;
      FindLast(ud, k);
      FilteredAliasesFind(ud[..n], aliases, blocks, k);
      var found := Find(aliases, ud[n].0);
      if Kept(ud[n].1, blocks) && found.Some? {
        PutFind(FilteredAliases(ud[..n], aliases, blocks), ud[n].0, found.value, k);
      }
    }
  }

  /**
   * With a non-empty block list: the kept code points are exactly those whose
   * block is listed, their entries are unchanged, and aliases are kept only for them.
   */
  lemma FilterCorrect(ud: Assoc<CharInfo>, aliases: Assoc<seq<string>>, blocks: seq<string>, k: string)
    requires DistinctKeys(ud) && blocks != []
    ensures var (fd, fa) := Filtered(ud, aliases, Some(blocks));
      && (k in Keys(fd) <==> k in Keys(ud) && Kept(Find(ud, k).value, blocks))
      && (k in Keys(fd) ==> Find(fd, k) == Find(ud, k))
      && (k in Keys(fa) <==> k in Keys(fd) && k in Keys(aliases))
      && (k in Keys(fa) ==> Find(fa, k) == Find(aliases, k))
  {
    FilteredDataFind(ud, blocks, k);
    FilteredAliasesFind(ud, aliases, blocks, k);
  }

  /** The parsed `unicode_data` is a dict, and each entry's block is the one `get_unicode_block` gives its character. */
  lemma ParsedHasBlocks(unicodeFile: Option<seq<string>>, k: string)
    ensures DistinctKeys(UnicodeData(unicodeFile))
    ensures Find(UnicodeData(unicodeFile), k).Some? ==>
      Find(UnicodeData(unicodeFile), k).value.block == Some(UnicodeBlocks.GetUnicodeBlock(Find(UnicodeData(unicodeFile), k).value.charObj as int))
  {
    if unicodeFile.Some? && ParseUnicodeData(unicodeFile.value, true).Some? {
      FoldDistinct(Outcomes(unicodeFile.value, true));
      EntriesWellFormed(unicodeFile.value, true, k);
    }
  }

  /** Filtering what the parse produced keeps exactly the code points whose `get_unicode_block` is listed. */
  lemma FilterParsed(unicodeFile: Option<seq<string>>, aliases: Assoc<seq<string>>, blocks: seq<string>, k: string)
    requires blocks != []
    ensures var ud := UnicodeData(unicodeFile);
      k in Keys(Filtered(ud, aliases, Some(blocks)).0) <==>
        Find(ud, k).Some? && UnicodeBlocks.GetUnicodeBlock(Find(ud, k).value.charObj as int) in blocks
  {
    var ud := UnicodeData(unicodeFile);
    ParsedHasBlocks(unicodeFile, k);
    FilterCorrect(ud, aliases, blocks, k);
  }
}
