/**
 * unifill-datafetch's processor: the same line rules as glyph-catcher, but
 * each parser returns `None` on a missing file or any error, entries carry
 * no block, and `process_data_files` stops at the first source that parses
 * to `None` or to nothing.
 */
module DatafetchProcessor {
  import opened Wrappers
  import opened OrderedDict
  import opened UnicodeDataFile
  import NameAliasesFile
  import NamesListFile
  import opened CldrAnnotations
  import AliasMerge

  /** unifill-datafetch's `parse_unicode_data`: `UnicodeCharInfo(name, category, char_obj)`, or `None`. */
  function UnicodeData(file: Option<seq<string>>): Option<Assoc<CharInfo>> {
    if file.None? then None else ParseUnicodeData(file.value, false)
  }

  function NameAliases(file: Option<seq<string>>): Option<Assoc<seq<string>>> {
    if file.None? then None else Some(NameAliasesFile.ParseNameAliases(file.value))
  }

  function NamesList(file: Option<seq<string>>): Option<Assoc<seq<string>>> {
    if file.None? then None else Some(NamesListFile.ParseNamesList(file.value))
  }

  function Cldr(file: Option<seq<Annotation>>): Option<Assoc<seq<string>>> {
    if file.None? then None else ParseCldr(file.value)
  }

  /** Python's `not x` on an optional dict: `None` or empty. */
  predicate Falsy<V>(x: Option<Assoc<V>>) {
    x.None? || x.value == []
  }

  /** The CLDR aliases that reach the merge: none unless configured and parsed. */
  function CldrOf(src: CldrSource): Option<Assoc<seq<string>>> {
    if src.Configured? then Cldr(src.file) else None
  }

  /**
   * `process_data_files`. Its result is `(None, None)` exactly when one of the
   * three UCD files parses to `None` or to an empty dict; CLDR cannot cause it.
   * Otherwise it is the parsed `unicode_data` and the merge of the aliases.
   */
  method ProcessDataFiles(unicodeFile: Option<seq<string>>, aliasesFile: Option<seq<string>>,
                          namesFile: Option<seq<string>>, cldr: CldrSource)
    returns (unicodeData: Option<Assoc<CharInfo>>, aliasesInfo: Option<Assoc<seq<string>>>)
    ensures unicodeData.None? <==> aliasesInfo.None?
    ensures unicodeData.None? <==> Falsy(UnicodeData(unicodeFile)) || Falsy(NameAliases(aliasesFile)) || Falsy(NamesList(namesFile))
    ensures unicodeData.Some? ==>
      && unicodeData == UnicodeData(unicodeFile) && unicodeData.value != []
      && aliasesInfo.value == AliasMerge.Merged(NameAliases(aliasesFile).value, NamesList(namesFile).value, AliasMerge.CldrPart(CldrOf(cldr)))
  {
    if unicodeFile.None? {
      return None, None;
    }
    var ud := ParseUnicodeDataLines(unicodeFile.value, false);
    if ud.None? || ud.value == [] {
      return None, None;
    }
    if aliasesFile.None? {
      return None, None;
    }
    var formal := NameAliasesFile.ParseNameAliasesLines(aliasesFile.value);
    if formal == [] {
      return None, None;
    }
    if namesFile.None? {
      return None, None;
    }
    var informative := NamesListFile.ParseNamesListLines(namesFile.value);
    if informative == [] {
      return None, None;
    }
    var annotations: Option<Assoc<seq<string>>> := None;
    if cldr.Configured? && cldr.file.Some? {
      annotations := ParseCldrElements(cldr.file.value);
    }
    var merged := AliasMerge.MergeAliases(formal, informative, annotations);
    return ud, Some(merged);
  }

  /** A CLDR file that fails to parse adds no alias: the merge is formal ++ informative alone. */
  lemma CldrFailureAddsNothing(aliasesFile: Option<seq<string>>, namesFile: Option<seq<string>>, file: Option<seq<Annotation>>, k: string)
    requires Cldr(file).None?
    ensures GetOr(AliasMerge.Merged(NameAliases(aliasesFile).GetOr([]), NamesList(namesFile).GetOr([]), AliasMerge.CldrPart(CldrOf(Configured(file)))), k, []) ==
      Collected(NameAliases(aliasesFile).GetOr([]), k) + Collected(AliasMerge.UpperKeys(NamesList(namesFile).GetOr([])), k)
  {
    AliasMerge.NoCldrNoChange(NameAliases(aliasesFile).GetOr([]), NamesList(namesFile).GetOr([]), CldrOf(Configured(file)), k);
  }

  lemma FormalIsDict(file: Option<seq<string>>)
    requires NameAliases(file).Some?
    ensures DistinctKeys(NameAliases(file).value)
  {
    NameAliasesFile.KeysDistinct(file.value);
  }

  /** The informative map is a dict whose keys are already upper case. */
  lemma InformativeIsUpperDict(file: Option<seq<string>>)
    requires NamesList(file).Some?
    ensures DistinctKeys(NamesList(file).value)
    ensures forall i :: 0 <= i < |NamesList(file).value| ==> Text.Upper(NamesList(file).value[i].0) == NamesList(file).value[i].0
  {
    var informative := NamesListFile.ParseNamesList(file.value);
    NamesListFile.KeysDistinct(file.value);
    forall i | 0 <= i < |informative|
      ensures Text.Upper(informative[i].0) == informative[i].0
    {
      assert informative[i].0 == Keys(informative)[i];
      NamesListFile.KeysUpper(file.value, informative[i].0);
    }
  }

  lemma CldrIsDict(src: CldrSource)
    ensures DistinctKeys(AliasMerge.CldrPart(CldrOf(src)))
  {
    if src.Configured? && src.file.Some? && ParseCldr(src.file.value).Some? {
      KeysDistinct(src.file.value);
    }
  }

  /** After a successful run, each code point's list is formal ++ informative ++ CLDR. */
  lemma MergedPerCodePoint(aliasesFile: Option<seq<string>>, namesFile: Option<seq<string>>, cldr: CldrSource, k: string)
    requires NameAliases(aliasesFile).Some? && NamesList(namesFile).Some?
    ensures GetOr(AliasMerge.Merged(NameAliases(aliasesFile).value, NamesList(namesFile).value, AliasMerge.CldrPart(CldrOf(cldr))), k, []) ==
      GetOr(NameAliases(aliasesFile).value, k, []) + GetOr(NamesList(namesFile).value, k, []) + GetOr(AliasMerge.CldrPart(CldrOf(cldr)), k, [])
  {
    FormalIsDict(aliasesFile);
    InformativeIsUpperDict(namesFile);
    CldrIsDict(cldr);
    AliasMerge.MergedPerKey(NameAliases(aliasesFile).value, NamesList(namesFile).value, AliasMerge.CldrPart(CldrOf(cldr)), k);
  }

  /** unifill-datafetch's entries are well formed and carry no block. */
  lemma EntriesWithoutBlock(unicodeFile: Option<seq<string>>, k: string)
    requires UnicodeData(unicodeFile).Some? && Find(UnicodeData(unicodeFile).value, k).Some?
    ensures Find(UnicodeData(unicodeFile).value, k).value.block.None?
    ensures Text.ParseIntBase16(k) == Some(Find(UnicodeData(unicodeFile).value, k).value.charObj as int)
  {
    EntriesWellFormed(unicodeFile.value, false, k);
  }
}
