/**
 * The list `write_json_output` hands to `json.dump`: one entry per
 * character, in `unicode_data` order. glyph-catcher's entries carry a
 * `block`, unifill-datafetch's and setup_dataset's do not. The JSON text
 * itself (`indent=2`, `ensure_ascii=False`) is not modelled.
 */
module JsonOutput {
  import opened Wrappers
  import opened OrderedDict
  import opened UnicodeDataFile

  datatype JsonEntry = JsonEntry(codePoint: string, character: string, name: string, category: string,
                                 block: Option<string>, aliases: seq<string>)

  /** The `entry` dict of one character; `withBlock` adds glyph-catcher's `block` key. */
  function EntryOf(cp: string, info: CharInfo, aliases: Assoc<seq<string>>, withBlock: bool): JsonEntry {
    JsonEntry("U+" + cp, [info.charObj], info.name, info.category,
              if withBlock then Some(BlockOrUnknown(info)) else None, GetOr(aliases, cp, []))
  }

  function Entries(ud: Assoc<CharInfo>, aliases: Assoc<seq<string>>, withBlock: bool): seq<JsonEntry> {
    seq(|ud|, i requires 0 <= i < |ud| => EntryOf(ud[i].0, ud[i].1, aliases, withBlock))
  }

  /** The `json_data.append(entry)` loop, proved to build `Entries`. */
  method BuildEntries(ud: Assoc<CharInfo>, aliases: Assoc<seq<string>>, withBlock: bool) returns (jsonData: seq<JsonEntry>)
    ensures jsonData == Entries(ud, aliases, withBlock)
  {
    jsonData := [];
    var i := 0;
    while i < |ud|
      invariant 0 <= i <= |ud|
      invariant jsonData == Entries(ud[..i], aliases, withBlock)
    {
      jsonData := jsonData + [EntryOf(ud[i].0, ud[i].1, aliases, withBlock)];
      i := i + 1;
    }
    assert ud[..i] == ud;
  }

  /**
   * Every code point of `unicode_data` has exactly one entry when its keys are
   * distinct, and that entry carries the character's record and all its aliases.
   */
  lemma EntryFor(ud: Assoc<CharInfo>, aliases: Assoc<seq<string>>, withBlock: bool, k: string)
    requires DistinctKeys(ud) && Find(ud, k).Some?
    ensures exists i :: 0 <= i < |ud| && Entries(ud, aliases, withBlock)[i].codePoint == "U+" + k
    ensures forall i :: 0 <= i < |ud| && Entries(ud, aliases, withBlock)[i].codePoint == "U+" + k ==>
      var e := Entries(ud, aliases, withBlock)[i];
      var info := Find(ud, k).value;
      && e.character == [info.charObj] && e.name == info.name && e.category == info.category
      && e.aliases == GetOr(aliases, k, [])
  {
    var es := Entries(ud, aliases, withBlock);
    var j := FindIndex(ud, k);
    assert es[j].codePoint == "U+" + k;
    forall i | 0 <= i < |ud| && es[i].codePoint == "U+" + k
      ensures ud[i].0 == k
    {
      assert es[i].codePoint[2..] == ud[i].0;
      assert ("U+" + k)[2..] == k;
    }
  }
}
