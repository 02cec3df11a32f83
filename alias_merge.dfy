/**
 * Merging the three alias sources into one list per code point: formal
 * aliases from `NameAliases.txt`, then informative aliases from
 * `NamesList.txt` under their upper-cased code point, then CLDR
 * annotations. Lists are concatenated, never deduplicated.
 */
module AliasMerge {
  import opened Wrappers
  import opened Text
  import opened OrderedDict

  /** The informative entries as `extend` calls, each under `code_point.upper()`. */
  function UpperKeys(d: Assoc<seq<string>>): (r: seq<(string, seq<string>)>)
    ensures |r| == |d|
    ensures forall i :: 0 <= i < |d| ==> r[i] == (Upper(d[i].0), d[i].1)
  {
    seq(|d|, i requires 0 <= i < |d| => (Upper(d[i].0), d[i].1))
  }

  /** Every `extend` the merge makes, in order: the formal entries, the informative ones, the CLDR ones. */
  function MergeSource(formal: Assoc<seq<string>>, informative: Assoc<seq<string>>, cldr: Assoc<seq<string>>): seq<(string, seq<string>)> {
    formal + UpperKeys(informative) + cldr
  }

  /** What the merge builds: the `extend` calls applied to an empty `defaultdict(list)`. */
  function Merged(formal: Assoc<seq<string>>, informative: Assoc<seq<string>>, cldr: Assoc<seq<string>>): Assoc<seq<string>> {
    ExtendAll([], MergeSource(formal, informative, cldr))
  }

  /** `if cldr_annotations:` skips a missing map, and an empty one adds nothing either. */
  function CldrPart(cldr: Option<Assoc<seq<string>>>): Assoc<seq<string>> {
    if cldr.Some? then cldr.value else []
  }

  /** `merge_aliases`, with its three loops, proved to compute `Merged`. */
  method MergeAliases(formal: Assoc<seq<string>>, informative: Assoc<seq<string>>, cldr: Option<Assoc<seq<string>>>)
    returns (merged: Assoc<seq<string>>)
    ensures merged == Merged(formal, informative, CldrPart(cldr))
  {
    merged := [];
    var i := 0;
    while i < |formal|
      invariant 0 <= i <= |formal|
      invariant merged == ExtendAll([], formal[..i])
    {
      ExtendAllPrefix([], formal, i);
      merged := Extend(merged, formal[i].0, formal[i].1);
      i := i + 1;
    }
    assert formal[..i] == formal;
    ghost var base := merged;
    ghost var inf := UpperKeys(informative);
    i := 0;
    while i < |informative|
      invariant 0 <= i <= |informative|
      invariant merged == ExtendAll(base, inf[..i])
    {
      ExtendAllPrefix(base, inf, i);
      merged := Extend(merged, Upper(informative[i].0), informative[i].1);
      i := i + 1;
    }
    assert inf[..i] == inf;
    base := merged;
    if cldr.Some? && cldr.value != [] {
      var annotations := cldr.value;
      i := 0;
      while i < |annotations|
        invariant 0 <= i <= |annotations|
        invariant merged == ExtendAll(base, annotations[..i])
      {
        ExtendAllPrefix(base, annotations, i);
        merged := Extend(merged, annotations[i].0, annotations[i].1);
        i := i + 1;
      }
      assert annotations[..i] == annotations;
    }
    MergedInThreeSteps(formal, informative, CldrPart(cldr));
  }

  /** Each code point's list: its formal, then informative, then CLDR aliases, in source order. */
  lemma MergedCollects(formal: Assoc<seq<string>>, informative: Assoc<seq<string>>, cldr: Assoc<seq<string>>, k: string)
    ensures GetOr(Merged(formal, informative, cldr), k, []) ==
      Collected(formal, k) + Collected(UpperKeys(informative), k) + Collected(cldr, k)
  {
    var inf := UpperKeys(informative);
    ExtendAllFind([], MergeSource(formal, informative, cldr), k);
    CollectedAppend(formal + inf, cldr, k);
    CollectedAppend(formal, inf, k);
  }

  /**
   * For dicts (distinct keys) whose informative keys are already upper case,
   * as `parse_names_list` produces them: `formal[k] + informative[k] + cldr[k]`.
   */
  lemma MergedPerKey(formal: Assoc<seq<string>>, informative: Assoc<seq<string>>, cldr: Assoc<seq<string>>, k: string)
    requires DistinctKeys(formal) && DistinctKeys(informative) && DistinctKeys(cldr)
    requires forall i :: 0 <= i < |informative| ==> Upper(informative[i].0) == informative[i].0
    ensures GetOr(Merged(formal, informative, cldr), k, []) ==
      GetOr(formal, k, []) + GetOr(informative, k, []) + GetOr(cldr, k, [])
  {
    MergedCollects(formal, informative, cldr, k);
    assert UpperKeys(informative) == informative;
    CollectedDistinct(formal, k);
    CollectedDistinct(informative, k);
    CollectedDistinct(cldr, k);
  }

  /** A missing or empty CLDR map leaves the formal and informative merge as it is. */
  lemma NoCldrNoChange(formal: Assoc<seq<string>>, informative: Assoc<seq<string>>, cldr: Option<Assoc<seq<string>>>, k: string)
    requires cldr.None? || cldr == Some([])
    ensures GetOr(Merged(formal, informative, CldrPart(cldr)), k, []) == Collected(formal, k) + Collected(UpperKeys(informative), k)
  {
    MergedCollects(formal, informative, CldrPart(cldr), k);
  }

  /** The upper-cased informative keys. */
  lemma UpperKeysHas(informative: Assoc<seq<string>>, k: string)
    ensures k in Keys(UpperKeys(informative)) <==> exists i :: 0 <= i < |informative| && Upper(informative[i].0) == k
  {
    var inf := UpperKeys(informative);
    assert forall i :: 0 <= i < |inf| ==> Keys(inf)[i] == Upper(informative[i].0);
  }

  /** The merged keys are the formal keys, the upper-cased informative keys and the CLDR keys, and no others. */
  lemma MergedKeys(formal: Assoc<seq<string>>, informative: Assoc<seq<string>>, cldr: Assoc<seq<string>>, k: string)
    ensures k in Keys(Merged(formal, informative, cldr)) <==>
      k in Keys(formal) || (exists i :: 0 <= i < |informative| && Upper(informative[i].0) == k) || k in Keys(cldr)
  {
    var inf := UpperKeys(informative);
    var src := MergeSource(formal, informative, cldr);
    assert k in Keys(Merged(formal, informative, cldr)) <==> k in Keys(src) by {
      ExtendAllHasKey([], src, k);
    }
    assert Keys(src) == Keys(formal) + Keys(inf) + Keys(cldr) by {
      KeysAppend(formal + inf, cldr);
      KeysAppend(formal, inf);
    }
    UpperKeysHas(informative, k);
  }

  /** The merge is a dict: no key appears twice. */
  lemma MergedDistinct(formal: Assoc<seq<string>>, informative: Assoc<seq<string>>, cldr: Assoc<seq<string>>)
    ensures DistinctKeys(Merged(formal, informative, cldr))
  {
    ExtendAllDistinct([], MergeSource(formal, informative, cldr));
  }

  /** The same merge as three `extend` loops, one per source. */
  lemma MergedInThreeSteps(formal: Assoc<seq<string>>, informative: Assoc<seq<string>>, cldr: Assoc<seq<string>>)
    ensures Merged(formal, informative, cldr) == ExtendAll(ExtendAll(ExtendAll([], formal), UpperKeys(informative)), cldr)
  {
    ExtendAllAppend([], formal + UpperKeys(informative), cldr);
    ExtendAllAppend([], formal, UpperKeys(informative));
  }
}
