/**
 * The reduction of CLDR `<annotation>` elements, shared by glyph-catcher and
 * unifill-datafetch. XML parsing is not modelled: the elements arrive as
 * records of their attributes and text, in document order.
 */
module CldrAnnotations {
  import opened Wrappers
  import opened Text
  import opened OrderedDict
  import opened Seqs

  /** One `<annotation>` element: its attributes and its text (`None` when it has none). */
  datatype Annotation = Annotation(attrib: map<string, string>, text: Option<string>)

  /** Whether `file_paths` has a `cldr_annotations` entry, and what that file holds (`None`: missing or not XML). */
  datatype CldrSource = NotConfigured | Configured(file: Option<seq<Annotation>>)

  /** What one element does to the result. */
  datatype ElementOutcome = Ignored | Aliases(key: string, aliases: seq<string>) | Fails

  /**
   * Elements with a `type` (text-to-speech names) and elements without `cp`
   * are ignored. An empty `cp` makes `char[0]` raise `IndexError`, which only
   * the handler around the whole parse catches. Empty or missing text adds nothing.
   */
  function ElementOutcomeOf(a: Annotation): ElementOutcome {
    if "type" in a.attrib then Ignored
    else if "cp" !in a.attrib then Ignored
    else
      var cp := a.attrib["cp"];
      if |cp| == 0 then Fails
      else
        var key := HexString(cp[0] as int);
        if a.text.Some? && a.text.value != [] then Aliases(key, StripAll(Split(a.text.value, '|')))
        else Ignored
  }

  function Outcomes(elems: seq<Annotation>): (r: seq<ElementOutcome>)
    ensures |r| == |elems|
    ensures forall i :: 0 <= i < |elems| ==> r[i] == ElementOutcomeOf(elems[i])
  {
    seq(|elems|, i requires 0 <= i < |elems| => ElementOutcomeOf(elems[i]))
  }

  /** The `extend` calls the outcomes make, in document order. */
  function Appends(outs: seq<ElementOutcome>): seq<(string, seq<string>)>
    decreases |outs|
  {
    if outs == [] then []
    else
      var n := |outs| - 1;
      Appends(outs[..n]) + (if outs[n].Aliases? then [(outs[n].key, outs[n].aliases)] else [])
  }

  predicate AnyFails(outs: seq<ElementOutcome>) {
    exists i :: 0 <= i < |outs| && outs[i].Fails?
  }

  /** `parse_cldr_annotations` before the per-package handling of failure: `None` when an element fails. */
  function ParseCldr(elems: seq<Annotation>): Option<Assoc<seq<string>>> {
    var outs := Outcomes(elems);
    if AnyFails(outs) then None else Some(ExtendAll([], Appends(outs)))
  }

  /** The loop of `parse_cldr_annotations`, proved to compute `ParseCldr`. */
  method ParseCldrElements(elems: seq<Annotation>) returns (r: Option<Assoc<seq<string>>>)
    ensures r == ParseCldr(elems)
  {
    r := FoldOutcomes(Outcomes(elems));
  }

  /** The loop body over the outcomes: skip, stop with `None`, or extend. */
  method FoldOutcomes(outs: seq<ElementOutcome>) returns (r: Option<Assoc<seq<string>>>)
    ensures r == if AnyFails(outs) then None else Some(ExtendAll([], Appends(outs)))
  {
    var d: Assoc<seq<string>> := [];
    var i := 0;
    while i < |outs|
      invariant 0 <= i <= |outs|
      invariant forall j :: 0 <= j < i ==> !outs[j].Fails?
      invariant d == ExtendAll([], Appends(outs[..i]))
    {
      AppendsStep(outs, i);
      match outs[i] {
        case Fails =>
          assert AnyFails(outs);
          return None;
        case Aliases(k, aliases) =>
          d := Extend(d, k, aliases);
        case Ignored =>
      }
      i := i + 1;
    }
    WholePrefix(outs);
    return Some(d);
  }

  lemma AppendsStep(outs: seq<ElementOutcome>, i: nat)
    requires i < |outs|
    ensures ExtendAll([], Appends(outs[..i + 1])) ==
      if outs[i].Aliases? then Extend(ExtendAll([], Appends(outs[..i])), outs[i].key, outs[i].aliases)
      else ExtendAll([], Appends(outs[..i]))
  {
    assert outs[..i + 1][..i] == outs[..i];
    var p := Appends(outs[..i]);
    if outs[i].Aliases? {
      var e := (outs[i].key, outs[i].aliases);
      assert Appends(outs[..i + 1]) == p + [e];
      ExtendAllSnoc([], p, e);
    } else {
      assert Appends(outs[..i + 1]) == p;
    }
  }

  /** `type` elements are ignored, whatever else they carry. */
  lemma TypedIgnored(a: Annotation)
    requires "type" in a.attrib
    ensures ElementOutcomeOf(a) == Ignored
  {
  }

  /**
   * The key is the upper-case, unpadded hex of the first character of `cp`,
   * and reading it back with `int(key, 16)` gives that character's code point.
   */
  lemma KeyOfElement(a: Annotation)
    requires ElementOutcomeOf(a).Aliases?
    ensures var cp := a.attrib["cp"];
      && |cp| > 0
      && ElementOutcomeOf(a).key == HexString(cp[0] as int)
      && ParseIntBase16(ElementOutcomeOf(a).key) == Some(cp[0] as int)
      && forall i :: 0 <= i < |ElementOutcomeOf(a).key| ==> ('0' <= ElementOutcomeOf(a).key[i] <= '9' || 'A' <= ElementOutcomeOf(a).key[i] <= 'F')
  {
    HexRoundTrip(a.attrib["cp"][0] as int);
  }

  /** `'A'` gives `"41"`. */
  lemma LetterAKey()
    ensures HexString('A' as int) == "41"
  {
  }

  /** Text whose `|`-separated pieces are already trimmed comes back as exactly those pieces. */
  lemma PiecesRoundTrip(a: Annotation, parts: seq<string>)
    requires "type" !in a.attrib && "cp" in a.attrib && |a.attrib["cp"]| > 0
    requires |parts| >= 1 && forall i :: 0 <= i < |parts| ==> '|' !in parts[i] && Strip(parts[i]) == parts[i]
    requires a.text == Some(Join(['|'], parts)) && a.text.value != []
    ensures ElementOutcomeOf(a) == Aliases(HexString(a.attrib["cp"][0] as int), parts)
  {
    SplitJoinStripped(parts, '|');
  }

  /** Every produced alias is stripped and free of `|`. */
  lemma AliasesClean(a: Annotation)
    requires ElementOutcomeOf(a).Aliases?
    ensures forall j :: 0 <= j < |ElementOutcomeOf(a).aliases| ==>
      var s := ElementOutcomeOf(a).aliases[j];
      Strip(s) == s && '|' !in s
  {
    var pieces := Split(a.text.value, '|');
    forall j | 0 <= j < |pieces|
      ensures Strip(Strip(pieces[j])) == Strip(pieces[j]) && '|' !in Strip(pieces[j])
    {
      StripIdempotent(pieces[j]);
      StripKeepsAbsent(pieces[j], '|');
    }
  }

  /** The parse fails exactly when some element has an empty `cp` and no `type`. */
  lemma FailsIffEmptyCp(elems: seq<Annotation>)
    ensures ParseCldr(elems).None? <==>
      exists i :: 0 <= i < |elems| && "type" !in elems[i].attrib && "cp" in elems[i].attrib && elems[i].attrib["cp"] == []
  {
    var outs := Outcomes(elems);
    if AnyFails(outs) {
      var i :| 0 <= i < |outs| && outs[i].Fails?;
      assert ElementOutcomeOf(elems[i]).Fails?;
    }
  }

  /** Each key's list is the aliases of its elements, concatenated in document order. */
  lemma AliasesInDocumentOrder(elems: seq<Annotation>, k: string)
    requires ParseCldr(elems).Some?
    ensures GetOr(ParseCldr(elems).value, k, []) == Collected(Appends(Outcomes(elems)), k)
  {
    ExtendAllFind([], Appends(Outcomes(elems)), k);
  }

  /** The result never repeats a key. */
  lemma KeysDistinct(elems: seq<Annotation>)
    requires ParseCldr(elems).Some?
    ensures DistinctKeys(ParseCldr(elems).value)
  {
    ExtendAllDistinct([], Appends(Outcomes(elems)));
  }

  lemma {:induction false} KeysOfAppends(outs: seq<ElementOutcome>, k: string)
    ensures k in Keys(Appends(outs)) <==> exists i :: 0 <= i < |outs| && outs[i].Aliases? && outs[i].key == k
    decreases |outs|
  {
    if outs != [] {
      var n := |outs| - 1;
      var p := outs[..n];
      KeysOfAppends(p, k);
      ExistsLast(outs, p, (o: ElementOutcome) => o.Aliases? && o.key == k);
      if outs[n].Aliases? {
        KeysSnocHas(Appends(p), (outs[n].key, outs[n].aliases), k);
      }
    }
  }

  /** Every key of the result is the hex of an element's first `cp` character and parses back to it. */
  lemma KeysFromElements(elems: seq<Annotation>, k: string)
    requires ParseCldr(elems).Some? && k in Keys(ParseCldr(elems).value)
    ensures exists i :: (0 <= i < |elems| && "cp" in elems[i].attrib && |elems[i].attrib["cp"]| > 0 &&
      k == HexString(elems[i].attrib["cp"][0] as int) && ParseIntBase16(k) == Some(elems[i].attrib["cp"][0] as int))
  {
    var outs := Outcomes(elems);
    ExtendAllHasKey([], Appends(outs), k);
    KeysOfAppends(outs, k);
    var i :| 0 <= i < |outs| && outs[i].Aliases? && outs[i].key == k;
    KeyOfElement(elems[i]);
  }
}
