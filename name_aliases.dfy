/**
 * The `NameAliases.txt` line loop shared by glyph-catcher, unifill-datafetch
 * and setup_dataset: blank and `#` lines are skipped, and every other line
 * with at least two `;` fields appends field 1 to the list of field 0.
 */
module NameAliasesFile {
  import opened Wrappers
  import opened Text
  import opened OrderedDict
  import opened Seqs

  /** One line: the `(code point, alias)` it appends, if any. */
  function AliasLine(line: string): Option<(string, string)> {
    var t := Strip(line);
    if t == [] || StartsWith(t, "#") then None
    else
      var fields := Split(t, ';');
      if |fields| >= 2 then Some((fields[0], fields[1])) else None
  }

  function Outcomes(lines: seq<string>): (r: seq<Option<(string, string)>>)
    ensures |r| == |lines|
    ensures forall i :: 0 <= i < |lines| ==> r[i] == AliasLine(lines[i])
  {
    seq(|lines|, i requires 0 <= i < |lines| => AliasLine(lines[i]))
  }

  /** The appends the outcomes call for, in order, each as a one-element list. */
  function Appends(outs: seq<Option<(string, string)>>): seq<(string, seq<string>)>
    decreases |outs|
  {
    if outs == [] then []
    else
      var n := |outs| - 1;
      Appends(outs[..n]) + (if outs[n].Some? then [(outs[n].value.0, [outs[n].value.1])] else [])
  }

  /** `parse_name_aliases` on a file's lines: `aliases_data[code_point_hex].append(alias)` per line. */
  function ParseNameAliases(lines: seq<string>): Assoc<seq<string>> {
    ExtendAll([], Appends(Outcomes(lines)))
  }

  /** The loop of `parse_name_aliases`, proved to compute `ParseNameAliases`. */
  method ParseNameAliasesLines(lines: seq<string>) returns (d: Assoc<seq<string>>)
    ensures d == ParseNameAliases(lines)
  {
    var outs := Outcomes(lines);
    d := [];
    var i := 0;
    while i < |outs|
      invariant 0 <= i <= |outs|
      invariant d == ExtendAll([], Appends(outs[..i]))
    {
      AppendsStep(outs, i);
      if outs[i].Some? {
        d := Extend(d, outs[i].value.0, [outs[i].value.1]);
      }
      i := i + 1;
    }
    assert outs[..i] == outs;
  }

  /** One more line is one more `append`, or nothing. */
  lemma AppendsStep(outs: seq<Option<(string, string)>>, i: nat)
    requires i < |outs|
    ensures ExtendAll([], Appends(outs[..i + 1])) ==
      if outs[i].Some? then Extend(ExtendAll([], Appends(outs[..i])), outs[i].value.0, [outs[i].value.1])
      else ExtendAll([], Appends(outs[..i]))
  {
    AppendsSnoc(outs, i);
    var p := Appends(outs[..i]);
    if outs[i].Some? {
      var e := (outs[i].value.0, [outs[i].value.1]);
      assert Appends(outs[..i + 1]) == p + [e];
      ExtendAllSnoc([], p, e);
    } else {
      assert Appends(outs[..i + 1]) == p;
    }
  }

  lemma AppendsSnoc(outs: seq<Option<(string, string)>>, i: nat)
    requires i < |outs|
    ensures Appends(outs[..i + 1]) ==
      Appends(outs[..i]) + (if outs[i].Some? then [(outs[i].value.0, [outs[i].value.1])] else [])
  {
    assert outs[..i + 1][..i] == outs[..i];
  }

  /** The aliases the outcomes give key `k`, in file order. */
  function AliasesOf(outs: seq<Option<(string, string)>>, k: string): seq<string>
    decreases |outs|
  {
    if outs == [] then []
    else
      var n := |outs| - 1;
      AliasesOf(outs[..n], k) + (if outs[n].Some? && outs[n].value.0 == k then [outs[n].value.1] else [])
  }

  lemma {:induction false} CollectedAppends(outs: seq<Option<(string, string)>>, k: string)
    ensures Collected(Appends(outs), k) == AliasesOf(outs, k)
    decreases |outs|
  {
    if outs != [] {
      var n := |outs| - 1;
      CollectedAppends(outs[..n], k);
      var p := Appends(outs[..n]);
      if outs[n].Some? {
        var e := (outs[n].value.0, [outs[n].value.1]);
        assert (p + [e])[..|p|] == p;
      } else {
        assert Appends(outs) == p;
      }
    }
  }

  lemma {:induction false} KeysOfAppends(outs: seq<Option<(string, string)>>, k: string)
    ensures k in Keys(Appends(outs)) <==> exists i :: 0 <= i < |outs| && outs[i].Some? && outs[i].value.0 == k
    decreases |outs|
  {
    if outs != [] {
      var n := |outs| - 1;
      var p := outs[..n];
      KeysOfAppends(p, k);
      ExistsLast(outs, p, (o: Option<(string, string)>) => o.Some? && o.value.0 == k);
      if outs[n].Some? {
        KeysSnocHas(Appends(p), (outs[n].value.0, [outs[n].value.1]), k);
      }
    }
  }

  /** Each code point's list is the field-1 values of its lines, in file order. */
  lemma AliasesInFileOrder(lines: seq<string>, k: string)
    ensures GetOr(ParseNameAliases(lines), k, []) == AliasesOf(Outcomes(lines), k)
  {
    ExtendAllFind([], Appends(Outcomes(lines)), k);
    CollectedAppends(Outcomes(lines), k);
  }

  /** A code point is a key exactly when some line names it. */
  lemma KeysFromLines(lines: seq<string>, k: string)
    ensures k in Keys(ParseNameAliases(lines)) <==>
      exists i :: 0 <= i < |lines| && AliasLine(lines[i]).Some? && AliasLine(lines[i]).value.0 == k
  {
    var outs := Outcomes(lines);
    ExtendAllHasKey([], Appends(outs), k);
    KeysOfAppends(outs, k);
    if exists i :: 0 <= i < |outs| && outs[i].Some? && outs[i].value.0 == k {
      var i :| 0 <= i < |outs| && outs[i].Some? && outs[i].value.0 == k;
      assert AliasLine(lines[i]) == outs[i];
    }
  }

  /** The result never repeats a key. */
  lemma KeysDistinct(lines: seq<string>)
    ensures DistinctKeys(ParseNameAliases(lines))
  {
    ExtendAllDistinct([], Appends(Outcomes(lines)));
  }

  /** Blank lines and `#` comments contribute nothing. */
  lemma CommentSkipped(line: string)
    requires Strip(line) == [] || StartsWith(Strip(line), "#")
    ensures AliasLine(line).None?
  {
  }

  /** Appending a line that yields nothing leaves the parse as it was. */
  lemma {:induction false} SkippedLineNoEffect(lines: seq<string>, line: string)
    requires AliasLine(line).None?
    ensures ParseNameAliases(lines + [line]) == ParseNameAliases(lines)
  {
    var outs := Outcomes(lines + [line]);
    assert outs[..|lines|] == Outcomes(lines);
    assert Appends(outs) == Appends(Outcomes(lines));
  }

  /** A data line `cp;alias;type…` appends its second field under its first. */
  lemma FieldsAppended(line: string, fields: seq<string>)
    requires |fields| >= 2 && (forall i :: 0 <= i < |fields| ==> ';' !in fields[i])
    requires line == Join([';'], fields)
    requires line != [] && !IsSpace(line[0]) && !IsSpace(line[|line| - 1]) && line[0] != '#'
    ensures AliasLine(line) == Some((fields[0], fields[1]))
  {
    SplitStripJoin(line, fields, ';');
    StripTrimmed(line);
  }
}
