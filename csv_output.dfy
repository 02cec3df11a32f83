/**
 * The CSV table the writers of all three packages build: the `max_aliases`
 * scan over the code points of `unicode_data`, the fixed columns followed by
 * `alias_1` … `alias_<max>`, and one row per character padded with empty
 * cells. A row is a `seq<string>` of cells; the quoting `csv.writer`
 * applies is not modelled.
 */
module CsvOutput {
  import opened Wrappers
  import opened Text
  import opened OrderedDict
  import opened UnicodeDataFile

  /** The longest alias list among the code points `keys`; code points without aliases count as 0. */
  function LongestAliases(keys: seq<string>, aliases: Assoc<seq<string>>): nat
    decreases |keys|
  {
    if keys == [] then 0
    else
      var n := |keys| - 1;
      var m := LongestAliases(keys[..n], aliases);
      match Find(aliases, keys[n])
      case None => m
      case Some(a) => if |a| > m then |a| else m
  }

  /** `max_aliases`, with the writers' `if aliases_data` guard around the scan. */
  function MaxAliases(keys: seq<string>, aliases: Assoc<seq<string>>): nat {
    if aliases == [] then 0 else LongestAliases(keys, aliases)
  }

  /** The `max_aliases` loop over `unicode_data.keys()`, proved to compute `MaxAliases`. */
  method ComputeMaxAliases<V>(ud: Assoc<V>, aliases: Assoc<seq<string>>) returns (m: nat)
    ensures m == MaxAliases(Keys(ud), aliases)
  {
    m := 0;
    if aliases != [] {
      var keys := Keys(ud);
      var i := 0;
      while i < |keys|
        invariant 0 <= i <= |keys|
        invariant m == LongestAliases(keys[..i], aliases)
      {
        assert keys[..i + 1][..i] == keys[..i];
        var found := Find(aliases, keys[i]);
        if found.Some? && |found.value| > m {
          m := |found.value|;
        }
        i := i + 1;
      }
      assert keys[..i] == keys;
    }
  }

  /** No alias list of a listed code point is longer than `max_aliases`. */
  lemma {:induction false} LongestIsBound(keys: seq<string>, aliases: Assoc<seq<string>>, k: string)
    requires k in keys && Find(aliases, k).Some?
    ensures |Find(aliases, k).value| <= LongestAliases(keys, aliases)
    decreases |keys|
  {
    var n := |keys| - 1;
    if keys[n] != k {
      assert k in keys[..n] by {
        var j :| 0 <= j < |keys| && keys[j] == k;
        assert j < n && keys[..n][j] == k;
      }
      LongestIsBound(keys[..n], aliases, k);
    }
  }

  /** `max_aliases` is the length of some listed code point's aliases, or 0 when there is none. */
  lemma {:induction false} LongestIsAttained(keys: seq<string>, aliases: Assoc<seq<string>>)
    ensures LongestAliases(keys, aliases) == 0 ||
      exists i :: 0 <= i < |keys| && Find(aliases, keys[i]).Some? && |Find(aliases, keys[i]).value| == LongestAliases(keys, aliases)
    decreases |keys|
  {
    if keys != [] {
      var n := |keys| - 1;
      LongestIsAttained(keys[..n], aliases);
      if LongestAliases(keys, aliases) == LongestAliases(keys[..n], aliases) && LongestAliases(keys, aliases) != 0 {
        var i :| 0 <= i < n && Find(aliases, keys[..n][i]).Some? && |Find(aliases, keys[..n][i]).value| == LongestAliases(keys[..n], aliases);
        assert keys[..n][i] == keys[i];
      }
    }
  }

  /** The `if aliases_data` guard changes nothing: with no aliases the scan finds nothing anyway. */
  lemma {:induction false} GuardRedundant(keys: seq<string>, aliases: Assoc<seq<string>>)
    ensures MaxAliases(keys, aliases) == LongestAliases(keys, aliases)
    decreases |keys|
  {
    if aliases == [] && keys != [] {
      GuardRedundant(keys[..|keys| - 1], aliases);
    }
  }

  /** Alias lists of code points that are not listed do not affect `max_aliases`. */
  lemma {:induction false} AbsentIgnored(keys: seq<string>, a1: Assoc<seq<string>>, a2: Assoc<seq<string>>)
    requires forall i :: 0 <= i < |keys| ==> Find(a1, keys[i]) == Find(a2, keys[i])
    ensures LongestAliases(keys, a1) == LongestAliases(keys, a2)
    decreases |keys|
  {
    if keys != [] {
      var n := |keys| - 1;
      var p := keys[..n];
      assert forall i :: 0 <= i < |p| ==> Find(a1, p[i]) == Find(a2, p[i]) by {
        assert forall i :: 0 <= i < |p| ==> p[i] == keys[i];
      }
      AbsentIgnored(p, a1, a2);
      assert Find(a1, keys[n]) == Find(a2, keys[n]);
    }
  }

  // ---------------------------------------------------------------------
  // Header
  // ---------------------------------------------------------------------

  /** `f'alias_{i}'`. */
  function AliasHeader(i: nat): string {
    "alias_" + NatToString(i)
  }

  /** The fixed columns, then `alias_1` … `alias_<width>`. */
  function HeaderRow(columns: seq<string>, width: nat): seq<string> {
    columns + seq(width, i requires 0 <= i < width => AliasHeader(i + 1))
  }

  /** The `headers.append` loop, proved to build `HeaderRow`. */
  method BuildHeader(columns: seq<string>, width: nat) returns (headers: seq<string>)
    ensures headers == HeaderRow(columns, width)
  {
    headers := columns;
    var i := 1;
    while i < width + 1
      invariant 1 <= i <= width + 1
      invariant headers == HeaderRow(columns, i - 1)
    {
      headers := headers + [AliasHeader(i)];
      i := i + 1;
    }
  }

  /** The header has the fixed columns first and then `alias_1` … `alias_<width>`. */
  lemma HeaderRowShape(columns: seq<string>, width: nat)
    ensures |HeaderRow(columns, width)| == |columns| + width
    ensures HeaderRow(columns, width)[..|columns|] == columns
    ensures forall i :: |columns| <= i < |columns| + width ==> HeaderRow(columns, width)[i] == AliasHeader(i - |columns| + 1)
  {
    var h := HeaderRow(columns, width);
    assert h[..|columns|] == columns;
  }

  /** No two alias columns share a name: reading the digits back gives the column number. */
  lemma AliasHeadersDistinct(columns: seq<string>, width: nat)
    ensures forall i, j :: |columns| <= i < j < |HeaderRow(columns, width)| ==>
      HeaderRow(columns, width)[i] != HeaderRow(columns, width)[j]
  {
    var h := HeaderRow(columns, width);
    forall i, j | |columns| <= i < j < |h|
      ensures h[i] != h[j]
    {
      var a, b := h[i], h[j];
      assert a == AliasHeader(i - |columns| + 1) && b == AliasHeader(j - |columns| + 1);
      assert a[6..] == NatToString(i - |columns| + 1);
      assert b[6..] == NatToString(j - |columns| + 1);
    }
  }

  // ---------------------------------------------------------------------
  // Rows
  // ---------------------------------------------------------------------

  /** The `width` alias cells of a row: the aliases in order, then `''`. */
  function Padded(aliases: seq<string>, width: nat): (r: seq<string>)
    ensures |r| == width
  {
    seq(width, i requires 0 <= i < width => if i < |aliases| then aliases[i] else "")
  }

  /** The `row.append` loop, proved to add `Padded` to the fixed cells. */
  method PadRow(row: seq<string>, aliases: seq<string>, width: nat) returns (r: seq<string>)
    ensures r == row + Padded(aliases, width)
  {
    r := row;
    var i := 0;
    while i < width
      invariant 0 <= i <= width
      invariant r == row + Padded(aliases, i)
    {
      r := r + [if i < |aliases| then aliases[i] else ""];
      i := i + 1;
    }
  }

  /** When the row is wide enough, its alias cells are all the aliases followed by empty cells. */
  lemma PaddedKeepsAliases(aliases: seq<string>, width: nat)
    requires |aliases| <= width
    ensures Padded(aliases, width) == aliases + seq(width - |aliases|, _ => "")
  {
    assert forall i :: 0 <= i < width ==> Padded(aliases, width)[i] == (aliases + seq(width - |aliases|, _ => ""))[i];
  }

  /** The CSV content: the header, then one row per character of `ud` in its order. */
  function Table(columns: seq<string>, ud: Assoc<CharInfo>, aliases: Assoc<seq<string>>,
                 fixed: (string, CharInfo) -> seq<string>): seq<seq<string>>
  {
    var width := MaxAliases(Keys(ud), aliases);
    [HeaderRow(columns, width)] + Rows(ud, aliases, fixed, width)
  }

  /** The data rows at a given alias width. */
  function Rows(ud: Assoc<CharInfo>, aliases: Assoc<seq<string>>, fixed: (string, CharInfo) -> seq<string>, width: nat)
    : (r: seq<seq<string>>)
    ensures |r| == |ud|
    ensures forall i :: 0 <= i < |ud| ==> r[i] == fixed(ud[i].0, ud[i].1) + Padded(GetOr(aliases, ud[i].0, []), width)
  {
    seq(|ud|, i requires 0 <= i < |ud| => fixed(ud[i].0, ud[i].1) + Padded(GetOr(aliases, ud[i].0, []), width))
  }

  /** The header, then the `for code_point_hex, data in unicode_data.items()` loop, proved to build `Table`. */
  method BuildTable(columns: seq<string>, ud: Assoc<CharInfo>, aliases: Assoc<seq<string>>,
                    fixed: (string, CharInfo) -> seq<string>) returns (t: seq<seq<string>>)
    ensures t == Table(columns, ud, aliases, fixed)
  {
    var width := ComputeMaxAliases(ud, aliases);
    var headers := BuildHeader(columns, width);
    var rows: seq<seq<string>> := [];
    var i := 0;
    while i < |ud|
      invariant 0 <= i <= |ud|
      invariant |rows| == i
      invariant forall j :: 0 <= j < i ==> rows[j] == fixed(ud[j].0, ud[j].1) + Padded(GetOr(aliases, ud[j].0, []), width)
    {
      var row := PadRow(fixed(ud[i].0, ud[i].1), GetOr(aliases, ud[i].0, []), width);
      rows := rows + [row];
      i := i + 1;
    }
    assert rows == Rows(ud, aliases, fixed, width);
    t := [headers] + rows;
  }

  /** Data row `i` of `Table`. */
  function TableRow(ud: Assoc<CharInfo>, aliases: Assoc<seq<string>>, fixed: (string, CharInfo) -> seq<string>, i: nat): seq<string>
    requires i < |ud|
  {
    fixed(ud[i].0, ud[i].1) + Padded(GetOr(aliases, ud[i].0, []), MaxAliases(Keys(ud), aliases))
  }

  /** The table is the header and one row per character: `unicode_data` order, nothing dropped or added. */
  lemma TableRows(columns: seq<string>, ud: Assoc<CharInfo>, aliases: Assoc<seq<string>>, fixed: (string, CharInfo) -> seq<string>)
    ensures |Table(columns, ud, aliases, fixed)| == |ud| + 1
    ensures Table(columns, ud, aliases, fixed)[0] == HeaderRow(columns, MaxAliases(Keys(ud), aliases))
    ensures forall i :: 0 <= i < |ud| ==> Table(columns, ud, aliases, fixed)[i + 1] == TableRow(ud, aliases, fixed, i)
  {
  }

  /** A listed code point's aliases fit in the `max_aliases` alias columns. */
  lemma AliasesFit(ud: Assoc<CharInfo>, aliases: Assoc<seq<string>>, i: nat)
    requires i < |ud|
    ensures |GetOr(aliases, ud[i].0, [])| <= MaxAliases(Keys(ud), aliases)
  {
    if Find(aliases, ud[i].0).Some? {
      assert Keys(ud)[i] == ud[i].0;
      LongestIsBound(Keys(ud), aliases, ud[i].0);
      GuardRedundant(Keys(ud), aliases);
    }
  }

  /**
   * Every data row has as many cells as the header, `|columns| + max_aliases`,
   * and holds its fixed cells, then all of its code point's aliases in order,
   * then empty cells.
   */
  lemma RowShape(columns: seq<string>, ud: Assoc<CharInfo>, aliases: Assoc<seq<string>>,
                 fixed: (string, CharInfo) -> seq<string>, i: nat)
    requires i < |ud| && |fixed(ud[i].0, ud[i].1)| == |columns|
    ensures |GetOr(aliases, ud[i].0, [])| <= MaxAliases(Keys(ud), aliases)
    ensures |TableRow(ud, aliases, fixed, i)| == |HeaderRow(columns, MaxAliases(Keys(ud), aliases))|
    ensures TableRow(ud, aliases, fixed, i)[..|columns|] == fixed(ud[i].0, ud[i].1)
    ensures TableRow(ud, aliases, fixed, i)[|columns|..] == GetOr(aliases, ud[i].0, []) +
      seq(MaxAliases(Keys(ud), aliases) - |GetOr(aliases, ud[i].0, [])|, _ => "")
  {
    var w := MaxAliases(Keys(ud), aliases);
    var al := GetOr(aliases, ud[i].0, []);
    HeaderRowShape(columns, w);
    AliasesFit(ud, aliases, i);
    var r := TableRow(ud, aliases, fixed, i);
    assert r[..|columns|] == fixed(ud[i].0, ud[i].1);
    assert r[|columns|..] == Padded(al, w);
    PaddedKeepsAliases(al, w);
    assert Padded(al, w) == al + seq(w - |al|, _ => "");
  }
}
