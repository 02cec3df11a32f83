/**
 * `bin/find_many_aliases.py`: reads a CSV table of characters and aliases
 * (already split into rows of cells), keeps the characters with more than a
 * given number of aliases, or the one asked for, ranks them by alias count,
 * and formats alias lists for display.
 */
module FindManyAliases {
  import opened Wrappers
  import opened Text
  import opened Seqs

  /** One kept row. */
  datatype CharRecord = CharRecord(codePoint: string, character: string, name: string,
                                   category: string, block: string, aliasCount: nat, aliases: seq<string>)

  // ---------------------------------------------------------------------
  // format_aliases
  // ---------------------------------------------------------------------

  /** `aliases[:limit]` for a positive limit. */
  function Take(aliases: seq<string>, limit: nat): (r: seq<string>)
    ensures |r| == if limit < |aliases| then limit else |aliases|
    ensures r == aliases[..|r|]
  {
    if limit < |aliases| then aliases[..limit] else aliases
  }

  predicate HasLimit(limit: Option<int>) {
    limit.Some? && limit.value > 0
  }

  /** The aliases shown: the first `limit` of them when a positive limit is given, else all. */
  function Shown(aliases: seq<string>, limit: Option<int>): seq<string> {
    if HasLimit(limit) then Take(aliases, limit.value) else aliases
  }

  /** `" (and k more)"` when a positive limit hides `k > 0` aliases, else nothing. */
  function Suffix(aliases: seq<string>, limit: Option<int>): string {
    if HasLimit(limit) && |aliases| > limit.value then " (and " + NatToString(|aliases| - limit.value) + " more)" else ""
  }

  /**
   * `format_aliases`. `None` is the branch that hands a line longer than a
   * non-zero `wrap_width` to `textwrap.fill`, which is not modelled.
   */
  function FormatAliases(aliases: seq<string>, limit: Option<int>, wrapWidth: int): Option<string> {
    var joined := Join(", ", Shown(aliases, limit));
    if wrapWidth != 0 && |joined| > wrapWidth then None
    else Some("    " + joined + Suffix(aliases, limit))
  }

  /** The unwrapped branch is taken for a zero width or a short enough line: the four-space indent, the shown aliases joined by `", "`, and the suffix. */
  lemma FormatUnwrapped(aliases: seq<string>, limit: Option<int>, wrapWidth: int)
    ensures var joined := Join(", ", Shown(aliases, limit));
      FormatAliases(aliases, limit, wrapWidth).Some? <==> wrapWidth == 0 || |joined| <= wrapWidth
    ensures var r := FormatAliases(aliases, limit, wrapWidth);
      r.Some? ==> StartsWith(r.value, "    ") && r.value[4..] == Join(", ", Shown(aliases, limit)) + Suffix(aliases, limit)
  {
    Indent(Join(", ", Shown(aliases, limit)) + Suffix(aliases, limit));
  }

  lemma Indent(x: string)
    ensures StartsWith("    " + x, "    ") && ("    " + x)[4..] == x
  {
  }

  /**
   * The suffix appears exactly when a positive limit hides some aliases, and
   * its number reads back as the count of hidden ones: shown and hidden add
   * up to all of them.
   */
  lemma SuffixCountsHidden(aliases: seq<string>, limit: Option<int>)
    ensures Suffix(aliases, limit) != [] <==> HasLimit(limit) && |aliases| > limit.value
    ensures Suffix(aliases, limit) != [] ==>
      exists d :: Suffix(aliases, limit) == " (and " + d + " more)" &&
        (forall i :: 0 <= i < |d| ==> IsDecimalDigit(d[i])) && |Shown(aliases, limit)| + DecimalValue(d) == |aliases|
  {
    if HasLimit(limit) && |aliases| > limit.value {
      var d := NatToString(|aliases| - limit.value);
      assert Suffix(aliases, limit) == " (and " + d + " more)";
    }
  }

  /** Without a positive limit every alias is shown and nothing is appended. */
  lemma NoLimitShowsAll(aliases: seq<string>, limit: Option<int>)
    requires !HasLimit(limit)
    ensures Shown(aliases, limit) == aliases && Suffix(aliases, limit) == ""
  {
  }

  /** A positive limit shows a prefix of at most `limit` aliases, and all of them when they fit. */
  lemma LimitShowsPrefix(aliases: seq<string>, limit: int)
    requires limit > 0
    ensures var s := Shown(aliases, Some(limit));
      |s| <= limit && s == aliases[..|s|] && (|aliases| <= limit ==> s == aliases && Suffix(aliases, Some(limit)) == "")
  {
  }

  // ---------------------------------------------------------------------
  // find_character_by_code_point
  // ---------------------------------------------------------------------

  /** The search key: upper-cased, with `U+` put in front when it is not already there. */
  function Normalize(codePoint: string): (r: string)
    ensures StartsWith(r, "U+")
  {
    var u := Upper(codePoint);
    if StartsWith(u, "U+") then u else "U+" + u
  }

  predicate Matches(c: CharRecord, target: string) {
    Upper(c.codePoint) == target
  }

  /** `find_character_by_code_point`: the first record whose upper-cased code point is the normalized key. */
  method FindCharacterByCodePoint(data: seq<CharRecord>, codePoint: string) returns (r: Option<CharRecord>)
    ensures r.None? <==> forall i :: 0 <= i < |data| ==> !Matches(data[i], Normalize(codePoint))
    ensures r.Some? ==> exists i :: (0 <= i < |data| && data[i] == r.value && Matches(data[i], Normalize(codePoint)) &&
      forall j :: 0 <= j < i ==> !Matches(data[j], Normalize(codePoint)))
  {
    var target := Upper(codePoint);
    if !StartsWith(target, "U+") {
      target := "U+" + target;
    }
    var i := 0;
    while i < |data|
      invariant 0 <= i <= |data|
      invariant forall j :: 0 <= j < i ==> !Matches(data[j], target)
    {
      if Upper(data[i].codePoint) == target {
        return Some(data[i]);
      }
      i := i + 1;
    }
    return None;
  }

  /** Normalizing twice is normalizing once. */
  lemma NormalizeIdempotent(codePoint: string)
    ensures Normalize(Normalize(codePoint)) == Normalize(codePoint)
  {
    var u := Upper(codePoint);
    UpperIdempotent(u);
    if !StartsWith(u, "U+") {
      assert Upper("U+" + u) == "U+" + Upper(u) by {
        assert forall i :: 0 <= i < |"U+" + u| ==> Upper("U+" + u)[i] == ("U+" + Upper(u))[i];
      }
    }
  }

  /** A bare hex key and the same key written with `U+` or `u+` find the same character. */
  lemma PrefixOptional(codePoint: string)
    requires !StartsWith(Upper(codePoint), "U+")
    ensures Normalize("U+" + codePoint) == Normalize(codePoint)
    ensures Normalize("u+" + codePoint) == Normalize(codePoint)
  {
    var u := Upper(codePoint);
    assert Upper("U+" + codePoint) == "U+" + u by {
      assert forall i :: 0 <= i < |"U+" + codePoint| ==> Upper("U+" + codePoint)[i] == ("U+" + u)[i];
    }
    assert Upper("u+" + codePoint) == "U+" + u by {
      assert forall i :: 0 <= i < |"u+" + codePoint| ==> Upper("u+" + codePoint)[i] == ("U+" + u)[i];
    }
  }

  // ---------------------------------------------------------------------
  // The stable sort by alias count, highest first
  // ---------------------------------------------------------------------

  predicate SortedByCount(s: seq<CharRecord>) {
    forall i, j :: 0 <= i < j < |s| ==> s[i].aliasCount >= s[j].aliasCount
  }

  /** The records with alias count `c`, in order. */
  function WithCount(s: seq<CharRecord>, c: nat): seq<CharRecord> {
    if s == [] then [] else (if s[0].aliasCount == c then [s[0]] else []) + WithCount(s[1..], c)
  }

  /** Puts `x` after every record with at least its count: behind its equals, as a later element. */
  function InsertByCount(t: seq<CharRecord>, x: CharRecord): seq<CharRecord> {
    if t == [] then [x]
    else if t[0].aliasCount >= x.aliasCount then [t[0]] + InsertByCount(t[1..], x)
    else [x] + t
  }

  /** `list.sort(key=alias_count, reverse=True)`, which Python keeps stable. */
  function SortByCount(s: seq<CharRecord>): seq<CharRecord>
    decreases |s|
  {
    if s == [] then [] else InsertByCount(SortByCount(s[..|s| - 1]), s[|s| - 1])
  }

  lemma {:induction false} InsertPermutes(t: seq<CharRecord>, x: CharRecord)
    ensures multiset(InsertByCount(t, x)) == multiset(t) + multiset{x}
  {
    if t != [] && t[0].aliasCount >= x.aliasCount {
      InsertPermutes(t[1..], x);
      assert t == [t[0]] + t[1..];
    }
  }

  lemma ConsParts<T>(h: T, t: seq<T>)
    ensures |[h] + t| == |t| + 1 && ([h] + t)[0] == h && ([h] + t)[1..] == t
    ensures forall j :: 1 <= j <= |t| ==> ([h] + t)[j] == t[j - 1]
  {
    assert ([h] + t)[1..] == t;
  }

  lemma TailSorted(t: seq<CharRecord>)
    requires SortedByCount(t) && t != []
    ensures SortedByCount(t[1..])
    ensures forall i :: 0 <= i < |t[1..]| ==> t[1..][i].aliasCount <= t[0].aliasCount
    ensures forall i :: 0 <= i < |t| ==> t[i].aliasCount <= t[0].aliasCount
  {
    assert forall i :: 0 <= i < |t[1..]| ==> t[1..][i] == t[i + 1];
  }

  lemma ConsSorted(h: CharRecord, rest: seq<CharRecord>)
    requires SortedByCount(rest)
    requires forall i :: 0 <= i < |rest| ==> rest[i].aliasCount <= h.aliasCount
    ensures SortedByCount([h] + rest)
  {
    ConsParts(h, rest);
  }

  lemma WithCountCons(h: CharRecord, t: seq<CharRecord>, c: nat)
    ensures WithCount([h] + t, c) == (if h.aliasCount == c then [h] else []) + WithCount(t, c)
  {
    ConsParts(h, t);
  }

  /** Inserting under a bound keeps every count under it. */
  lemma {:induction false} InsertBound(t: seq<CharRecord>, x: CharRecord, b: nat)
    requires forall i :: 0 <= i < |t| ==> t[i].aliasCount <= b
    requires x.aliasCount <= b
    ensures forall i :: 0 <= i < |InsertByCount(t, x)| ==> InsertByCount(t, x)[i].aliasCount <= b
  {
    if t == [] {
    } else if t[0].aliasCount >= x.aliasCount {
      assert forall i :: 0 <= i < |t[1..]| ==> t[1..][i] == t[i + 1];
      InsertBound(t[1..], x, b);
      ConsParts(t[0], InsertByCount(t[1..], x));
    } else {
      ConsParts(x, t);
    }
  }

  lemma {:induction false} InsertSorted(t: seq<CharRecord>, x: CharRecord)
    requires SortedByCount(t)
    ensures SortedByCount(InsertByCount(t, x))
  {
    if t == [] {
    } else if t[0].aliasCount >= x.aliasCount {
      TailSorted(t);
      InsertSorted(t[1..], x);
      InsertBound(t[1..], x, t[0].aliasCount);
      ConsSorted(t[0], InsertByCount(t[1..], x));
    } else {
      TailSorted(t);
      ConsSorted(x, t);
    }
  }

  lemma {:induction false} WithCountAppend(a: seq<CharRecord>, b: seq<CharRecord>, c: nat)
    ensures WithCount(a + b, c) == WithCount(a, c) + WithCount(b, c)
  {
    if a != [] {
      assert a + b == [a[0]] + (a[1..] + b);
      WithCountCons(a[0], a[1..] + b, c);
      WithCountAppend(a[1..], b, c);
    } else {
      assert a + b == b;
    }
  }

  lemma {:induction false} WithCountNone(t: seq<CharRecord>, c: nat)
    requires forall i :: 0 <= i < |t| ==> t[i].aliasCount < c
    ensures WithCount(t, c) == []
  {
    if t != [] {
      WithCountNone(t[1..], c);
    }
  }

  lemma {:induction false} InsertStable(t: seq<CharRecord>, x: CharRecord, c: nat)
    requires SortedByCount(t)
    ensures WithCount(InsertByCount(t, x), c) == WithCount(t, c) + (if x.aliasCount == c then [x] else [])
  {
    if t == [] {
    } else if t[0].aliasCount >= x.aliasCount {
      TailSorted(t);
      InsertStable(t[1..], x, c);
      WithCountCons(t[0], InsertByCount(t[1..], x), c);
    } else {
      WithCountCons(x, t, c);
      if x.aliasCount == c {
        TailSorted(t);
        WithCountNone(t, c);
      }
    }
  }

  lemma WithCountLast(s: seq<CharRecord>, c: nat)
    requires s != []
    ensures WithCount(s, c) == WithCount(s[..|s| - 1], c) + (if s[|s| - 1].aliasCount == c then [s[|s| - 1]] else [])
  {
    var n := |s| - 1;
    LastSplit(s);
    WithCountAppend(s[..n], [s[n]], c);
    assert [s[n]][1..] == [];
  }

  /** The sort yields records ordered by alias count, highest first. */
  lemma {:induction false} SortSorted(s: seq<CharRecord>)
    ensures SortedByCount(SortByCount(s))
    decreases |s|
  {
    if s != [] {
      SortSorted(s[..|s| - 1]);
      InsertSorted(SortByCount(s[..|s| - 1]), s[|s| - 1]);
    }
  }

  /** The sort rearranges, and neither drops nor adds a record. */
  lemma {:induction false} SortPermutes(s: seq<CharRecord>)
    ensures multiset(SortByCount(s)) == multiset(s)
    decreases |s|
  {
    if s != [] {
      var n := |s| - 1;
      SortPermutes(s[..n]);
      InsertPermutes(SortByCount(s[..n]), s[n]);
      LastSplit(s);
    }
  }

  /** The sort is stable: the records sharing any alias count keep their file order. */
  lemma {:induction false} SortStable(s: seq<CharRecord>, c: nat)
    ensures WithCount(SortByCount(s), c) == WithCount(s, c)
    decreases |s|
  {
    if s != [] {
      var n := |s| - 1;
      SortStable(s[..n], c);
      SortSorted(s[..n]);
      InsertStable(SortByCount(s[..n]), s[n], c);
      WithCountLast(s, c);
    }
  }

  // ---------------------------------------------------------------------
  // process_unicode_data
  // ---------------------------------------------------------------------

  /** `[a for a in cells if a.strip()]`. */
  function NonBlank(cells: seq<string>): seq<string>
    decreases |cells|
  {
    if cells == [] then []
    else
      var n := |cells| - 1;
      NonBlank(cells[..n]) + (if Strip(cells[n]) != [] then [cells[n]] else [])
  }

  /** The aliases are exactly the non-blank cells. */
  lemma {:induction false} NonBlankMembers(cells: seq<string>, a: string)
    ensures |NonBlank(cells)| <= |cells|
    ensures a in NonBlank(cells) <==> a in cells && Strip(a) != []
    decreases |cells|
  {
    if cells != [] {
      var n := |cells| - 1;
      NonBlankMembers(cells[..n], a);
      LastSplit(cells);
    }
  }

  /** Python truthiness of `specific_code_point`. */
  predicate Truthy(specific: Option<string>) {
    specific.Some? && specific.value != []
  }

  /** The record a row of at least six cells gives. */
  function RecordOf(row: seq<string>): CharRecord
    requires |row| >= 6
  {
    var aliases := NonBlank(row[5..]);
    CharRecord(row[0], row[1], row[2], row[3], row[4], |aliases|, aliases)
  }

  /** Whether a data row is kept: the asked-for code point, or more than `minAliases` aliases when none is asked for. */
  predicate Selected(row: seq<string>, minAliases: int, specific: Option<string>) {
    |row| >= 6 &&
    ((Truthy(specific) && Upper(row[0]) == Upper(specific.value)) ||
     (|NonBlank(row[5..])| > minAliases && !Truthy(specific)))
  }

  /** What one data row adds to the result. */
  function RowRecords(row: seq<string>, minAliases: int, specific: Option<string>): seq<CharRecord>
  {
    if Selected(row, minAliases, specific) then [RecordOf(row)] else []
  }

  /** `f` applied to each element, the results concatenated in order. */
  function Gather<T, U>(xs: seq<T>, f: T -> seq<U>): seq<U>
    decreases |xs|
  {
    if xs == [] then [] else Gather(xs[..|xs| - 1], f) + f(xs[|xs| - 1])
  }

  lemma {:induction false} GatherMembers<T, U>(xs: seq<T>, f: T -> seq<U>, u: U)
    ensures u in Gather(xs, f) <==> exists i :: 0 <= i < |xs| && u in f(xs[i])
    decreases |xs|
  {
    if xs != [] {
      var n := |xs| - 1;
      var p := xs[..n];
      GatherMembers(p, f, u);
      if u in Gather(p, f) {
        var i :| 0 <= i < |p| && u in f(p[i]);
        assert xs[i] == p[i];
      }
      if exists i :: 0 <= i < |xs| && u in f(xs[i]) {
        var i :| 0 <= i < |xs| && u in f(xs[i]);
        if i < n {
          assert p[i] == xs[i];
        }
      }
    }
  }

  lemma GatherSnoc<T, U>(xs: seq<T>, f: T -> seq<U>, i: nat)
    requires i < |xs|
    ensures Gather(xs[..i + 1], f) == Gather(xs[..i], f) + f(xs[i])
  {
    assert xs[..i + 1][..i] == xs[..i];
  }

  function RowsFn(minAliases: int, specific: Option<string>): seq<string> -> seq<CharRecord> {
    row => RowRecords(row, minAliases, specific)
  }

  /** The records of the kept rows, in file order. */
  function Collect(rows: seq<seq<string>>, minAliases: int, specific: Option<string>): seq<CharRecord> {
    Gather(rows, RowsFn(minAliases, specific))
  }

  /**
   * `process_unicode_data` on the file's rows: the first row is the header;
   * a file without one makes `next(reader)` raise, which is `None`.
   */
  function ProcessUnicodeData(rows: seq<seq<string>>, minAliases: int, specific: Option<string>): Option<seq<CharRecord>> {
    if rows == [] then None
    else
      var kept := Collect(rows[1..], minAliases, specific);
      Some(if Truthy(specific) then kept else SortByCount(kept))
  }

  /** The loop of `process_unicode_data`, proved to compute `ProcessUnicodeData`. */
  method ProcessRows(rows: seq<seq<string>>, minAliases: int, specific: Option<string>) returns (r: Option<seq<CharRecord>>)
    ensures r == ProcessUnicodeData(rows, minAliases, specific)
  {
    if |rows| == 0 {
      return None;
    }
    var body := rows[1..];
    var kept: seq<CharRecord> := [];
    var i := 0;
    while i < |body|
      invariant 0 <= i <= |body|
      invariant kept == Collect(body[..i], minAliases, specific)
    {
      GatherSnoc(body, RowsFn(minAliases, specific), i);
      var row := body[i];
      if |row| >= 6 {
        var aliases := NonBlank(row[5..]);
        var count := |aliases|;
        if (Truthy(specific) && Upper(row[0]) == Upper(specific.value)) || (count > minAliases && !Truthy(specific)) {
          kept := kept + [CharRecord(row[0], row[1], row[2], row[3], row[4], count, aliases)];
        }
      }
      i := i + 1;
    }
    assert body[..i] == body;
    if !Truthy(specific) {
      kept := SortByCount(kept);
    }
    return Some(kept);
  }

  lemma CollectMembers(rows: seq<seq<string>>, minAliases: int, specific: Option<string>, c: CharRecord)
    ensures c in Collect(rows, minAliases, specific) <==>
      exists i :: 0 <= i < |rows| && Selected(rows[i], minAliases, specific) && RecordOf(rows[i]) == c
  {
    GatherMembers(rows, RowsFn(minAliases, specific), c);
  }

  /** A file with no header row fails, and the header is never a record: only the rows after it count. */
  lemma HeaderConsumed(header1: seq<string>, header2: seq<string>, body: seq<seq<string>>, minAliases: int, specific: Option<string>)
    ensures ProcessUnicodeData([], minAliases, specific) == None
    ensures ProcessUnicodeData([header1] + body, minAliases, specific) == ProcessUnicodeData([header2] + body, minAliases, specific)
  {
    assert ([header1] + body)[1..] == body;
    assert ([header2] + body)[1..] == body;
  }

  /** A row of fewer than six cells adds nothing. */
  lemma ShortRowSkipped(rows: seq<seq<string>>, row: seq<string>, minAliases: int, specific: Option<string>)
    requires |row| < 6
    ensures Collect(rows + [row], minAliases, specific) == Collect(rows, minAliases, specific)
  {
    GatherSnoc(rows + [row], RowsFn(minAliases, specific), |rows|);
    assert (rows + [row])[..|rows|] == rows && (rows + [row])[..|rows| + 1] == rows + [row];
  }

  /**
   * The result holds exactly the records of the selected data rows. Without
   * a code point that is the rows with more than `minAliases` aliases,
   * ranked by alias count with ties in file order; with one it is the rows
   * whose code point matches case-insensitively, whatever their count, in
   * file order.
   */
  lemma ProcessCorrect(rows: seq<seq<string>>, minAliases: int, specific: Option<string>, c: CharRecord)
    requires rows != []
    ensures var r := ProcessUnicodeData(rows, minAliases, specific).value;
      c in r <==> exists i :: 1 <= i < |rows| && Selected(rows[i], minAliases, specific) && RecordOf(rows[i]) == c
    ensures var r := ProcessUnicodeData(rows, minAliases, specific).value;
      !Truthy(specific) ==> SortedByCount(r) && forall n: nat :: WithCount(r, n) == WithCount(Collect(rows[1..], minAliases, specific), n)
    ensures Truthy(specific) ==> ProcessUnicodeData(rows, minAliases, specific).value == Collect(rows[1..], minAliases, specific)
  {
    var body := rows[1..];
    var kept := Collect(body, minAliases, specific);
    CollectMembers(body, minAliases, specific, c);
    if !Truthy(specific) {
      SortPermutes(kept);
      SortSorted(kept);
      forall n: nat
        ensures WithCount(SortByCount(kept), n) == WithCount(kept, n)
      {
        SortStable(kept, n);
      }
      assert c in SortByCount(kept) <==> c in kept by {
        assert c in multiset(SortByCount(kept)) <==> c in multiset(kept);
      }
    }
    if c in kept {
      var i :| 0 <= i < |body| && Selected(body[i], minAliases, specific) && RecordOf(body[i]) == c;
      assert rows[i + 1] == body[i];
    }
    if exists i :: 1 <= i < |rows| && Selected(rows[i], minAliases, specific) && RecordOf(rows[i]) == c {
      var i :| 1 <= i < |rows| && Selected(rows[i], minAliases, specific) && RecordOf(rows[i]) == c;
      assert body[i - 1] == rows[i];
    }
  }

  /** Every record counts its aliases, which are all non-blank cells from the sixth on; without a code point the count exceeds `minAliases`. */
  lemma RecordsWellFormed(rows: seq<seq<string>>, minAliases: int, specific: Option<string>, c: CharRecord)
    requires rows != [] && c in ProcessUnicodeData(rows, minAliases, specific).value
    ensures c.aliasCount == |c.aliases|
    ensures forall a :: a in c.aliases ==> Strip(a) != []
    ensures !Truthy(specific) ==> c.aliasCount > minAliases
    ensures Truthy(specific) ==> Upper(c.codePoint) == Upper(specific.value)
  {
    ProcessCorrect(rows, minAliases, specific, c);
    var i :| 1 <= i < |rows| && Selected(rows[i], minAliases, specific) && RecordOf(rows[i]) == c;
    forall a | a in c.aliases
      ensures Strip(a) != []
    {
      NonBlankMembers(rows[i][5..], a);
    }
  }
}
