/**
 * The `UnicodeData.txt` line loop shared by glyph-catcher, unifill-datafetch
 * and setup_dataset: `;`-separated fields, range markers skipped (section
 * 4.2.3 of Unicode Standard Annex #44), invalid code points skipped, and
 * `chr` overflow aborting the whole parse. The three copies differ only in
 * whether the record carries a `block` and in what a failure returns.
 */
module UnicodeDataFile {
  import opened Wrappers
  import opened Text
  import opened OrderedDict
  import opened Seqs
  import UnicodeBlocks

  /** One parsed character: `block` is present only in glyph-catcher's records. */
  datatype CharInfo = CharInfo(name: string, category: string, charObj: char, block: Option<string>)

  /** `data.get('block', 'Unknown Block')`, as glyph-catcher's writers read a record. */
  function BlockOrUnknown(info: CharInfo): string {
    info.block.GetOr(UnicodeBlocks.UNKNOWN_BLOCK)
  }

  /** What one line does to the parse. */
  datatype LineOutcome = Skip | Record(key: string, info: CharInfo) | Abort

  /** The bounds of a C `int`, which `chr` converts its argument to. */
  const INT_MIN: int := -0x8000_0000
  const INT_MAX: int := 0x7FFF_FFFF

  /** `name.startswith('<') and name.endswith(', First>')`, or the same with `', Last>'`. */
  predicate IsRangeMarker(name: string) {
    StartsWith(name, "<") && (EndsWith(name, ", First>") || EndsWith(name, ", Last>"))
  }

  /** The block recorded for code point `n`: looked up when `with_block` is set, absent otherwise. */
  function BlockFor(n: int, withBlock: bool): Option<string> {
    if withBlock then Some(UnicodeBlocks.GetUnicodeBlock(n)) else None
  }

  /**
   * One line of the loop. `int(code_point_hex, 16)` failing and `chr` of a
   * value outside the code space both raise `ValueError`, which skips the
   * line; a value outside a C `int` raises `OverflowError`, which the loop
   * does not catch.
   */
  function UnicodeDataLine(line: string, withBlock: bool): LineOutcome {
    FieldsOutcome(Split(Strip(line), ';'), withBlock)
  }

  /** The same on the line's `;`-separated fields. */
  function FieldsOutcome(fields: seq<string>, withBlock: bool): LineOutcome {
    if |fields| < 3 then Skip
    else if IsRangeMarker(fields[1]) then Skip
    else match ParseIntBase16(fields[0])
      case None => Skip
      case Some(n) =>
        if n < INT_MIN || INT_MAX < n then Abort
        else if !IsScalarValue(n) then Skip
        else
          Record(fields[0], CharInfo(fields[1], fields[2], n as char, BlockFor(n, withBlock)))
  }

  /** The outcome of every line, in file order. */
  function Outcomes(lines: seq<string>, withBlock: bool): (r: seq<LineOutcome>)
    ensures |r| == |lines|
    ensures forall i :: 0 <= i < |lines| ==> r[i] == UnicodeDataLine(lines[i], withBlock)
  {
    seq(|lines|, i requires 0 <= i < |lines| => UnicodeDataLine(lines[i], withBlock))
  }

  /** The loop over outcomes: `data[code_point_hex] = …` per record, `None` once a line aborts. */
  function Fold(outs: seq<LineOutcome>): Option<Assoc<CharInfo>>
    decreases |outs|
  {
    if outs == [] then Some([])
    else
      var n := |outs| - 1;
      match Fold(outs[..n])
      case None => None
      case Some(d) =>
        match outs[n]
        case Skip => Some(d)
        case Abort => None
        case Record(k, info) => Some(Put(d, k, info))
  }

  /** `parse_unicode_data` on a file's lines, before the per-package handling of failure. */
  function ParseUnicodeData(lines: seq<string>, withBlock: bool): Option<Assoc<CharInfo>> {
    Fold(Outcomes(lines, withBlock))
  }

  /**
   * The loop of `parse_unicode_data`, proved to compute `ParseUnicodeData`.
   * Each line's outcome depends on that line alone, so they are computed up
   * front and the loop runs over them.
   */
  method ParseUnicodeDataLines(lines: seq<string>, withBlock: bool) returns (r: Option<Assoc<CharInfo>>)
    ensures r == ParseUnicodeData(lines, withBlock)
  {
    r := FoldOutcomes(Outcomes(lines, withBlock));
  }

  /** The loop body over the outcomes: skip, stop with `None`, or store the entry. */
  method FoldOutcomes(outs: seq<LineOutcome>) returns (r: Option<Assoc<CharInfo>>)
    ensures r == Fold(outs)
  {
    var data: Assoc<CharInfo> := [];
    var i := 0;
    while i < |outs|
      invariant 0 <= i <= |outs|
      invariant Fold(outs[..i]) == Some(data)
    {
      FoldStep(outs, i);
      match outs[i] {
        case Skip =>
        case Abort =>
          AbortSticks(outs, i + 1);
          return None;
        case Record(k, info) =>
          data := Put(data, k, info);
      }
      i := i + 1;
    }
    WholePrefix(outs);
    return Some(data);
  }

  /** One more outcome is one more step of the fold. */
  lemma FoldStep(outs: seq<LineOutcome>, i: nat)
    requires i < |outs|
    ensures Fold(outs[..i + 1]) == match Fold(outs[..i])
      case None => None
      case Some(d) => (match outs[i] case Skip => Some(d) case Abort => None case Record(k, info) => Some(Put(d, k, info)))
  {
    assert outs[..i + 1][..i] == outs[..i];
  }

  /** Once a line has aborted the parse, no later line revives it. */
  lemma {:induction false} AbortSticks(outs: seq<LineOutcome>, i: nat)
    requires i <= |outs| && Fold(outs[..i]) == None
    ensures Fold(outs) == None
    decreases |outs| - i
  {
    if i < |outs| {
      assert outs[..i + 1][..i] == outs[..i];
      AbortSticks(outs, i + 1);
    } else {
      assert outs[..i] == outs;
    }
  }

  /** The result is a dict: a repeated code point overwrites its entry rather than adding one. */
  lemma {:induction false} FoldDistinct(outs: seq<LineOutcome>)
    requires Fold(outs).Some?
    ensures DistinctKeys(Fold(outs).value)
    decreases |outs|
  {
    if outs != [] {
      var n := |outs| - 1;
      FoldDistinct(outs[..n]);
      if outs[n].Record? {
        PutDistinct(Fold(outs[..n]).value, outs[n].key, outs[n].info);
      }
    }
  }

  /** What a stored entry satisfies: the key parses to the character's code point, never a range marker. */
  predicate WellFormed(key: string, info: CharInfo, withBlock: bool) {
    && ParseIntBase16(key) == Some(info.charObj as int)
    && !IsRangeMarker(info.name)
    && info.block == BlockFor(info.charObj as int, withBlock)
  }

  /** A line that records something records a well-formed entry taken from fields 0, 1 and 2. */
  lemma RecordShape(line: string, withBlock: bool)
    ensures UnicodeDataLine(line, withBlock).Record? ==>
      var fields := Split(Strip(line), ';');
      var out := UnicodeDataLine(line, withBlock);
      && |fields| >= 3
      && out.key == fields[0] && out.info.name == fields[1] && out.info.category == fields[2]
      && WellFormed(out.key, out.info, withBlock)
  {
    FieldsShape(Split(Strip(line), ';'), withBlock);
  }

  lemma FieldsShape(fields: seq<string>, withBlock: bool)
    ensures FieldsOutcome(fields, withBlock).Record? ==>
      var out := FieldsOutcome(fields, withBlock);
      && |fields| >= 3
      && out.key == fields[0] && out.info.name == fields[1] && out.info.category == fields[2]
      && WellFormed(out.key, out.info, withBlock)
  {
  }

  /** Records that are all well formed fold into a dict whose entries all are. */
  lemma {:induction false} FoldWellFormed(outs: seq<LineOutcome>, withBlock: bool, k: string)
    requires Fold(outs).Some?
    requires forall i :: 0 <= i < |outs| && outs[i].Record? ==> WellFormed(outs[i].key, outs[i].info, withBlock)
    ensures Find(Fold(outs).value, k).Some? ==> WellFormed(k, Find(Fold(outs).value, k).value, withBlock)
    decreases |outs|
  {
    if outs != [] {
      var n := |outs| - 1;
      assert forall i :: 0 <= i < n ==> outs[..n][i] == outs[i];
      FoldWellFormed(outs[..n], withBlock, k);
      var d := Fold(outs[..n]).value;
      if outs[n].Record? {
        PutFind(d, outs[n].key, outs[n].info, k);
      }
    }
  }

  /** Every entry of a parsed file is well formed. */
  lemma EntriesWellFormed(lines: seq<string>, withBlock: bool, k: string)
    requires ParseUnicodeData(lines, withBlock).Some?
    ensures var d := ParseUnicodeData(lines, withBlock).value;
      Find(d, k).Some? ==> WellFormed(k, Find(d, k).value, withBlock)
  {
    var outs := Outcomes(lines, withBlock);
    forall i | 0 <= i < |outs| && outs[i].Record?
      ensures WellFormed(outs[i].key, outs[i].info, withBlock)
    {
      RecordShape(lines[i], withBlock);
    }
    FoldWellFormed(outs, withBlock, k);
  }

  /** The fold fails exactly when some outcome aborts. */
  lemma {:induction false} FoldFailsIffAbort(outs: seq<LineOutcome>)
    ensures Fold(outs).None? <==> exists i :: 0 <= i < |outs| && outs[i].Abort?
    decreases |outs|
  {
    if outs != [] {
      var n := |outs| - 1;
      FoldFailsIffAbort(outs[..n]);
      ExistsLast(outs, outs[..n], (o: LineOutcome) => o.Abort?);
    }
  }

  /** The parse fails exactly when some line overflows `chr`. */
  lemma FailsIffAbort(lines: seq<string>, withBlock: bool)
    ensures ParseUnicodeData(lines, withBlock).None? <==>
      exists i :: 0 <= i < |lines| && UnicodeDataLine(lines[i], withBlock).Abort?
  {
    var outs := Outcomes(lines, withBlock);
    FoldFailsIffAbort(outs);
    if exists i :: 0 <= i < |outs| && outs[i].Abort? {
      var i :| 0 <= i < |outs| && outs[i].Abort?;
      assert UnicodeDataLine(lines[i], withBlock).Abort?;
    }
  }

  /** Outcome `i` records key `k` and no later outcome does. */
  predicate LastRecordOf(outs: seq<LineOutcome>, i: int, k: string) {
    && 0 <= i < |outs|
    && outs[i].Record? && outs[i].key == k
    && forall j :: i < j < |outs| ==> !(outs[j].Record? && outs[j].key == k)
  }

  /** A key is stored exactly when some outcome records it. */
  lemma FoldLastKeys(outs: seq<LineOutcome>, k: string)
    requires outs != [] && Fold(outs).Some?
    ensures Fold(outs[..|outs| - 1]).Some?
    ensures var n := |outs| - 1;
      k in Keys(Fold(outs).value) <==> k in Keys(Fold(outs[..n]).value) || (outs[n].Record? && outs[n].key == k)
  {
    var n := |outs| - 1;
    var p := outs[..n];
    match outs[n] {
      case Record(key, info) =>
        PutHasKey(Fold(p).value, key, info, k);
      case Skip =>
      case Abort =>
        assert false;
    }
  }

  lemma PutHasKey(d: Assoc<CharInfo>, k0: string, v: CharInfo, k: string)
    ensures k in Keys(Put(d, k0, v)) <==> k in Keys(d) || k == k0
  {
  }

  lemma {:induction false} FoldHasKey(outs: seq<LineOutcome>, k: string)
    requires Fold(outs).Some?
    ensures k in Keys(Fold(outs).value) <==> exists i :: 0 <= i < |outs| && outs[i].Record? && outs[i].key == k
    decreases |outs|
  {
    if outs != [] {
      var n := |outs| - 1;
      FoldLastKeys(outs, k);
      FoldHasKey(outs[..n], k);
      ExistsLast(outs, outs[..n], (o: LineOutcome) => o.Record? && o.key == k);
    }
  }

  /** The stored entry of a key is the one of the last outcome recording it: a later duplicate overwrites. */
  lemma {:induction false} FoldLastRecord(outs: seq<LineOutcome>, k: string)
    requires Fold(outs).Some? && Find(Fold(outs).value, k).Some?
    ensures exists i :: LastRecordOf(outs, i, k) && outs[i].info == Find(Fold(outs).value, k).value
    decreases |outs|
  {
    var n := |outs| - 1;
    var p := outs[..n];
    var d := Fold(p).value;
    var v := Find(Fold(outs).value, k).value;
    if outs[n].Record? && outs[n].key == k {
      PutFind(d, k, outs[n].info, k);
      assert LastRecordOf(outs, n, k);
    } else {
      if outs[n].Record? {
        PutFind(d, outs[n].key, outs[n].info, k);
      }
      assert Find(d, k) == Some(v);
      FoldLastRecord(p, k);
      var i :| LastRecordOf(p, i, k) && p[i].info == v;
      LastRecordExtends(outs, i, k);
    }
  }

  /** A last record of a prefix stays the last one when the next outcome records another key. */
  lemma LastRecordExtends(outs: seq<LineOutcome>, i: int, k: string)
    requires |outs| > 0 && LastRecordOf(outs[..|outs| - 1], i, k)
    requires !(outs[|outs| - 1].Record? && outs[|outs| - 1].key == k)
    ensures LastRecordOf(outs, i, k) && outs[i] == outs[..|outs| - 1][i]
  {
    var p := outs[..|outs| - 1];
    forall j | i < j < |outs|
      ensures !(outs[j].Record? && outs[j].key == k)
    {
      if j < |p| {
        assert outs[j] == p[j];
      }
    }
  }

  /**
   * In a parsed file a key is stored exactly when some line records it, and
   * its entry is the record of the last line with that key.
   */
  lemma EntryFromLastLine(lines: seq<string>, withBlock: bool, k: string)
    requires ParseUnicodeData(lines, withBlock).Some?
    ensures var d := ParseUnicodeData(lines, withBlock).value;
      && (k in Keys(d) <==> exists i :: 0 <= i < |lines| && UnicodeDataLine(lines[i], withBlock).Record? && UnicodeDataLine(lines[i], withBlock).key == k)
      && (Find(d, k).Some? ==> exists i :: LastRecordOf(Outcomes(lines, withBlock), i, k) && UnicodeDataLine(lines[i], withBlock).info == Find(d, k).value)
  {
    var outs := Outcomes(lines, withBlock);
    FoldHasKey(outs, k);
    if Find(Fold(outs).value, k).Some? {
      FoldLastRecord(outs, k);
    }
  }

  /** A line of the file's own shape: at least three `;`-free fields, no surrounding whitespace. */
  predicate FieldLine(line: string, fields: seq<string>) {
    && |fields| >= 3
    && (forall i :: 0 <= i < |fields| ==> ';' !in fields[i])
    && line == Join([';'], fields)
    && (line == [] || (!IsSpace(line[0]) && !IsSpace(line[|line| - 1])))
  }

  /** Splitting such a line gives its fields back. */
  lemma FieldLineSplit(line: string, fields: seq<string>)
    requires FieldLine(line, fields)
    ensures Split(Strip(line), ';') == fields
  {
    SplitStripJoin(line, fields, ';');
  }

  /** A `<…, First>` or `<…, Last>` line is skipped whatever its code point. */
  lemma RangeMarkerSkipped(line: string, fields: seq<string>, withBlock: bool)
    requires FieldLine(line, fields) && IsRangeMarker(fields[1])
    ensures UnicodeDataLine(line, withBlock) == Skip
  {
    FieldLineSplit(line, fields);
  }

  /**
   * Any other line whose first field is the hex of a scalar value records
   * that field as key, fields 1 and 2 as name and category, and the character.
   */
  lemma FieldsRecorded(line: string, fields: seq<string>, n: int, withBlock: bool)
    requires FieldLine(line, fields) && !IsRangeMarker(fields[1])
    requires ParseIntBase16(fields[0]) == Some(n) && IsScalarValue(n)
    ensures UnicodeDataLine(line, withBlock) == Record(fields[0],
      CharInfo(fields[1], fields[2], n as char, BlockFor(n, withBlock)))
  {
    FieldLineSplit(line, fields);
    assert UnicodeDataLine(line, withBlock) == FieldsOutcome(fields, withBlock);
    assert INT_MIN <= n <= INT_MAX;
  }

  /** A first field that is not hexadecimal skips the line without aborting. */
  lemma InvalidCodePointSkipped(line: string, fields: seq<string>, withBlock: bool)
    requires FieldLine(line, fields) && ParseIntBase16(fields[0]).None?
    ensures UnicodeDataLine(line, withBlock) == Skip
  {
    FieldLineSplit(line, fields);
  }

  /** Fewer than three fields skip the line. */
  lemma ShortLineSkipped(line: string, withBlock: bool)
    requires |Split(Strip(line), ';')| < 3
    ensures UnicodeDataLine(line, withBlock) == Skip
  {
  }
}
