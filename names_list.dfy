/**
 * The `NamesList.txt` reader shared by glyph-catcher and unifill-datafetch:
 * a line that does not start with a tab sets (or clears) the current code
 * point, and the tab-indented `=` and `*` lines under it add informative
 * aliases to the upper-cased current code point.
 */
module NamesListFile {
  import opened Wrappers
  import opened Text
  import opened OrderedDict

  /** What a line is, before the current code point is looked at. */
  datatype LineKind =
    | Ignored                        // empty, `@…` or `;…` after stripping
    | Header(code: Option<string>)   // not tab-indented: a new code point, or `None` when there is no tab to split at
    | AliasLine(alias: string)       // tab-indented `= alias`
    | NoteLine(note: string)         // tab-indented `* note` that passes the length and parenthesis filter
    | Other                          // any other tab-indented line, or a filtered-out note

  /** Notes shorter than 50 characters without parentheses are kept. */
  predicate NoteKept(note: string) {
    |note| < 50 && '(' !in note && ')' !in note
  }

  function Classify(line: string): LineKind {
    var t := Strip(line);
    if t == [] || StartsWith(t, "@") || StartsWith(t, ";") then Ignored
    else if !StartsWith(line, "\t") then
      // `t.split('\t', 1)` has two parts exactly when `t` holds a tab.
      var i := IndexOf(t, '\t');
      if i < |t| then Header(Some(Strip(t[..i]))) else Header(None)
    else if '=' in t && StartsWith(LStrip(t), "=") then AliasLine(Strip(LStrip(t)[1..]))
    else if '*' in t && StartsWith(LStrip(t), "*") then
      var note := Strip(LStrip(t)[1..]);
      if NoteKept(note) then NoteLine(note) else Other
    else Other
  }

  function Kinds(lines: seq<string>): (r: seq<LineKind>)
    ensures |r| == |lines|
    ensures forall i :: 0 <= i < |lines| ==> r[i] == Classify(lines[i])
  {
    seq(|lines|, i requires 0 <= i < |lines| => Classify(lines[i]))
  }

  /** Python truthiness of `current_code_point`: neither `None` nor empty. */
  predicate Truthy(cur: Option<string>) {
    cur.Some? && cur.value != []
  }

  /** The current code point, and the appends so far, after reading the given lines. */
  datatype RunState = RunState(current: Option<string>, appends: seq<(string, seq<string>)>)

  function Step(s: RunState, k: LineKind): RunState {
    match k
    case Header(c) => RunState(c, s.appends)
    case AliasLine(a) => if Truthy(s.current) then RunState(s.current, s.appends + [(Upper(s.current.value), [a])]) else s
    case NoteLine(n) => if Truthy(s.current) then RunState(s.current, s.appends + [(Upper(s.current.value), [n])]) else s
    case _ => s
  }

  function Run(kinds: seq<LineKind>): RunState
    decreases |kinds|
  {
    if kinds == [] then RunState(None, [])
    else Step(Run(kinds[..|kinds| - 1]), kinds[|kinds| - 1])
  }

  /** `parse_names_list` on a file's lines. */
  function ParseNamesList(lines: seq<string>): Assoc<seq<string>> {
    ExtendAll([], Run(Kinds(lines)).appends)
  }

  /** The loop of `parse_names_list`, with its `current_code_point`, proved to compute `ParseNamesList`. */
  method ParseNamesListLines(lines: seq<string>) returns (d: Assoc<seq<string>>)
    ensures d == ParseNamesList(lines)
  {
    var kinds := Kinds(lines);
    var current: Option<string> := None;
    d := [];
    var i := 0;
    while i < |kinds|
      invariant 0 <= i <= |kinds|
      invariant Run(kinds[..i]).current == current
      invariant d == ExtendAll([], Run(kinds[..i]).appends)
    {
      RunSnoc(kinds, i);
      ghost var before := Run(kinds[..i]);
      match kinds[i] {
        case Header(c) =>
          current := c;
        case AliasLine(a) =>
          if Truthy(current) {
            ExtendAllSnoc([], before.appends, (Upper(current.value), [a]));
            d := Extend(d, Upper(current.value), [a]);
          }
        case NoteLine(n) =>
          if Truthy(current) {
            ExtendAllSnoc([], before.appends, (Upper(current.value), [n]));
            d := Extend(d, Upper(current.value), [n]);
          }
        case Ignored =>
        case Other =>
      }
      i := i + 1;
    }
    assert kinds[..i] == kinds;
  }

  lemma RunSnoc(kinds: seq<LineKind>, i: nat)
    requires i < |kinds|
    ensures Run(kinds[..i + 1]) == Step(Run(kinds[..i]), kinds[i])
  {
    assert kinds[..i + 1][..i] == kinds[..i];
  }

  /** Every append made so far is keyed by an upper-cased code point. */
  lemma {:induction false} AppendKeysUpper(kinds: seq<LineKind>)
    ensures forall j :: 0 <= j < |Run(kinds).appends| ==> Upper(Run(kinds).appends[j].0) == Run(kinds).appends[j].0
    decreases |kinds|
  {
    if kinds != [] {
      var n := |kinds| - 1;
      AppendKeysUpper(kinds[..n]);
      var s := Run(kinds[..n]);
      if Truthy(s.current) {
        UpperIdempotent(s.current.value);
      }
    }
  }

  /** Every key of the result is upper-case, so it matches the keys of `UnicodeData.txt`. */
  lemma KeysUpper(lines: seq<string>, k: string)
    requires k in Keys(ParseNamesList(lines))
    ensures Upper(k) == k
  {
    var apps := Run(Kinds(lines)).appends;
    ExtendAllHasKey([], apps, k);
    AppendKeysUpper(Kinds(lines));
    var j :| 0 <= j < |apps| && Keys(apps)[j] == k;
  }

  /** The result never repeats a key. */
  lemma KeysDistinct(lines: seq<string>)
    ensures DistinctKeys(ParseNamesList(lines))
  {
    ExtendAllDistinct([], Run(Kinds(lines)).appends);
  }

  /** Empty, `@` and `;` lines are ignored and change nothing. */
  lemma SkippedLines(line: string)
    requires Strip(line) == [] || StartsWith(Strip(line), "@") || StartsWith(Strip(line), ";")
    ensures Classify(line) == Ignored
    ensures forall s :: Step(s, Classify(line)) == s
  {
  }

  /** A header line with no tab in it clears the current code point. */
  lemma HeaderWithoutTabResets(line: string, s: RunState)
    requires Strip(line) != [] && !StartsWith(Strip(line), "@") && !StartsWith(Strip(line), ";")
    requires !StartsWith(line, "\t") && '\t' !in Strip(line)
    ensures Classify(line) == Header(None)
    ensures Step(s, Classify(line)) == RunState(None, s.appends)
  {
    var t := Strip(line);
    assert t[..IndexOf(t, '\t')] == t;
  }

  /** Once the current code point is cleared, lines up to the next header add nothing. */
  lemma {:induction false} ClearedIgnoresUntilHeader(kinds: seq<LineKind>, rest: seq<LineKind>)
    requires !Truthy(Run(kinds).current)
    requires forall j :: 0 <= j < |rest| ==> !rest[j].Header?
    ensures Run(kinds + rest) == Run(kinds)
    decreases |rest|
  {
    if rest == [] {
      assert kinds + rest == kinds;
    } else {
      var n := |rest| - 1;
      assert (kinds + rest)[..|kinds + rest| - 1] == kinds + rest[..n];
      ClearedIgnoresUntilHeader(kinds, rest[..n]);
    }
  }

  /** Under a set code point, an `=` line appends its stripped text to the upper-cased code point. */
  lemma EqualsLineAppends(s: RunState, line: string)
    requires StartsWith(line, "\t") && StartsWith(Strip(line), "=") && Truthy(s.current)
    ensures Classify(line) == AliasLine(Strip(Strip(line)[1..]))
    ensures Step(s, Classify(line)).appends == s.appends + [(Upper(s.current.value), [Strip(Strip(line)[1..])])]
  {
    var t := Strip(line);
    assert t[0] == '=';
    assert t != [] && !IsSpace(t[0]);
    assert LStrip(t) == t;
  }

  /** A `*` line is kept exactly when its stripped note is short and has no parentheses. */
  lemma StarLineFilter(line: string)
    requires StartsWith(line, "\t") && StartsWith(Strip(line), "*")
    ensures var note := Strip(Strip(line)[1..]);
      Classify(line) == (if NoteKept(note) then NoteLine(note) else Other)
  {
    var t := Strip(line);
    assert t[0] == '*';
    assert LStrip(t) == t;
    assert !StartsWith(t, "=");
  }

  /** A non-indented line with a tab makes the stripped text before the tab the current code point. */
  lemma HeaderSetsCurrent(line: string, s: RunState)
    requires Strip(line) != [] && !StartsWith(Strip(line), "@") && !StartsWith(Strip(line), ";")
    requires !StartsWith(line, "\t") && '\t' in Strip(line)
    ensures var t := Strip(line);
      Step(s, Classify(line)) == RunState(Some(Strip(t[..IndexOf(t, '\t')])), s.appends)
  {
  }
}
