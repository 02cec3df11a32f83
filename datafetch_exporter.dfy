/**
 * unifill-datafetch's exporter: the same four files as glyph-catcher's
 * without the `block` field, Lua names and aliases escaped for `"` only,
 * writers that report success, and an `export_data` that returns only the
 * paths of the files actually written. setup_dataset's writers produce the
 * same contents. Whether opening an output file fails is a parameter: the
 * set of paths that cannot be written.
 */
module DatafetchExporter {
  import opened Wrappers
  import opened Text
  import opened OrderedDict
  import opened UnicodeDataFile
  import opened LuaEscape
  import opened CsvOutput
  import opened JsonOutput

  // ---------------------------------------------------------------------
  // Text file
  // ---------------------------------------------------------------------

  /** `line_parts` before the aliases: character, name, `U+` code point, category. */
  function TxtFields(cp: string, info: CharInfo): seq<string> {
    [[info.charObj], info.name, "U+" + cp, info.category]
  }

  function TxtAliases(cp: string, aliases: Assoc<seq<string>>): seq<string> {
    if cp in Keys(aliases) then Find(aliases, cp).value else []
  }

  function TxtLine(cp: string, info: CharInfo, aliases: Assoc<seq<string>>): string {
    Join("|", TxtFields(cp, info) + TxtAliases(cp, aliases)) + "\n"
  }

  function TxtLines(ud: Assoc<CharInfo>, aliases: Assoc<seq<string>>): seq<string> {
    seq(|ud|, i requires 0 <= i < |ud| => TxtLine(ud[i].0, ud[i].1, aliases))
  }

  predicate PipeFree(cp: string, info: CharInfo, aliases: Assoc<seq<string>>) {
    && info.charObj != '|' && '|' !in info.name && '|' !in cp && '|' !in info.category
    && forall j :: 0 <= j < |TxtAliases(cp, aliases)| ==> '|' !in TxtAliases(cp, aliases)[j]
  }

  /**
   * Splitting a line without its newline on `|` gives back
   * `[char, name, "U+" + cp, category]` and then the aliases, provided no
   * field contains a `|`.
   */
  lemma TxtLineRoundTrip(cp: string, info: CharInfo, aliases: Assoc<seq<string>>)
    requires PipeFree(cp, info, aliases)
    ensures var line := TxtLine(cp, info, aliases);
      && line[|line| - 1] == '\n'
      && Split(line[..|line| - 1], '|') == TxtFields(cp, info) + GetOr(aliases, cp, [])
  {
    var parts := TxtFields(cp, info) + TxtAliases(cp, aliases);
    var line := TxtLine(cp, info, aliases);
    assert line[..|line| - 1] == Join("|", parts);
    assert forall i :: 0 <= i < |parts| ==> '|' !in parts[i] by {
      assert '|' !in [info.charObj];
      assert forall i :: 4 <= i < |parts| ==> parts[i] == TxtAliases(cp, aliases)[i - 4];
    }
    SplitJoin(parts, '|');
  }

  /** U+007C's own character is a `|`, so its line splits into more pieces than it has fields. */
  lemma VerticalLineLine(cp: string, info: CharInfo, aliases: Assoc<seq<string>>)
    requires info.charObj == '|'
    ensures var line := TxtLine(cp, info, aliases);
      |Split(line[..|line| - 1], '|')| > |TxtFields(cp, info) + TxtAliases(cp, aliases)|
  {
    var parts := TxtFields(cp, info) + TxtAliases(cp, aliases);
    var line := TxtLine(cp, info, aliases);
    assert line[..|line| - 1] == Join("|", parts);
    SplitJoinPieces(parts, '|');
    assert parts[0] == "|";
    assert Count(parts[0], '|') == 1;
  }

  // ---------------------------------------------------------------------
  // CSV file
  // ---------------------------------------------------------------------

  const CSV_COLUMNS: seq<string> := ["code_point", "character", "name", "category"]

  function CsvCells(cp: string, info: CharInfo): seq<string> {
    ["U+" + cp, [info.charObj], info.name, info.category]
  }

  /** `write_csv_output`: `None` and `False` on empty data, otherwise the table. */
  method WriteCsv(ud: Assoc<CharInfo>, aliases: Assoc<seq<string>>) returns (file: Option<seq<seq<string>>>)
    ensures file.None? <==> ud == []
    ensures file.Some? ==> file.value == Table(CSV_COLUMNS, ud, aliases, CsvCells)
  {
    if ud == [] {
      return None;
    }
    var t := BuildTable(CSV_COLUMNS, ud, aliases, CsvCells);
    return Some(t);
  }

  /** Every row has `4 + max_aliases` cells: the four fixed ones, the aliases in order, then `''`. */
  lemma CsvRowShape(ud: Assoc<CharInfo>, aliases: Assoc<seq<string>>, i: nat)
    requires i < |ud|
    ensures var t := Table(CSV_COLUMNS, ud, aliases, CsvCells);
      var w := MaxAliases(Keys(ud), aliases);
      var al := GetOr(aliases, ud[i].0, []);
      && |t| == |ud| + 1
      && |t[0]| == 4 + w && |t[i + 1]| == 4 + w
      && t[0][..4] == ["code_point", "character", "name", "category"]
      && t[i + 1][..4] == ["U+" + ud[i].0, [ud[i].1.charObj], ud[i].1.name, ud[i].1.category]
      && |al| <= w
      && t[i + 1][4..] == al + seq(w - |al|, _ => "")
  {
    TableRows(CSV_COLUMNS, ud, aliases, CsvCells);
    RowShape(CSV_COLUMNS, ud, aliases, CsvCells, i);
    HeaderRowShape(CSV_COLUMNS, MaxAliases(Keys(ud), aliases));
  }

  // ---------------------------------------------------------------------
  // Lua file
  // ---------------------------------------------------------------------

  const LUA_PREAMBLE: string := "-- Auto-generated unicode data module\nreturn {\n"

  function LuaAliasLines(al: seq<string>): string
    decreases |al|
  {
    if al == [] then "" else LuaAliasLines(al[..|al| - 1]) + "      \"" + QuoteEscape(al[|al| - 1]) + "\",\n"
  }

  function LuaAliasesField(al: seq<string>): string {
    if al == [] then "    aliases = {},\n" else "    aliases = {\n" + LuaAliasLines(al) + "    },\n"
  }

  /** One character's table: the character escaped fully, name and aliases for `"` only, the category as it is. */
  function LuaEntry(cp: string, info: CharInfo, aliases: Assoc<seq<string>>): string {
    "  {\n"
    + "    code_point = \"U+" + cp + "\",\n"
    + "    character = \"" + EscapeLuaChar(info.charObj) + "\",\n"
    + "    name = \"" + QuoteEscape(info.name) + "\",\n"
    + "    category = \"" + info.category + "\",\n"
    + LuaAliasesField(GetOr(aliases, cp, []))
    + "  },\n"
  }

  function LuaEntries(ud: Assoc<CharInfo>, aliases: Assoc<seq<string>>): string
    decreases |ud|
  {
    if ud == [] then ""
    else
      var n := |ud| - 1;
      LuaEntries(ud[..n], aliases) + LuaEntry(ud[n].0, ud[n].1, aliases)
  }

  function LuaText(ud: Assoc<CharInfo>, aliases: Assoc<seq<string>>): string {
    LUA_PREAMBLE + LuaEntries(ud, aliases) + "}\n"
  }

  /**
   * The character literal always reads back; a name or alias reads back when
   * it holds no backslash and no line break, which quote-only escaping
   * leaves alone.
   */
  lemma LuaEntryReadsBack(cp: string, info: CharInfo, aliases: Assoc<seq<string>>)
    requires '\\' !in info.name && '\n' !in info.name && '\r' !in info.name
    requires forall j :: 0 <= j < |GetOr(aliases, cp, [])| ==>
      var a := GetOr(aliases, cp, [])[j]; '\\' !in a && '\n' !in a && '\r' !in a
    ensures LuaUnescape(EscapeLuaChar(info.charObj)) == Some([info.charObj])
    ensures LuaUnescape(QuoteEscape(info.name)) == Some(info.name)
    ensures forall j :: 0 <= j < |GetOr(aliases, cp, [])| ==>
      LuaUnescape(QuoteEscape(GetOr(aliases, cp, [])[j])) == Some(GetOr(aliases, cp, [])[j])
  {
    UnescapeChar(info.charObj);
    QuoteEscapeRoundTrip(info.name);
    forall j | 0 <= j < |GetOr(aliases, cp, [])|
      ensures LuaUnescape(QuoteEscape(GetOr(aliases, cp, [])[j])) == Some(GetOr(aliases, cp, [])[j])
    {
      QuoteEscapeRoundTrip(GetOr(aliases, cp, [])[j]);
    }
  }

  // ---------------------------------------------------------------------
  // export_data
  // ---------------------------------------------------------------------

  datatype Output = Csv(rows: seq<seq<string>>) | Json(entries: seq<JsonEntry>) | Lua(text: string) | Txt(lines: seq<string>)

  /** The content of the file for `fmt`, once the writer has decided to write. Anything but csv, json and txt is Lua. */
  function Content(fmt: string, ud: Assoc<CharInfo>, aliases: Assoc<seq<string>>): Output {
    if fmt == "csv" then Csv(Table(CSV_COLUMNS, ud, aliases, CsvCells))
    else if fmt == "json" then Json(Entries(ud, aliases, false))
    else if fmt == "txt" then Txt(TxtLines(ud, aliases))
    else Lua(LuaText(ud, aliases))
  }

  /** A writer succeeds, and writes its file, when there is data and its file can be opened. */
  predicate Succeeds(ud: Assoc<CharInfo>, path: string, unwritable: set<string>) {
    ud != [] && path !in unwritable
  }

  /** `OUTPUT_FILES` of the package's configuration. */
  function OutputFile(fmt: string): Option<string> {
    if fmt == "csv" then Some("unicode_data.csv")
    else if fmt == "json" then Some("unicode_data.json")
    else if fmt == "lua" then Some("unicode_data.lua")
    else if fmt == "txt" then Some("unicode_data.txt")
    else None
  }

  function Formats(formatType: string): seq<string> {
    if formatType == "all" then ["csv", "json", "lua", "txt"] else [formatType]
  }

  datatype ExportOptions = ExportOptions(formatType: string, outputDir: string)

  /** The paths and files after the given formats; `None` once a format has no `OUTPUT_FILES` entry (`KeyError`). */
  function ExportRun(fs: seq<string>, dir: string, ud: Assoc<CharInfo>, aliases: Assoc<seq<string>>, unwritable: set<string>)
    : Option<(seq<string>, seq<(string, Output)>)>
    decreases |fs|
  {
    if fs == [] then Some(([], []))
    else
      var n := |fs| - 1;
      match ExportRun(fs[..n], dir, ud, aliases, unwritable)
      case None => None
      case Some((paths, files)) =>
        match OutputFile(fs[n])
        case None => None
        case Some(name) =>
          var path := PathJoin(dir, name);
          if Succeeds(ud, path, unwritable) then Some((paths + [path], files + [(path, Content(fs[n], ud, aliases))]))
          else Some((paths, files))
  }

  /** The loop of `export_data`, proved to compute `ExportRun`: `None` stands for the `KeyError` it raises. */
  method ExportData(ud: Assoc<CharInfo>, aliases: Assoc<seq<string>>, options: ExportOptions, unwritable: set<string>)
    returns (r: Option<(seq<string>, seq<(string, Output)>)>)
    ensures r == ExportRun(Formats(options.formatType), options.outputDir, ud, aliases, unwritable)
  {
    var formats := Formats(options.formatType);
    var outputFiles: seq<string> := [];
    var written: seq<(string, Output)> := [];
    var i := 0;
    while i < |formats|
      invariant 0 <= i <= |formats|
      invariant ExportRun(formats[..i], options.outputDir, ud, aliases, unwritable) == Some((outputFiles, written))
    {
      assert formats[..i + 1][..i] == formats[..i];
      var name := OutputFile(formats[i]);
      if name.None? {
        ErrorSticks(formats, i + 1, options.outputDir, ud, aliases, unwritable);
        return None;
      }
      var outputFilename := PathJoin(options.outputDir, name.value);
      var success := Succeeds(ud, outputFilename, unwritable);
      if success {
        written := written + [(outputFilename, Content(formats[i], ud, aliases))];
        outputFiles := outputFiles + [outputFilename];
      }
      i := i + 1;
    }
    assert formats[..i] == formats;
    return Some((outputFiles, written));
  }

  lemma {:induction false} ErrorSticks(fs: seq<string>, i: nat, dir: string, ud: Assoc<CharInfo>, aliases: Assoc<seq<string>>, unwritable: set<string>)
    requires i <= |fs| && ExportRun(fs[..i], dir, ud, aliases, unwritable).None?
    ensures ExportRun(fs, dir, ud, aliases, unwritable).None?
    decreases |fs| - i
  {
    if i < |fs| {
      assert fs[..i + 1][..i] == fs[..i];
      ErrorSticks(fs, i + 1, dir, ud, aliases, unwritable);
    } else {
      assert fs[..i] == fs;
    }
  }

  /** The paths `OUTPUT_FILES` gives the formats, inside `dir`. */
  function PathsFor(dir: string, fs: seq<string>): seq<string>
    requires forall i :: 0 <= i < |fs| ==> OutputFile(fs[i]).Some?
  {
    seq(|fs|, i requires 0 <= i < |fs| => PathJoin(dir, OutputFile(fs[i]).value))
  }

  /** When every format is known nothing is raised, and the paths returned are those whose writer succeeds, in order. */
  lemma {:induction false} ExportKnown(fs: seq<string>, dir: string, ud: Assoc<CharInfo>, aliases: Assoc<seq<string>>, unwritable: set<string>)
    requires forall i :: 0 <= i < |fs| ==> OutputFile(fs[i]).Some?
    ensures ExportRun(fs, dir, ud, aliases, unwritable).Some?
    ensures ExportRun(fs, dir, ud, aliases, unwritable).value.0 == Kept(ud, PathsFor(dir, fs), unwritable)
    decreases |fs|
  {
    if fs != [] {
      var n := |fs| - 1;
      ExportKnown(fs[..n], dir, ud, aliases, unwritable);
      assert PathsFor(dir, fs)[..n] == PathsFor(dir, fs[..n]);
    }
  }

  /** For `'all'` nothing is raised, and a path is returned exactly for each file written, in csv, json, lua, txt order. */
  lemma ExportAll(ud: Assoc<CharInfo>, aliases: Assoc<seq<string>>, dir: string, unwritable: set<string>)
    ensures var r := ExportRun(Formats("all"), dir, ud, aliases, unwritable);
      && r.Some?
      && r.value.0 == Kept(ud, [PathJoin(dir, "unicode_data.csv"), PathJoin(dir, "unicode_data.json"),
                                PathJoin(dir, "unicode_data.lua"), PathJoin(dir, "unicode_data.txt")], unwritable)
  {
    var fs := Formats("all");
    ExportKnown(fs, dir, ud, aliases, unwritable);
    assert PathsFor(dir, fs) == [PathJoin(dir, "unicode_data.csv"), PathJoin(dir, "unicode_data.json"),
                                 PathJoin(dir, "unicode_data.lua"), PathJoin(dir, "unicode_data.txt")];
  }

  /** The paths among `ps` whose writer succeeds, in order. */
  function Kept(ud: Assoc<CharInfo>, ps: seq<string>, unwritable: set<string>): seq<string>
    decreases |ps|
  {
    if ps == [] then []
    else
      var n := |ps| - 1;
      Kept(ud, ps[..n], unwritable) + (if Succeeds(ud, ps[n], unwritable) then [ps[n]] else [])
  }

  /** A single known format returns its path exactly when its writer succeeds; an unknown one raises. */
  lemma ExportOne(ud: Assoc<CharInfo>, aliases: Assoc<seq<string>>, fmt: string, dir: string, unwritable: set<string>)
    requires fmt != "all"
    ensures var r := ExportRun(Formats(fmt), dir, ud, aliases, unwritable);
      && (r.None? <==> OutputFile(fmt).None?)
      && (r.Some? ==> r.value.0 == (if Succeeds(ud, PathJoin(dir, OutputFile(fmt).value), unwritable)
                                    then [PathJoin(dir, OutputFile(fmt).value)] else []))
  {
    assert Formats(fmt)[..0] == [];
  }

  /** Empty data writes nothing and returns no path, for every format. */
  lemma EmptyExportsNothing(aliases: Assoc<seq<string>>, fs: seq<string>, dir: string, unwritable: set<string>)
    ensures ExportRun(fs, dir, [], aliases, unwritable).Some? ==> ExportRun(fs, dir, [], aliases, unwritable).value == ([], [])
    decreases |fs|
  {
    if fs != [] {
      EmptyExportsNothing(aliases, fs[..|fs| - 1], dir, unwritable);
    }
  }

  /** Every returned path goes with a file written there, and each file is the content for its format. */
  lemma {:induction false} PathsMatchFiles(fs: seq<string>, dir: string, ud: Assoc<CharInfo>, aliases: Assoc<seq<string>>, unwritable: set<string>)
    requires ExportRun(fs, dir, ud, aliases, unwritable).Some?
    ensures var (paths, files) := ExportRun(fs, dir, ud, aliases, unwritable).value;
      && |paths| == |files|
      && (forall i :: 0 <= i < |paths| ==> files[i].0 == paths[i] && paths[i] !in unwritable)
      && |paths| <= |fs|
    decreases |fs|
  {
    if fs != [] {
      PathsMatchFiles(fs[..|fs| - 1], dir, ud, aliases, unwritable);
    }
  }
}
