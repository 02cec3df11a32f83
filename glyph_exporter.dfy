/**
 * glyph-catcher's exporter: the master-file override and the block filter
 * in front of the writers, what each writer puts in its file, and the loop
 * of `export_data` that collects one output path per format. File contents
 * are values: the text file as its lines, the CSV file as its rows, the JSON
 * file as the list handed to `json.dump`, the Lua file as its text.
 */
module GlyphExporter {
  import opened Wrappers
  import opened Text
  import opened OrderedDict
  import opened UnicodeDataFile
  import opened LuaEscape
  import opened CsvOutput
  import opened JsonOutput
  import GlyphProcessor

  // ---------------------------------------------------------------------
  // Text file
  // ---------------------------------------------------------------------

  /** `line_parts` before the aliases: character, name, `U+` code point, category, block. */
  function TxtFields(cp: string, info: CharInfo): seq<string> {
    [[info.charObj], info.name, "U+" + cp, info.category, BlockOrUnknown(info)]
  }

  /** The aliases `line_parts.extend` adds: the code point's list if it has one. */
  function TxtAliases(cp: string, aliases: Assoc<seq<string>>): seq<string> {
    if cp in Keys(aliases) then Find(aliases, cp).value else []
  }

  /** One line of `write_txt_output`: the parts joined by `|`, then a newline. */
  function TxtLine(cp: string, info: CharInfo, aliases: Assoc<seq<string>>): string {
    Join("|", TxtFields(cp, info) + TxtAliases(cp, aliases)) + "\n"
  }

  /** The text file, line by line in `unicode_data` order; `None` when nothing is written. */
  function TxtFile(ud: Assoc<CharInfo>, aliases: Assoc<seq<string>>): Option<seq<string>> {
    if ud == [] then None
    else Some(seq(|ud|, i requires 0 <= i < |ud| => TxtLine(ud[i].0, ud[i].1, aliases)))
  }

  /** No field of the line contains a `|`. */
  predicate PipeFree(cp: string, info: CharInfo, aliases: Assoc<seq<string>>) {
    && info.charObj != '|' && '|' !in info.name && '|' !in cp && '|' !in info.category
    && '|' !in BlockOrUnknown(info)
    && forall j :: 0 <= j < |TxtAliases(cp, aliases)| ==> '|' !in TxtAliases(cp, aliases)[j]
  }

  /**
   * A line ends in a newline, and splitting the rest on `|` gives back the
   * five fields and then the code point's aliases in order, provided no
   * field contains a `|`.
   */
  lemma TxtLineRoundTrip(cp: string, info: CharInfo, aliases: Assoc<seq<string>>)
    requires PipeFree(cp, info, aliases)
    ensures var line := TxtLine(cp, info, aliases);
      && line[|line| - 1] == '\n'
      && Split(line[..|line| - 1], '|') == TxtFields(cp, info) + GetOr(aliases, cp, [])
  {
    var parts := TxtFields(cp, info) + TxtAliases(cp, aliases);
    var line := TxtLine(cp, info, aliases);
    assert line[..|line| - 1] == Join("|", parts);
    assert forall i :: 0 <= i < |parts| ==> '|' !in parts[i] by {
      assert '|' !in [info.charObj];
      assert forall i :: 5 <= i < |parts| ==> parts[i] == TxtAliases(cp, aliases)[i - 5];
    }
    SplitJoin(parts, '|');
  }

  /**
   * U+007C VERTICAL LINE breaks the format: its character field is itself a
   * `|`, so its line splits into one piece more than it has fields.
   */
  lemma VerticalLineLine(cp: string, info: CharInfo, aliases: Assoc<seq<string>>)
    requires info.charObj == '|'
    ensures var line := TxtLine(cp, info, aliases);
      |Split(line[..|line| - 1], '|')| > |TxtFields(cp, info) + TxtAliases(cp, aliases)|
  {
    var parts := TxtFields(cp, info) + TxtAliases(cp, aliases);
    var line := TxtLine(cp, info, aliases);
    assert line[..|line| - 1] == Join("|", parts);
    SplitJoinPieces(parts, '|');
    assert parts[0] == "|";
    assert Count(parts[0], '|') == 1;
  }

  /** `VERTICAL LINE` itself, as `UnicodeData.txt` lists it. */
  lemma VerticalLineExample()
    ensures var info := CharInfo("VERTICAL LINE", "Sm", '|', Some("Basic Latin"));
      var line := TxtLine("007C", info, []);
      Split(line[..|line| - 1], '|') != TxtFields("007C", info)
  {
    var info := CharInfo("VERTICAL LINE", "Sm", '|', Some("Basic Latin"));
    VerticalLineLine("007C", info, []);
    assert TxtAliases("007C", []) == [];
  }

  // ---------------------------------------------------------------------
  // CSV file
  // ---------------------------------------------------------------------

  const CSV_COLUMNS: seq<string> := ["code_point", "character", "name", "category", "block"]

  /** The fixed cells of a row. */
  function CsvCells(cp: string, info: CharInfo): seq<string> {
    ["U+" + cp, [info.charObj], info.name, info.category, BlockOrUnknown(info)]
  }

  /** The CSV file, header first; `None` when nothing is written. */
  function CsvFile(ud: Assoc<CharInfo>, aliases: Assoc<seq<string>>): Option<seq<seq<string>>> {
    if ud == [] then None else Some(Table(CSV_COLUMNS, ud, aliases, CsvCells))
  }

  /** `write_csv_output`, proved to produce `CsvFile`. */
  method WriteCsv(ud: Assoc<CharInfo>, aliases: Assoc<seq<string>>) returns (file: Option<seq<seq<string>>>)
    ensures file == CsvFile(ud, aliases)
  {
    if ud == [] {
      return None;
    }
    var t := BuildTable(CSV_COLUMNS, ud, aliases, CsvCells);
    return Some(t);
  }

  /**
   * Every row of the CSV file has `5 + max_aliases` cells: the five fixed
   * ones, the code point's aliases in order, then `''`.
   */
  lemma CsvRowShape(ud: Assoc<CharInfo>, aliases: Assoc<seq<string>>, i: nat)
    requires i < |ud|
    ensures CsvFile(ud, aliases).Some?
    ensures var t := CsvFile(ud, aliases).value;
      var w := MaxAliases(Keys(ud), aliases);
      var al := GetOr(aliases, ud[i].0, []);
      && |t| == |ud| + 1
      && |t[0]| == 5 + w && |t[i + 1]| == 5 + w
      && t[i + 1][..5] == ["U+" + ud[i].0, [ud[i].1.charObj], ud[i].1.name, ud[i].1.category, BlockOrUnknown(ud[i].1)]
      && |al| <= w
      && t[i + 1][5..] == al + seq(w - |al|, _ => "")
  {
    TableRows(CSV_COLUMNS, ud, aliases, CsvCells);
    RowShape(CSV_COLUMNS, ud, aliases, CsvCells, i);
    HeaderRowShape(CSV_COLUMNS, MaxAliases(Keys(ud), aliases));
  }

  // ---------------------------------------------------------------------
  // Lua file
  // ---------------------------------------------------------------------

  const LUA_PREAMBLE: string := "-- Auto-generated unicode data module\n-- Generated by glyph-catcher\nreturn {\n"

  /** `"<s>"` with `s` escaped by `escape_lua_string`. */
  function LuaLiteral(s: string): string {
    "\"" + EscapeAll(s) + "\""
  }

  /** The alias lines of a non-empty `aliases` table. */
  function LuaAliasLines(al: seq<string>): string
    decreases |al|
  {
    if al == [] then "" else LuaAliasLines(al[..|al| - 1]) + "      " + LuaLiteral(al[|al| - 1]) + ",\n"
  }

  function LuaAliasesField(al: seq<string>): string {
    if al == [] then "    aliases = {},\n" else "    aliases = {\n" + LuaAliasLines(al) + "    },\n"
  }

  /** The table one character gets in the Lua module. */
  function LuaEntry(cp: string, info: CharInfo, aliases: Assoc<seq<string>>): string {
    "  {\n"
    + "    code_point = \"U+" + cp + "\",\n"
    + "    character = \"" + EscapeLuaChar(info.charObj) + "\",\n"
    + "    name = " + LuaLiteral(info.name) + ",\n"
    + "    category = " + LuaLiteral(info.category) + ",\n"
    + "    block = " + LuaLiteral(BlockOrUnknown(info)) + ",\n"
    + LuaAliasesField(GetOr(aliases, cp, []))
    + "  },\n"
  }

  function LuaEntries(ud: Assoc<CharInfo>, aliases: Assoc<seq<string>>): string
    decreases |ud|
  {
    if ud == [] then ""
    else
      var n := |ud| - 1;
      LuaEntries(ud[..n], aliases) + LuaEntry(ud[n].0, ud[n].1, aliases)
  }

  /** The Lua module; `None` when nothing is written. */
  function LuaFile(ud: Assoc<CharInfo>, aliases: Assoc<seq<string>>): Option<string> {
    if ud == [] then None else Some(LUA_PREAMBLE + LuaEntries(ud, aliases) + "}\n")
  }

  /**
   * Every string literal of a character's table reads back, under Lua's
   * escape rules, as the field it was written from, and none holds a raw
   * control character.
   */
  lemma LuaEntryReadsBack(cp: string, info: CharInfo, aliases: Assoc<seq<string>>)
    ensures LuaUnescape(EscapeLuaChar(info.charObj)) == Some([info.charObj])
    ensures LuaUnescape(EscapeAll(info.name)) == Some(info.name)
    ensures LuaUnescape(EscapeAll(info.category)) == Some(info.category)
    ensures LuaUnescape(EscapeAll(BlockOrUnknown(info))) == Some(BlockOrUnknown(info))
    ensures forall j :: 0 <= j < |GetOr(aliases, cp, [])| ==>
      LuaUnescape(EscapeAll(GetOr(aliases, cp, [])[j])) == Some(GetOr(aliases, cp, [])[j])
    ensures forall i :: 0 <= i < |EscapeAll(info.name)| ==> EscapeAll(info.name)[i] as int >= 32
  {
    UnescapeChar(info.charObj);
    UnescapeEscapeAll(info.name);
    UnescapeEscapeAll(info.category);
    UnescapeEscapeAll(BlockOrUnknown(info));
    NoControlCharacters(info.name);
    forall j | 0 <= j < |GetOr(aliases, cp, [])|
      ensures LuaUnescape(EscapeAll(GetOr(aliases, cp, [])[j])) == Some(GetOr(aliases, cp, [])[j])
    {
      UnescapeEscapeAll(GetOr(aliases, cp, [])[j]);
    }
  }

  /** A character gets the empty `aliases` table exactly when it has no aliases. */
  lemma LuaAliasesEmpty(al: seq<string>)
    ensures al == [] <==> LuaAliasesField(al) == "    aliases = {},\n"
  {
    if al != [] {
      var f := LuaAliasesField(al);
      assert f[15] == '\n';
      assert "    aliases = {},\n"[15] == '}';
    }
  }

  // ---------------------------------------------------------------------
  // export_data
  // ---------------------------------------------------------------------

  /** What a writer leaves in its file. */
  datatype Output = Csv(rows: seq<seq<string>>) | Json(entries: seq<JsonEntry>) | Lua(text: string) | Txt(lines: seq<string>)

  /** The writer `export_data` calls for `fmt`; `None` when none is called or it writes nothing. */
  function Write(fmt: string, ud: Assoc<CharInfo>, aliases: Assoc<seq<string>>): Option<Output> {
    if ud == [] then None
    else if fmt == "csv" then Some(Csv(Table(CSV_COLUMNS, ud, aliases, CsvCells)))
    else if fmt == "json" then Some(Json(Entries(ud, aliases, true)))
    else if fmt == "lua" then Some(Lua(LUA_PREAMBLE + LuaEntries(ud, aliases) + "}\n"))
    else if fmt == "txt" then Some(Txt(TxtFile(ud, aliases).value))
    else None
  }

  datatype ExportOptions = ExportOptions(formatType: string, outputDir: string, unicodeBlocks: Option<seq<string>>,
                                         useMasterFile: bool, masterFilePath: Option<string>)

  /** What `load_master_data_file` returned; it gives `(None, None)` on any failure. */
  type MasterData = (Option<Assoc<CharInfo>>, Option<Assoc<seq<string>>>)

  predicate Truthy<V>(x: Option<Assoc<V>>) {
    x.Some? && x.value != []
  }

  /** Whether the master file is read at all: `use_master_file and master_file_path`. */
  predicate MasterRequested(options: ExportOptions) {
    options.useMasterFile && options.masterFilePath.Some? && options.masterFilePath.value != []
  }

  /** The data the writers see: the master file's maps when both loaded non-empty, then filtered when blocks are given. */
  function ExportInputs(ud: Assoc<CharInfo>, aliases: Assoc<seq<string>>, options: ExportOptions, master: MasterData)
    : (Assoc<CharInfo>, Assoc<seq<string>>)
  {
    var replaced := MasterRequested(options) && Truthy(master.0) && Truthy(master.1);
    var u := if replaced then master.0.value else ud;
    var a := if replaced then master.1.value else aliases;
    if options.unicodeBlocks.Some? && options.unicodeBlocks.value != [] then GlyphProcessor.Filtered(u, a, options.unicodeBlocks)
    else (u, a)
  }

  /** `['csv', 'json', 'lua', 'txt']` for `'all'`, otherwise just the given format. */
  function Formats(formatType: string): seq<string> {
    if formatType == "all" then ["csv", "json", "lua", "txt"] else [formatType]
  }

  function OutputPath(dir: string, fmt: string): string {
    PathJoin(dir, "unicode_data." + fmt)
  }

  /** The returned list: one path per format, whatever the writer did. */
  function ExportPaths(options: ExportOptions): seq<string> {
    var fs := Formats(options.formatType);
    seq(|fs|, i requires 0 <= i < |fs| => OutputPath(options.outputDir, fs[i]))
  }

  /** The files written, format by format. */
  function ExportOutputs(ud: Assoc<CharInfo>, aliases: Assoc<seq<string>>, options: ExportOptions, master: MasterData): seq<Option<Output>> {
    var fs := Formats(options.formatType);
    var (u, a) := ExportInputs(ud, aliases, options, master);
    seq(|fs|, i requires 0 <= i < |fs| => Write(fs[i], u, a))
  }

  /** The loop of `export_data`, proved to return `ExportPaths` and write `ExportOutputs`. */
  method ExportData(ud: Assoc<CharInfo>, aliases: Assoc<seq<string>>, options: ExportOptions, master: MasterData)
    returns (outputFiles: seq<string>, written: seq<Option<Output>>)
    ensures outputFiles == ExportPaths(options)
    ensures written == ExportOutputs(ud, aliases, options, master)
  {
    var unicodeData, aliasesData := ud, aliases;
    if MasterRequested(options) && Truthy(master.0) && Truthy(master.1) {
      unicodeData, aliasesData := master.0.value, master.1.value;
    }
    if options.unicodeBlocks.Some? && options.unicodeBlocks.value != [] {
      unicodeData, aliasesData := GlyphProcessor.FilterByUnicodeBlocks(unicodeData, aliasesData, options.unicodeBlocks);
    }
    assert (unicodeData, aliasesData) == ExportInputs(ud, aliases, options, master);
    var formats := Formats(options.formatType);
    outputFiles, written := [], [];
    var i := 0;
    while i < |formats|
      invariant 0 <= i <= |formats|
      invariant |outputFiles| == |written| == i
      invariant forall j :: 0 <= j < i ==> outputFiles[j] == OutputPath(options.outputDir, formats[j])
      invariant forall j :: 0 <= j < i ==> written[j] == Write(formats[j], unicodeData, aliasesData)
    {
      var fmt := formats[i];
      var outputFilename := OutputPath(options.outputDir, fmt);
      written := written + [Write(fmt, unicodeData, aliasesData)];
      outputFiles := outputFiles + [outputFilename];
      i := i + 1;
    }
  }

  /** `'all'` gives the four files in the order csv, json, lua, txt; any other value gives one. */
  lemma ExportPathsByFormat(options: ExportOptions)
    ensures var d := options.outputDir;
      options.formatType == "all" ==>
        ExportPaths(options) == [OutputPath(d, "csv"), OutputPath(d, "json"), OutputPath(d, "lua"), OutputPath(d, "txt")]
    ensures options.formatType != "all" ==> ExportPaths(options) == [OutputPath(options.outputDir, options.formatType)]
  {
    var ps, d := ExportPaths(options), options.outputDir;
    if options.formatType == "all" {
      assert ps == [OutputPath(d, "csv"), OutputPath(d, "json"), OutputPath(d, "lua"), OutputPath(d, "txt")] by {
        assert |ps| == 4;
        assert ps[0] == OutputPath(d, "csv") && ps[1] == OutputPath(d, "json");
        assert ps[2] == OutputPath(d, "lua") && ps[3] == OutputPath(d, "txt");
      }
    }
  }

  /** Each returned path names `unicode_data.<fmt>` inside the output directory. */
  lemma ExportPathNames(options: ExportOptions, i: nat)
    requires i < |ExportPaths(options)|
    ensures var p := ExportPaths(options)[i];
      var name := "unicode_data." + Formats(options.formatType)[i];
      StartsWith(p, options.outputDir) && |p| >= |name| && p[|p| - |name|..] == name
  {
    var name := "unicode_data." + Formats(options.formatType)[i];
    assert name[0] == 'u';
    PathJoinRelative(options.outputDir, name);
  }

  /** With no characters left to export no file is written, yet every format's path is still returned. */
  lemma EmptyExport(ud: Assoc<CharInfo>, aliases: Assoc<seq<string>>, options: ExportOptions, master: MasterData)
    requires ExportInputs(ud, aliases, options, master).0 == []
    ensures |ExportOutputs(ud, aliases, options, master)| == |ExportPaths(options)| == |Formats(options.formatType)|
    ensures forall i :: 0 <= i < |ExportOutputs(ud, aliases, options, master)| ==> ExportOutputs(ud, aliases, options, master)[i].None?
  {
  }

  /** Unless the master file was requested and both of its maps loaded non-empty, what it gave is ignored. */
  lemma MasterNeedsBoth(ud: Assoc<CharInfo>, aliases: Assoc<seq<string>>, options: ExportOptions, master: MasterData)
    requires !MasterRequested(options) || !Truthy(master.0) || !Truthy(master.1)
    ensures ExportInputs(ud, aliases, options, master) == ExportInputs(ud, aliases, options, (None, None))
  {
  }

  /** When it was requested and both maps loaded non-empty, the arguments are ignored. */
  lemma MasterReplaces(ud: Assoc<CharInfo>, aliases: Assoc<seq<string>>, options: ExportOptions, master: MasterData)
    requires MasterRequested(options) && Truthy(master.0) && Truthy(master.1)
    ensures ExportInputs(ud, aliases, options, master) == ExportInputs(master.0.value, master.1.value, options, (None, None))
  {
  }

  /** Without blocks (`None` or empty) the writers see the data as given. */
  lemma NoBlocksNoFilter(ud: Assoc<CharInfo>, aliases: Assoc<seq<string>>, options: ExportOptions)
    requires options.unicodeBlocks.None? || options.unicodeBlocks.value == []
    ensures ExportInputs(ud, aliases, options, (None, None)) == (ud, aliases)
  {
  }

  /** With blocks, the writers see exactly the characters whose block is listed, and only their aliases. */
  lemma BlocksFilter(ud: Assoc<CharInfo>, aliases: Assoc<seq<string>>, options: ExportOptions, k: string)
    requires options.unicodeBlocks.Some? && options.unicodeBlocks.value != [] && DistinctKeys(ud)
    ensures var (u, a) := ExportInputs(ud, aliases, options, (None, None));
      && (k in Keys(u) <==> k in Keys(ud) && GlyphProcessor.Kept(Find(ud, k).value, options.unicodeBlocks.value))
      && (k in Keys(u) ==> Find(u, k) == Find(ud, k))
      && (k in Keys(a) <==> k in Keys(u) && k in Keys(aliases))
      && (k in Keys(a) ==> Find(a, k) == Find(aliases, k))
  {
    GlyphProcessor.FilterCorrect(ud, aliases, options.unicodeBlocks.value, k);
  }
}
