/**
 * setup_dataset's `main`: both downloads must succeed, then both parses,
 * before the writer for the chosen format runs. The downloads are
 * parameters holding the fetched files' lines, or `None` when
 * `download_file` failed. The writers produce the same contents as
 * unifill-datafetch's.
 */
module SetupDataset {
  import opened Wrappers
  import opened OrderedDict
  import opened UnicodeDataFile
  import opened NameAliasesFile
  import DatafetchExporter

  /** The `--format` choices. */
  datatype Format = CsvFormat | JsonFormat | LuaFormat

  /** The script's own `OUTPUT_FILES`. */
  function OutputFile(f: Format): string {
    match f
    case CsvFormat => "unicode_characters_table.csv"
    case JsonFormat => "unicode_characters_table.json"
    case LuaFormat => "unicode_data.lua"
  }

  function FormatName(f: Format): string {
    match f
    case CsvFormat => "csv"
    case JsonFormat => "json"
    case LuaFormat => "lua"
  }

  /** Either `main` returned early, or it ran the writer, which may have written nothing. */
  datatype Run = Aborted | Ran(outputFilename: string, written: Option<DatafetchExporter.Output>)

  /** The writer for `f`: nothing on empty data. */
  function Write(f: Format, ud: Assoc<CharInfo>, aliases: Assoc<seq<string>>): Option<DatafetchExporter.Output> {
    if ud == [] then None else Some(DatafetchExporter.Content(FormatName(f), ud, aliases))
  }

  /** What `main` does with the downloaded files. */
  function Main(f: Format, unicodeDownload: Option<seq<string>>, aliasesDownload: Option<seq<string>>): Run {
    if unicodeDownload.None? || aliasesDownload.None? then Aborted
    else
      var unicodeCharInfo := ParseUnicodeData(unicodeDownload.value, false);
      var aliasesInfo := ParseNameAliases(aliasesDownload.value);
      if unicodeCharInfo.None? then Aborted
      else Ran(OutputFile(f), Write(f, unicodeCharInfo.value, aliasesInfo))
  }

  /** `main`'s early returns and its parses, proved to compute `Main`. */
  method RunMain(f: Format, unicodeDownload: Option<seq<string>>, aliasesDownload: Option<seq<string>>) returns (r: Run)
    ensures r == Main(f, unicodeDownload, aliasesDownload)
  {
    if !(unicodeDownload.Some? && aliasesDownload.Some?) {
      return Aborted;
    }
    var unicodeCharInfo := ParseUnicodeDataLines(unicodeDownload.value, false);
    var aliasesInfo := ParseNameAliasesLines(aliasesDownload.value);
    if unicodeCharInfo.None? {
      return Aborted;
    }
    var written: Option<DatafetchExporter.Output> := None;
    if unicodeCharInfo.value != [] {
      written := Some(DatafetchExporter.Content(FormatName(f), unicodeCharInfo.value, aliasesInfo));
    }
    return Ran(OutputFile(f), written);
  }

  /** Nothing is written unless both downloads succeed and `UnicodeData.txt` parses. */
  lemma AbortRule(f: Format, unicodeDownload: Option<seq<string>>, aliasesDownload: Option<seq<string>>)
    ensures Main(f, unicodeDownload, aliasesDownload).Aborted? <==>
      unicodeDownload.None? || aliasesDownload.None? || ParseUnicodeData(unicodeDownload.value, false).None?
  {
  }

  /**
   * An empty parse is not an abort: the writer runs and writes nothing. A
   * non-empty one is written, under the script's own file name, with
   * unifill-datafetch's content for that format.
   */
  lemma WrittenRule(f: Format, unicodeDownload: Option<seq<string>>, aliasesDownload: Option<seq<string>>)
    requires Main(f, unicodeDownload, aliasesDownload).Ran?
    ensures var r := Main(f, unicodeDownload, aliasesDownload);
      var ud := ParseUnicodeData(unicodeDownload.value, false).value;
      && r.outputFilename == OutputFile(f)
      && (r.written.None? <==> ud == [])
      && (r.written.Some? ==> r.written.value == DatafetchExporter.Content(FormatName(f), ud, ParseNameAliases(aliasesDownload.value)))
  {
  }

  /** The three output files have distinct names, and only the Lua one is shared with unifill-datafetch. */
  lemma OutputFilesDistinct(f: Format, g: Format)
    ensures f != g ==> OutputFile(f) != OutputFile(g)
    ensures OutputFile(f) == DatafetchExporter.OutputFile(FormatName(f)).value <==> f == LuaFormat
  {
    if f == LuaFormat {
      assert DatafetchExporter.OutputFile("lua") == Some("unicode_data.lua");
    } else if f == CsvFormat {
      assert OutputFile(f)[8] != DatafetchExporter.OutputFile("csv").value[8];
    } else {
      assert OutputFile(f)[8] != DatafetchExporter.OutputFile("json").value[8];
    }
    if f != g {
      assert OutputFile(f) != OutputFile(g) by {
        if OutputFile(f)[|OutputFile(f)| - 1] == OutputFile(g)[|OutputFile(g)| - 1] {
          assert {f, g} == {CsvFormat, LuaFormat} || {f, g} == {CsvFormat, JsonFormat} || {f, g} == {JsonFormat, LuaFormat};
        }
      }
    }
  }
}
