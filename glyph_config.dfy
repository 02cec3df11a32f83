/**
 * glyph-catcher's configuration: the dataset names, the dataset-to-blocks
 * table and its built-in fallback, and the output file names. Reading
 * `config.yaml` is a parameter: whether PyYAML imports, and what loading
 * the file gave.
 */
module GlyphConfig {
  import opened Wrappers
  import opened OrderedDict
  import UnicodeDataFile
  import GlyphExporter
  import GlyphProcessor
  import UnicodeBlocks

  const DATASET_EVERYDAY: string := "every-day"
  const DATASET_COMPLETE: string := "complete"
  const DATASETS: seq<string> := [DATASET_EVERYDAY, DATASET_COMPLETE]

  /** A `str.format` template with one `{dataset}` field: the text before it and after it. */
  datatype Template = Template(before: string, after: string)

  function Fill(t: Template, dataset: string): string {
    t.before + dataset + t.after
  }

  /** `OUTPUT_FILES`: `"unicode.{dataset}.csv"` and so on. */
  const OUTPUT_FILES: Assoc<Template> := [
    ("csv", Template("unicode.", ".csv")),
    ("json", Template("unicode.", ".json")),
    ("lua", Template("unicode.", ".lua")),
    ("txt", Template("unicode.", ".txt"))
  ]

  /** `get_output_filename`: the table's template when the format is listed, else the same pattern built inline. */
  function GetOutputFilename(formatType: string, dataset: string): string {
    var t := Find(OUTPUT_FILES, formatType);
    if t.Some? then Fill(t.value, dataset) else "unicode." + dataset + "." + formatType
  }

  /** Each listed template is `unicode.{dataset}.` followed by its own format name. */
  lemma OutputFilesShape(j: nat)
    requires j < |OUTPUT_FILES|
    ensures OUTPUT_FILES[j].1 == Template("unicode.", "." + OUTPUT_FILES[j].0)
  {
    if j == 0 {
      assert ".csv" == "." + "csv";
    } else if j == 1 {
      assert ".json" == "." + "json";
    } else if j == 2 {
      assert ".lua" == "." + "lua";
    } else {
      assert ".txt" == "." + "txt";
    }
  }

  /** Listed or not, every format gets `unicode.<dataset>.<format>`. */
  lemma OutputFilenamePattern(formatType: string, dataset: string)
    ensures GetOutputFilename(formatType, dataset) == "unicode." + dataset + "." + formatType
  {
    var d := OUTPUT_FILES;
    if Find(d, formatType).Some? {
      var j := FindIndex(d, formatType);
      OutputFilesShape(j);
    }
  }

  /** For one dataset, different formats never share a file name. */
  lemma OutputFilenameInjective(f1: string, f2: string, dataset: string)
    requires GetOutputFilename(f1, dataset) == GetOutputFilename(f2, dataset)
    ensures f1 == f2
  {
    OutputFilenamePattern(f1, dataset);
    OutputFilenamePattern(f2, dataset);
    var n := |"unicode." + dataset + "."|;
    assert f1 == GetOutputFilename(f1, dataset)[n..];
    assert f2 == GetOutputFilename(f2, dataset)[n..];
  }

  /** The table used when PyYAML is missing or the file cannot be loaded. */
  const DEFAULT_CONFIG: Assoc<seq<string>> := [(DATASET_EVERYDAY, []), (DATASET_COMPLETE, ["all"])]

  /**
   * What reading `config.yaml` gave: an exception (missing file, bad YAML, or a
   * document that is not a mapping, on which `.get` raises), or a mapping with
   * or without a `datasets` entry.
   */
  datatype YamlLoad = LoadFailed | Loaded(datasets: Option<Assoc<seq<string>>>)

  /** `load_dataset_config`. */
  function LoadDatasetConfig(yamlAvailable: bool, load: YamlLoad): Assoc<seq<string>> {
    if !yamlAvailable then DEFAULT_CONFIG
    else match load
      case LoadFailed => DEFAULT_CONFIG
      case Loaded(datasets) => datasets.GetOr([])
  }

  /** `get_dataset_blocks`: `None` for a dataset the configuration does not list. */
  function GetDatasetBlocks(datasetName: string, yamlAvailable: bool, load: YamlLoad): (r: Option<seq<string>>)
    ensures r.None? <==> datasetName !in Keys(LoadDatasetConfig(yamlAvailable, load))
  {
    Find(LoadDatasetConfig(yamlAvailable, load), datasetName)
  }

  /** Under the fallback, `every-day` has no blocks, `complete` has `["all"]`, and nothing else is a dataset. */
  lemma FallbackBlocks(datasetName: string, yamlAvailable: bool, load: YamlLoad)
    requires !yamlAvailable || load.LoadFailed?
    ensures GetDatasetBlocks(datasetName, yamlAvailable, load) ==
      if datasetName == DATASET_EVERYDAY then Some([])
      else if datasetName == DATASET_COMPLETE then Some(["all"])
      else None
  {
    var d := DEFAULT_CONFIG;
    assert LoadDatasetConfig(yamlAvailable, load) == d;
    assert |DATASET_EVERYDAY| != |DATASET_COMPLETE|;
    if datasetName == DATASET_EVERYDAY {
      assert d[0].0 == datasetName;
    } else if datasetName == DATASET_COMPLETE {
      var rest := d[1..];
      assert d[0].0 != datasetName && rest == [(DATASET_COMPLETE, ["all"])];
      assert Find(rest, datasetName) == Some(["all"]);
    } else {
      assert datasetName !in Keys(d);
    }
  }

  /** The fallback lists exactly the datasets of `DATASETS`, in that order. */
  lemma FallbackListsDatasets()
    ensures Keys(DEFAULT_CONFIG) == DATASETS
    ensures DistinctKeys(DEFAULT_CONFIG)
  {
  }

  /** A loaded file without a `datasets` entry defines no dataset at all. */
  lemma NoDatasetsEntry(datasetName: string)
    ensures GetDatasetBlocks(datasetName, true, Loaded(None)) == None
  {
  }

  /** A loaded `datasets` mapping is used as it is, without falling back. */
  lemma LoadedUsedAsIs(datasetName: string, datasets: Assoc<seq<string>>)
    ensures GetDatasetBlocks(datasetName, true, Loaded(Some(datasets))) == Find(datasets, datasetName)
  {
  }

  /**
   * The fallback `every-day` list is empty, and the exporter treats an empty
   * list like no list: the writers see every character.
   */
  lemma EveryDayFallbackKeepsAll(ud: Assoc<UnicodeDataFile.CharInfo>, aliases: Assoc<seq<string>>,
                                 options: GlyphExporter.ExportOptions, yamlAvailable: bool, load: YamlLoad)
    requires !yamlAvailable || load.LoadFailed?
    requires options.unicodeBlocks == GetDatasetBlocks(DATASET_EVERYDAY, yamlAvailable, load)
    ensures GlyphExporter.ExportInputs(ud, aliases, options, (None, None)) == (ud, aliases)
  {
    FallbackBlocks(DATASET_EVERYDAY, yamlAvailable, load);
    GlyphExporter.NoBlocksNoFilter(ud, aliases, options);
  }

  /**
   * The fallback `complete` list is `["all"]`, which the block filter takes
   * as a block name like any other: no parsed character has it, so nothing
   * would be kept.
   */
  lemma CompleteFallbackKeepsNothing(unicodeFile: Option<seq<string>>, aliases: Assoc<seq<string>>,
                                     yamlAvailable: bool, load: YamlLoad, k: string)
    requires !yamlAvailable || load.LoadFailed?
    ensures var blocks := GetDatasetBlocks(DATASET_COMPLETE, yamlAvailable, load);
      k !in Keys(GlyphProcessor.Filtered(GlyphProcessor.UnicodeData(unicodeFile), aliases, blocks).0)
  {
    FallbackBlocks(DATASET_COMPLETE, yamlAvailable, load);
    GlyphProcessor.FilterParsed(unicodeFile, aliases, ["all"], k);
    var ud := GlyphProcessor.UnicodeData(unicodeFile);
    if Find(ud, k).Some? {
      UnicodeBlocks.NoBlockCalledAll(Find(ud, k).value.charObj as int);
    }
  }
}
