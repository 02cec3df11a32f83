# unifill data toolchain — a Dafny model

unifill is a Unicode character picker. Its Python toolchain builds the character datasets that the picker searches. The toolchain has three packages:
- glyph-catcher;
- unifill-datafetch, with its stand-alone script `setup_dataset.py`;
- the analysis script `bin/find_many_aliases.py`.

This project models the data core of these packages and proves properties of the model:

- **Unicode Character Database readers**, with the behaviour the three packages share.
  - `UnicodeData.txt`: `;`-separated fields. The `<…, First>` / `<…, Last>` range markers of section 4.2.3 of Unicode Standard Annex #44 are skipped. So are invalid code points. A `chr` overflow aborts the whole parse.
  - `NameAliases.txt`.
  - `NamesList.txt`: a state machine that tracks the current code point across lines.
  - CLDR `<annotation>` elements, reduced to a map from code point to aliases.
- **Alias merging** (formal, then informative under the upper-cased key, then CLDR), and **block filtering** over the half-open range table.
- **Writers** for all three packages:
  - the pipe-delimited text line;
  - the CSV header and padded rows;
  - the list handed to `json.dump`;
  - the Lua module, with its string escaping (section 3.1 of the Lua 5.4 Reference Manual);
  - the `export_data` dispatch loops.
- **Small helpers**:
  - glyph-catcher's configuration: dataset names, the fallback dataset table, output file names;
  - `setup_dataset.main`'s abort rules;
  - the filter, sort, search and alias formatting of `find_many_aliases.py`.

Python dicts preserve insertion order. They are association lists (`OrderedDict.Assoc`):
- `d[k] = v` is `Put`, which replaces the value in place or appends a new key;
- `defaultdict(list)` extends are `Extend`.

File contents are sequences of lines, and `None` stands for a missing or unreadable file. XML annotation elements are records of their attributes and text.

The source loops are `method`s with loop invariants. Each is proved equal to a specification function, and the lemmas state the promised properties about those functions.

The files are:

| file | models |
|---|---|
| `wrappers.dfy`, `seqs.dfy`, `text.dfy`, `ordered_dict.dfy` | `Option`; sequence lemmas; the `str` operations used (`strip`, `split`, `join`, `upper`, `replace`, `int(s, 16)`, `format(n, 'X')`, `:03d`); insertion-ordered dicts |
| `blocks.dfy` | `UNICODE_BLOCKS` and `get_unicode_block` |
| `unicode_data.dfy`, `name_aliases.dfy`, `names_list.dfy`, `cldr.dfy` | the four readers |
| `alias_merge.dfy` | the three `extend` loops |
| `glyph_processor.dfy`, `datafetch_processor.dfy` | each package's `process_data_files`; `filter_by_unicode_blocks` |
| `lua_escape.dfy`, `csv_output.dfy`, `json_output.dfy` | the shared writer pieces |
| `glyph_exporter.dfy`, `datafetch_exporter.dfy` | each package's writers and `export_data` |
| `setup_dataset.dfy`, `find_many_aliases.dfy`, `glyph_config.dfy` | the script, the analysis tool and the configuration |

## Model

| member | source | states |
|---|---|---|
| UnicodeBlocks.FirstMatch | glyph-catcher/src/glyph_catcher/processor.py:60-63 | the loop returns the name of a table range containing the code point, or "Unknown Block" when no range contains it |
| UnicodeBlocks.AscendingDisjoint | glyph-catcher/src/glyph_catcher/processor.py:14-47 | a table of non-empty ranges listed in increasing order has no two overlapping ranges |
| UnicodeBlocks.TableDisjoint | glyph-catcher/src/glyph_catcher/processor.py:14-47 | the ranges of `UNICODE_BLOCKS` are pairwise disjoint |
| UnicodeBlocks.FirstMatchDisjoint | glyph-catcher/src/glyph_catcher/processor.py:60-62 | in a disjoint table the first range that contains a code point is the only one |
| UnicodeBlocks.GetUnicodeBlockCorrect | glyph-catcher/src/glyph_catcher/processor.py:50-63 | the block is the name of the range containing the code point, and "Unknown Block" exactly when none does |
| UnicodeBlocks.NamesKnown | glyph-catcher/src/glyph_catcher/processor.py:14-47 | no range is itself named "Unknown Block" |
| UnicodeBlocks.OrderIndependent | glyph-catcher/src/glyph_catcher/processor.py:60-63 | iterating the same ranges in any order gives the same block |
| UnicodeBlocks.GapStart | glyph-catcher/src/glyph_catcher/processor.py:24-28 | U+0250, just after Latin Extended-B, is in no block |
| UnicodeBlocks.GapEnd | glyph-catcher/src/glyph_catcher/processor.py:24-28 | U+036F, just before Greek and Coptic, is in no block |
| UnicodeBlocks.NamedExamples | glyph-catcher/src/glyph_catcher/processor.py:36-37 | U+2192 is in Arrows and U+0041 is in Basic Latin |
| UnicodeBlocks.NoBlockCalledAll | glyph-catcher/src/glyph_catcher/processor.py:50-63 | no code point's block is `"all"` |
| UnicodeDataFile.ParseUnicodeDataLines | glyph-catcher/src/glyph_catcher/processor.py:80-103 | the line loop computes `ParseUnicodeData`, the fold of the per-line outcomes |
| UnicodeDataFile.FoldOutcomes | glyph-catcher/src/glyph_catcher/processor.py:80-102 | the loop body, which skips a line, stores `data[code_point_hex]` or stops with failure, computes `Fold` |
| UnicodeDataFile.AbortSticks | glyph-catcher/src/glyph_catcher/processor.py:107-109 | once a line has aborted the parse, no later line revives it |
| UnicodeDataFile.FoldDistinct | glyph-catcher/src/glyph_catcher/processor.py:94 | a repeated code point overwrites its entry: the result never repeats a key |
| UnicodeDataFile.RecordShape | glyph-catcher/src/glyph_catcher/processor.py:81-99 | a recording line has at least 3 fields. Key, name and category are fields 0, 1 and 2. The entry is well formed: the key parses to the character's code point, the name is never a range marker, and the block is `get_unicode_block` of the code point when blocks are kept |
| UnicodeDataFile.FieldsShape | unifill-datafetch/src/unifill_datafetch/processor.py:30-48 | the same facts on the `;`-separated fields, with no block in unifill-datafetch's records |
| UnicodeDataFile.FoldWellFormed | glyph-catcher/src/glyph_catcher/processor.py:92-99 | folding only well-formed records leaves only well-formed entries |
| UnicodeDataFile.EntriesWellFormed | unifill-datafetch/src/setup_dataset.py:86-92 | every entry of a parsed file is well formed |
| UnicodeDataFile.FoldFailsIffAbort | glyph-catcher/src/glyph_catcher/processor.py:107-109 | the fold fails if and only if some outcome aborts |
| UnicodeDataFile.FailsIffAbort | unifill-datafetch/src/unifill_datafetch/processor.py:42-58 | the parse fails if and only if some line's code point lies outside a C `int`: `chr` then raises `OverflowError`, which the `ValueError` handler does not catch |
| UnicodeDataFile.FoldHasKey | glyph-catcher/src/glyph_catcher/processor.py:94 | a key is stored if and only if some outcome records it |
| UnicodeDataFile.FoldLastRecord | glyph-catcher/src/glyph_catcher/processor.py:94-99 | the stored entry of a key comes from the last line recording that key |
| UnicodeDataFile.EntryFromLastLine | unifill-datafetch/src/setup_dataset.py:74-95 | in a parsed file a key is present if and only if some line records it, and its entry is that of the last such line |
| UnicodeDataFile.FieldLineSplit | glyph-catcher/src/glyph_catcher/processor.py:81 | `line.strip().split(';')` of a line joined from `;`-free fields without surrounding whitespace gives the fields back |
| UnicodeDataFile.RangeMarkerSkipped | glyph-catcher/src/glyph_catcher/processor.py:87-90 | a `<…, First>` or `<…, Last>` line is skipped whatever its code point |
| UnicodeDataFile.FieldsRecorded | glyph-catcher/src/glyph_catcher/processor.py:83-99 | any other line whose field 0 is the hex of a scalar value records field 0 as key, fields 1 and 2 as name and category, and that character |
| UnicodeDataFile.InvalidCodePointSkipped | unifill-datafetch/src/setup_dataset.py:86-95 | a field 0 that is not hexadecimal skips the line without aborting |
| UnicodeDataFile.ShortLineSkipped | unifill-datafetch/src/setup_dataset.py:75-76 | a line with fewer than 3 fields is skipped |
| NameAliasesFile.ParseNameAliasesLines | glyph-catcher/src/glyph_catcher/processor.py:126-134 | the line loop computes `ParseNameAliases`, one `append` per data line |
| NameAliasesFile.AliasesInFileOrder | glyph-catcher/src/glyph_catcher/processor.py:130-134 | each code point's list is the field-1 values of its lines, in file order |
| NameAliasesFile.CollectedAppends | glyph-catcher/src/glyph_catcher/processor.py:134 | the appends give each key exactly the aliases of its lines, in order |
| NameAliasesFile.KeysOfAppends | glyph-catcher/src/glyph_catcher/processor.py:134 | a key of the appends is one that some line names |
| NameAliasesFile.KeysFromLines | unifill-datafetch/src/unifill_datafetch/processor.py:75-84 | a code point is a key if and only if some data line names it |
| NameAliasesFile.KeysDistinct | unifill-datafetch/src/unifill_datafetch/processor.py:84 | the result is a dict: no key repeats |
| NameAliasesFile.CommentSkipped | glyph-catcher/src/glyph_catcher/processor.py:127-129 | blank lines and `#` lines yield nothing |
| NameAliasesFile.SkippedLineNoEffect | unifill-datafetch/src/setup_dataset.py:113-115 | appending a line that yields nothing leaves the result unchanged |
| NameAliasesFile.FieldsAppended | glyph-catcher/src/glyph_catcher/processor.py:130-134 | a line `cp;alias;…` appends field 1 under field 0 |
| NamesListFile.ParseNamesListLines | glyph-catcher/src/glyph_catcher/processor.py:155-195 | the loop with its `current_code_point` computes `ParseNamesList`, the run of the line classifier |
| NamesListFile.AppendKeysUpper | glyph-catcher/src/glyph_catcher/processor.py:184 | every append is keyed by an upper-cased code point |
| NamesListFile.KeysUpper | glyph-catcher/src/glyph_catcher/processor.py:184-193 | every key of the result is upper case |
| NamesListFile.KeysDistinct | unifill-datafetch/src/unifill_datafetch/processor.py:163 | the result never repeats a key |
| NamesListFile.SkippedLines | glyph-catcher/src/glyph_catcher/processor.py:165-166 | empty, `@` and `;` lines are ignored and change no state |
| NamesListFile.HeaderWithoutTabResets | glyph-catcher/src/glyph_catcher/processor.py:169-178 | a non-indented line with no tab clears the current code point |
| NamesListFile.ClearedIgnoresUntilHeader | glyph-catcher/src/glyph_catcher/processor.py:180-193 | while the current code point is cleared, the lines up to the next header add nothing |
| NamesListFile.EqualsLineAppends | glyph-catcher/src/glyph_catcher/processor.py:180-185 | under a set code point, an indented `=` line appends its text, without the `=` and stripped, under the upper-cased code point |
| NamesListFile.StarLineFilter | glyph-catcher/src/glyph_catcher/processor.py:187-193 | a `*` note is kept if and only if it is shorter than 50 characters and holds neither `(` nor `)` |
| NamesListFile.HeaderSetsCurrent | glyph-catcher/src/glyph_catcher/processor.py:169-174 | a non-indented line with a tab makes the stripped text before the tab the current code point |
| CldrAnnotations.ParseCldrElements | glyph-catcher/src/glyph_catcher/processor.py:222-243 | the element loop computes `ParseCldr` |
| CldrAnnotations.FoldOutcomes | unifill-datafetch/src/unifill_datafetch/processor.py:190-215 | the loop over element outcomes fails if and only if some element fails, and otherwise applies every `extend` in document order |
| CldrAnnotations.TypedIgnored | glyph-catcher/src/glyph_catcher/processor.py:224-225 | elements with a `type` attribute are ignored |
| CldrAnnotations.KeyOfElement | glyph-catcher/src/glyph_catcher/processor.py:228-235 | the key is the upper-case, unpadded hex of the first character of `cp`, and `int(key, 16)` reads it back |
| CldrAnnotations.LetterAKey | glyph-catcher/src/glyph_catcher/processor.py:232 | `'A'` gives `"41"` |
| CldrAnnotations.PiecesRoundTrip | glyph-catcher/src/glyph_catcher/processor.py:238-241 | text made of trimmed `\|`-free pieces joined by `\|` yields exactly those pieces |
| CldrAnnotations.AliasesClean | glyph-catcher/src/glyph_catcher/processor.py:240 | every alias produced is stripped and free of `\|` |
| CldrAnnotations.FailsIffEmptyCp | glyph-catcher/src/glyph_catcher/processor.py:228-249 | the parse fails if and only if some element without `type` has an empty `cp`: `char[0]` raises `IndexError` |
| CldrAnnotations.AliasesInDocumentOrder | glyph-catcher/src/glyph_catcher/processor.py:241 | each key's list is its elements' aliases, concatenated in document order |
| CldrAnnotations.KeysDistinct | unifill-datafetch/src/unifill_datafetch/processor.py:215 | the result never repeats a key |
| CldrAnnotations.KeysOfAppends | glyph-catcher/src/glyph_catcher/processor.py:241 | a key of the extends is one some element with aliases gives |
| CldrAnnotations.KeysFromElements | glyph-catcher/src/glyph_catcher/processor.py:228-241 | every key is the hex of some element's first `cp` character and parses back to it |
| AliasMerge.MergeAliases | unifill-datafetch/src/unifill_datafetch/processor.py:240-267 | the three `extend` loops compute `Merged` with the CLDR part taken only when present |
| AliasMerge.MergedCollects | glyph-catcher/src/glyph_catcher/processor.py:275-290 | each code point's list is its formal aliases, then the informative ones under the upper-cased key, then the CLDR ones, in source order and without deduplication |
| AliasMerge.MergedPerKey | unifill-datafetch/src/unifill_datafetch/processor.py:240-267 | for dicts whose informative keys are upper case: `formal[k] + informative[k] + cldr[k]` |
| AliasMerge.NoCldrNoChange | unifill-datafetch/src/unifill_datafetch/processor.py:257-261 | a missing or empty CLDR map contributes nothing |
| AliasMerge.UpperKeysHas | unifill-datafetch/src/unifill_datafetch/processor.py:249-252 | the informative keys merged are exactly the upper-cased ones |
| AliasMerge.MergedKeys | unifill-datafetch/src/unifill_datafetch/processor.py:242-261 | the merged keys are the union of the formal keys, the upper-cased informative keys and the CLDR keys |
| AliasMerge.MergedDistinct | unifill-datafetch/src/unifill_datafetch/processor.py:267 | the merge never repeats a key |
| AliasMerge.MergedInThreeSteps | glyph-catcher/src/glyph_catcher/processor.py:277-288 | one ordered merge equals three successive `extend` loops |
| GlyphProcessor.ProcessDataFiles | glyph-catcher/src/glyph_catcher/processor.py:264-290 | returns the parsed `unicode_data`, with `{}` on failure, and the merge of the three alias sources. CLDR is parsed only when configured |
| GlyphProcessor.FormalIsDict | glyph-catcher/src/glyph_catcher/processor.py:123-135 | the formal aliases form a dict |
| GlyphProcessor.InformativeIsUpperDict | glyph-catcher/src/glyph_catcher/processor.py:155-195 | the informative aliases form a dict with upper-case keys |
| GlyphProcessor.CldrIsDict | glyph-catcher/src/glyph_catcher/processor.py:215-249 | the CLDR aliases form a dict |
| GlyphProcessor.ProcessedAliases | glyph-catcher/src/glyph_catcher/processor.py:270-290 | each code point's merged list is `NameAliases.txt`, then `NamesList.txt`, then CLDR |
| GlyphProcessor.NoCldrWithoutKey | glyph-catcher/src/glyph_catcher/processor.py:270-272 | without a `cldr_annotations` entry no CLDR alias is merged |
| GlyphProcessor.FilterByUnicodeBlocks | glyph-catcher/src/glyph_catcher/processor.py:309-321 | the filter loop computes `Filtered`, and an empty or missing block list returns both inputs unchanged |
| GlyphProcessor.FindLast | glyph-catcher/src/glyph_catcher/processor.py:318-319 | a lookup in a dict with distinct keys checks the last entry, then the rest |
| GlyphProcessor.FilteredDataFind | glyph-catcher/src/glyph_catcher/processor.py:315-317 | a code point stays, with its entry, if and only if its block is listed |
| GlyphProcessor.FilteredAliasesFind | glyph-catcher/src/glyph_catcher/processor.py:318-319 | aliases stay, unchanged, exactly for the kept code points that have aliases |
| GlyphProcessor.FilterCorrect | glyph-catcher/src/glyph_catcher/processor.py:309-321 | with a non-empty block list, the kept keys are exactly those whose block is listed, entries are unchanged, and aliases are kept only for kept keys |
| GlyphProcessor.ParsedHasBlocks | glyph-catcher/src/glyph_catcher/processor.py:92-99 | parsed entries are a dict, and each entry's block is `get_unicode_block` of its character |
| GlyphProcessor.FilterParsed | glyph-catcher/src/glyph_catcher/processor.py:309-321 | filtering parsed data keeps exactly the code points whose `get_unicode_block` is listed |
| DatafetchProcessor.ProcessDataFiles | unifill-datafetch/src/unifill_datafetch/processor.py:281-308 | `(None, None)` if and only if one of the three UCD files parses to `None` or to an empty dict; otherwise the parsed data and the merge. CLDR never causes failure |
| DatafetchProcessor.CldrFailureAddsNothing | unifill-datafetch/src/unifill_datafetch/processor.py:299-306 | a CLDR file that fails to parse adds no alias |
| DatafetchProcessor.FormalIsDict | unifill-datafetch/src/unifill_datafetch/processor.py:84 | the formal map is a dict |
| DatafetchProcessor.InformativeIsUpperDict | unifill-datafetch/src/unifill_datafetch/processor.py:136-163 | the informative map is a dict with upper-case keys |
| DatafetchProcessor.CldrIsDict | unifill-datafetch/src/unifill_datafetch/processor.py:215 | the CLDR map is a dict |
| DatafetchProcessor.MergedPerCodePoint | unifill-datafetch/src/unifill_datafetch/processor.py:306 | after a successful run each code point's list is formal ++ informative ++ CLDR |
| DatafetchProcessor.EntriesWithoutBlock | unifill-datafetch/src/unifill_datafetch/processor.py:42-48 | unifill-datafetch's entries carry no block, and their key parses to the character's code point |
| LuaEscape.EscapeLuaString | glyph-catcher/src/glyph_catcher/exporter.py:207-222 | the replaces plus the `result +=` loop escape every character exactly as the `character` field escape does |
| LuaEscape.ChainAppend | glyph-catcher/src/glyph_catcher/exporter.py:209-214 | the replace chain distributes over concatenation |
| LuaEscape.ControlAppend | glyph-catcher/src/glyph_catcher/exporter.py:216-221 | the control-character loop distributes over concatenation |
| LuaEscape.ControlPlain | glyph-catcher/src/glyph_catcher/exporter.py:217-221 | the loop leaves text without control characters as it is |
| LuaEscape.ChainOneChar | glyph-catcher/src/glyph_catcher/exporter.py:192-222 | on one character, replaces then loop give the `character` field's escape |
| LuaEscape.ChainThenControl | glyph-catcher/src/glyph_catcher/exporter.py:207-222 | replaces then loop equal the per-character escape on every string |
| LuaEscape.NoControlCharacters | glyph-catcher/src/glyph_catcher/exporter.py:203-221 | escaped text holds no character below 32 |
| LuaEscape.DigitRun | glyph-catcher/src/glyph_catcher/exporter.py:204 | counts the leading decimal digits, at most `max` |
| LuaEscape.DigitRunPad3 | glyph-catcher/src/glyph_catcher/exporter.py:204 | a `:03d` escape is read as exactly three digits |
| LuaEscape.UnescapeOne | glyph-catcher/src/glyph_catcher/exporter.py:192-204 | reading back one escaped character consumes exactly its escape |
| LuaEscape.UnescapeEscapeAll | glyph-catcher/src/glyph_catcher/exporter.py:207-222 | Lua reads the output of `escape_lua_string` back as the input |
| LuaEscape.UnescapeChar | unifill-datafetch/src/unifill_datafetch/exporter.py:137-149 | the escaped `character` field reads back as the character |
| LuaEscape.UnescapeQuoted | unifill-datafetch/src/unifill_datafetch/exporter.py:150 | one quote-escaped character other than `\`, LF or CR reads back |
| LuaEscape.QuoteEscapeRoundTrip | unifill-datafetch/src/unifill_datafetch/exporter.py:150-162 | quote-only escaping reads back for text without backslashes and line breaks |
| LuaEscape.QuoteEscapeBackslash | unifill-datafetch/src/setup_dataset.py:215 | quote-only escaping leaves a backslash alone, so the name `\n` comes back as a line feed, while full escaping reads back correctly |
| CsvOutput.ComputeMaxAliases | glyph-catcher/src/glyph_catcher/exporter.py:97-101 | the `max_aliases` loop computes `MaxAliases` over the `unicode_data` keys |
| CsvOutput.LongestIsBound | glyph-catcher/src/glyph_catcher/exporter.py:99-101 | no listed code point has more aliases than `max_aliases` |
| CsvOutput.LongestIsAttained | glyph-catcher/src/glyph_catcher/exporter.py:99-101 | `max_aliases` is 0 or the length of some listed code point's aliases |
| CsvOutput.GuardRedundant | unifill-datafetch/src/unifill_datafetch/exporter.py:36 | the `if aliases_data` guard changes nothing |
| CsvOutput.AbsentIgnored | unifill-datafetch/src/setup_dataset.py:137-139 | alias lists of code points absent from `unicode_data` do not affect `max_aliases` |
| CsvOutput.BuildHeader | glyph-catcher/src/glyph_catcher/exporter.py:104-106 | the `headers.append` loop builds `HeaderRow` |
| CsvOutput.HeaderRowShape | glyph-catcher/src/glyph_catcher/exporter.py:104-106 | the header is the fixed columns, then `alias_1` … `alias_<max>` |
| CsvOutput.AliasHeadersDistinct | unifill-datafetch/src/unifill_datafetch/exporter.py:42-44 | no two alias columns share a name |
| CsvOutput.Padded | glyph-catcher/src/glyph_catcher/exporter.py:122-123 | exactly `width` alias cells, each the alias at that position or `''` |
| CsvOutput.PadRow | glyph-catcher/src/glyph_catcher/exporter.py:122-123 | the `row.append` loop adds `Padded` to the fixed cells |
| CsvOutput.PaddedKeepsAliases | unifill-datafetch/src/unifill_datafetch/exporter.py:59-60 | when the aliases fit, the alias cells are all of them followed by `''` |
| CsvOutput.Rows | glyph-catcher/src/glyph_catcher/exporter.py:113-124 | one row per character, in `unicode_data` order: its fixed cells, then its padded aliases |
| CsvOutput.BuildTable | glyph-catcher/src/glyph_catcher/exporter.py:104-124 | the header and the row loop build `Table` |
| CsvOutput.TableRows | unifill-datafetch/src/setup_dataset.py:141-160 | the table is the header and then one row per character, with nothing dropped or added |
| CsvOutput.AliasesFit | glyph-catcher/src/glyph_catcher/exporter.py:97-101 | every listed code point's aliases fit in the `max_aliases` columns |
| CsvOutput.RowShape | glyph-catcher/src/glyph_catcher/exporter.py:113-124 | every data row has as many cells as the header: the fixed cells, all of its aliases in order, then `''` |
| JsonOutput.BuildEntries | glyph-catcher/src/glyph_catcher/exporter.py:147-157 | the `json_data.append` loop builds `Entries` |
| JsonOutput.EntryFor | unifill-datafetch/src/unifill_datafetch/exporter.py:89-98 | each code point of `unicode_data` has exactly one entry, with its record and all its aliases |
| GlyphExporter.TxtLineRoundTrip | glyph-catcher/src/glyph_catcher/exporter.py:278-291 | a text line ends in a newline, and splitting the rest on `\|` gives the five fields and then the aliases, provided no field holds a `\|` |
| GlyphExporter.VerticalLineLine | glyph-catcher/src/glyph_catcher/exporter.py:278-291 | U+007C's own character breaks the format: its line splits into more pieces than it has fields |
| GlyphExporter.VerticalLineExample | glyph-catcher/src/glyph_catcher/exporter.py:278-291 | the concrete VERTICAL LINE record shows this |
| GlyphExporter.WriteCsv | glyph-catcher/src/glyph_catcher/exporter.py:92-124 | `write_csv_output` writes nothing on empty data and otherwise the table with the five glyph-catcher columns |
| GlyphExporter.CsvRowShape | glyph-catcher/src/glyph_catcher/exporter.py:113-124 | every row has `5 + max_aliases` cells: the fixed ones, the aliases in order, then `''` |
| GlyphExporter.LuaEntryReadsBack | glyph-catcher/src/glyph_catcher/exporter.py:225-242 | every literal of a character's table reads back as the field it came from, and none holds a control character |
| GlyphExporter.LuaAliasesEmpty | glyph-catcher/src/glyph_catcher/exporter.py:237-245 | a character gets `aliases = {}` if and only if it has no aliases |
| GlyphExporter.ExportData | glyph-catcher/src/glyph_catcher/exporter.py:32-76 | the master-file override, the block filter and the format loop. The result is one path per format, whatever each writer did, plus what each writer wrote |
| GlyphExporter.ExportPathsByFormat | glyph-catcher/src/glyph_catcher/exporter.py:58-62 | `'all'` gives csv, json, lua, txt in that order, and any other value gives one path |
| GlyphExporter.ExportPathNames | glyph-catcher/src/glyph_catcher/exporter.py:62 | every path names `unicode_data.<fmt>` inside the output directory |
| GlyphExporter.EmptyExport | glyph-catcher/src/glyph_catcher/exporter.py:55-76 | with no characters nothing is written, yet every format's path is returned |
| GlyphExporter.MasterNeedsBoth | glyph-catcher/src/glyph_catcher/exporter.py:32-44 | the master file is ignored unless requested and both loaded maps are non-empty |
| GlyphExporter.MasterReplaces | glyph-catcher/src/glyph_catcher/exporter.py:37-39 | otherwise the master data replaces the arguments |
| GlyphExporter.NoBlocksNoFilter | glyph-catcher/src/glyph_catcher/exporter.py:47-49 | without blocks (`None` or empty) the writers see the data as given |
| GlyphExporter.BlocksFilter | glyph-catcher/src/glyph_catcher/exporter.py:47-49 | with blocks, the writers see exactly the listed blocks' characters and only their aliases |
| DatafetchExporter.TxtLineRoundTrip | unifill-datafetch/src/unifill_datafetch/exporter.py:204-216 | splitting a line without its newline on `\|` gives `[char, name, "U+"+cp, category]` and then the aliases, provided no field holds a `\|` |
| DatafetchExporter.VerticalLineLine | unifill-datafetch/src/unifill_datafetch/exporter.py:204-216 | U+007C's character breaks that round trip |
| DatafetchExporter.WriteCsv | unifill-datafetch/src/unifill_datafetch/exporter.py:30-63 | no file and `False` on empty data, otherwise the table with the four unifill-datafetch columns |
| DatafetchExporter.CsvRowShape | unifill-datafetch/src/unifill_datafetch/exporter.py:51-61 | every row has `4 + max_aliases` cells: the fixed ones, the aliases in order, then `''` |
| DatafetchExporter.LuaEntryReadsBack | unifill-datafetch/src/unifill_datafetch/exporter.py:137-163 | the character literal always reads back, and a name or alias reads back when it has no backslash or line break |
| DatafetchExporter.ExportData | unifill-datafetch/src/unifill_datafetch/exporter.py:239-269 | the format loop computes `ExportRun`: a path only for a writer that succeeded, and `None` for the `KeyError` of a format missing from `OUTPUT_FILES` |
| DatafetchExporter.ErrorSticks | unifill-datafetch/src/unifill_datafetch/exporter.py:253 | once a `KeyError` is raised the export fails |
| DatafetchExporter.ExportKnown | unifill-datafetch/src/unifill_datafetch/exporter.py:252-266 | with known formats, the paths returned are those whose writer succeeds, in order |
| DatafetchExporter.ExportAll | unifill-datafetch/src/unifill_datafetch/exporter.py:242-266 | `'all'` never raises, and it returns the successful paths among csv, json, lua, txt from `OUTPUT_FILES`, in that order |
| DatafetchExporter.ExportOne | unifill-datafetch/src/unifill_datafetch/exporter.py:245-266 | a single format returns its path if and only if its writer succeeds, and an unknown one raises |
| DatafetchExporter.EmptyExportsNothing | unifill-datafetch/src/unifill_datafetch/exporter.py:30-32 | empty data writes nothing and returns no path |
| DatafetchExporter.PathsMatchFiles | unifill-datafetch/src/unifill_datafetch/exporter.py:265-266 | every returned path goes with a file written there, and no file is written to an unwritable path |
| SetupDataset.RunMain | unifill-datafetch/src/setup_dataset.py:247-272 | `main`'s early returns, parses and dispatch compute `Main` |
| SetupDataset.AbortRule | unifill-datafetch/src/setup_dataset.py:250-261 | nothing is written unless both downloads succeed and `UnicodeData.txt` parses |
| SetupDataset.WrittenRule | unifill-datafetch/src/setup_dataset.py:264-270 | an empty parse runs the writer, which writes nothing. Otherwise the file gets the script's own name and unifill-datafetch's content for the format |
| SetupDataset.OutputFilesDistinct | unifill-datafetch/src/setup_dataset.py:39-43 | the three output names differ, and only the Lua one is shared with unifill-datafetch's `OUTPUT_FILES` |
| GlyphConfig.OutputFilesShape | glyph-catcher/src/glyph_catcher/config.py:31-36 | each template is `unicode.{dataset}.` followed by its own format |
| GlyphConfig.OutputFilenamePattern | glyph-catcher/src/glyph_catcher/config.py:102-115 | listed or not, every format gets `unicode.<dataset>.<format>` |
| GlyphConfig.OutputFilenameInjective | glyph-catcher/src/glyph_catcher/config.py:113-115 | for one dataset, different formats never share a file name |
| GlyphConfig.GetDatasetBlocks | glyph-catcher/src/glyph_catcher/config.py:88-99 | `None` if and only if the configuration lacks the dataset |
| GlyphConfig.FallbackBlocks | glyph-catcher/src/glyph_catcher/config.py:70-85 | without PyYAML, or when loading fails: `every-day` gets `[]`, `complete` gets `["all"]`, anything else gets `None` |
| GlyphConfig.FallbackListsDatasets | glyph-catcher/src/glyph_catcher/config.py:18-20 | the fallback lists exactly `DATASETS`, `["every-day", "complete"]`, once each |
| GlyphConfig.NoDatasetsEntry | glyph-catcher/src/glyph_catcher/config.py:82 | a file without a `datasets` entry defines no dataset |
| GlyphConfig.LoadedUsedAsIs | glyph-catcher/src/glyph_catcher/config.py:81-82 | a loaded `datasets` mapping is used as it is |
| GlyphConfig.EveryDayFallbackKeepsAll | glyph-catcher/src/glyph_catcher/config.py:70-73 | the fallback `every-day` list is empty, so the exporter keeps every character |
| GlyphConfig.CompleteFallbackKeepsNothing | glyph-catcher/src/glyph_catcher/config.py:72 | the fallback `complete` list `["all"]`, given to the block filter, keeps no parsed character |
| FindManyAliases.Take | bin/find_many_aliases.py:18 | `aliases[:limit]` is the prefix of length `min(limit, len)` |
| FindManyAliases.FormatUnwrapped | bin/find_many_aliases.py:24-33 | the unwrapped branch is taken for a zero width or a short line. It gives four spaces, then the shown aliases joined by `", "`, then the suffix |
| FindManyAliases.Indent | bin/find_many_aliases.py:33 | the four-space indent is a prefix that can be removed again |
| FindManyAliases.SuffixCountsHidden | bin/find_many_aliases.py:17-19 | the suffix appears if and only if a positive limit hides aliases, and its number plus the shown ones is the total |
| FindManyAliases.NoLimitShowsAll | bin/find_many_aliases.py:20-22 | without a positive limit all aliases are shown, with no suffix |
| FindManyAliases.LimitShowsPrefix | bin/find_many_aliases.py:17-18 | a positive limit shows a prefix of at most `limit` aliases, and all of them when they fit |
| FindManyAliases.Normalize | bin/find_many_aliases.py:37-39 | the search key always starts with `U+` |
| FindManyAliases.FindCharacterByCodePoint | bin/find_many_aliases.py:35-44 | `None` if and only if no record matches case-insensitively, and otherwise the first matching record |
| FindManyAliases.NormalizeIdempotent | bin/find_many_aliases.py:37-39 | normalising twice is normalising once |
| FindManyAliases.PrefixOptional | bin/find_many_aliases.py:38-39 | a bare key and the same key with `U+` or `u+` find the same character |
| FindManyAliases.InsertPermutes | bin/find_many_aliases.py:87 | one insertion step keeps the multiset |
| FindManyAliases.InsertSorted | bin/find_many_aliases.py:87 | one insertion step keeps the descending order |
| FindManyAliases.InsertStable | bin/find_many_aliases.py:87 | one insertion step puts the record after those with the same count |
| FindManyAliases.SortSorted | bin/find_many_aliases.py:86-87 | the sort orders records by alias count, highest first |
| FindManyAliases.SortPermutes | bin/find_many_aliases.py:86-87 | the sort is a permutation |
| FindManyAliases.SortStable | bin/find_many_aliases.py:86-87 | the sort is stable: records with equal counts keep file order |
| FindManyAliases.NonBlankMembers | bin/find_many_aliases.py:69 | the aliases are exactly the cells that are non-blank after stripping |
| FindManyAliases.ProcessRows | bin/find_many_aliases.py:48-89 | the row loop and sort compute `ProcessUnicodeData` |
| FindManyAliases.CollectMembers | bin/find_many_aliases.py:57-83 | a record is collected if and only if some selected row gives it |
| FindManyAliases.HeaderConsumed | bin/find_many_aliases.py:54 | a file without a header fails, and the header row never becomes a record |
| FindManyAliases.ShortRowSkipped | bin/find_many_aliases.py:58-59 | a row of fewer than six cells adds nothing |
| FindManyAliases.ProcessCorrect | bin/find_many_aliases.py:72-89 | the result is exactly the selected rows' records. Without a code point these are the rows with more than `min_aliases` aliases (strict), sorted by count with ties in file order. With one they are the rows whose code point matches case-insensitively, in file order |
| FindManyAliases.RecordsWellFormed | bin/find_many_aliases.py:69-83 | each record's count is the number of its non-blank aliases, found from cell 5 onward, and it exceeds `min_aliases` or matches the asked-for code point |
| OrderedDict.Put | glyph-catcher/src/glyph_catcher/processor.py:94 | `d[k] = v` keeps the key order, and adds `k` last when it is new |
| OrderedDict.PutFind | glyph-catcher/src/glyph_catcher/processor.py:94 | after `d[k] = v`, `k` maps to `v` and other keys keep their value |
| OrderedDict.PutDistinct | glyph-catcher/src/glyph_catcher/processor.py:94 | assignment never duplicates a key |
| OrderedDict.Extend | glyph-catcher/src/glyph_catcher/processor.py:241 | `d[k].extend(vs)` on a `defaultdict(list)` adds `k` last when absent |
| OrderedDict.ExtendAllFind | glyph-catcher/src/glyph_catcher/processor.py:278-288 | after a series of extends, a key's list is its old list followed by everything the source gives it, in order |
| OrderedDict.ExtendAllHasKey | glyph-catcher/src/glyph_catcher/processor.py:278-288 | the keys afterwards are the old keys and those the source mentions |
| OrderedDict.ExtendAllDistinct | glyph-catcher/src/glyph_catcher/processor.py:275-290 | extending keeps keys distinct |
| OrderedDict.ExtendAllAppend | glyph-catcher/src/glyph_catcher/processor.py:277-288 | extending by `a`, then by `b`, is extending by `a + b` |
| OrderedDict.CollectedDistinct | glyph-catcher/src/glyph_catcher/processor.py:278-279 | in a dict with distinct keys, collecting a key is looking it up |
| OrderedDict.FindIndex | glyph-catcher/src/glyph_catcher/config.py:113-114 | a found key sits at exactly one index of a dict |
| Text.Strip | glyph-catcher/src/glyph_catcher/processor.py:81 | `str.strip()` leaves no whitespace at either end |
| Text.StripIdempotent | glyph-catcher/src/glyph_catcher/processor.py:240 | stripping twice is stripping once |
| Text.Split | glyph-catcher/src/glyph_catcher/processor.py:81 | `split(';')` gives at least one piece, and no piece holds the separator |
| Text.SplitJoin | glyph-catcher/src/glyph_catcher/processor.py:240 | splitting a join of separator-free parts gives the parts back |
| Text.SplitCountsSeparators | glyph-catcher/src/glyph_catcher/exporter.py:291 | a split has one more piece than there are separators |
| Text.Upper | glyph-catcher/src/glyph_catcher/processor.py:184 | `str.upper()` maps each character, and the ASCII letters `a`–`z` to `A`–`Z` |
| Text.UpperIdempotent | glyph-catcher/src/glyph_catcher/processor.py:184 | upper-casing twice is upper-casing once |
| Text.NatToString | bin/find_many_aliases.py:19 | the decimal digits of `n`, read back as `n` |
| Text.Pad3Value | glyph-catcher/src/glyph_catcher/exporter.py:204 | `:03d` of a code point below 32 gives three digits worth that code point |
| Text.HexString | glyph-catcher/src/glyph_catcher/processor.py:232 | `format(n, 'X')` uses only `0-9A-F` and its value is `n` |
| Text.HexRoundTrip | glyph-catcher/src/glyph_catcher/processor.py:93 | `int(format(n, 'X'), 16) == n` |
| Text.PathJoinRelative | glyph-catcher/src/glyph_catcher/exporter.py:62 | `os.path.join(dir, name)` of a relative name starts with `dir` and ends with `name` |

## Left out

- The Lua search engine that consumes these datasets, its backends and its catalog manager are not part of this model.
- Files are their decoded lines.
  - `open`, `FileNotFoundError` and decoding errors become a `None` file.
  - `os.makedirs`, `shutil.copy`, `save_source_files`, the master-file save and load, and gzip are I/O and are left out.
  - What `load_master_data_file` returned is a parameter (`GlyphExporter.MasterData`).
- `download_file` and the rest of the network fetching are left out. `SetupDataset.Main` takes each download's lines, or `None` for a failed download.
- `xml.etree` parsing is left out. CLDR elements arrive as records of their attributes and text, in document order.
- Loading `config.yaml` is a parameter: whether PyYAML imports, and what `yaml.safe_load` gave (`GlyphConfig.YamlLoad`).
- The quoting of the `csv` module is left out: rows are cell sequences. The text `json.dump` produces is left out: the model stops at the list of entries. Reading the CSV in `find_many_aliases.py` is left out too: it takes the rows already split into cells.
- The wrapped branch of `format_aliases` is left out. `textwrap.fill` is library behaviour, so `FindManyAliases.FormatAliases` returns `None` there.
- `print` diagnostics, both CLIs (`__main__.py`, `argparse`/`click`) and the display and `save_to_file` functions of `find_many_aliases.py` are left out: they are presentation.
- `glyph-catcher/bin/compare_alias_stats.py` is left out. It computes float statistics with functions the processor does not define.
- Some test expectations have no code behind them, and the model follows the code:
  - `glyph-catcher/tests/test_processor.py` expects lowercasing, deduplication and `normalize_alias`;
  - `glyph-catcher/tests/test_compression.py` expects compressed export.
- Writers that fail to open their file are modelled only where the result depends on it. In unifill-datafetch's `export_data` the set of unwritable paths is a parameter. The glyph-catcher and setup_dataset writers catch the error, print it, and return nothing either way.
- UnicodeDataFile.FieldsOutcome: a line whose code point is a surrogate (U+D800–U+DFFF) is skipped. Python's `chr` would store a lone-surrogate string there, but Dafny's `char` cannot hold one.
- Text.Upper: `str.upper` is modelled for ASCII letters only. Keys are hexadecimal code points, where only ASCII matters, but a non-ASCII code point argument to `find_character_by_code_point` would be upper-cased differently.
- Text.ParseIntBase16: `int(s, 16)` is modelled with surrounding whitespace, a sign, a `0x` prefix and `_` between digits. Non-ASCII digits, which Python also accepts, are not modelled.
- SetupDataset.Main: `parse_name_aliases` is modelled on the downloaded lines, which it cannot fail to read, so the `aliases_info is None` branch of `main` is taken only through a failed download.
- The text-line format reads `character|name|codePoint|category|alias…`. glyph-catcher's writer inserts a fifth `block` field before the aliases. The model follows the code: `GlyphExporter.TxtLineRoundTrip` returns five fields, and `DatafetchExporter.TxtLineRoundTrip` returns four.
