# translate_taxids: header translation in Dafny

`bin/translate_taxids.py` takes a sample table and a taxonomy table. The sample
table's header row holds numeric taxonomy identifiers. The script replaces
each such header with the best taxonomic label the taxonomy table gives for that
identifier.

This project models the core of that script:

- **Column accessor.** `build_row_accessor(row)` gives case- and
  whitespace-insensitive lookup of a taxonomy row's cells.
- **Best label.** `get_best_tax_label(row)` walks the ranks from most to
  least specific. Within a rank it tries the rank's accepted column
  spellings in order. It returns the first present, non-missing,
  non-blank cell, stripped, or `"Unknown"` when there is none.
- **Identifier column.** `normalize_cols` strips the taxonomy table's
  column names. The search then takes the first column whose normal form
  is `tax_id` or `taxid`, and aborts when there is none.
- **Translation map.** Each taxonomy row's stripped identifier maps to that
  row's best label. The identifier column is not part of the row, and a
  later row overwrites an earlier one with the same identifier.
- **Header rewrite.** A header is replaced only when its stripped form is
  all digits and is a key of the map. Every other header is kept exactly.

Modules (one file each):

| file | module | models |
|---|---|---|
| `wrappers.dfy` | `Wrappers` | `Option` and `Result` |
| `pystr.dfy` | `PyStr` | `str.strip`, `str.lower`, `str.isdigit` on ASCII text |
| `ranks.dfy` | `Ranks` | `RANK_PRIORITY`, `ALIASES` and the order of candidate column names |
| `accessor.dfy` | `RowAccessor` | `build_row_accessor` and its `get` |
| `label.dfy` | `BestLabel` | `get_best_tax_label`: a reference function and the nested-loop method |
| `translate.dfy` | `Translate` | `normalize_cols`, the identifier-column loop, `tax_id_to_label`, `new_headers`, `df.columns = …` |
| `scenarios.dfy` | `Scenarios` | small concrete tables pushed through the whole translation |

Two loops of the source are kept as methods. `BestLabel.GetBestTaxLabel` is
proved equal to the function `LabelOf`. `Translate.FindTaxIdColumn` is proved to
return the first identifier column, which is what the function `TaxIdIndex`
gives. The reassignment `df.columns = new_headers` is the method
`Translate.SampleTable.Translate`, which updates the sample table's header
field. Its contract gives the new headers as the function `TranslateHeaders` of
the old ones. The properties are proved about these functions.

Points of the code's behaviour worth stating plainly:

- **No identifier column.** The code aborts with `SystemExit` and lists the
  normalised column names (line 88). The model returns
  `Err(MissingTaxIdColumn(columns))`, and the sample table's headers stay
  as they were.
- **Identifier spellings.** Only `tax_id` and `taxid` are accepted, up to
  case and outer whitespace. The third entry of line 84, `"tax_id "`, can
  never match a stripped name.
- **Same normal form.** When two columns of a row have the same normal
  form, the accessor reads the later one, because the dict comprehension
  of line 51 overwrites.
- **Identifiers are never skipped.** Every taxonomy row adds a key. pandas
  reads an empty identifier field, or a missing-value token, as NaN, and
  `str(nan)` is `"nan"`, so such a row adds the key `"nan"`. An identifier
  made of whitespace alone, which the model writes `Str(" ")`, adds the key
  `""`. No header can match `""`, since a digit string is never empty.
- **Species and subspecies.** A usable species cell wins over the higher
  ranks only when neither subspecies spelling is usable. `subspecies`
  comes first in the rank order.

The one place where the source's comments and its code differ is line 44.
The comment says `normalize_cols` does "strip + lower", but line 46 only
strips. The model follows the code: `Translate.NormalizeCols` strips the
column names and keeps their case. Lower-casing happens only inside the
accessor and the identifier test.

## Model

| member | source | states |
|---|---|---|
| PyStr.Trim | bin/translate_taxids.py:46 | `str.strip()`; its properties are the rows `TrimStartSpec` to `TrimIdempotent` |
| PyStr.TrimStartSpec | bin/translate_taxids.py:46 | left strip removes exactly a prefix of whitespace and stops at a non-space |
| PyStr.TrimEndSpec | bin/translate_taxids.py:46 | right strip removes exactly a suffix of whitespace and stops at a non-space |
| PyStr.TrimHasNoOuterSpace | bin/translate_taxids.py:46 | a stripped string is no longer than the input and has no whitespace at either end |
| PyStr.TrimIsInfix | bin/translate_taxids.py:46 | a stripped string is a contiguous slice of the input, with only whitespace cut on either side |
| PyStr.TrimOfTrimmed | bin/translate_taxids.py:46 | strip leaves a string without outer whitespace unchanged |
| PyStr.TrimIdempotent | bin/translate_taxids.py:46 | stripping twice is stripping once |
| PyStr.LowerChar | bin/translate_taxids.py:51 | lower-casing one character turns `A`-`Z` into the letter 32 code points higher and leaves every other character as it is |
| PyStr.Lower | bin/translate_taxids.py:51 | lower-casing keeps the length |
| PyStr.LowerAt | bin/translate_taxids.py:51 | lower-casing works character by character |
| PyStr.Norm | bin/translate_taxids.py:51-53 | `strip().lower()`, the key of the accessor; its properties are the rows `NormHasNoOuterSpace` to `PlainNamesDiffer` |
| PyStr.NormHasNoOuterSpace | bin/translate_taxids.py:51-53 | a normal form (`strip().lower()`) has no outer whitespace |
| PyStr.LowerCharEqualIff | bin/translate_taxids.py:51-53 | two characters lower to the same character iff they are equal or the same letter in the other ASCII case |
| PyStr.LowerEqualIff | bin/translate_taxids.py:51-53 | two strings lower to the same string iff they agree character by character up to ASCII case |
| PyStr.NormEqualIff | bin/translate_taxids.py:51-53 | two names have the same normal form iff, once stripped, they agree character by character up to ASCII case, so column matching ignores case and outer whitespace and nothing else |
| PyStr.NormIdempotent | bin/translate_taxids.py:51-53 | normalising a normal form changes nothing |
| PyStr.PlainIsNormal | bin/translate_taxids.py:51-53 | a name with no whitespace and no upper-case letter is its own normal form |
| PyStr.PlainNamesDiffer | bin/translate_taxids.py:51-53 | two different such names have different normal forms |
| PyStr.IsDigits | bin/translate_taxids.py:98 | `str.isdigit()` on ASCII: non-empty and only `0`-`9`; see `DigitsAreNormal` |
| PyStr.DigitsAreNormal | bin/translate_taxids.py:98 | a digit string is its own strip and its own normal form, and the empty string is not a digit string |
| Ranks.Aliases | bin/translate_taxids.py:27-41 | the alias lists of lines 27-41, one per rank, in order; the match is total, so the `[rank]` default of `.get` is never used |
| Ranks.Candidates | bin/translate_taxids.py:63-65 | the order of the nested iteration, every rank's spellings in rank order; see `AliasIsCandidate`, `CandidatesStart`, `SearchRanksFlat` |
| Ranks.AliasIsCandidate | bin/translate_taxids.py:63-65 | every spelling of every listed rank is tried by the search |
| Ranks.CandidatesStart | bin/translate_taxids.py:10-12 | `RANK_PRIORITY` starts with `subspecies` and then `species`, so the search tries `subspecies`, then `subspecies_name`, then `species` |
| RowAccessor.BuildIndex | bin/translate_taxids.py:51 | the `mapping` comprehension, folded left to right; see `IndexKeys` and `IndexNamesLastColumn` |
| RowAccessor.IndexKeys | bin/translate_taxids.py:51 | the index keys are exactly the normal forms of the row's column names |
| RowAccessor.IndexNamesLastColumn | bin/translate_taxids.py:51 | each index key names the last column with that normal form |
| RowAccessor.CellNamed | bin/translate_taxids.py:55 | `row[name]` is the cell of the last column so named |
| RowAccessor.Get | bin/translate_taxids.py:52-57 | `get(colname)`; its properties are the rows `GetFindsLastMatch` to `LaterColumnWins` |
| RowAccessor.GetFindsLastMatch | bin/translate_taxids.py:49-58 | `get` is None iff no column has the requested normal form; otherwise it is the last such column's cell, which may be NaN or blank |
| RowAccessor.GetAbsent | bin/translate_taxids.py:54-57 | a name matching no column reads as absent |
| RowAccessor.GetIgnoresCaseAndSpace | bin/translate_taxids.py:53 | requests with the same normal form read the same cell |
| RowAccessor.LaterColumnWins | bin/translate_taxids.py:51 | a matching column with no later match is the one `get` reads |
| BestLabel.Usable | bin/translate_taxids.py:66-69 | the test that ends the search: the column is present, the cell is not NaN, and it is not blank after `strip`; see `FirstUsableIsFirst`, `NoneUsableIsUnknown` |
| BestLabel.FirstUsable | bin/translate_taxids.py:63-72 | the flat reference search over a candidate list; see `FirstUsableIsFirst`, `NoneUsableIsUnknown`, `FirstUsableWellFormed` |
| BestLabel.SearchAliases | bin/translate_taxids.py:65-70 | the inner loop over one rank's spellings; see `SearchAliasesAt`, `SearchAliasesNone`, `SearchAliasesFlat` |
| BestLabel.SearchRanks | bin/translate_taxids.py:63-72 | the outer loop over the ranks; see `SearchRanksAt`, `SearchRanksFlat` |
| BestLabel.LabelOf | bin/translate_taxids.py:60-72 | the label `get_best_tax_label` returns, computed by `GetBestTaxLabel`; its properties are the rows `LabelIsFirstUsableCandidate` to `OrganismNameActsAsSpeciesName` |
| BestLabel.GetBestTaxLabel | bin/translate_taxids.py:60-72 | the nested loops with their early return compute the rank-by-rank search `LabelOf` |
| BestLabel.SearchAliasesFlat | bin/translate_taxids.py:65-70 | one rank's inner search agrees with the flat first-usable search over its spellings |
| BestLabel.SearchRanksFlat | bin/translate_taxids.py:63-72 | the nested search equals the flat first-usable search over all candidates in rank order |
| BestLabel.SearchAliasesAt | bin/translate_taxids.py:65-70 | the inner loop returns the stripped text of the first usable spelling of its list |
| BestLabel.SearchAliasesNone | bin/translate_taxids.py:65-68 | the inner loop finds nothing when no spelling of its list is usable |
| BestLabel.SearchRanksAt | bin/translate_taxids.py:63-70 | the outer loop returns the result of the first rank whose inner search succeeds |
| BestLabel.SpellingOrderDecides | bin/translate_taxids.py:63-70 | rank order decides first and spelling order within the rank second: the first usable spelling of the first rank having one is the label, whatever later spellings of that rank hold |
| BestLabel.LabelIsFirstUsableCandidate | bin/translate_taxids.py:63-72 | a row's label is the first usable candidate of the whole candidate sequence |
| BestLabel.FirstUsableIsFirst | bin/translate_taxids.py:66-70 | when candidate k is usable and no earlier one is, the result is candidate k's stripped text |
| BestLabel.NoneUsableIsUnknown | bin/translate_taxids.py:66-72 | when no candidate is present, non-NaN and non-blank, the result is exactly "Unknown" |
| BestLabel.FirstUsableWellFormed | bin/translate_taxids.py:69-72 | every search result is non-empty and has no outer whitespace |
| BestLabel.LabelWellFormed | bin/translate_taxids.py:69-72 | a label is never empty and is its own strip |
| BestLabel.SpeciesBeatsHigherRanks | bin/translate_taxids.py:10-12 | with both subspecies spellings unusable, a usable species cell is the label, whatever the higher ranks hold |
| BestLabel.AllBlankIsUnknown | bin/translate_taxids.py:66-72 | a row whose every cell is NaN or blank is labelled "Unknown" |
| BestLabel.OneColumnSearch | bin/translate_taxids.py:63-72 | a one-column row yields that column's stripped text iff it is usable and matches some candidate, otherwise "Unknown" |
| BestLabel.OneCandidateColumn | bin/translate_taxids.py:63-72 | a one-column row named by a candidate yields its stripped text when usable, else "Unknown" |
| BestLabel.OrganismNameActsAsSpeciesName | bin/translate_taxids.py:34 | a row whose only column is `organism_name` is labelled like one whose only column is `species_name`; with several usable spellings the earlier one wins (`SpellingOrderDecides`) |
| Translate.NormalizeCols | bin/translate_taxids.py:43-47 | `normalize_cols`: every column name stripped; see `NormalizeColsSpec` |
| Translate.NormalizeColsSpec | bin/translate_taxids.py:43-47 | normalising the columns keeps their number, order and normal forms, and is idempotent |
| Translate.IsTaxIdName | bin/translate_taxids.py:84 | the test of line 84 against the three spellings of `TAX_ID_NAMES`; see `TaxIdNameIsTwoSpellings` |
| Translate.TaxIdNameIsTwoSpellings | bin/translate_taxids.py:84 | a column is taken as the identifier iff its normal form is `tax_id` or `taxid`; the `"tax_id "` entry never matches |
| Translate.TaxIdIndex | bin/translate_taxids.py:82-88 | the position of the first identifier column, and None iff no column is one |
| Translate.FindTaxIdColumn | bin/translate_taxids.py:82-88 | the loop with its break returns the first identifier column, and otherwise the abort carrying the column names; in both cases the result agrees with `TaxIdIndex` |
| Translate.RowFor | bin/translate_taxids.py:90-94 | the row handed to the label selector is the table row without the identifier column, in column order |
| Translate.IdKey | bin/translate_taxids.py:93 | `str(tax_id).strip()`: a text identifier stripped, a missing one `"nan"`; see `TranslationMapKeys` |
| Translate.Entries | bin/translate_taxids.py:92-95 | one (identifier, label) pair per row: no row is skipped |
| Translate.FoldMap | bin/translate_taxids.py:92-95 | building a dict from pairs left to right, as the comprehension does; see `FoldMapKeys`, `FoldMapLastWins`, `FoldMapValues` |
| Translate.FoldMapKeys | bin/translate_taxids.py:92-95 | the keys of a dict built from pairs are exactly the pairs' keys |
| Translate.FoldMapLastWins | bin/translate_taxids.py:92-95 | a pair with no later pair of the same key is what the dict holds |
| Translate.FoldMapValues | bin/translate_taxids.py:92-95 | every dict value comes from one of the pairs |
| Translate.TranslationMap | bin/translate_taxids.py:92-95 | `tax_id_to_label`; its properties are the rows `TranslationMapKeys` to `TranslationMapLabelsWellFormed` |
| Translate.TranslationMapKeys | bin/translate_taxids.py:92-95 | the map's keys are exactly the rows' stripped identifiers (`"nan"` for a missing one), with none skipped |
| Translate.TranslationMapLastWins | bin/translate_taxids.py:92-95 | the label stored for an identifier is that of the last row carrying it |
| Translate.TranslationMapLabelsWellFormed | bin/translate_taxids.py:92-95 | every label in the map is non-empty and has no outer whitespace |
| Translate.RewriteHeader | bin/translate_taxids.py:98 | one header of `new_headers`; see `RewriteHeaderCases` |
| Translate.RewriteHeaders | bin/translate_taxids.py:97-100 | the headers keep their number and order; each is rewritten on its own |
| Translate.RewriteHeaderCases | bin/translate_taxids.py:98 | a header changes only into the label of its stripped form, and only when that form is all digits and mapped; otherwise it is kept exactly |
| Translate.RewriteIdempotent | bin/translate_taxids.py:97-100 | once no label is numeric, rewriting a second time changes nothing |
| Translate.TranslateHeaders | bin/translate_taxids.py:79-100 | lines 79-100 of `main` as one value; see `TranslateFailsOnlyWithoutTaxId` and `TranslatedHeader` |
| Translate.TranslateFailsOnlyWithoutTaxId | bin/translate_taxids.py:79-100 | the run aborts iff no column's normal form is `tax_id` or `taxid`; on success the header count is kept |
| Translate.TranslatedHeader | bin/translate_taxids.py:90-100 | end to end: a numeric header equal to some row's identifier becomes the label of the last such row; any other header is unchanged |
| Translate.SampleTable.constructor | bin/translate_taxids.py:75-76 | the sample table holds the headers and rows it was given |
| Translate.SampleTable.Translate | bin/translate_taxids.py:79-101 | `df.columns = new_headers`: on success the headers become the translation and on the abort they stay; the data rows never change |
| Scenarios.StrippedColumnsKept | bin/translate_taxids.py:46 | columns already stripped are not changed by normalisation |
| Scenarios.PlainColumns | bin/translate_taxids.py:83-86 | in `tax_id, species, genus` the identifier column is column 0 |
| Scenarios.PlainNameAbsent | bin/translate_taxids.py:54-57 | a plain name equal to no plain column name is absent |
| Scenarios.NoSubspeciesColumn | bin/translate_taxids.py:35 | neither subspecies spelling is a column of the row `species, genus` |
| Scenarios.CapitalisedColumnMatches | bin/translate_taxids.py:49-58 | a column named `Species` answers `get(" species ")` with its cell |
| Scenarios.SpeciesColumn | bin/translate_taxids.py:55 | `get("species")` reads the species cell of that row |
| Scenarios.EscherichiaColiLabel | bin/translate_taxids.py:60-72 | the row (`Escherichia coli`, `Escherichia`) is labelled `Escherichia coli`, not the genus |
| Scenarios.EscherichiaColiMap | bin/translate_taxids.py:92-95 | identifier `561530` maps to `Escherichia coli` |
| Scenarios.EscherichiaColiHeaders | bin/translate_taxids.py:97-100 | headers `561530, sample_name` become `Escherichia coli, sample_name` |
| Scenarios.EscherichiaColi | bin/translate_taxids.py:79-100 | the whole translation of that sample header row |
| Scenarios.BlankRowMap | bin/translate_taxids.py:92-95 | identifier `999` with a NaN species and a blank genus maps to "Unknown" |
| Scenarios.UnknownHeader | bin/translate_taxids.py:97-100 | header `999` becomes "Unknown" |
| Scenarios.AllRanksMissing | bin/translate_taxids.py:79-100 | the whole translation in that case yields `Unknown` |
| Scenarios.StripIdColumns | bin/translate_taxids.py:46 | column `" id "` is normalised to `id` |
| Scenarios.IdIsNoTaxIdColumn | bin/translate_taxids.py:83-86 | neither `id` nor `species` is an identifier column |
| Scenarios.NoTaxIdColumnAborts | bin/translate_taxids.py:87-88 | a taxonomy table with columns `" id ", species` aborts with the normalised column list; nothing is passed through |

## Left out

- Command line: the `--version` flag and argument parsing (lines 106-121) are not modelled. The model takes both tables as values.
- I/O: reading both TSV files (lines 75, 78) and writing the output file and its message (lines 103-104) are not modelled. The sample table's data rows are carried along unread.
- Text: `strip`, `lower` and `isdigit` are modelled on ASCII. Whitespace is space, `\t` to `\r` and `\x1c` to `\x1f`; lower-casing maps `A`-`Z` only; digits are `0`-`9`. Python's Unicode whitespace, case mapping and digit classes are not modelled.
- RowAccessor.CellNamed: when a row has two columns with exactly the same name, pandas returns a Series for `row[name]`. The `pd.notna(v) and …` test at line 69 then raises `ValueError`, so the program crashes. The model reads the last such column and returns a label instead. `normalize_cols` can produce such a pair, for example from `species` and ` species `.
- Translate.RowFor: `set_index` is modelled only by its effect, which is moving the identifier column out of the row. pandas index internals are not modelled.
- Translate.Table: a table is a header plus rows with one cell per column (`Rectangular`). Ragged CSV rows, which pandas pads or rejects when reading, are not modelled.
- Ranks.Aliases: the total `match` stands in for the `ALIASES.get(rank, [rank])` lookup. The default is unreachable because every rank has an entry.
- Reading the sample file: pandas' renaming of duplicate sample headers (`name.1`) is not modelled; the headers are taken as given.
- Missing values: the missing-value marker is `NaN`. With its default settings `read_csv` reads an empty field as NaN, and so are the tokens `NA`, `N/A`, `NaN`, `nan`, `null`, `NULL`, `None` and the other default NA strings. So an identifier `NA` gives the key `"nan"`, and a species cell `NA` is not usable. The model takes cells as already read. Which text becomes `NaN` is left to the reader of the file, which is not modelled. The printed form `"nan"` is used only where the code prints it, namely the identifier key.
