# AutoROGA report extraction and assembly, modelled in Dafny

AutoROGA builds a Report of Genomic Analysis (ROGA) for a list of sequence
IDs. It reads the pipeline's `combinedMetadata.csv` and `GDCS.csv` reports,
locates the table that holds each requested ID, and checks each ID's observed
genus against the expected one. It then parses GeneSeekr marker profiles and
assembles the report. The report holds a lab summary, a GeneSippr marker
table chosen by genus (Escherichia, Listeria or Salmonella), a
sequence-quality table and a pipeline-version table.

The project models that logic over tables that are already loaded. It has
these modules:

- `Results` (results.dfy): the `Result` type and the errors Python would raise:
  `KeyError` for a missing column or dict key, and `IndexError` when no row matches.
- `PyStr` (pystr.dfy): Python's `str.split` with one separator, `join`, and
  substring `in`.
- `PyDict` (pydict.dfy): an insertion-ordered dict, as Python 3.7+ iterates it.
- `Frames` (frames.dfy): a DataFrame as a set of columns plus rows mapping
  every column to a string. It also has `df[col].values` and the lookup
  `df.loc[df[k] == key][f].values[0]`.
- `Loops` (loops.dfy): the two loop shapes the source repeats. One fills a
  dict key by key; the other appends one row per key. Each stops at the
  first exception.
- `ReportLocator` (report_locator.dfy): `create_report_dictionary` and its
  wrappers `get_combined_metadata` and `get_gdcs`.
- `ExtractReportData` (extract_report_data.dfy): `validate_genus`,
  `generate_validated_list`, `parse_geneseekr_profile` and
  `generate_gdcs_dict`.
- `GenerateRoga` (generate_roga.dfy): the table contents of `generate_roga`,
  the `lab_info` lookup and the empty-list guard of `redmine_roga`.
- `RogaProperties` (roga_properties.dfy): lemmas relating the rows and tables
  to the located reports.

Each imperative loop of the source is a Dafny `method` with a `for` loop.
That method is proved equal to a recursive specification function, and the
properties are lemmas about the function. Every exception path of the source
is an `Err` value of the same kind, raised at the same point.

Two consequences of the code as written are proved:

- Marker cells are computed by substring containment on the raw profile
  string, not from the parsed token list. `RogaProperties.SubstringIsNotToken`
  shows that the two differ: `"VT2f"` gives VT2 a `+` cell, although `VT2` is
  not one of its tokens.
- Each GeneSippr loop stores the observed genus back into the `genus`
  variable that the later `if genus == ...` tests read.
  `RogaProperties.EscherichiaCascadesToListeria` shows one consequence: the
  Escherichia block can switch on the Listeria block.

## Model

| member | source | states |
|---|---|---|
| PyStr.Split | extract_report_data.py:105 | `str.split(';')` always gives at least one piece |
| PyStr.JoinSplit | extract_report_data.py:105 | joining the split pieces with the separator gives back the original string |
| PyStr.SplitPiecesAreSeparatorFree | extract_report_data.py:105 | no piece contains the separator |
| PyStr.SplitHeadIsPrefix | extract_report_data.py:105 | the first piece is a prefix of the string |
| PyStr.SplitWithoutSeparator | extract_report_data.py:105 | a string without the separator splits to itself alone, so `''` gives `['']` |
| PyStr.SplitPiecesOccur | extract_report_data.py:105 | every piece is a substring of the string |
| PyStr.ContainsIffOccurs | generate_roga.py:102-106 | Python's `p in s` holds exactly when `p` occurs at some position of `s` |
| PyStr.PrefixOfContainedIsContained | generate_roga.py:103-104 | if a string occurs in `s`, so does every prefix of it |
| PyDict.Dict.Put | extract_report_data.py:24 | assignment updates the mapping and appends the key only when it is new, keeping keys distinct |
| PyDict.Empty | extract_report_data.py:13 | `{}` has no keys and no entries |
| PyDict.DedupProperties | extract_report_data.py:70-72 | the first-occurrence list of a sequence is duplicate-free and has its elements |
| PyDict.DedupDistinct | extract_report_data.py:70-72 | a duplicate-free sequence is its own first-occurrence list |
| PyDict.DistinctPairwise | extract_report_data.py:24 | distinctness means no two positions hold the same key |
| Frames.HasKeyRows | extract_report_data.py:22 | `seq in samples.values` holds exactly when some row's key cell is `seq` |
| Frames.FirstMatchMeaning | extract_report_data.py:68 | the row lookup succeeds exactly when some row has the key, and then gives the field of the first such row |
| Frames.LocMeaning | extract_report_data.py:68 | `df.loc[df[k] == key][f].values[0]` succeeds exactly when both columns exist and a row has the key; the value is that field of the first such row |
| Loops.CollectOk | extract_report_data.py:65-72 | a dict-filling loop completes exactly when no key's step raises |
| Loops.CollectFirstError | extract_report_data.py:65-72 | a failing dict-filling loop raises the error of the first failing key |
| Loops.CollectKeys | extract_report_data.py:65-72 | the filled dict's keys are the visited keys in first-occurrence order, without repeats |
| Loops.CollectValues | extract_report_data.py:65-72 | every visited key maps to its own step's value |
| Loops.CollectEntry | extract_report_data.py:118-122 | every key of the filled dict was visited and holds its own step's value |
| Loops.CollectValid | extract_report_data.py:65-72 | the filled dict is well formed |
| Loops.GatherOk | generate_roga.py:207-218 | a row-appending loop completes exactly when no key's row raises |
| Loops.GatherRows | generate_roga.py:207-218 | it emits one row per key, in key order, each the row of that key |
| ReportLocator.CreateReportDictionary | extract_report_data.py:5-25 | the nested loops build the located dict, or raise `KeyError` for a report without the key column |
| ReportLocator.GetCombinedMetadata | extract_report_data.py:29-38 | combinedMetadata tables are keyed on `SeqID` |
| ReportLocator.GetGdcs | extract_report_data.py:42-51 | GDCS tables are keyed on `Strain` |
| ReportLocator.LocatedValid | extract_report_data.py:13-25 | the located dict has distinct keys that are exactly its mapped keys |
| ReportLocator.LocatedKeys | extract_report_data.py:16-24 | an ID is a key iff it was requested and some report has it in the key column |
| ReportLocator.LocatedLastWins | extract_report_data.py:16-24 | an ID's table is the last report in list order that has it |
| ReportLocator.LocatedKeysAreRequested | extract_report_data.py:21-24 | keys are requested IDs, each once however often requested |
| ReportLocator.LocatedEmpty | extract_report_data.py:13-25 | the dict is empty iff no report holds any requested ID, in particular with no reports |
| ReportLocator.LocatedSameEntry | extract_report_data.py:16-24 | the table found for an ID does not depend on which other IDs were requested |
| ReportLocator.ScanEntry | extract_reports.py:21-24 | one report's inner loop adds exactly the requested IDs it holds and replaces their tables with itself |
| ExtractReportData.ValidateGenus | extract_report_data.py:54-74 | the loop builds the status dict, or raises at the first ID without a located table or without a `Genus` |
| ExtractReportData.ValidStatusOk | extract_report_data.py:65-72 | validation succeeds iff every requested ID's genus lookup succeeds, so a missing ID is never reported as `False` |
| ExtractReportData.ValidStatusFirstError | extract_report_data.py:65-72 | a failed validation raises the first failing ID's error |
| ExtractReportData.ValidStatusKeys | extract_report_data.py:63-74 | the status keys are the distinct requested IDs in first-occurrence order |
| ExtractReportData.ValidStatusValues | extract_report_data.py:68-72 | each ID's status is whether its first `SeqID` row's `Genus` equals the expected genus exactly |
| ExtractReportData.ObservedGenusOfLocated | extract_report_data.py:67-68 | for a located ID the genus lookup fails only when its table has no `Genus` column |
| ExtractReportData.ValidateGenusRejectsMissing | extract_report_data.py:67 | a requested ID that no table holds makes `validate_genus` raise |
| ExtractReportData.WithStatusMeaning | extract_report_data.py:87-92 | the filtered IDs are a subsequence holding exactly the IDs with the wanted status |
| ExtractReportData.GenerateValidatedList | extract_report_data.py:77-93 | the loop splits the status dict into accepted IDs and warned IDs, in dict order |
| ExtractReportData.ValidatedListMeaning | extract_report_data.py:84-93 | accepted IDs are exactly the requested IDs of the expected genus, each once, in first-occurrence order; every other requested ID is warned about |
| ExtractReportData.KnownMarkers | extract_report_data.py:104-108 | the kept tokens are a subsequence of the tokens, are exactly those in the 10-marker list, keep every repeat, and number at most the tokens |
| ExtractReportData.ParseGeneseekrProfile | extract_report_data.py:96-109 | the loop returns the known markers among the `;`-separated tokens |
| ExtractReportData.ParseEmptyProfile | extract_report_data.py:105-109 | an empty profile yields no markers |
| ExtractReportData.GenerateGdcsDict | extract_report_data.py:112-123 | the loop builds the GDCS dict over the located samples, or raises the first failing lookup |
| ExtractReportData.GdcsValuesOk | extract_report_data.py:118-122 | the GDCS dict is built iff every sample's `Matches` and `Pass/Fail` lookups succeed |
| ExtractReportData.GdcsValuesContents | extract_report_data.py:117-123 | its keys are the input keys in order, each mapped to its own unchanged `(Matches, Pass/Fail)` pair |
| ExtractReportData.GdcsValuesFirstError | extract_report_data.py:118-122 | a failure raises the first failing sample's error |
| GenerateRoga.LabTableMeaning | generate_roga.py:16-19 | the lab row is `(lab, address, tel)` of `lab_info`; only the two known labs succeed, any other raises `KeyError` |
| GenerateRoga.PanelRowGenus | generate_roga.py:95-107 | a row has one cell per header column and starts with the sample ID and the observed genus |
| GenerateRoga.EscherichiaMarkers | generate_roga.py:101-106 | the five cells start as `'-'` and become `'+'` exactly when the marker name is a substring of the profile |
| GenerateRoga.EscherichiaRow | generate_roga.py:97-107 | the Escherichia row is `(sample_id, Genus, vt1, vt2, vt2f, uida, eae)`, or the lookup's error |
| GenerateRoga.ListeriaRow | generate_roga.py:133-145 | the Listeria row is `(sample_id, Genus, 'temp', igs, hlya, inlj)`, or the lookup's error |
| GenerateRoga.SalmonellaRow | generate_roga.py:170-181 | the Salmonella row is `(sample_id, Genus, SISTR_serovar, inva, stn)`, or the lookup's error |
| GenerateRoga.GeneSipprRow | generate_roga.py:95-181 | the row of the block's panel |
| GenerateRoga.PanelLoopExtends | generate_roga.py:95-107 | a successful row extends the emitted rows and has a genus cell |
| GenerateRoga.PanelLoopStops | generate_roga.py:95-107 | a failing row aborts the whole loop with its error |
| GenerateRoga.GeneSipprTable | generate_roga.py:95-107 | a block's loop emits one row per located sample and leaves `genus` set to the last row's genus |
| GenerateRoga.GeneSippr | generate_roga.py:79-185 | the three blocks run in order, each entered iff the current `genus` names it |
| GenerateRoga.QualityTable | generate_roga.py:191-218 | the quality loop emits one row per sample, or raises at the first failing lookup, including a sample missing from `gdcs_dict` |
| GenerateRoga.PipelineTable | generate_roga.py:223-241 | the pipeline loop emits `(sample_id, PipelineVersion)` per sample, or raises |
| GenerateRoga.BuildReport | generate_roga.py:66-241 | the lab table, the GeneSippr tables, the quality table and the pipeline table are built in that order, with the first exception propagating |
| GenerateRoga.GenerateRoga | generate_roga.py:40-241 | metadata and GDCS tables are located for the IDs, the GDCS dict is built, then the report |
| GenerateRoga.RedmineRoga | generate_roga.py:22-36 | validate the fixed three IDs as Salmonella; quit with the warnings when none match, otherwise generate the GTA-CFIA report for the accepted IDs |
| RogaProperties.PanelRowMeaning | generate_roga.py:95-181 | a row exists iff its lookups succeed; it matches the header cell for cell; the typing cell is `'temp'` or the serovar; each marker cell is `'+'` iff the header's marker is a substring of the profile, and `'-'` otherwise |
| RogaProperties.VT2fShowsVT2 | generate_roga.py:103-104 | a `'+'` VT2f cell forces a `'+'` VT2 cell |
| RogaProperties.ParsedMarkerShowsPlus | generate_roga.py:100-106 | a marker that parsing would report always shows as `'+'` |
| RogaProperties.VT2InVT2f | generate_roga.py:103 | the profile `"VT2f"` gives VT2 a `'+'` |
| RogaProperties.ParseVT2f | extract_report_data.py:103-109 | parsing `"VT2f"` gives just `["VT2f"]` |
| RogaProperties.SubstringIsNotToken | generate_roga.py:103 | the substring rule marks VT2 present in `"VT2f"`, although parsing does not report it |
| RogaProperties.PanelTableRows | generate_roga.py:95-181 | a table exists iff every located sample's row does; it has the panel header, one row per sample in dict order, and leaves `genus` as the last sample's genus or unchanged |
| RogaProperties.OtherGenusNoTables | generate_roga.py:79-152 | a genus naming no panel gives no GeneSippr table |
| RogaProperties.SinglePanelWhenConsistent | generate_roga.py:79-185 | when every located sample has the requested panel's genus, exactly that panel's table is built and `genus` ends unchanged |
| RogaProperties.EscherichiaCascadesToListeria | generate_roga.py:97-152 | if the last Escherichia row's genus is Listeria, the Listeria block also runs |
| RogaProperties.GeneSipprTablesShape | generate_roga.py:79-185 | at most three GeneSippr tables; a genus naming a panel puts that panel's table first |
| RogaProperties.QualityRowMeaning | generate_roga.py:207-218 | a quality row exists iff its three lookups succeed and the sample is in `gdcs_dict`; a sample missing there raises `KeyError`; otherwise the cells pass through unchanged |
| RogaProperties.QualityTableRows | generate_roga.py:207-218 | one six-cell row per sample in dict order, each with that sample's GDCS pair |
| RogaProperties.PipelineTableRows | generate_roga.py:233-241 | one two-cell row per sample in dict order: the sample ID, then the `PipelineVersion` of its first `SeqID` row |
| RogaProperties.GdcsDictEntries | extract_report_data.py:117-123 | the GDCS dict holds only located samples, each with its own pair |
| RogaProperties.RogaQualityRows | generate_roga.py:207-241 | in a generated report, the quality and pipeline tables have one row per located sample, in order; the GDCS cells are that sample's `Matches` and `Pass/Fail`, and the pipeline cell its `PipelineVersion` |
| RogaProperties.RogaSinglePanel | generate_roga.py:73-185 | with consistent genera, a generated report confirms the genus, shows the lab row and has exactly one GeneSippr table, that panel's |
| RogaProperties.ValidatedSamplesHaveGenus | extract_report_data.py:84-93 | every sample located for the accepted IDs has the expected genus, and at least one is located when any is accepted |
| RogaProperties.RedmineQuitsWhenNoneValid | generate_roga.py:27-31 | `redmine_roga` quits iff none of its three IDs is observed as Salmonella, and then it has warned about all three |
| RogaProperties.RedmineParts | generate_roga.py:27-36 | a generated redmine report is the report for the nonempty accepted list |
| RogaProperties.RedmineReportNotEmpty | generate_roga.py:29-36 | a generated redmine report has at least one quality row and at least one pipeline row |
| RogaProperties.RedmineSalmonellaOnly | generate_roga.py:22-36 | a generated redmine report confirms Salmonella, shows the GTA-CFIA row and has just the Salmonella GeneSippr table |

## Left out

- Reading CSV files and globbing report paths (`pd.read_csv`, `glob.glob`, the hard-coded paths) is not modelled: the loaded tables are parameters (`metadataReports`, `gdcsReports`).
- The nested call of `get_combined_metadata` inside `validate_genus` is the same kind of I/O wrapper. It is modelled through `ReportLocator.Locate` on the table parameter.
- All pylatex document construction is not modelled: the document, header and footer, logo, captions, legend, table rules and `generate_pdf`. A table is kept as its header and rows of cells.
- The date in the PDF file name and `datetime.today()` are clock reads and are not modelled. `Report.finalGenus` keeps the `genus` that the file name uses.
- `print`, `quit()` and the `__main__` entry point are not modelled; the `click` import is unused. A warning is kept as the ID warned about (`Validation.ignored`). The quit is the `NoValidSamples` outcome.
- Pandas dtypes and NaN are not modelled: every cell is a string, and the genus comparison and marker tests are on those strings.
- Tables whose rows do not all carry every column cannot be expressed: `Frames.Table` requires each row to have every column, as read from CSV.
- `extract_reports.py` repeats `create_report_dictionary`, `get_combined_metadata` and `get_gdcs`. The code is the same apart from the hard-coded report paths and the docstrings, and the paths are file I/O. The single `ReportLocator` module models both copies.
- A `redmine_roga` run reads the combinedMetadata reports twice: once inside `validate_genus` (extract_report_data.py:61) and once at the start of `generate_roga` (generate_roga.py:43). The model passes the same `metadataReports` to both, so it assumes the files do not change during a run and that `glob` lists them in the same order both times. `RogaProperties.RedmineParts`, `RedmineReportNotEmpty` and `RedmineSalmonellaOnly` rely on that assumption.
- `ExtractReportData.GdcsEntry` has a missing-key branch. The loop in `generate_gdcs_dict` iterates over the dict's own keys, so that branch never fires there.
- Pass/Fail normalisation and annotation stripping do not exist in this code: the `Pass/Fail` field is passed through unchanged.
