/** The Report of Genomic Analysis assembled by generate_roga.py: the lab
    summary, the GeneSippr marker tables chosen by genus, the sequence-quality
    and pipeline tables, and the empty-list guard of `redmine_roga`. The LaTeX
    rendering is not modelled: a table is its header and its rows of cells. */
module GenerateRoga {
  import opened Results
  import opened PyDict
  import opened PyStr
  import opened Frames
  import opened ReportLocator
  import opened ExtractReportData
  import opened Loops

  // ---- Lab summary ----

  /** `lab_info`: address and telephone number of each known laboratory. */
  const LabInfo: map<string, (string, string)> := map[
    "GTA-CFIA" := ("2301 Midland Ave., Scarborough, ON, M1P 4R7", "(416) 973-0798"),
    "OLF-CFIA" := ("3851 Fallowfield Rd., Ottawa, ON, K2H 8P9", "(343) 212-0416")
  ]

  /** A table of the report: its header cells and its rows of cells. */
  datatype Tabular = Tabular(header: seq<string>, rows: seq<seq<string>>)

  const LabHeader: seq<string> := ["Laboratory", "Address", "Tel #"]

  /** The lab summary table, or the KeyError of `lab_info[lab]`. */
  function LabTable(lab: string): Result<Tabular>
  {
    if lab in LabInfo then Ok(Tabular(LabHeader, [[lab, LabInfo[lab].0, LabInfo[lab].1]]))
    else Err(MissingKey(lab))
  }

  /** Only the two known laboratories can head a report; the row is the lab
      followed by its address and telephone number, one cell per header column. */
  lemma LabTableMeaning(lab: string)
    ensures LabTable(lab).Ok? <==> lab == "GTA-CFIA" || lab == "OLF-CFIA"
    ensures LabTable(lab).Ok? ==>
      && LabTable(lab).value.rows == [[lab, LabInfo[lab].0, LabInfo[lab].1]]
      && |LabTable(lab).value.rows[0]| == |LabTable(lab).value.header|
    ensures LabTable(lab).Err? ==> LabTable(lab).error == MissingKey(lab)
  {
  }

  // ---- GeneSippr tables ----

  /** The three genus-specific GeneSippr tables. */
  datatype Panel = Escherichia | Listeria | Salmonella {

    /** The genus whose `if genus == ...` block renders this table. */
    function Name(): string
    {
      match this
      case Escherichia => "Escherichia"
      case Listeria => "Listeria"
      case Salmonella => "Salmonella"
    }

    /** The typing column between `Genus` and the markers, if any. */
    function TypingHeader(): seq<string>
    {
      match this
      case Escherichia => []
      case Listeria => ["Serotype"]
      case Salmonella => ["Serovar"]
    }

    /** The markers whose presence the table shows, in column order. */
    function Markers(): seq<string>
    {
      match this
      case Escherichia => ["VT1", "VT2", "VT2f", "uidA", "eae"]
      case Listeria => ["IGS", "hlyA", "inlJ"]
      case Salmonella => ["invA", "stn"]
    }

    function Header(): seq<string>
    {
      ["LSTS ID", "Genus"] + TypingHeader() + Markers()
    }
  }

  /** A marker cell: `'+'` when the marker name occurs anywhere in the raw
      profile string (Python's `in` on strings), `'-'` otherwise. */
  function MarkerCell(profile: string, marker: string): string
  {
    if Contains(profile, marker) then "+" else "-"
  }

  function MarkerCells(profile: string, markers: seq<string>): seq<string>
  {
    seq(|markers|, j requires 0 <= j < |markers| => MarkerCell(profile, markers[j]))
  }

  /** The typing cells: none for Escherichia, the placeholder `'temp'` for
      Listeria, the `SISTR_serovar` field for Salmonella. */
  function TypingCells(panel: Panel, df: Table, sampleId: string): Result<seq<string>>
  {
    match panel
    case Escherichia => Ok([])
    case Listeria => Ok(["temp"])
    case Salmonella =>
      match Loc(df, MetadataKey, sampleId, "SISTR_serovar")
      case Err(e) => Err(e)
      case Ok(serovar) => Ok([serovar])
  }

  /** One GeneSippr row, looking up `Genus`, then the typing field, then
      `GeneSeekr_Profile`, in the order the loop body does. */
  function PanelRow(panel: Panel, df: Table, sampleId: string): Result<seq<string>>
  {
    match Loc(df, MetadataKey, sampleId, "Genus")
    case Err(e) => Err(e)
    case Ok(genus) =>
      match TypingCells(panel, df, sampleId)
      case Err(e) => Err(e)
      case Ok(typing) =>
        match Loc(df, MetadataKey, sampleId, "GeneSeekr_Profile")
        case Err(e) => Err(e)
        case Ok(profile) => Ok([sampleId, genus] + typing + MarkerCells(profile, panel.Markers()))
  }

  /** A row from the three looked-up values. */
  lemma PanelRowIs(panel: Panel, df: Table, sampleId: string, genus: string, typing: seq<string>, profile: string)
    requires Loc(df, MetadataKey, sampleId, "Genus") == Ok(genus)
    requires TypingCells(panel, df, sampleId) == Ok(typing)
    requires Loc(df, MetadataKey, sampleId, "GeneSeekr_Profile") == Ok(profile)
    ensures PanelRow(panel, df, sampleId) == Ok([sampleId, genus] + typing + MarkerCells(profile, panel.Markers()))
  {
  }

  /** A row has one cell per header column; it starts with the sample ID and
      the observed genus. */
  lemma PanelRowGenus(panel: Panel, df: Table, sampleId: string)
    ensures PanelRow(panel, df, sampleId).Ok? ==>
      && |PanelRow(panel, df, sampleId).value| == |panel.Header()|
      && PanelRow(panel, df, sampleId).value[0] == sampleId
      && Ok(PanelRow(panel, df, sampleId).value[1]) == Loc(df, MetadataKey, sampleId, "Genus")
  {
  }

  /** The row of each `(sample_id, df)` of `metadata_reports.items()`. */
  function PanelRowOf(panel: Panel, metadata: Dict<string, Table>): string -> Result<seq<string>>
  {
    sampleId =>
      if sampleId in metadata.entries then PanelRow(panel, metadata.entries[sampleId], sampleId)
      else Err(MissingKey(sampleId))
  }

  /** The `genus` variable after a GeneSippr loop: the loop assigns each row's
      observed genus to it, so it holds the last row's, or is unchanged when
      there were no rows. */
  function GenusAfter(genus: string, rows: seq<seq<string>>): string
  {
    if |rows| > 0 && |rows[|rows| - 1]| > 1 then rows[|rows| - 1][1] else genus
  }

  /** The table a GeneSippr block renders and the `genus` it leaves behind. */
  function PanelTable(panel: Panel, metadata: Dict<string, Table>, genus: string): Result<(Tabular, string)>
  {
    match Gather(PanelRowOf(panel, metadata), metadata.keys)
    case Err(e) => Err(e)
    case Ok(rows) => Ok((Tabular(panel.Header(), rows), GenusAfter(genus, rows)))
  }

  /** One `if genus == ...:` block applied to the tables so far and the current `genus`. */
  function PanelStep(panel: Panel, metadata: Dict<string, Table>, tables: seq<Tabular>, genus: string)
    : Result<(seq<Tabular>, string)>
  {
    if genus != panel.Name() then Ok((tables, genus))
    else
      match PanelTable(panel, metadata, genus)
      case Err(e) => Err(e)
      case Ok(result) => Ok((tables + [result.0], result.1))
  }

  /** A block whose panel is not the current `genus` leaves the tables and `genus` alone. */
  lemma PanelStepSkipped(panel: Panel, metadata: Dict<string, Table>, tables: seq<Tabular>, genus: string)
    requires genus != panel.Name()
    ensures PanelStep(panel, metadata, tables, genus) == Ok((tables, genus))
  {
  }

  /** A block whose panel is the current `genus` appends its table and passes
      on the `genus` its loop left. */
  lemma PanelStepTaken(panel: Panel, metadata: Dict<string, Table>, tables: seq<Tabular>)
    requires PanelTable(panel, metadata, panel.Name()).Ok?
    ensures PanelStep(panel, metadata, tables, panel.Name()) == Ok((
      tables + [PanelTable(panel, metadata, panel.Name()).value.0],
      PanelTable(panel, metadata, panel.Name()).value.1))
  {
  }

  /** A block whose loop raises passes the error on. */
  lemma PanelStepFails(panel: Panel, metadata: Dict<string, Table>, tables: seq<Tabular>)
    requires PanelTable(panel, metadata, panel.Name()).Err?
    ensures PanelStep(panel, metadata, tables, panel.Name()) == Err(PanelTable(panel, metadata, panel.Name()).error)
  {
  }

  /** The three blocks in source order, each testing the `genus` the previous one left. */
  function GeneSipprTables(metadata: Dict<string, Table>, genus: string): Result<(seq<Tabular>, string)>
  {
    match PanelStep(Escherichia, metadata, [], genus)
    case Err(e) => Err(e)
    case Ok(s1) =>
      match PanelStep(Listeria, metadata, s1.0, s1.1)
      case Err(e) => Err(e)
      case Ok(s2) => PanelStep(Salmonella, metadata, s2.0, s2.1)
  }

  /** The Escherichia marker status: each cell starts as `'-'` and becomes
      `'+'` when its marker name occurs in the profile string. */
  method EscherichiaMarkers(markerList: string) returns (vt1: string, vt2: string, vt2f: string, uida: string, eae: string)
    ensures [vt1, vt2, vt2f, uida, eae] == MarkerCells(markerList, Escherichia.Markers())
  {
    vt1, vt2, vt2f, uida, eae := "-", "-", "-", "-", "-";
    if Contains(markerList, "VT1") { vt1 := "+"; }
    if Contains(markerList, "VT2") { vt2 := "+"; }
    if Contains(markerList, "VT2f") { vt2f := "+"; }
    if Contains(markerList, "uidA") { uida := "+"; }
    if Contains(markerList, "eae") { eae := "+"; }
  }

  /** The body of the Escherichia loop for one sample. */
  method EscherichiaRow(df: Table, sampleId: string) returns (r: Result<seq<string>>)
    ensures r == PanelRow(Escherichia, df, sampleId)
  {
    var genus := Loc(df, MetadataKey, sampleId, "Genus");
    if genus.Err? {
      return Err(genus.error);
    }
    var profile := Loc(df, MetadataKey, sampleId, "GeneSeekr_Profile");
    if profile.Err? {
      return Err(profile.error);
    }
    var markerList := profile.value;
    var vt1, vt2, vt2f, uida, eae := EscherichiaMarkers(markerList);
    PanelRowIs(Escherichia, df, sampleId, genus.value, [], markerList);
    assert [sampleId, genus.value] + [] + [vt1, vt2, vt2f, uida, eae] == [sampleId, genus.value, vt1, vt2, vt2f, uida, eae];
    r := Ok([sampleId, genus.value, vt1, vt2, vt2f, uida, eae]);
  }

  /** The body of the Listeria loop for one sample. */
  method ListeriaRow(df: Table, sampleId: string) returns (r: Result<seq<string>>)
    ensures r == PanelRow(Listeria, df, sampleId)
  {
    var genus := Loc(df, MetadataKey, sampleId, "Genus");
    if genus.Err? {
      return Err(genus.error);
    }
    var serotype := "temp";
    var profile := Loc(df, MetadataKey, sampleId, "GeneSeekr_Profile");
    if profile.Err? {
      return Err(profile.error);
    }
    var markerList := profile.value;
    var igs, hlya, inlj := "-", "-", "-";
    if Contains(markerList, "IGS") { igs := "+"; }
    assert igs == MarkerCell(markerList, "IGS");
    if Contains(markerList, "hlyA") { hlya := "+"; }
    assert hlya == MarkerCell(markerList, "hlyA");
    if Contains(markerList, "inlJ") { inlj := "+"; }
    assert inlj == MarkerCell(markerList, "inlJ");
    assert MarkerCells(markerList, Listeria.Markers()) == [igs, hlya, inlj];
    PanelRowIs(Listeria, df, sampleId, genus.value, [serotype], markerList);
    assert [sampleId, genus.value] + [serotype] + [igs, hlya, inlj] == [sampleId, genus.value, serotype, igs, hlya, inlj];
    r := Ok([sampleId, genus.value, serotype, igs, hlya, inlj]);
  }

  /** The body of the Salmonella loop for one sample. */
  method SalmonellaRow(df: Table, sampleId: string) returns (r: Result<seq<string>>)
    ensures r == PanelRow(Salmonella, df, sampleId)
  {
    var genus := Loc(df, MetadataKey, sampleId, "Genus");
    if genus.Err? {
      return Err(genus.error);
    }
    var serovar := Loc(df, MetadataKey, sampleId, "SISTR_serovar");
    if serovar.Err? {
      return Err(serovar.error);
    }
    var profile := Loc(df, MetadataKey, sampleId, "GeneSeekr_Profile");
    if profile.Err? {
      return Err(profile.error);
    }
    var markerList := profile.value;
    var inva, stn := "-", "-";
    if Contains(markerList, "invA") { inva := "+"; }
    assert inva == MarkerCell(markerList, "invA");
    if Contains(markerList, "stn") { stn := "+"; }
    assert stn == MarkerCell(markerList, "stn");
    assert MarkerCells(markerList, Salmonella.Markers()) == [inva, stn];
    PanelRowIs(Salmonella, df, sampleId, genus.value, [serovar.value], markerList);
    assert [sampleId, genus.value] + [serovar.value] + [inva, stn] == [sampleId, genus.value, serovar.value, inva, stn];
    r := Ok([sampleId, genus.value, serovar.value, inva, stn]);
  }

  /** The loop body of the block for `panel`. */
  method GeneSipprRow(panel: Panel, df: Table, sampleId: string) returns (r: Result<seq<string>>)
    ensures r == PanelRow(panel, df, sampleId)
  {
    match panel {
      case Escherichia => r := EscherichiaRow(df, sampleId);
      case Listeria => r := ListeriaRow(df, sampleId);
      case Salmonella => r := SalmonellaRow(df, sampleId);
    }
  }

  /** One more completed iteration of a GeneSippr loop appends the sample's row,
      which has a genus cell. */
  lemma PanelLoopExtends(panel: Panel, metadata: Dict<string, Table>, i: nat, rows: seq<seq<string>>)
    requires i < |metadata.keys| && metadata.keys[i] in metadata.entries
    requires Gather(PanelRowOf(panel, metadata), metadata.keys[..i]) == Ok(rows)
    requires PanelRow(panel, metadata.entries[metadata.keys[i]], metadata.keys[i]).Ok?
    ensures
      var row := PanelRow(panel, metadata.entries[metadata.keys[i]], metadata.keys[i]).value;
      && Gather(PanelRowOf(panel, metadata), metadata.keys[..i + 1]) == Ok(rows + [row])
      && |row| > 1
  {
    var sampleId := metadata.keys[i];
    PanelRowGenus(panel, metadata.entries[sampleId], sampleId);
    assert PanelRowOf(panel, metadata)(sampleId) == PanelRow(panel, metadata.entries[sampleId], sampleId);
    GatherExtendOk(PanelRowOf(panel, metadata), metadata.keys, i, rows);
  }

  /** A GeneSippr loop stops at the first row that raises. */
  lemma PanelLoopStops(panel: Panel, metadata: Dict<string, Table>, i: nat, rows: seq<seq<string>>)
    requires i < |metadata.keys| && metadata.keys[i] in metadata.entries
    requires Gather(PanelRowOf(panel, metadata), metadata.keys[..i]) == Ok(rows)
    requires PanelRow(panel, metadata.entries[metadata.keys[i]], metadata.keys[i]).Err?
    ensures Gather(PanelRowOf(panel, metadata), metadata.keys)
      == Err(PanelRow(panel, metadata.entries[metadata.keys[i]], metadata.keys[i]).error)
  {
    var sampleId := metadata.keys[i];
    assert PanelRowOf(panel, metadata)(sampleId) == PanelRow(panel, metadata.entries[sampleId], sampleId);
    GatherStops(PanelRowOf(panel, metadata), metadata.keys, i, rows);
  }

  /** A GeneSippr block's loop over `metadata_reports.items()`: one row per
      sample, with `genus` reassigned to each row's observed genus. */
  method GeneSipprTable(panel: Panel, metadata: Dict<string, Table>, genus: string) returns (r: Result<(Tabular, string)>)
    requires metadata.Valid()
    ensures r == PanelTable(panel, metadata, genus)
  {
    var ks := metadata.keys;
    var rows: seq<seq<string>> := [];
    var current := genus;
    for i := 0 to |ks|
      invariant Gather(PanelRowOf(panel, metadata), ks[..i]) == Ok(rows)
      invariant |rows| == 0 ==> current == genus
      invariant |rows| > 0 ==> |rows[|rows| - 1]| > 1 && current == rows[|rows| - 1][1]
    {
      var sampleId := ks[i];
      var df := metadata.entries[sampleId];
      var row := GeneSipprRow(panel, df, sampleId);
      if row.Err? {
        PanelLoopStops(panel, metadata, i, rows);
        return Err(row.error);
      }
      PanelLoopExtends(panel, metadata, i, rows);
      current := row.value[1];
      rows := rows + [row.value];
    }
    assert ks[..|ks|] == ks;
    r := Ok((Tabular(panel.Header(), rows), current));
  }

  // ---- Sequence quality and pipeline tables ----

  const QualityHeader: seq<string> := ["Seq ID", "Total Length", "Coverage", "# of Contigs", "GDCS Matches", "Pass/Fail"]
  const PipelineHeader: seq<string> := ["Seq ID", "Pipeline Version"]

  /** One sequence-quality row: three metadata fields, then `gdcs_dict[sample_id]`. */
  function QualityRow(metadata: Dict<string, Table>, gdcsDict: Dict<string, (string, string)>, sampleId: string)
    : Result<seq<string>>
  {
    if sampleId !in metadata.entries then Err(MissingKey(sampleId))
    else
      var df := metadata.entries[sampleId];
      match Loc(df, MetadataKey, sampleId, "TotalLength")
      case Err(e) => Err(e)
      case Ok(totalLength) =>
        match Loc(df, MetadataKey, sampleId, "AverageCoverageDepth")
        case Err(e) => Err(e)
        case Ok(coverage) =>
          match Loc(df, MetadataKey, sampleId, "NumContigs")
          case Err(e) => Err(e)
          case Ok(contigs) =>
            if sampleId !in gdcsDict.entries then Err(MissingKey(sampleId))
            else Ok([sampleId, totalLength, coverage, contigs, gdcsDict.entries[sampleId].0, gdcsDict.entries[sampleId].1])
  }

  function QualityRowOf(metadata: Dict<string, Table>, gdcsDict: Dict<string, (string, string)>): string -> Result<seq<string>>
  {
    sampleId => QualityRow(metadata, gdcsDict, sampleId)
  }

  function QualityTableOf(metadata: Dict<string, Table>, gdcsDict: Dict<string, (string, string)>): Result<Tabular>
  {
    match Gather(QualityRowOf(metadata, gdcsDict), metadata.keys)
    case Err(e) => Err(e)
    case Ok(rows) => Ok(Tabular(QualityHeader, rows))
  }

  /** One pipeline row: the sample and its `PipelineVersion`. */
  function PipelineRow(metadata: Dict<string, Table>, sampleId: string): Result<seq<string>>
  {
    if sampleId !in metadata.entries then Err(MissingKey(sampleId))
    else
      match Loc(metadata.entries[sampleId], MetadataKey, sampleId, "PipelineVersion")
      case Err(e) => Err(e)
      case Ok(version) => Ok([sampleId, version])
  }

  function PipelineRowOf(metadata: Dict<string, Table>): string -> Result<seq<string>>
  {
    sampleId => PipelineRow(metadata, sampleId)
  }

  function PipelineTableOf(metadata: Dict<string, Table>): Result<Tabular>
  {
    match Gather(PipelineRowOf(metadata), metadata.keys)
    case Err(e) => Err(e)
    case Ok(rows) => Ok(Tabular(PipelineHeader, rows))
  }

  method QualityTable(metadata: Dict<string, Table>, gdcsDict: Dict<string, (string, string)>) returns (r: Result<Tabular>)
    requires metadata.Valid()
    ensures r == QualityTableOf(metadata, gdcsDict)
  {
    ghost var rowOf := QualityRowOf(metadata, gdcsDict);
    var ks := metadata.keys;
    var rows: seq<seq<string>> := [];
    for i := 0 to |ks|
      invariant Gather(rowOf, ks[..i]) == Ok(rows)
    {
      var sampleId := ks[i];
      var df := metadata.entries[sampleId];
      var totalLength := Loc(df, MetadataKey, sampleId, "TotalLength");
      if totalLength.Err? {
        GatherStops(rowOf, ks, i, rows);
        return Err(totalLength.error);
      }
      var averageCoverageDepth := Loc(df, MetadataKey, sampleId, "AverageCoverageDepth");
      if averageCoverageDepth.Err? {
        GatherStops(rowOf, ks, i, rows);
        return Err(averageCoverageDepth.error);
      }
      var numContigs := Loc(df, MetadataKey, sampleId, "NumContigs");
      if numContigs.Err? {
        GatherStops(rowOf, ks, i, rows);
        return Err(numContigs.error);
      }
      if sampleId !in gdcsDict.entries {
        GatherStops(rowOf, ks, i, rows);
        return Err(MissingKey(sampleId));
      }
      var matches := gdcsDict.entries[sampleId].0;
      var passfail := gdcsDict.entries[sampleId].1;
      var row := [sampleId, totalLength.value, averageCoverageDepth.value, numContigs.value, matches, passfail];
      assert rowOf(sampleId) == Ok(row);
      GatherExtendOk(rowOf, ks, i, rows);
      rows := rows + [row];
    }
    assert ks[..|ks|] == ks;
    r := Ok(Tabular(QualityHeader, rows));
  }

  method PipelineTable(metadata: Dict<string, Table>) returns (r: Result<Tabular>)
    requires metadata.Valid()
    ensures r == PipelineTableOf(metadata)
  {
    ghost var rowOf := PipelineRowOf(metadata);
    var ks := metadata.keys;
    var rows: seq<seq<string>> := [];
    for i := 0 to |ks|
      invariant Gather(rowOf, ks[..i]) == Ok(rows)
    {
      var sampleId := ks[i];
      var df := metadata.entries[sampleId];
      var pipelineVersion := Loc(df, MetadataKey, sampleId, "PipelineVersion");
      if pipelineVersion.Err? {
        GatherStops(rowOf, ks, i, rows);
        return Err(pipelineVersion.error);
      }
      var row := [sampleId, pipelineVersion.value];
      assert rowOf(sampleId) == Ok(row);
      GatherExtendOk(rowOf, ks, i, rows);
      rows := rows + [row];
    }
    assert ks[..|ks|] == ks;
    r := Ok(Tabular(PipelineHeader, rows));
  }

  // ---- The whole report ----

  /** The report's contents. `confirmedGenus` is the argument, shown in the
      identification summary before any table is built; `finalGenus` is what
      the `genus` variable holds at the end (the PDF file name uses it). */
  datatype Report = Report(
    lab: Tabular,
    confirmedGenus: string,
    geneSippr: seq<Tabular>,
    quality: Tabular,
    pipeline: Tabular,
    finalGenus: string)

  /** The tables built from the located reports, in the order generate_roga builds them. */
  function ReportOf(metadata: Dict<string, Table>, gdcsDict: Dict<string, (string, string)>, genus: string, lab: string)
    : Result<Report>
  {
    match LabTable(lab)
    case Err(e) => Err(e)
    case Ok(labTable) =>
      match GeneSipprTables(metadata, genus)
      case Err(e) => Err(e)
      case Ok(genesippr) =>
        match QualityTableOf(metadata, gdcsDict)
        case Err(e) => Err(e)
        case Ok(quality) =>
          match PipelineTableOf(metadata)
          case Err(e) => Err(e)
          case Ok(pipeline) => Ok(Report(labTable, genus, genesippr.0, quality, pipeline, genesippr.1))
  }

  /** What `generate_roga(seq_list, genus, lab)` builds or raises, given the
      loaded combinedMetadata and GDCS tables. */
  function Roga(metadataReports: seq<Table>, gdcsReports: seq<Table>, seqList: seq<string>, genus: string, lab: string)
    : Result<Report>
  {
    match Locate(metadataReports, seqList, MetadataKey)
    case Err(e) => Err(e)
    case Ok(metadata) =>
      match Locate(gdcsReports, seqList, GdcsKey)
      case Err(e) => Err(e)
      case Ok(gdcs) =>
        match GdcsValues(gdcs, gdcs.keys)
        case Err(e) => Err(e)
        case Ok(gdcsDict) => ReportOf(metadata, gdcsDict, genus, lab)
  }

  /** The GeneSippr section: the Escherichia, Listeria and Salmonella blocks in
      turn, each entered only when the current `genus` names its panel. */
  method GeneSippr(metadata: Dict<string, Table>, genus: string) returns (r: Result<(seq<Tabular>, string)>)
    requires metadata.Valid()
    ensures r == GeneSipprTables(metadata, genus)
  {
    var tables: seq<Tabular> := [];
    var current := genus;
    if current == "Escherichia" {
      var t := GeneSipprTable(Escherichia, metadata, current);
      if t.Err? {
        PanelStepFails(Escherichia, metadata, tables);
        return Err(t.error);
      }
      PanelStepTaken(Escherichia, metadata, tables);
      tables := tables + [t.value.0];
      current := t.value.1;
    } else {
      PanelStepSkipped(Escherichia, metadata, tables, current);
    }
    ghost var tables1, genus1 := tables, current;
    if current == "Listeria" {
      var t := GeneSipprTable(Listeria, metadata, current);
      if t.Err? {
        PanelStepFails(Listeria, metadata, tables);
        return Err(t.error);
      }
      PanelStepTaken(Listeria, metadata, tables);
      tables := tables + [t.value.0];
      current := t.value.1;
    } else {
      PanelStepSkipped(Listeria, metadata, tables, current);
    }
    assert PanelStep(Listeria, metadata, tables1, genus1) == Ok((tables, current));
    ghost var tables2, genus2 := tables, current;
    if current == "Salmonella" {
      var t := GeneSipprTable(Salmonella, metadata, current);
      if t.Err? {
        PanelStepFails(Salmonella, metadata, tables);
        return Err(t.error);
      }
      PanelStepTaken(Salmonella, metadata, tables);
      tables := tables + [t.value.0];
      current := t.value.1;
    } else {
      PanelStepSkipped(Salmonella, metadata, tables, current);
    }
    assert PanelStep(Salmonella, metadata, tables2, genus2) == Ok((tables, current));
    r := Ok((tables, current));
  }

  method BuildReport(metadata: Dict<string, Table>, gdcsDict: Dict<string, (string, string)>, genus: string, lab: string)
    returns (r: Result<Report>)
    requires metadata.Valid()
    ensures r == ReportOf(metadata, gdcsDict, genus, lab)
  {
    if lab !in LabInfo {
      return Err(MissingKey(lab));
    }
    var labTable := Tabular(LabHeader, [[lab, LabInfo[lab].0, LabInfo[lab].1]]);
    var geneSippr := GeneSippr(metadata, genus);
    if geneSippr.Err? {
      return Err(geneSippr.error);
    }
    var tables, current := geneSippr.value.0, geneSippr.value.1;
    var quality := QualityTable(metadata, gdcsDict);
    if quality.Err? {
      return Err(quality.error);
    }
    var pipeline := PipelineTable(metadata);
    if pipeline.Err? {
      return Err(pipeline.error);
    }
    r := Ok(Report(labTable, genus, tables, quality.value, pipeline.value, current));
  }

  method GenerateRoga(metadataReports: seq<Table>, gdcsReports: seq<Table>, seqList: seq<string>, genus: string, lab: string)
    returns (r: Result<Report>)
    ensures r == Roga(metadataReports, gdcsReports, seqList, genus, lab)
  {
    var metadata := GetCombinedMetadata(metadataReports, seqList);
    if metadata.Err? {
      return Err(metadata.error);
    }
    var gdcs := GetGdcs(gdcsReports, seqList);
    if gdcs.Err? {
      return Err(gdcs.error);
    }
    LocatedValid(gdcsReports, seqList, GdcsKey);
    var gdcsDict := GenerateGdcsDict(gdcs.value);
    if gdcsDict.Err? {
      return Err(gdcsDict.error);
    }
    LocatedValid(metadataReports, seqList, MetadataKey);
    r := BuildReport(metadata.value, gdcsDict.value, genus, lab);
  }

  // ---- redmine_roga ----

  /** The hard-coded request of `redmine_roga`. */
  const DummyList: seq<string> := ["2017-SEQ-0725", "2017-SEQ-0726", "2017-SEQ-0727"]
  const RedmineGenus := "Salmonella"
  const RedmineLab := "GTA-CFIA"

  /** `redmine_roga` either quits because no requested sample has the expected
      genus (the ignored IDs are the ones it warned about) or generates the report. */
  datatype Outcome = NoValidSamples(ignored: seq<string>) | Generated(report: Report)

  function Redmine(metadataReports: seq<Table>, gdcsReports: seq<Table>): Result<Outcome>
  {
    match ValidatedList(metadataReports, DummyList, RedmineGenus)
    case Err(e) => Err(e)
    case Ok(v) =>
      if |v.validated| == 0 then Ok(NoValidSamples(v.ignored))
      else
        match Roga(metadataReports, gdcsReports, v.validated, RedmineGenus, RedmineLab)
        case Err(e) => Err(e)
        case Ok(report) => Ok(Generated(report))
  }

  method RedmineRoga(metadataReports: seq<Table>, gdcsReports: seq<Table>) returns (r: Result<Outcome>)
    ensures r == Redmine(metadataReports, gdcsReports)
  {
    var validation := GenerateValidatedList(metadataReports, DummyList, RedmineGenus);
    if validation.Err? {
      return Err(validation.error);
    }
    var validatedList := validation.value.validated;
    if |validatedList| == 0 {
      return Ok(NoValidSamples(validation.value.ignored));
    }
    var report := GenerateRoga(metadataReports, gdcsReports, validatedList, RedmineGenus, RedmineLab);
    if report.Err? {
      return Err(report.error);
    }
    r := Ok(Generated(report.value));
  }
}
