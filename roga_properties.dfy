/** What the report of generate_roga.py shows: the meaning of a GeneSippr row
    and of a quality row, which GeneSippr tables the `genus` variable selects,
    and what `redmine_roga` can and cannot produce. */
module RogaProperties {
  import opened Results
  import opened PyDict
  import opened PyStr
  import opened Frames
  import opened ReportLocator
  import opened ExtractReportData
  import opened Loops
  import opened GenerateRoga

  // ---- GeneSippr rows ----

  /** A GeneSippr row exists exactly when the genus, the typing field and the
      profile can all be looked up. It has one cell per header column: the
      sample ID, the observed genus, the typing cell, then per marker `'+'`
      when the marker name occurs in the profile and `'-'` otherwise. */
  lemma PanelRowMeaning(panel: Panel, df: Table, sampleId: string)
    ensures PanelRow(panel, df, sampleId).Ok? <==>
      && Loc(df, MetadataKey, sampleId, "Genus").Ok?
      && TypingCells(panel, df, sampleId).Ok?
      && Loc(df, MetadataKey, sampleId, "GeneSeekr_Profile").Ok?
    ensures PanelRow(panel, df, sampleId).Ok? ==>
      var row := PanelRow(panel, df, sampleId).value;
      var profile := Loc(df, MetadataKey, sampleId, "GeneSeekr_Profile").value;
      var first := 2 + |panel.TypingHeader()|;
      && |row| == |panel.Header()|
      && row[0] == sampleId
      && Ok(row[1]) == Loc(df, MetadataKey, sampleId, "Genus")
      && (panel == Listeria ==> row[2] == "temp")
      && (panel == Salmonella ==> Ok(row[2]) == Loc(df, MetadataKey, sampleId, "SISTR_serovar"))
      && (forall j :: first <= j < |row| ==> panel.Header()[j] == panel.Markers()[j - first])
      && (forall j :: first <= j < |row| ==> (row[j] == "+" <==> Contains(profile, panel.Header()[j])))
      && (forall j :: first <= j < |row| ==> row[j] == "+" || row[j] == "-")
  {
    if PanelRow(panel, df, sampleId).Ok? {
      var row := PanelRow(panel, df, sampleId).value;
      var profile := Loc(df, MetadataKey, sampleId, "GeneSeekr_Profile").value;
      var typing := TypingCells(panel, df, sampleId).value;
      var first := 2 + |panel.TypingHeader()|;
      assert row == [sampleId, Loc(df, MetadataKey, sampleId, "Genus").value] + typing + MarkerCells(profile, panel.Markers());
      assert |typing| == |panel.TypingHeader()|;
      forall j | first <= j < |row|
        ensures panel.Header()[j] == panel.Markers()[j - first]
        ensures row[j] == MarkerCell(profile, panel.Markers()[j - first])
      {
      }
    }
  }

  /** Whenever the VT2f cell of an Escherichia row is `'+'`, so is its VT2
      cell: the test is a substring test, and `VT2` is a prefix of `VT2f`. */
  lemma VT2fShowsVT2(df: Table, sampleId: string)
    requires PanelRow(Escherichia, df, sampleId).Ok?
    requires PanelRow(Escherichia, df, sampleId).value[4] == "+"
    ensures PanelRow(Escherichia, df, sampleId).value[3] == "+"
  {
    PanelRowMeaning(Escherichia, df, sampleId);
    var profile := Loc(df, MetadataKey, sampleId, "GeneSeekr_Profile").value;
    assert Contains(profile, "VT2f");
    PrefixOfContainedIsContained(profile, "VT2", "VT2f");
  }

  /** Every marker that parse_geneseekr_profile reports for a profile is shown
      as `'+'` in a GeneSippr marker cell. */
  lemma ParsedMarkerShowsPlus(profile: string, marker: string)
    requires marker in KnownMarkers(Split(profile, ';'))
    ensures MarkerCell(profile, marker) == "+"
  {
    var parts := Split(profile, ';');
    var k :| 0 <= k < |parts| && parts[k] == marker;
    SplitPiecesOccur(profile, ';', k);
  }

  /** The marker test finds `VT2` in the profile `VT2f`. */
  lemma VT2InVT2f()
    ensures MarkerCell("VT2f", "VT2") == "+"
  {
    assert "VT2f"[..3] == "VT2";
  }

  /** parse_geneseekr_profile reports exactly `VT2f` for the profile `VT2f`. */
  lemma ParseVT2f()
    ensures KnownMarkers(Split("VT2f", ';')) == ["VT2f"]
  {
    SplitWithoutSeparator("VT2f", ';');
    assert ["VT2f"][..0] == [];
    assert "VT2f" == MarkerList[7];
  }

  /** The converse fails: the profile `VT2f` shows `'+'` for `VT2` although
      parse_geneseekr_profile does not report `VT2` for it. */
  lemma SubstringIsNotToken()
    ensures MarkerCell("VT2f", "VT2") == "+"
    ensures "VT2" !in KnownMarkers(Split("VT2f", ';'))
  {
    VT2InVT2f();
    ParseVT2f();
    assert |"VT2"| != |"VT2f"|;
  }

  // ---- GeneSippr tables ----

  /** A completed GeneSippr block has one row per located sample, in
      `metadata_reports` order, each the row of that sample, and leaves
      `genus` holding the last sample's observed genus (or unchanged when
      there are no samples). It completes exactly when every row does. */
  lemma PanelTableRows(panel: Panel, metadata: Dict<string, Table>, genus: string)
    ensures PanelTable(panel, metadata, genus).Ok? <==>
      forall i :: 0 <= i < |metadata.keys| ==> PanelRowOf(panel, metadata)(metadata.keys[i]).Ok?
    ensures PanelTable(panel, metadata, genus).Ok? ==>
      var table := PanelTable(panel, metadata, genus).value.0;
      var ks := metadata.keys;
      && table.header == panel.Header()
      && |table.rows| == |ks|
      && (forall i :: 0 <= i < |ks| ==>
            && ks[i] in metadata.entries
            && Ok(table.rows[i]) == PanelRow(panel, metadata.entries[ks[i]], ks[i])
            && table.rows[i][0] == ks[i])
      && (|ks| == 0 ==> PanelTable(panel, metadata, genus).value.1 == genus)
      && (|ks| > 0 ==>
            Ok(PanelTable(panel, metadata, genus).value.1) == Loc(metadata.entries[ks[|ks| - 1]], MetadataKey, ks[|ks| - 1], "Genus"))
  {
    var f := PanelRowOf(panel, metadata);
    var ks := metadata.keys;
    GatherOk(f, ks);
    if Gather(f, ks).Ok? {
      GatherRows(f, ks);
      var rows := Gather(f, ks).value;
      forall i | 0 <= i < |ks|
        ensures ks[i] in metadata.entries
        ensures Ok(rows[i]) == PanelRow(panel, metadata.entries[ks[i]], ks[i])
        ensures rows[i][0] == ks[i]
      {
        assert Ok(rows[i]) == f(ks[i]);
        PanelRowGenus(panel, metadata.entries[ks[i]], ks[i]);
      }
      if |ks| > 0 {
        var last := |ks| - 1;
        PanelRowGenus(panel, metadata.entries[ks[last]], ks[last]);
        assert |rows[last]| == |panel.Header()| > 1;
      }
    }
  }

  /** A genus other than the three panels renders no GeneSippr table. */
  lemma OtherGenusNoTables(metadata: Dict<string, Table>, genus: string)
    requires genus != "Escherichia" && genus != "Listeria" && genus != "Salmonella"
    ensures GeneSipprTables(metadata, genus) == Ok(([], genus))
  {
  }

  /** Every located sample's observed genus is `genus`. */
  predicate AllOfGenus(metadata: Dict<string, Table>, genus: string)
  {
    forall k :: k in metadata.entries ==> Loc(metadata.entries[k], MetadataKey, k, "Genus") == Ok(genus)
  }

  /** When every located sample's observed genus is the requested panel's,
      exactly that panel's table is rendered and `genus` ends unchanged. */
  lemma SinglePanelWhenConsistent(panel: Panel, metadata: Dict<string, Table>)
    requires PanelTable(panel, metadata, panel.Name()).Ok?
    requires AllOfGenus(metadata, panel.Name())
    ensures GeneSipprTables(metadata, panel.Name()) == Ok(([PanelTable(panel, metadata, panel.Name()).value.0], panel.Name()))
  {
    var ks := metadata.keys;
    var t := PanelTable(panel, metadata, panel.Name()).value;
    PanelTableRows(panel, metadata, panel.Name());
    if |ks| > 0 {
      assert ks[|ks| - 1] in metadata.entries;
    }
    assert t.1 == panel.Name();
    PanelStepTaken(panel, metadata, []);
    assert [] + [t.0] == [t.0];
    match panel {
      case Escherichia =>
        PanelStepSkipped(Listeria, metadata, [t.0], panel.Name());
        PanelStepSkipped(Salmonella, metadata, [t.0], panel.Name());
      case Listeria =>
        PanelStepSkipped(Escherichia, metadata, [], panel.Name());
        PanelStepSkipped(Salmonella, metadata, [t.0], panel.Name());
      case Salmonella =>
        PanelStepSkipped(Escherichia, metadata, [], panel.Name());
        PanelStepSkipped(Listeria, metadata, [], panel.Name());
    }
  }

  /** The blocks test the `genus` the previous block left behind: a requested
      Escherichia report whose last sample is a Listeria also renders the
      Listeria table. */
  lemma EscherichiaCascadesToListeria(metadata: Dict<string, Table>)
    requires PanelTable(Escherichia, metadata, "Escherichia").Ok?
    requires PanelTable(Escherichia, metadata, "Escherichia").value.1 == "Listeria"
    requires PanelTable(Listeria, metadata, "Listeria").Ok?
    requires PanelTable(Listeria, metadata, "Listeria").value.1 != "Salmonella"
    ensures GeneSipprTables(metadata, "Escherichia") == Ok((
      [PanelTable(Escherichia, metadata, "Escherichia").value.0, PanelTable(Listeria, metadata, "Listeria").value.0],
      PanelTable(Listeria, metadata, "Listeria").value.1))
  {
    var t1 := PanelTable(Escherichia, metadata, "Escherichia").value.0;
    var t2 := PanelTable(Listeria, metadata, "Listeria").value.0;
    var g2 := PanelTable(Listeria, metadata, "Listeria").value.1;
    PanelStepTaken(Escherichia, metadata, []);
    PanelStepTaken(Listeria, metadata, [] + [t1]);
    PanelStepSkipped(Salmonella, metadata, [] + [t1] + [t2], g2);
    assert [] + [t1] + [t2] == [t1, t2];
  }

  /** The three blocks render at most three tables between them; a genus
      naming a panel renders that panel's table first. */
  lemma GeneSipprTablesShape(metadata: Dict<string, Table>, genus: string)
    requires GeneSipprTables(metadata, genus).Ok?
    ensures |GeneSipprTables(metadata, genus).value.0| <= 3
    ensures forall panel: Panel :: panel.Name() == genus ==>
      && |GeneSipprTables(metadata, genus).value.0| >= 1
      && GeneSipprTables(metadata, genus).value.0[0].header == panel.Header()
  {
    var tables := GeneSipprTables(metadata, genus).value.0;
    var s1 := PanelStep(Escherichia, metadata, [], genus).value;
    var s2 := PanelStep(Listeria, metadata, s1.0, s1.1).value;
    assert |s1.0| <= 1;
    assert |s2.0| <= |s1.0| + 1;
    assert tables == PanelStep(Salmonella, metadata, s2.0, s2.1).value.0;
    if genus == "Escherichia" {
      assert |s1.0| == 1 && s1.0[0].header == Escherichia.Header();
      assert s2.0[0] == s1.0[0];
    } else if genus == "Listeria" {
      assert s1 == ([], genus);
      assert |s2.0| == 1 && s2.0[0].header == Listeria.Header();
    } else if genus == "Salmonella" {
      assert s1 == ([], genus);
      assert s2 == ([], genus);
    }
  }

  // ---- Sequence quality table ----

  /** A quality row exists exactly when the sample was located, its three
      metadata fields can be looked up and `gdcs_dict` has it; a located
      sample missing from `gdcs_dict` is the KeyError. The row is the sample,
      its `TotalLength`, `AverageCoverageDepth` and `NumContigs`, then its GDCS
      matches and verdict, one cell per header column. */
  lemma QualityRowMeaning(metadata: Dict<string, Table>, gdcsDict: Dict<string, (string, string)>, sampleId: string)
    ensures QualityRow(metadata, gdcsDict, sampleId).Ok? <==>
      && sampleId in metadata.entries
      && Loc(metadata.entries[sampleId], MetadataKey, sampleId, "TotalLength").Ok?
      && Loc(metadata.entries[sampleId], MetadataKey, sampleId, "AverageCoverageDepth").Ok?
      && Loc(metadata.entries[sampleId], MetadataKey, sampleId, "NumContigs").Ok?
      && sampleId in gdcsDict.entries
    ensures sampleId !in gdcsDict.entries ==> QualityRow(metadata, gdcsDict, sampleId).Err?
    ensures
      && sampleId in metadata.entries
      && Loc(metadata.entries[sampleId], MetadataKey, sampleId, "TotalLength").Ok?
      && Loc(metadata.entries[sampleId], MetadataKey, sampleId, "AverageCoverageDepth").Ok?
      && Loc(metadata.entries[sampleId], MetadataKey, sampleId, "NumContigs").Ok?
      && sampleId !in gdcsDict.entries
      ==> QualityRow(metadata, gdcsDict, sampleId) == Err(MissingKey(sampleId))
    ensures QualityRow(metadata, gdcsDict, sampleId).Ok? ==>
      var row := QualityRow(metadata, gdcsDict, sampleId).value;
      var df := metadata.entries[sampleId];
      && |row| == |QualityHeader|
      && row[0] == sampleId
      && Ok(row[1]) == Loc(df, MetadataKey, sampleId, "TotalLength")
      && Ok(row[2]) == Loc(df, MetadataKey, sampleId, "AverageCoverageDepth")
      && Ok(row[3]) == Loc(df, MetadataKey, sampleId, "NumContigs")
      && (row[4], row[5]) == gdcsDict.entries[sampleId]
  {
  }

  /** A completed quality table has one row per located sample, in
      `metadata_reports` order, each showing that sample's entry of `gdcs_dict`. */
  lemma QualityTableRows(metadata: Dict<string, Table>, gdcsDict: Dict<string, (string, string)>)
    requires QualityTableOf(metadata, gdcsDict).Ok?
    ensures
      var rows := QualityTableOf(metadata, gdcsDict).value.rows;
      && |rows| == |metadata.keys|
      && forall i :: 0 <= i < |metadata.keys| ==>
           && |rows[i]| == |QualityHeader|
           && rows[i][0] == metadata.keys[i]
           && metadata.keys[i] in gdcsDict.entries
           && (rows[i][4], rows[i][5]) == gdcsDict.entries[metadata.keys[i]]
  {
    var f := QualityRowOf(metadata, gdcsDict);
    GatherRows(f, metadata.keys);
    forall i | 0 <= i < |metadata.keys|
      ensures |Gather(f, metadata.keys).value[i]| == |QualityHeader|
      ensures Gather(f, metadata.keys).value[i][0] == metadata.keys[i]
      ensures metadata.keys[i] in gdcsDict.entries
      ensures (Gather(f, metadata.keys).value[i][4], Gather(f, metadata.keys).value[i][5]) == gdcsDict.entries[metadata.keys[i]]
    {
      QualityRowMeaning(metadata, gdcsDict, metadata.keys[i]);
    }
  }

  /** A completed pipeline table has one row per located sample, in
      `metadata_reports` order: the sample and the `PipelineVersion` of its
      first `SeqID` row. */
  lemma PipelineTableRows(metadata: Dict<string, Table>)
    requires PipelineTableOf(metadata).Ok?
    ensures |PipelineTableOf(metadata).value.rows| == |metadata.keys|
    ensures forall i :: 0 <= i < |metadata.keys| ==>
      |PipelineTableOf(metadata).value.rows[i]| == |PipelineHeader| && PipelineTableOf(metadata).value.rows[i][0] == metadata.keys[i]
    ensures forall i :: 0 <= i < |metadata.keys| ==>
      && metadata.keys[i] in metadata.entries
      && Ok(PipelineTableOf(metadata).value.rows[i][1])
         == Loc(metadata.entries[metadata.keys[i]], MetadataKey, metadata.keys[i], "PipelineVersion")
  {
    var f := PipelineRowOf(metadata);
    GatherRows(f, metadata.keys);
    forall i | 0 <= i < |metadata.keys|
      ensures Gather(f, metadata.keys).value[i][0] == metadata.keys[i]
      ensures |Gather(f, metadata.keys).value[i]| == |PipelineHeader|
      ensures metadata.keys[i] in metadata.entries
      ensures Ok(Gather(f, metadata.keys).value[i][1])
         == Loc(metadata.entries[metadata.keys[i]], MetadataKey, metadata.keys[i], "PipelineVersion")
    {
      assert Ok(Gather(f, metadata.keys).value[i]) == PipelineRow(metadata, metadata.keys[i]);
    }
  }

  /** `gdcs_dict` holds only located GDCS samples, each with the values of its
      report's first matching row. */
  lemma GdcsDictEntries(gdcs: Dict<string, Table>)
    requires gdcs.Valid()
    requires GdcsValues(gdcs, gdcs.keys).Ok?
    ensures forall k :: k in GdcsValues(gdcs, gdcs.keys).value.entries ==>
      && k in gdcs.entries
      && Ok(GdcsValues(gdcs, gdcs.keys).value.entries[k]) == GdcsEntry(gdcs, k)
  {
    forall k | k in GdcsValues(gdcs, gdcs.keys).value.entries
      ensures k in gdcs.entries
      ensures Ok(GdcsValues(gdcs, gdcs.keys).value.entries[k]) == GdcsEntry(gdcs, k)
    {
      CollectEntry(GdcsLookup(gdcs), gdcs.keys, k);
    }
  }

  /** The report's parts are the tables built in turn. */
  lemma ReportOfParts(metadata: Dict<string, Table>, gdcsDict: Dict<string, (string, string)>, genus: string, lab: string)
    requires ReportOf(metadata, gdcsDict, genus, lab).Ok?
    ensures
      var report := ReportOf(metadata, gdcsDict, genus, lab).value;
      && LabTable(lab) == Ok(report.lab)
      && report.confirmedGenus == genus
      && GeneSipprTables(metadata, genus) == Ok((report.geneSippr, report.finalGenus))
      && QualityTableOf(metadata, gdcsDict) == Ok(report.quality)
      && PipelineTableOf(metadata) == Ok(report.pipeline)
  {
  }

  /** A generated report comes from the located metadata, the located GDCS
      reports and the `gdcs_dict` built from them. */
  lemma RogaParts(metadataReports: seq<Table>, gdcsReports: seq<Table>, seqList: seq<string>, genus: string, lab: string)
    requires Roga(metadataReports, gdcsReports, seqList, genus, lab).Ok?
    ensures AllHaveColumn(metadataReports, MetadataKey) && AllHaveColumn(gdcsReports, GdcsKey)
    ensures
      var gd := Located(gdcsReports, seqList, GdcsKey);
      && GdcsValues(gd, gd.keys).Ok?
      && ReportOf(Located(metadataReports, seqList, MetadataKey), GdcsValues(gd, gd.keys).value, genus, lab)
         == Roga(metadataReports, gdcsReports, seqList, genus, lab)
  {
  }

  // ---- The whole report ----

  /** A generated report has one quality row and one pipeline row per located
      metadata sample, in `metadata_reports` order. Every such sample also
      has a GDCS report, and its quality row shows the `Matches` and
      `Pass/Fail` of that report's first matching row; its pipeline row shows
      its `PipelineVersion`. */
  lemma RogaQualityRows(metadataReports: seq<Table>, gdcsReports: seq<Table>, seqList: seq<string>, genus: string, lab: string)
    requires Roga(metadataReports, gdcsReports, seqList, genus, lab).Ok?
    ensures AllHaveColumn(metadataReports, MetadataKey) && AllHaveColumn(gdcsReports, GdcsKey)
    ensures
      var md := Located(metadataReports, seqList, MetadataKey);
      var gd := Located(gdcsReports, seqList, GdcsKey);
      var report := Roga(metadataReports, gdcsReports, seqList, genus, lab).value;
      && |report.quality.rows| == |md.keys|
      && |report.pipeline.rows| == |md.keys|
      && forall i :: 0 <= i < |md.keys| ==>
           && |report.quality.rows[i]| == |QualityHeader|
           && |report.pipeline.rows[i]| == |PipelineHeader|
           && report.quality.rows[i][0] == md.keys[i]
           && report.pipeline.rows[i][0] == md.keys[i]
           && md.keys[i] in md.entries
           && Ok(report.pipeline.rows[i][1]) == Loc(md.entries[md.keys[i]], MetadataKey, md.keys[i], "PipelineVersion")
           && md.keys[i] in gd.entries
           && Ok((report.quality.rows[i][4], report.quality.rows[i][5])) == GdcsEntry(gd, md.keys[i])
  {
    RogaParts(metadataReports, gdcsReports, seqList, genus, lab);
    var md := Located(metadataReports, seqList, MetadataKey);
    var gd := Located(gdcsReports, seqList, GdcsKey);
    var gdcsDict := GdcsValues(gd, gd.keys).value;
    ReportOfParts(md, gdcsDict, genus, lab);
    QualityTableRows(md, gdcsDict);
    PipelineTableRows(md);
    LocatedValid(gdcsReports, seqList, GdcsKey);
    GdcsDictEntries(gd);
  }

  /** When every located sample's observed genus is the requested panel's, the
      report has exactly that panel's GeneSippr table and `genus` ends as
      requested. */
  lemma RogaSinglePanel(metadataReports: seq<Table>, gdcsReports: seq<Table>, seqList: seq<string>, panel: Panel, genus: string, lab: string)
    requires genus == panel.Name()
    requires Roga(metadataReports, gdcsReports, seqList, genus, lab).Ok?
    requires AllHaveColumn(metadataReports, MetadataKey)
    requires AllOfGenus(Located(metadataReports, seqList, MetadataKey), genus)
    ensures
      var report := Roga(metadataReports, gdcsReports, seqList, genus, lab).value;
      && report.confirmedGenus == genus
      && LabTable(lab) == Ok(report.lab)
      && |report.geneSippr| == 1
      && report.geneSippr[0].header == panel.Header()
      && report.finalGenus == genus
  {
    RogaParts(metadataReports, gdcsReports, seqList, genus, lab);
    var md := Located(metadataReports, seqList, MetadataKey);
    var gd := Located(gdcsReports, seqList, GdcsKey);
    ReportOfParts(md, GdcsValues(gd, gd.keys).value, genus, lab);
    match panel {
      case Escherichia =>
      case Listeria =>
        PanelStepSkipped(Escherichia, md, [], genus);
      case Salmonella =>
        PanelStepSkipped(Escherichia, md, [], genus);
        PanelStepSkipped(Listeria, md, [], genus);
    }
    assert GeneSipprTables(md, genus).Ok?;
    assert PanelTable(panel, md, genus).Ok?;
    SinglePanelWhenConsistent(panel, md);
  }

  // ---- redmine_roga ----

  /** Locating the validated IDs finds only samples whose observed genus is the
      expected one, and at least one sample when the validated list is not
      empty. */
  lemma ValidatedSamplesHaveGenus(metadataReports: seq<Table>, seqList: seq<string>, genus: string)
    requires ValidatedList(metadataReports, seqList, genus).Ok?
    ensures AllHaveColumn(metadataReports, MetadataKey)
    ensures
      var md := Located(metadataReports, ValidatedList(metadataReports, seqList, genus).value.validated, MetadataKey);
      && AllOfGenus(md, genus)
      && (ValidatedList(metadataReports, seqList, genus).value.validated != [] ==> |md.keys| >= 1)
  {
    var v := ValidatedList(metadataReports, seqList, genus).value;
    ValidatedListMeaning(metadataReports, seqList, genus);
    var located := Located(metadataReports, seqList, MetadataKey);
    var md := Located(metadataReports, v.validated, MetadataKey);
    forall k | k in md.entries
      ensures Loc(md.entries[k], MetadataKey, k, "Genus") == Ok(genus)
    {
      LocatedKeys(metadataReports, v.validated, MetadataKey, k);
      assert ObservedGenus(located, k) == Ok(genus);
      LocatedSameEntry(metadataReports, seqList, v.validated, MetadataKey, k);
    }
    if v.validated != [] {
      var x := v.validated[0];
      assert x in v.validated;
      assert ObservedGenus(located, x) == Ok(genus);
      LocatedSameEntry(metadataReports, seqList, v.validated, MetadataKey, x);
      LocatedValid(metadataReports, v.validated, MetadataKey);
    }
  }

  /** `redmine_roga` quits exactly when none of its requested IDs has the
      observed genus Salmonella, and then it has warned about every one of them. */
  lemma RedmineQuitsWhenNoneValid(metadataReports: seq<Table>, gdcsReports: seq<Table>)
    requires Redmine(metadataReports, gdcsReports).Ok?
    ensures AllHaveColumn(metadataReports, MetadataKey)
    ensures
      var located := Located(metadataReports, DummyList, MetadataKey);
      Redmine(metadataReports, gdcsReports).value.NoValidSamples? <==>
        forall x :: x in DummyList ==> ObservedGenus(located, x) != Ok(RedmineGenus)
    ensures Redmine(metadataReports, gdcsReports).value.NoValidSamples? ==>
      forall x :: x in Redmine(metadataReports, gdcsReports).value.ignored <==> x in DummyList
  {
    ValidatedListMeaning(metadataReports, DummyList, RedmineGenus);
    var v := ValidatedList(metadataReports, DummyList, RedmineGenus).value;
    if v.validated != [] {
      assert v.validated[0] in v.validated;
    }
  }

  /** A generated report is generate_roga's report for a non-empty validated list. */
  lemma RedmineParts(metadataReports: seq<Table>, gdcsReports: seq<Table>)
    requires Redmine(metadataReports, gdcsReports).Ok?
    requires Redmine(metadataReports, gdcsReports).value.Generated?
    ensures ValidatedList(metadataReports, DummyList, RedmineGenus).Ok?
    ensures
      var validated := ValidatedList(metadataReports, DummyList, RedmineGenus).value.validated;
      && validated != []
      && Roga(metadataReports, gdcsReports, validated, RedmineGenus, RedmineLab)
         == Ok(Redmine(metadataReports, gdcsReports).value.report)
    ensures AllHaveColumn(metadataReports, MetadataKey)
    ensures AllOfGenus(Located(metadataReports, ValidatedList(metadataReports, DummyList, RedmineGenus).value.validated, MetadataKey), RedmineGenus)
  {
    ValidatedSamplesHaveGenus(metadataReports, DummyList, RedmineGenus);
  }

  /** A report `redmine_roga` generates is never empty: it has at least one
      quality row and one pipeline row. */
  lemma RedmineReportNotEmpty(metadataReports: seq<Table>, gdcsReports: seq<Table>)
    requires Redmine(metadataReports, gdcsReports).Ok?
    requires Redmine(metadataReports, gdcsReports).value.Generated?
    ensures |Redmine(metadataReports, gdcsReports).value.report.quality.rows| >= 1
    ensures |Redmine(metadataReports, gdcsReports).value.report.pipeline.rows| >= 1
  {
    RedmineParts(metadataReports, gdcsReports);
    var validated := ValidatedList(metadataReports, DummyList, RedmineGenus).value.validated;
    ValidatedSamplesHaveGenus(metadataReports, DummyList, RedmineGenus);
    RogaQualityRows(metadataReports, gdcsReports, validated, RedmineGenus, RedmineLab);
  }

  /** Every sample of a report `redmine_roga` generates is a Salmonella, so the
      report has exactly one GeneSippr table, the Salmonella one, and its
      `genus` ends as Salmonella; the lab summary is GTA-CFIA's. */
  lemma RedmineSalmonellaOnly(metadataReports: seq<Table>, gdcsReports: seq<Table>)
    requires Redmine(metadataReports, gdcsReports).Ok?
    requires Redmine(metadataReports, gdcsReports).value.Generated?
    ensures Redmine(metadataReports, gdcsReports).value.report.confirmedGenus == RedmineGenus
    ensures Redmine(metadataReports, gdcsReports).value.report.lab
      == Tabular(LabHeader, [[RedmineLab, LabInfo[RedmineLab].0, LabInfo[RedmineLab].1]])
    ensures |Redmine(metadataReports, gdcsReports).value.report.geneSippr| == 1
    ensures Redmine(metadataReports, gdcsReports).value.report.geneSippr[0].header == Salmonella.Header()
    ensures Redmine(metadataReports, gdcsReports).value.report.finalGenus == RedmineGenus
  {
    RedmineParts(metadataReports, gdcsReports);
    var validated := ValidatedList(metadataReports, DummyList, RedmineGenus).value.validated;
    RogaSinglePanel(metadataReports, gdcsReports, validated, Salmonella, RedmineGenus, RedmineLab);
  }
}
