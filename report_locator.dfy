/** `create_report_dictionary` and the two wrappers that choose its key column.
    The function is written out identically in extract_report_data.py and
    extract_reports.py; this module models both copies. */
module ReportLocator {
  import opened Results
  import opened PyDict
  import opened Frames

  /** Key column of the combinedMetadata reports. */
  const MetadataKey := "SeqID"
  /** Key column of the GDCS reports. */
  const GdcsKey := "Strain"

  predicate AllHaveColumn(reports: seq<Table>, col: string)
  {
    forall i :: 0 <= i < |reports| ==> col in reports[i].columns
  }

  /** `report_dict` after the inner loop has tried the IDs `ids` against one report. */
  function Scan(d: Dict<string, Table>, report: Table, ids: seq<string>, idColumn: string): (r: Dict<string, Table>)
    requires idColumn in report.columns
  {
    if |ids| == 0 then d
    else
      var prev := Scan(d, report, ids[..|ids| - 1], idColumn);
      if ids[|ids| - 1] in Column(report, idColumn) then prev.Put(ids[|ids| - 1], report) else prev
  }

  /** `report_dict` after the outer loop has scanned every report in order. */
  function Located(reports: seq<Table>, ids: seq<string>, idColumn: string): (r: Dict<string, Table>)
    requires AllHaveColumn(reports, idColumn)
  {
    if |reports| == 0 then Empty()
    else Scan(Located(reports[..|reports| - 1], ids, idColumn), reports[|reports| - 1], ids, idColumn)
  }

  /** What `create_report_dictionary` returns or raises: a KeyError as soon as
      a report lacks the key column, otherwise the located dict. */
  function Locate(reports: seq<Table>, ids: seq<string>, idColumn: string): Result<Dict<string, Table>>
  {
    if AllHaveColumn(reports, idColumn) then Ok(Located(reports, ids, idColumn))
    else Err(MissingColumn(idColumn))
  }

  method CreateReportDictionary(reportList: seq<Table>, seqList: seq<string>, idColumn: string)
    returns (r: Result<Dict<string, Table>>)
    ensures r == Locate(reportList, seqList, idColumn)
  {
    var reportDict: Dict<string, Table> := Empty();
    for i := 0 to |reportList|
      invariant AllHaveColumn(reportList[..i], idColumn)
      invariant reportDict == Located(reportList[..i], seqList, idColumn)
    {
      var df := reportList[i];
      if idColumn !in df.columns {
        return Err(MissingColumn(idColumn));
      }
      var samples := Column(df, idColumn);
      ghost var before := reportDict;
      for j := 0 to |seqList|
        invariant reportDict == Scan(before, df, seqList[..j], idColumn)
      {
        var id := seqList[j];
        if id in samples {
          reportDict := reportDict.Put(id, df);
        }
        assert seqList[..j + 1][..j] == seqList[..j];
      }
      assert seqList[..|seqList|] == seqList;
      assert reportList[..i + 1][..i] == reportList[..i];
    }
    assert reportList[..|reportList|] == reportList;
    return Ok(reportDict);
  }

  /** `get_combined_metadata`: combinedMetadata reports are keyed on `SeqID`. */
  method GetCombinedMetadata(metadataReports: seq<Table>, seqList: seq<string>)
    returns (r: Result<Dict<string, Table>>)
    ensures r == Locate(metadataReports, seqList, MetadataKey)
  {
    r := CreateReportDictionary(metadataReports, seqList, MetadataKey);
  }

  /** `get_gdcs`: GDCS reports are keyed on `Strain`. */
  method GetGdcs(gdcsReports: seq<Table>, seqList: seq<string>)
    returns (r: Result<Dict<string, Table>>)
    ensures r == Locate(gdcsReports, seqList, GdcsKey)
  {
    r := CreateReportDictionary(gdcsReports, seqList, GdcsKey);
  }

  // ---- Properties of the located dict ----

  lemma {:induction false} ScanValid(d: Dict<string, Table>, report: Table, ids: seq<string>, idColumn: string)
    requires d.Valid() && idColumn in report.columns
    ensures Scan(d, report, ids, idColumn).Valid()
  {
    if |ids| > 0 {
      ScanValid(d, report, ids[..|ids| - 1], idColumn);
    }
  }

  /** The located dict is a well-formed dict: its keys are distinct and are
      exactly the keys of its mapping. */
  lemma {:induction false} LocatedValid(reports: seq<Table>, ids: seq<string>, idColumn: string)
    requires AllHaveColumn(reports, idColumn)
    ensures Located(reports, ids, idColumn).Valid()
  {
    if |reports| > 0 {
      var prefix := reports[..|reports| - 1];
      assert AllHaveColumn(prefix, idColumn);
      LocatedValid(prefix, ids, idColumn);
      ScanValid(Located(prefix, ids, idColumn), reports[|reports| - 1], ids, idColumn);
    }
  }

  lemma {:induction false} ScanEntry(d: Dict<string, Table>, report: Table, ids: seq<string>, idColumn: string, k: string)
    requires idColumn in report.columns
    ensures var r := Scan(d, report, ids, idColumn);
      && (k in r.entries <==> k in d.entries || (k in ids && HasKey(report, idColumn, k)))
      && (k in r.entries ==> r.entries[k] == if k in ids && HasKey(report, idColumn, k) then report else d.entries[k])
  {
    if |ids| > 0 {
      ScanEntry(d, report, ids[..|ids| - 1], idColumn, k);
      assert ids == ids[..|ids| - 1] + [ids[|ids| - 1]];
    }
  }

  /** An ID is a key exactly when it was requested and some report has it in
      its key column. */
  lemma {:induction false} LocatedKeys(reports: seq<Table>, ids: seq<string>, idColumn: string, k: string)
    requires AllHaveColumn(reports, idColumn)
    ensures k in Located(reports, ids, idColumn).entries <==>
      k in ids && exists i :: 0 <= i < |reports| && HasKey(reports[i], idColumn, k)
  {
    if |reports| > 0 {
      var prefix := reports[..|reports| - 1];
      assert AllHaveColumn(prefix, idColumn);
      LocatedKeys(prefix, ids, idColumn, k);
      ScanEntry(Located(prefix, ids, idColumn), reports[|reports| - 1], ids, idColumn, k);
      if k in ids && exists i :: 0 <= i < |reports| && HasKey(reports[i], idColumn, k) {
        var i :| 0 <= i < |reports| && HasKey(reports[i], idColumn, k);
        if i < |reports| - 1 {
          assert prefix[i] == reports[i];
        }
      }
    }
  }

  /** The value for an ID is the last report, in `report_list` order, that has it. */
  lemma {:induction false} LocatedLastWins(reports: seq<Table>, ids: seq<string>, idColumn: string, k: string)
    requires AllHaveColumn(reports, idColumn)
    requires k in Located(reports, ids, idColumn).entries
    ensures exists i ::
              && 0 <= i < |reports|
              && HasKey(reports[i], idColumn, k)
              && Located(reports, ids, idColumn).entries[k] == reports[i]
              && forall j :: i < j < |reports| ==> !HasKey(reports[j], idColumn, k)
  {
    var last := |reports| - 1;
    var prefix := reports[..last];
    assert AllHaveColumn(prefix, idColumn);
    ScanEntry(Located(prefix, ids, idColumn), reports[last], ids, idColumn, k);
    LocatedKeys(reports, ids, idColumn, k);
    if !HasKey(reports[last], idColumn, k) {
      LocatedLastWins(prefix, ids, idColumn, k);
      var i :| 0 <= i < |prefix| && HasKey(prefix[i], idColumn, k) &&
        Located(prefix, ids, idColumn).entries[k] == prefix[i] &&
        forall j :: i < j < |prefix| ==> !HasKey(prefix[j], idColumn, k);
      assert forall j :: i < j < |reports| ==> !HasKey(reports[j], idColumn, k) by {
        forall j | i < j < |reports| ensures !HasKey(reports[j], idColumn, k) {
          if j < last { assert reports[j] == prefix[j]; }
        }
      }
    }
  }

  /** Keys are requested IDs, each at most once however often it was requested. */
  lemma LocatedKeysAreRequested(reports: seq<Table>, ids: seq<string>, idColumn: string)
    requires AllHaveColumn(reports, idColumn)
    ensures Distinct(Located(reports, ids, idColumn).keys)
    ensures forall i :: 0 <= i < |Located(reports, ids, idColumn).keys| ==> Located(reports, ids, idColumn).keys[i] in ids
  {
    var d := Located(reports, ids, idColumn);
    LocatedValid(reports, ids, idColumn);
    forall i | 0 <= i < |d.keys| ensures d.keys[i] in ids {
      LocatedKeys(reports, ids, idColumn, d.keys[i]);
    }
  }

  /** The dict is empty exactly when no report holds any requested ID, in
      particular when there are no reports. */
  lemma LocatedEmpty(reports: seq<Table>, ids: seq<string>, idColumn: string)
    requires AllHaveColumn(reports, idColumn)
    ensures Located(reports, ids, idColumn).keys == [] <==>
      forall k, i :: k in ids && 0 <= i < |reports| ==> !HasKey(reports[i], idColumn, k)
  {
    var d := Located(reports, ids, idColumn);
    LocatedValid(reports, ids, idColumn);
    if d.keys != [] {
      LocatedKeys(reports, ids, idColumn, d.keys[0]);
    } else {
      forall k, i | k in ids && 0 <= i < |reports| ensures !HasKey(reports[i], idColumn, k) {
        LocatedKeys(reports, ids, idColumn, k);
      }
    }
  }

  /** The table found for an ID does not depend on which other IDs were
      requested: it is the last report holding the ID. */
  lemma LocatedSameEntry(reports: seq<Table>, ids1: seq<string>, ids2: seq<string>, idColumn: string, k: string)
    requires AllHaveColumn(reports, idColumn)
    requires k in Located(reports, ids1, idColumn).entries
    requires k in ids2
    ensures k in Located(reports, ids2, idColumn).entries
    ensures Located(reports, ids2, idColumn).entries[k] == Located(reports, ids1, idColumn).entries[k]
  {
    LocatedKeys(reports, ids1, idColumn, k);
    LocatedKeys(reports, ids2, idColumn, k);
    LocatedLastWins(reports, ids1, idColumn, k);
    LocatedLastWins(reports, ids2, idColumn, k);
    var i1 :| 0 <= i1 < |reports| && HasKey(reports[i1], idColumn, k)
      && Located(reports, ids1, idColumn).entries[k] == reports[i1]
      && forall j :: i1 < j < |reports| ==> !HasKey(reports[j], idColumn, k);
    var i2 :| 0 <= i2 < |reports| && HasKey(reports[i2], idColumn, k)
      && Located(reports, ids2, idColumn).entries[k] == reports[i2]
      && forall j :: i2 < j < |reports| ==> !HasKey(reports[j], idColumn, k);
    assert i1 == i2;
  }
}
