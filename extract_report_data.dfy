/** Genus validation, the validated-ID list, GeneSeekr profile parsing and the
    GDCS dict, from extract_report_data.py. */
module ExtractReportData {
  import opened Results
  import opened PyDict
  import opened PyStr
  import opened Frames
  import opened ReportLocator
  import opened Loops

  // ---- validate_genus ----

  /** `df = metadata_reports[seqid]` then `df.loc[df['SeqID'] == seqid]['Genus'].values[0]`. */
  function ObservedGenus(located: Dict<string, Table>, seqid: string): Result<string>
  {
    if seqid !in located.entries then Err(MissingKey(seqid))
    else Loc(located.entries[seqid], MetadataKey, seqid, "Genus")
  }

  /** One iteration of `validate_genus`: whether the observed genus is `genus`. */
  function GenusMatches(located: Dict<string, Table>, seqid: string, genus: string): Result<bool>
  {
    match ObservedGenus(located, seqid)
    case Err(e) => Err(e)
    case Ok(observed) => Ok(observed == genus)
  }

  function GenusCheck(located: Dict<string, Table>, genus: string): string -> Result<bool>
  {
    seqid => GenusMatches(located, seqid, genus)
  }

  /** `valid_status` after the loop has checked the IDs `seqList`, or the first error raised. */
  function ValidStatus(located: Dict<string, Table>, seqList: seq<string>, genus: string): Result<Dict<string, bool>>
  {
    Collect(GenusCheck(located, genus), seqList)
  }

  /** What `validate_genus(seq_list, genus)` returns or raises, given the
      loaded combinedMetadata tables. */
  function GenusStatus(metadataReports: seq<Table>, seqList: seq<string>, genus: string): Result<Dict<string, bool>>
  {
    match Locate(metadataReports, seqList, MetadataKey)
    case Err(e) => Err(e)
    case Ok(located) => ValidStatus(located, seqList, genus)
  }

  method ValidateGenus(metadataReports: seq<Table>, seqList: seq<string>, genus: string)
    returns (r: Result<Dict<string, bool>>)
    ensures r == GenusStatus(metadataReports, seqList, genus)
  {
    var metadata := GetCombinedMetadata(metadataReports, seqList);
    if metadata.Err? {
      return Err(metadata.error);
    }
    var located := metadata.value;
    ghost var check := GenusCheck(located, genus);
    var validStatus: Dict<string, bool> := Empty();
    for i := 0 to |seqList|
      invariant Collect(check, seqList[..i]) == Ok(validStatus)
    {
      var seqid := seqList[i];
      if seqid !in located.entries {
        CollectStops(check, seqList, i, validStatus);
        return Err(MissingKey(seqid));
      }
      var df := located.entries[seqid];
      var observedGenus := Loc(df, MetadataKey, seqid, "Genus");
      if observedGenus.Err? {
        CollectStops(check, seqList, i, validStatus);
        return Err(observedGenus.error);
      }
      CollectExtendOk(check, seqList, i, validStatus);
      if observedGenus.value == genus {
        validStatus := validStatus.Put(seqid, true);
      } else {
        validStatus := validStatus.Put(seqid, false);
      }
    }
    assert seqList[..|seqList|] == seqList;
    r := Ok(validStatus);
  }

  /** The check succeeds exactly when every requested ID has a located table
      whose first matching row has a `Genus`: a missing ID raises and is never
      reported as a mismatch. */
  lemma ValidStatusOk(located: Dict<string, Table>, seqList: seq<string>, genus: string)
    ensures ValidStatus(located, seqList, genus).Ok? <==>
      forall i :: 0 <= i < |seqList| ==> ObservedGenus(located, seqList[i]).Ok?
  {
    CollectOk(GenusCheck(located, genus), seqList);
  }

  /** A failing check raises the error of the first ID whose lookup fails. */
  lemma ValidStatusFirstError(located: Dict<string, Table>, seqList: seq<string>, genus: string)
    requires ValidStatus(located, seqList, genus).Err?
    ensures exists i ::
              && 0 <= i < |seqList|
              && ObservedGenus(located, seqList[i]) == Err(ValidStatus(located, seqList, genus).error)
              && forall j :: 0 <= j < i ==> ObservedGenus(located, seqList[j]).Ok?
  {
    CollectFirstError(GenusCheck(located, genus), seqList);
  }

  /** On success the keys are the distinct requested IDs in first-occurrence order. */
  lemma ValidStatusKeys(located: Dict<string, Table>, seqList: seq<string>, genus: string)
    requires ValidStatus(located, seqList, genus).Ok?
    ensures ValidStatus(located, seqList, genus).value.Valid()
    ensures ValidStatus(located, seqList, genus).value.keys == Dedup(seqList)
  {
    CollectValid(GenusCheck(located, genus), seqList);
    CollectKeys(GenusCheck(located, genus), seqList);
  }

  /** On success each requested ID maps to whether its observed genus equals
      `genus`, compared as exact strings. */
  lemma ValidStatusValues(located: Dict<string, Table>, seqList: seq<string>, genus: string)
    requires ValidStatus(located, seqList, genus).Ok?
    ensures forall i :: 0 <= i < |seqList| ==>
      && seqList[i] in ValidStatus(located, seqList, genus).value.entries
      && ValidStatus(located, seqList, genus).value.entries[seqList[i]] == (ObservedGenus(located, seqList[i]) == Ok(genus))
  {
    CollectValues(GenusCheck(located, genus), seqList);
    CollectOk(GenusCheck(located, genus), seqList);
  }

  /** A located table for an ID keyed on `SeqID` always has a matching row, so
      the genus lookup can only fail for want of a `Genus` column. */
  lemma ObservedGenusOfLocated(metadataReports: seq<Table>, seqList: seq<string>, seqid: string)
    requires AllHaveColumn(metadataReports, MetadataKey)
    requires seqid in Located(metadataReports, seqList, MetadataKey).entries
    ensures ObservedGenus(Located(metadataReports, seqList, MetadataKey), seqid).Ok? <==>
      "Genus" in Located(metadataReports, seqList, MetadataKey).entries[seqid].columns
  {
    var located := Located(metadataReports, seqList, MetadataKey);
    LocatedLastWins(metadataReports, seqList, MetadataKey, seqid);
    LocMeaning(located.entries[seqid], MetadataKey, seqid, "Genus");
  }

  /** `validate_genus` raises for a requested ID that no table holds. */
  lemma ValidateGenusRejectsMissing(metadataReports: seq<Table>, seqList: seq<string>, genus: string, seqid: string)
    requires seqid in seqList
    requires forall i :: 0 <= i < |metadataReports| ==> !HasKey(metadataReports[i], MetadataKey, seqid)
    ensures GenusStatus(metadataReports, seqList, genus).Err?
  {
    if AllHaveColumn(metadataReports, MetadataKey) {
      var located := Located(metadataReports, seqList, MetadataKey);
      LocatedKeys(metadataReports, seqList, MetadataKey, seqid);
      ValidStatusOk(located, seqList, genus);
      var i :| 0 <= i < |seqList| && seqList[i] == seqid;
      assert ObservedGenus(located, seqList[i]).Err?;
    }
  }

  // ---- generate_validated_list ----

  /** The IDs `validated_list` and the warnings of generate_validated_list: the
      accepted IDs and the ones reported as not matching the expected genus. */
  datatype Validation = Validation(validated: seq<string>, ignored: seq<string>)

  /** The IDs among `ks`, in order, whose status is `want`. */
  function WithStatus(status: Dict<string, bool>, ks: seq<string>, want: bool): seq<string>
  {
    if |ks| == 0 then []
    else
      var prev := WithStatus(status, ks[..|ks| - 1], want);
      var k := ks[|ks| - 1];
      if k in status.entries && status.entries[k] == want then prev + [k] else prev
  }

  /** The IDs with status `want` are the ones of `ks` with that status, kept in
      the order of `ks` and each as often as in `ks`. */
  lemma {:induction false} WithStatusMeaning(status: Dict<string, bool>, ks: seq<string>, want: bool)
    ensures IsSubsequence(WithStatus(status, ks, want), ks)
    ensures forall x :: x in WithStatus(status, ks, want) <==> x in ks && x in status.entries && status.entries[x] == want
    ensures Distinct(ks) ==> Distinct(WithStatus(status, ks, want))
  {
    if |ks| > 0 {
      var init := ks[..|ks| - 1];
      var prev := WithStatus(status, init, want);
      var k := ks[|ks| - 1];
      WithStatusMeaning(status, init, want);
      SubsequenceExtend(prev, init, k);
      assert ks == init + [k];
      assert (prev + [k])[..|prev|] == prev;
    }
  }

  /** What `generate_validated_list(seq_list, genus)` returns, with its warnings as `ignored`. */
  function ValidatedList(metadataReports: seq<Table>, seqList: seq<string>, genus: string): Result<Validation>
  {
    var status :- GenusStatus(metadataReports, seqList, genus);
    Ok(Validation(WithStatus(status, status.keys, true), WithStatus(status, status.keys, false)))
  }

  method GenerateValidatedList(metadataReports: seq<Table>, seqList: seq<string>, genus: string)
    returns (r: Result<Validation>)
    ensures r == ValidatedList(metadataReports, seqList, genus)
  {
    var validatedList: seq<string> := [];
    var ignored: seq<string> := [];
    var validated := ValidateGenus(metadataReports, seqList, genus);
    if validated.Err? {
      return Err(validated.error);
    }
    var validatedDict := validated.value;
    CollectValid(GenusCheck(Located(metadataReports, seqList, MetadataKey), genus), seqList);
    for i := 0 to |validatedDict.keys|
      invariant validatedList == WithStatus(validatedDict, validatedDict.keys[..i], true)
      invariant ignored == WithStatus(validatedDict, validatedDict.keys[..i], false)
    {
      var seqid := validatedDict.keys[i];
      assert validatedDict.keys[..i + 1][..i] == validatedDict.keys[..i];
      if validatedDict.entries[seqid] {
        validatedList := validatedList + [seqid];
      } else {
        ignored := ignored + [seqid];
      }
    }
    assert validatedDict.keys[..|validatedDict.keys|] == validatedDict.keys;
    r := Ok(Validation(validatedList, ignored));
  }

  /** The validated list holds exactly the requested IDs whose observed genus
      is the expected one, each once, in first-occurrence order; every other
      requested ID is warned about instead. */
  lemma ValidatedListMeaning(metadataReports: seq<Table>, seqList: seq<string>, genus: string)
    requires ValidatedList(metadataReports, seqList, genus).Ok?
    ensures AllHaveColumn(metadataReports, MetadataKey)
    ensures var v := ValidatedList(metadataReports, seqList, genus).value;
      var located := Located(metadataReports, seqList, MetadataKey);
      && Distinct(v.validated)
      && IsSubsequence(v.validated, Dedup(seqList))
      && (forall x :: x in v.validated <==> x in seqList && ObservedGenus(located, x) == Ok(genus))
      && (forall x :: x in v.ignored <==> x in seqList && ObservedGenus(located, x) != Ok(genus))
  {
    var located := Located(metadataReports, seqList, MetadataKey);
    ValidStatusKeys(located, seqList, genus);
    ValidStatusValues(located, seqList, genus);
    DedupProperties(seqList);
    var status := ValidStatus(located, seqList, genus).value;
    WithStatusMeaning(status, status.keys, true);
    WithStatusMeaning(status, status.keys, false);
  }

  // ---- parse_geneseekr_profile ----

  /** `marker_list`: the markers a GeneSeekr profile may report. */
  const MarkerList: seq<string> := ["invA", "stn", "IGS", "hlyA", "inlJ", "VT1", "VT2", "VT2f", "uidA", "eae"]

  /** The tokens that are known markers, in order, repeats kept. */
  function KnownMarkers(tokens: seq<string>): (r: seq<string>)
    ensures IsSubsequence(r, tokens)
    ensures forall x :: x in r <==> x in tokens && x in MarkerList
    ensures forall m :: multiset(r)[m] == if m in MarkerList then multiset(tokens)[m] else 0
    ensures |r| <= |tokens|
  {
    if |tokens| == 0 then []
    else
      var prev := KnownMarkers(tokens[..|tokens| - 1]);
      var t := tokens[|tokens| - 1];
      SubsequenceExtend(prev, tokens[..|tokens| - 1], t);
      assert tokens == tokens[..|tokens| - 1] + [t];
      if t in MarkerList then prev + [t] else prev
  }

  method ParseGeneseekrProfile(value: string) returns (detectedMarkers: seq<string>)
    ensures detectedMarkers == KnownMarkers(Split(value, ';'))
  {
    detectedMarkers := [];
    var markers := Split(value, ';');
    for i := 0 to |markers|
      invariant detectedMarkers == KnownMarkers(markers[..i])
    {
      var marker := markers[i];
      assert markers[..i + 1][..i] == markers[..i];
      if marker in MarkerList {
        detectedMarkers := detectedMarkers + [marker];
      }
    }
    assert markers[..|markers|] == markers;
  }

  /** An empty profile splits to `[""]` and yields no markers. */
  lemma ParseEmptyProfile()
    ensures KnownMarkers(Split("", ';')) == []
  {
    assert Split("", ';') == [""];
    assert |KnownMarkers([""])| == 0;
  }

  // ---- generate_gdcs_dict ----

  /** `(matches, passfail)` for one sample: its first `Strain` row's `Matches` and `Pass/Fail`. */
  function GdcsEntry(gdcsReports: Dict<string, Table>, sampleId: string): Result<(string, string)>
  {
    if sampleId !in gdcsReports.entries then Err(MissingKey(sampleId))
    else
      var df := gdcsReports.entries[sampleId];
      match Loc(df, GdcsKey, sampleId, "Matches")
      case Err(e) => Err(e)
      case Ok(matches) =>
        match Loc(df, GdcsKey, sampleId, "Pass/Fail")
        case Err(e) => Err(e)
        case Ok(passfail) => Ok((matches, passfail))
  }

  function GdcsLookup(gdcsReports: Dict<string, Table>): string -> Result<(string, string)>
  {
    sampleId => GdcsEntry(gdcsReports, sampleId)
  }

  /** `gdcs_dict` after the loop has visited the samples `ks`, or the first error raised. */
  function GdcsValues(gdcsReports: Dict<string, Table>, ks: seq<string>): Result<Dict<string, (string, string)>>
  {
    Collect(GdcsLookup(gdcsReports), ks)
  }

  method GenerateGdcsDict(gdcsReports: Dict<string, Table>) returns (r: Result<Dict<string, (string, string)>>)
    requires gdcsReports.Valid()
    ensures r == GdcsValues(gdcsReports, gdcsReports.keys)
  {
    ghost var lookup := GdcsLookup(gdcsReports);
    var gdcsDict: Dict<string, (string, string)> := Empty();
    var ks := gdcsReports.keys;
    for i := 0 to |ks|
      invariant Collect(lookup, ks[..i]) == Ok(gdcsDict)
    {
      var sampleId := ks[i];
      var df := gdcsReports.entries[sampleId];
      var matches := Loc(df, GdcsKey, sampleId, "Matches");
      if matches.Err? {
        CollectStops(lookup, ks, i, gdcsDict);
        return Err(matches.error);
      }
      var passfail := Loc(df, GdcsKey, sampleId, "Pass/Fail");
      if passfail.Err? {
        CollectStops(lookup, ks, i, gdcsDict);
        return Err(passfail.error);
      }
      CollectExtendOk(lookup, ks, i, gdcsDict);
      gdcsDict := gdcsDict.Put(sampleId, (matches.value, passfail.value));
    }
    assert ks[..|ks|] == ks;
    r := Ok(gdcsDict);
  }

  /** The GDCS dict is built exactly when every sample's two lookups succeed. */
  lemma GdcsValuesOk(gdcsReports: Dict<string, Table>, ks: seq<string>)
    ensures GdcsValues(gdcsReports, ks).Ok? <==> forall i :: 0 <= i < |ks| ==> GdcsEntry(gdcsReports, ks[i]).Ok?
  {
    CollectOk(GdcsLookup(gdcsReports), ks);
  }

  /** On success the GDCS dict holds, for each visited sample and for no other
      key, that sample's `(Matches, Pass/Fail)` pair unchanged, keyed in visiting
      order. */
  lemma GdcsValuesContents(gdcsReports: Dict<string, Table>, ks: seq<string>)
    requires GdcsValues(gdcsReports, ks).Ok?
    ensures GdcsValues(gdcsReports, ks).value.Valid()
    ensures GdcsValues(gdcsReports, ks).value.keys == Dedup(ks)
    ensures forall i :: 0 <= i < |ks| ==>
      && ks[i] in GdcsValues(gdcsReports, ks).value.entries
      && Ok(GdcsValues(gdcsReports, ks).value.entries[ks[i]]) == GdcsEntry(gdcsReports, ks[i])
  {
    CollectValid(GdcsLookup(gdcsReports), ks);
    CollectKeys(GdcsLookup(gdcsReports), ks);
    CollectValues(GdcsLookup(gdcsReports), ks);
  }

  /** When a sample's lookup fails the first failing sample's error is raised. */
  lemma GdcsValuesFirstError(gdcsReports: Dict<string, Table>, ks: seq<string>)
    requires GdcsValues(gdcsReports, ks).Err?
    ensures exists i ::
              && 0 <= i < |ks|
              && GdcsEntry(gdcsReports, ks[i]) == Err(GdcsValues(gdcsReports, ks).error)
              && forall j :: 0 <= j < i ==> GdcsEntry(gdcsReports, ks[j]).Ok?
  {
    CollectFirstError(GdcsLookup(gdcsReports), ks);
  }
}
