/** The two loop shapes of the pipeline. `Collect` is the one shared by
    `validate_genus` and `generate_gdcs_dict`: visit the keys in order, store
    what `f` computes for each in a dict, and stop with the first exception `f`
    raises. `Gather` is the one of the report tables: one row per key, appended
    in order, again stopping at the first exception. */
module Loops {
  import opened Results
  import opened PyDict

  /** The dict after the loop has visited `ks`, or the first error raised. */
  function Collect<K(==), V>(f: K -> Result<V>, ks: seq<K>): Result<Dict<K, V>>
  {
    if |ks| == 0 then Ok(Empty())
    else
      match Collect(f, ks[..|ks| - 1])
      case Err(e) => Err(e)
      case Ok(d) =>
        match f(ks[|ks| - 1])
        case Err(e) => Err(e)
        case Ok(v) => Ok(d.Put(ks[|ks| - 1], v))
  }

  /** One successful iteration stores the key's value. */
  lemma CollectExtendOk<K, V>(f: K -> Result<V>, ks: seq<K>, i: nat, d: Dict<K, V>)
    requires i < |ks| && Collect(f, ks[..i]) == Ok(d) && f(ks[i]).Ok?
    ensures Collect(f, ks[..i + 1]) == Ok(d.Put(ks[i], f(ks[i]).value))
  {
    assert ks[..i + 1][..i] == ks[..i];
  }

  /** An iteration that raises ends the loop with that error. */
  lemma CollectExtendErr<K, V>(f: K -> Result<V>, ks: seq<K>, i: nat, d: Dict<K, V>)
    requires i < |ks| && Collect(f, ks[..i]) == Ok(d) && f(ks[i]).Err?
    ensures Collect(f, ks[..i + 1]) == Err(f(ks[i]).error)
  {
    assert ks[..i + 1][..i] == ks[..i];
  }

  /** Once a prefix of the keys has raised, the whole loop raises the same error. */
  lemma {:induction false} CollectSticky<K, V>(f: K -> Result<V>, ks: seq<K>, n: nat)
    requires n <= |ks| && Collect(f, ks[..n]).Err?
    ensures Collect(f, ks) == Collect(f, ks[..n])
    decreases |ks|
  {
    if n < |ks| {
      var prefix := ks[..|ks| - 1];
      assert prefix[..n] == ks[..n];
      CollectSticky(f, prefix, n);
    } else {
      assert ks[..n] == ks;
    }
  }

  /** The key at `i` raising after the earlier ones succeeded is the loop's outcome. */
  lemma CollectStops<K, V>(f: K -> Result<V>, ks: seq<K>, i: nat, d: Dict<K, V>)
    requires i < |ks| && Collect(f, ks[..i]) == Ok(d) && f(ks[i]).Err?
    ensures Collect(f, ks) == Err(f(ks[i]).error)
  {
    CollectExtendErr(f, ks, i, d);
    CollectSticky(f, ks, i + 1);
  }

  /** The loop completes exactly when no key raises. */
  lemma {:induction false} CollectOk<K, V>(f: K -> Result<V>, ks: seq<K>)
    ensures Collect(f, ks).Ok? <==> forall i :: 0 <= i < |ks| ==> f(ks[i]).Ok?
  {
    if |ks| > 0 {
      var prefix := ks[..|ks| - 1];
      CollectOk(f, prefix);
      assert forall i :: 0 <= i < |prefix| ==> prefix[i] == ks[i];
    }
  }

  /** A failing loop raises the error of the first key that raises. */
  lemma {:induction false} CollectFirstError<K, V>(f: K -> Result<V>, ks: seq<K>)
    requires Collect(f, ks).Err?
    ensures exists i ::
              && 0 <= i < |ks|
              && f(ks[i]) == Err(Collect(f, ks).error)
              && forall j :: 0 <= j < i ==> f(ks[j]).Ok?
  {
    var prefix := ks[..|ks| - 1];
    var last := |ks| - 1;
    if Collect(f, prefix).Err? {
      CollectFirstError(f, prefix);
      var i :| && 0 <= i < |prefix|
               && f(prefix[i]) == Err(Collect(f, prefix).error)
               && forall j :: 0 <= j < i ==> f(prefix[j]).Ok?;
      assert forall j :: 0 <= j <= i ==> prefix[j] == ks[j];
    } else {
      CollectOk(f, prefix);
      assert forall j :: 0 <= j < last ==> prefix[j] == ks[j];
      assert f(ks[last]) == Err(Collect(f, ks).error);
    }
  }

  /** A completed loop yields a well-formed dict. */
  lemma {:induction false} CollectValid<K, V>(f: K -> Result<V>, ks: seq<K>)
    requires Collect(f, ks).Ok?
    ensures Collect(f, ks).value.Valid()
  {
    if |ks| > 0 {
      CollectValid(f, ks[..|ks| - 1]);
    }
  }

  /** The keys are the visited keys in first-visit order, each once. */
  lemma {:induction false} CollectKeys<K, V>(f: K -> Result<V>, ks: seq<K>)
    requires Collect(f, ks).Ok?
    ensures Collect(f, ks).value.keys == Dedup(ks)
  {
    if |ks| > 0 {
      var prefix := ks[..|ks| - 1];
      var last := ks[|ks| - 1];
      CollectValid(f, prefix);
      CollectKeys(f, prefix);
      var before := Collect(f, prefix).value;
      assert last in before.entries <==> last in Dedup(prefix);
      DedupProperties(prefix);
    }
  }

  /** Every visited key maps to what `f` computed for it. */
  lemma {:induction false} CollectValues<K, V>(f: K -> Result<V>, ks: seq<K>)
    requires Collect(f, ks).Ok?
    ensures forall i :: 0 <= i < |ks| ==>
      && ks[i] in Collect(f, ks).value.entries
      && Ok(Collect(f, ks).value.entries[ks[i]]) == f(ks[i])
  {
    if |ks| > 0 {
      var prefix := ks[..|ks| - 1];
      var last := ks[|ks| - 1];
      CollectValues(f, prefix);
      var m := Collect(f, ks).value.entries;
      assert m == Collect(f, prefix).value.entries[last := f(last).value];
      forall i | 0 <= i < |ks|
        ensures ks[i] in m && Ok(m[ks[i]]) == f(ks[i])
      {
        if ks[i] != last {
          assert prefix[i] == ks[i];
        }
      }
    }
  }

  /** Nothing but the visited keys is stored. */
  lemma {:induction false} CollectOnlyVisited<K, V>(f: K -> Result<V>, ks: seq<K>, k: K)
    requires Collect(f, ks).Ok?
    ensures k in Collect(f, ks).value.entries ==> k in ks
  {
    CollectValid(f, ks);
    CollectKeys(f, ks);
    DedupProperties(ks);
  }

  /** A stored key was visited, and maps to what `f` computed for it. */
  lemma CollectEntry<K, V>(f: K -> Result<V>, ks: seq<K>, k: K)
    requires Collect(f, ks).Ok?
    requires k in Collect(f, ks).value.entries
    ensures k in ks
    ensures Ok(Collect(f, ks).value.entries[k]) == f(k)
  {
    CollectOnlyVisited(f, ks, k);
    CollectValues(f, ks);
    var j :| 0 <= j < |ks| && ks[j] == k;
  }

  // ---- Gather ----

  /** The rows appended after the loop has visited `ks`, or the first error raised. */
  function Gather<K, V>(f: K -> Result<V>, ks: seq<K>): Result<seq<V>>
  {
    if |ks| == 0 then Ok([])
    else
      match Gather(f, ks[..|ks| - 1])
      case Err(e) => Err(e)
      case Ok(rows) =>
        match f(ks[|ks| - 1])
        case Err(e) => Err(e)
        case Ok(row) => Ok(rows + [row])
  }

  lemma GatherExtendOk<K, V>(f: K -> Result<V>, ks: seq<K>, i: nat, rows: seq<V>)
    requires i < |ks| && Gather(f, ks[..i]) == Ok(rows) && f(ks[i]).Ok?
    ensures Gather(f, ks[..i + 1]) == Ok(rows + [f(ks[i]).value])
  {
    assert ks[..i + 1][..i] == ks[..i];
  }

  lemma GatherExtendErr<K, V>(f: K -> Result<V>, ks: seq<K>, i: nat, rows: seq<V>)
    requires i < |ks| && Gather(f, ks[..i]) == Ok(rows) && f(ks[i]).Err?
    ensures Gather(f, ks[..i + 1]) == Err(f(ks[i]).error)
  {
    assert ks[..i + 1][..i] == ks[..i];
  }

  lemma {:induction false} GatherSticky<K, V>(f: K -> Result<V>, ks: seq<K>, n: nat)
    requires n <= |ks| && Gather(f, ks[..n]).Err?
    ensures Gather(f, ks) == Gather(f, ks[..n])
    decreases |ks|
  {
    if n < |ks| {
      var prefix := ks[..|ks| - 1];
      assert prefix[..n] == ks[..n];
      GatherSticky(f, prefix, n);
    } else {
      assert ks[..n] == ks;
    }
  }

  /** The key at `i` raising after the earlier ones succeeded is the loop's outcome. */
  lemma GatherStops<K, V>(f: K -> Result<V>, ks: seq<K>, i: nat, rows: seq<V>)
    requires i < |ks| && Gather(f, ks[..i]) == Ok(rows) && f(ks[i]).Err?
    ensures Gather(f, ks) == Err(f(ks[i]).error)
  {
    GatherExtendErr(f, ks, i, rows);
    GatherSticky(f, ks, i + 1);
  }

  /** The loop completes exactly when no key raises. */
  lemma {:induction false} GatherOk<K, V>(f: K -> Result<V>, ks: seq<K>)
    ensures Gather(f, ks).Ok? <==> forall i :: 0 <= i < |ks| ==> f(ks[i]).Ok?
  {
    if |ks| > 0 {
      var prefix := ks[..|ks| - 1];
      GatherOk(f, prefix);
      assert forall i :: 0 <= i < |prefix| ==> prefix[i] == ks[i];
    }
  }

  /** A completed loop has appended exactly one row per key, in key order. */
  lemma {:induction false} GatherRows<K, V>(f: K -> Result<V>, ks: seq<K>)
    requires Gather(f, ks).Ok?
    ensures |Gather(f, ks).value| == |ks|
    ensures forall i :: 0 <= i < |ks| ==> Ok(Gather(f, ks).value[i]) == f(ks[i])
  {
    if |ks| > 0 {
      var prefix := ks[..|ks| - 1];
      GatherRows(f, prefix);
      var rows := Gather(f, prefix).value;
      assert Gather(f, ks).value == rows + [f(ks[|ks| - 1]).value];
      assert forall i :: 0 <= i < |prefix| ==> prefix[i] == ks[i];
    }
  }
}
