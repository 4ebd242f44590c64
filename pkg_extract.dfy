/** Extraction of the vulnerable package names from a parsed scanner
    report, `Results[i].Vulnerabilities[j].PkgName`, and the line printed
    after deduplicating and joining them. Every `unwrap` that would abort
    the run is an error outcome naming the position where it aborts. */
module PkgExtract {
  import opened JsonValue
  import VecOps

  /** Where the extraction aborts. */
  datatype ExtractError =
    | ResultsNotArray                                   // `Results` missing or not an array
    | VulnerabilitiesNotArray(result: nat)              // `Results[result].Vulnerabilities` missing or not an array
    | PkgNameNotString(result: nat, vulnerability: nat) // that entry's `PkgName` missing or not a string

  datatype Result<+T> = Ok(value: T) | Err(error: ExtractError)

  /** The names of one result's vulnerabilities `vulns`, in order; `index`
      is the position of the result, used only to report an error. */
  function PkgNames(vulns: seq<Json>, index: nat): Result<seq<string>>
  {
    if |vulns| == 0 then Ok([])
    else
      match PkgNames(vulns[..|vulns| - 1], index)
      case Err(e) => Err(e)
      case Ok(prev) =>
        match AsStr(Field(vulns[|vulns| - 1], "PkgName"))
        case None => Err(PkgNameNotString(index, |vulns| - 1))
        case Some(name) => Ok(prev + [name])
  }

  /** The names contributed by the result at position `index`. */
  function ResultNames(result: Json, index: nat): Result<seq<string>>
  {
    match AsArray(Field(result, "Vulnerabilities"))
    case None => Err(VulnerabilitiesNotArray(index))
    case Some(vulns) => PkgNames(vulns, index)
  }

  /** The names of all results, result by result. */
  function ResultsNames(results: seq<Json>): Result<seq<string>>
  {
    if |results| == 0 then Ok([])
    else
      match ResultsNames(results[..|results| - 1])
      case Err(e) => Err(e)
      case Ok(prev) =>
        match ResultNames(results[|results| - 1], |results| - 1)
        case Err(e) => Err(e)
        case Ok(names) => Ok(prev + names)
  }

  /** The list the nested loops build, before `dedup`. */
  function Extract(report: Json): Result<seq<string>>
  {
    match AsArray(Field(report, "Results"))
    case None => Err(ResultsNotArray)
    case Some(results) => ResultsNames(results)
  }

  // ---------------------------------------------------------------------
  // A reference description of a report the extraction accepts, and of
  // the list it builds, stated position by position.

  /** The `Vulnerabilities` member of a result. */
  function Vulns(result: Json): Json {
    Field(result, "Vulnerabilities")
  }

  /** Every vulnerability of `result` names its package with a string. */
  ghost predicate ResultWellFormed(result: Json) {
    Vulns(result).Arr?
    && forall j :: 0 <= j < |Vulns(result).items| ==> Field(Vulns(result).items[j], "PkgName").Str?
  }

  ghost predicate ReportWellFormed(report: Json) {
    Field(report, "Results").Arr?
    && forall i :: 0 <= i < |Field(report, "Results").items| ==> ResultWellFormed(Field(report, "Results").items[i])
  }

  /** Number of vulnerability entries of a result (0 when it has none). */
  function VulnCount(result: Json): nat {
    if Vulns(result).Arr? then |Vulns(result).items| else 0
  }

  /** Number of vulnerability entries of all results. */
  function TotalVulns(results: seq<Json>): nat {
    if |results| == 0 then 0
    else TotalVulns(results[..|results| - 1]) + VulnCount(results[|results| - 1])
  }

  /** The package name of vulnerability `j` of a well-formed result. */
  function PkgNameAt(result: Json, j: nat): string
    requires Vulns(result).Arr? && j < |Vulns(result).items|
    requires Field(Vulns(result).items[j], "PkgName").Str?
  {
    Field(Vulns(result).items[j], "PkgName").s
  }

  // ---------------------------------------------------------------------
  // Properties of the extraction.

  lemma {:induction false} PkgNamesOkIff(vulns: seq<Json>, index: nat)
    ensures PkgNames(vulns, index).Ok?
            <==> forall j :: 0 <= j < |vulns| ==> Field(vulns[j], "PkgName").Str?
    ensures PkgNames(vulns, index).Ok? ==>
              var names := PkgNames(vulns, index).value;
              |names| == |vulns|
              && forall j :: 0 <= j < |vulns| ==> names[j] == Field(vulns[j], "PkgName").s
  {
    if |vulns| > 0 {
      var p := vulns[..|vulns| - 1];
      PkgNamesOkIff(p, index);
      assert forall j :: 0 <= j < |p| ==> p[j] == vulns[j];
    }
  }

  lemma {:induction false} ResultsNamesOkIff(results: seq<Json>)
    ensures ResultsNames(results).Ok? <==> forall i :: 0 <= i < |results| ==> ResultWellFormed(results[i])
    ensures ResultsNames(results).Ok? ==> |ResultsNames(results).value| == TotalVulns(results)
  {
    if |results| > 0 {
      var p := results[..|results| - 1];
      var last := results[|results| - 1];
      ResultsNamesOkIff(p);
      assert forall i :: 0 <= i < |p| ==> p[i] == results[i];
      if Vulns(last).Arr? {
        PkgNamesOkIff(Vulns(last).items, |results| - 1);
      }
    }
  }

  /** The extraction succeeds exactly on reports where `Results` is an
      array, every result has a `Vulnerabilities` array and every
      vulnerability has a string `PkgName`: a malformed entry aborts the
      run rather than being skipped. */
  lemma ExtractOkIff(report: Json)
    ensures Extract(report).Ok? <==> ReportWellFormed(report)
  {
    if Field(report, "Results").Arr? {
      ResultsNamesOkIff(Field(report, "Results").items);
    }
  }

  /** A missing or non-array `Results` aborts before anything is collected. */
  lemma ExtractResultsNotArray(report: Json)
    ensures Extract(report) == Err(ResultsNotArray) <==> !Field(report, "Results").Arr?
  {
    if Field(report, "Results").Arr? {
      ResultsNamesErrorAt(Field(report, "Results").items);
    }
  }

  /** An error names a position that really is malformed. */
  lemma {:induction false} ResultsNamesErrorAt(results: seq<Json>)
    ensures ResultsNames(results).Err? ==>
      match ResultsNames(results).error
      case ResultsNotArray => false
      case VulnerabilitiesNotArray(i) => i < |results| && !Vulns(results[i]).Arr?
      case PkgNameNotString(i, j) =>
        i < |results| && Vulns(results[i]).Arr? && j < |Vulns(results[i]).items|
        && !Field(Vulns(results[i]).items[j], "PkgName").Str?
  {
    if |results| > 0 {
      var p := results[..|results| - 1];
      ResultsNamesErrorAt(p);
      var last := results[|results| - 1];
      if ResultsNames(p).Ok? && Vulns(last).Arr? {
        PkgNamesErrorAt(Vulns(last).items, |results| - 1);
      }
    }
  }

  lemma {:induction false} PkgNamesErrorAt(vulns: seq<Json>, index: nat)
    ensures PkgNames(vulns, index).Err? ==>
      PkgNames(vulns, index).error.PkgNameNotString?
      && PkgNames(vulns, index).error.result == index
      && PkgNames(vulns, index).error.vulnerability < |vulns|
      && !Field(vulns[PkgNames(vulns, index).error.vulnerability], "PkgName").Str?
  {
    if |vulns| > 0 {
      PkgNamesErrorAt(vulns[..|vulns| - 1], index);
    }
  }

  /** Sum of the vulnerability counts of the results before position `i`:
      where the names of result `i` start in the list. */
  function Offset(results: seq<Json>, i: nat): nat
    requires i <= |results|
  {
    TotalVulns(results[..i])
  }

  /** The list holds one name per vulnerability entry, ordered by result
      position and then by vulnerability position. */
  lemma {:induction false} ResultsNamesAt(results: seq<Json>, i: nat, j: nat)
    requires ResultsNames(results).Ok?
    requires i < |results|
    requires Vulns(results[i]).Arr? && j < |Vulns(results[i]).items|
    ensures Field(Vulns(results[i]).items[j], "PkgName").Str?
    ensures Offset(results, i) + j < |ResultsNames(results).value|
    ensures ResultsNames(results).value[Offset(results, i) + j] == PkgNameAt(results[i], j)
  {
    var n := |results|;
    var p := results[..n - 1];
    var last := results[n - 1];
    var prev := ResultsNames(p).value;
    ResultsNamesOkIff(p);
    PkgNamesOkIff(Vulns(last).items, n - 1);
    assert p[..i] == results[..i];
    if i < n - 1 {
      ResultsNamesAt(p, i, j);
      assert p[i] == results[i];
      assert i + 1 <= |p|;
      OffsetMonotone(p, i + 1);
      assert results[..i + 1][..i] == results[..i];
    } else {
      assert results[..i] == p;
    }
  }

  lemma {:induction false} OffsetMonotone(results: seq<Json>, k: nat)
    requires k <= |results|
    ensures Offset(results, k) <= TotalVulns(results)
    decreases |results| - k
  {
    if k < |results| {
      OffsetMonotone(results, k + 1);
      assert results[..k + 1][..k] == results[..k];
    } else {
      assert results[..k] == results;
    }
  }

  // ---------------------------------------------------------------------
  // The imperative code.

  /** The nested index loops that push every `PkgName` onto the list. */
  method CollectPkgNames(report: Json) returns (r: Result<seq<string>>)
    ensures r == Extract(report)
  {
    var resultsArr := AsArray(Field(report, "Results"));
    if resultsArr.None? {
      return Err(ResultsNotArray);
    }
    ghost var results := resultsArr.value;
    var pkgs: seq<string> := [];
    var index1 := 0;
    while index1 < |resultsArr.value|
      invariant index1 <= |results|
      invariant ResultsNames(results[..index1]) == Ok(pkgs)
    {
      assert Item(Field(report, "Results"), index1) == results[index1];
      var vulnsArr := AsArray(Field(Item(Field(report, "Results"), index1), "Vulnerabilities"));
      assert results[..index1 + 1][..index1] == results[..index1];
      if vulnsArr.None? {
        ResultsNamesPrefixErr(results, index1 + 1);
        return Err(VulnerabilitiesNotArray(index1));
      }
      ghost var vulns := vulnsArr.value;
      ghost var before := pkgs;
      ghost var added: seq<string> := [];
      var index2 := 0;
      assert vulns[..0] == [];
      while index2 < |vulnsArr.value|
        invariant index2 <= |vulns|
        invariant pkgs == before + added
        invariant PkgNames(vulns[..index2], index1) == Ok(added)
      {
        var name := AsStr(Field(Item(Vulns(Item(Field(report, "Results"), index1)), index2), "PkgName"));
        assert vulns[..index2 + 1][..index2] == vulns[..index2];
        if name.None? {
          PkgNamesPrefixErr(vulns, index1, index2 + 1);
          assert ResultsNames(results[..index1 + 1]).Err?;
          ResultsNamesPrefixErr(results, index1 + 1);
          return Err(PkgNameNotString(index1, index2));
        }
        pkgs := pkgs + [name.value];
        added := added + [name.value];
        index2 := index2 + 1;
      }
      assert vulns[..index2] == vulns;
      index1 := index1 + 1;
    }
    assert results[..index1] == results;
    return Ok(pkgs);
  }

  /** Once a prefix of the vulnerabilities fails, the whole list fails the
      same way: the first failure in loop order is the one reported. */
  lemma {:induction false} PkgNamesPrefixErr(vulns: seq<Json>, index: nat, k: nat)
    requires k <= |vulns|
    requires PkgNames(vulns[..k], index).Err?
    ensures PkgNames(vulns, index) == PkgNames(vulns[..k], index)
    decreases |vulns| - k
  {
    if k < |vulns| {
      assert vulns[..k + 1][..k] == vulns[..k];
      PkgNamesPrefixErr(vulns, index, k + 1);
    } else {
      assert vulns[..k] == vulns;
    }
  }

  lemma {:induction false} ResultsNamesPrefixErr(results: seq<Json>, k: nat)
    requires k <= |results|
    requires ResultsNames(results[..k]).Err?
    ensures ResultsNames(results) == ResultsNames(results[..k])
    decreases |results| - k
  {
    if k < |results| {
      assert results[..k + 1][..k] == results[..k];
      ResultsNamesPrefixErr(results, k + 1);
    } else {
      assert results[..k] == results;
    }
  }

  /** The collected list is deduplicated in place and joined with single
      spaces: the line the prescan step prints. */
  method PrescanLine(report: Json) returns (r: Result<string>)
    ensures r.Ok? <==> Extract(report).Ok?
    ensures r.Err? ==> r.error == Extract(report).error
    ensures r.Ok? ==> r.value == VecOps.Join(VecOps.Dedup(Extract(report).value), " ")
  {
    var collected := CollectPkgNames(report);
    if collected.Err? {
      return Err(collected.error);
    }
    var pkgs := collected.value;
    var buffer := new string[|pkgs|](i requires 0 <= i < |pkgs| => pkgs[i]);
    assert buffer[..] == pkgs;
    var len := VecOps.DedupInPlace(buffer);
    return Ok(VecOps.Join(buffer[..len], " "));
  }
}
