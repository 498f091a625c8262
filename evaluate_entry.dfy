/**
 * The entry router of the evaluation engine (`evaluate_entry`): YAML answers
 * are gated on a server-side dry run, CLI answers on shell syntax, and every
 * entry that is not gated out is scored as an explanation.
 */
module EvaluateEntry {
  import opened Wrappers
  import opened JsonValue
  import opened ToolRun
  import opened YamlScore
  import opened ShellWords
  import opened CliScore
  import opened ExplanationScore

  /** `entry.get("output_category", "Explanation")`. */
  function CategoryOf(entry: Fields): Json {
    Get(entry, "output_category", JStr("Explanation"))
  }

  /** The checks of the YAML block of a response, as `validate_yaml_kube_tools`
      computes them with the default namespace. */
  function YamlChecksOf(response: string, kubeconform: string -> ToolOutcome,
                        kubectlDryRun: (string, string) -> ToolOutcome): YamlChecks {
    var yamlText := ExtractYaml(response);
    YamlChecks(CheckOf(kubeconform(yamlText)), CheckOf(kubectlDryRun(yamlText, "default")))
  }

  /** `not cli_res.get("cli_syntax_pass", False)`. */
  predicate CliFailed(cliRes: Fields) {
    !Truthy(Get(cliRes, "cli_syntax_pass", JBool(false)))
  }

  /** `re.findall` on a response that is not a string. */
  const NotAStringPattern := "TypeError: expected string or bytes-like object"

  /** How a call of `evaluate_entry` ends: it returns the dict, or it raises;
      either way `fields` is what the dict then holds. */
  datatype EntryOutcome = Returned(fields: Fields) | Failed(fields: Fields, error: string)

  /** The explanation scorer on `entry`: it returns the scored dict, or raises
      and leaves the dict as it was. */
  function Explained(entry: Fields, judge: Judge): EntryOutcome {
    match ExplanationFields(entry, judge)
    case Success(f) => Returned(f)
    case Failure(e) => Failed(entry, e)
  }

  /** The outcome of `evaluate_entry`. `entry.update(d)` is the map union
      `entry + d`, in which the keys of `d` win. */
  function EntryResult(entry: Fields, kubeconform: string -> ToolOutcome,
                       kubectlDryRun: (string, string) -> ToolOutcome, judge: Judge): EntryOutcome {
    var response := Response(entry);
    if CategoryOf(entry) == JStr("YAML") then
      if !response.JStr? then Failed(entry, NotAStringPattern)
      else
        var checks := YamlChecksOf(response.s, kubeconform, kubectlDryRun);
        var merged := entry + YamlChecksFields(checks);
        if !checks.dryRun.pass then Returned(merged["auto_pass" := JBool(false)])
        else Explained(merged, judge)
    else if CategoryOf(entry) == JStr("CLI") then
      var cliRes := ValidateCliValue(response);
      var merged := entry + cliRes;
      if CliFailed(cliRes) then Returned(merged["auto_pass" := JBool(false)])
      else Explained(merged, judge)
    else
      Explained(entry, judge)
  }

  /** An update that does not touch the response or the assertions leaves the
      scores of the entry as they were. */
  lemma UpdateKeepsScores(entry: Fields, d: Fields, judge: Judge)
    requires "generated_response" !in d && "assertions" !in d
    ensures Response(entry + d) == Response(entry)
    ensures EntryScores(entry + d, judge) == EntryScores(entry, judge)
  {
    assert Response(entry + d) == Response(entry);
    assert Assertions(entry + d) == Assertions(entry);
  }

  /** A YAML entry whose dry run fails is gated: both tool results are stored,
      it is marked as not passed, and nothing else changes. */
  lemma YamlGate(entry: Fields, kubeconform: string -> ToolOutcome,
                 kubectlDryRun: (string, string) -> ToolOutcome, judge: Judge)
    requires CategoryOf(entry) == JStr("YAML") && Response(entry).JStr?
    requires !YamlChecksOf(Response(entry).s, kubeconform, kubectlDryRun).dryRun.pass
    ensures EntryResult(entry, kubeconform, kubectlDryRun, judge) ==
      Returned((entry + YamlChecksFields(YamlChecksOf(Response(entry).s, kubeconform, kubectlDryRun)))["auto_pass" := JBool(false)])
    ensures EntryResult(entry, kubeconform, kubectlDryRun, judge).fields.Keys ==
      entry.Keys + {"kubeconform", "dry_run", "auto_pass"}
  {
  }

  /** A YAML entry whose response is not a string raises before anything is
      run or stored. */
  lemma YamlNonStringRaises(entry: Fields, kubeconform: string -> ToolOutcome,
                            kubectlDryRun: (string, string) -> ToolOutcome, judge: Judge)
    requires CategoryOf(entry) == JStr("YAML") && !Response(entry).JStr?
    ensures EntryResult(entry, kubeconform, kubectlDryRun, judge) == Failed(entry, NotAStringPattern)
  {
  }

  /** A YAML entry whose dry run passes keeps the tool results and is then
      scored as an explanation. */
  lemma YamlPassesThrough(entry: Fields, kubeconform: string -> ToolOutcome,
                          kubectlDryRun: (string, string) -> ToolOutcome, judge: Judge)
    requires CategoryOf(entry) == JStr("YAML") && Response(entry).JStr?
    requires YamlChecksOf(Response(entry).s, kubeconform, kubectlDryRun).dryRun.pass
    ensures EntryResult(entry, kubeconform, kubectlDryRun, judge) ==
      Explained(entry + YamlChecksFields(YamlChecksOf(Response(entry).s, kubeconform, kubectlDryRun)), judge)
  {
  }

  /** A CLI entry records whether its response splits into shell words; one
      that does not, or whose response is not a string, is gated with the
      error and marked as not passed, without reading its assertions. */
  lemma CliGate(entry: Fields, kubeconform: string -> ToolOutcome,
                kubectlDryRun: (string, string) -> ToolOutcome, judge: Judge)
    requires CategoryOf(entry) == JStr("CLI")
    ensures !Response(entry).JStr? ==>
      EntryResult(entry, kubeconform, kubectlDryRun, judge) ==
        Returned(entry["cli_syntax_pass" := JBool(false)]["error" := JStr(NotAStringError)]["auto_pass" := JBool(false)])
    ensures Response(entry).JStr? && Split(Response(entry).s).Failure? ==>
      EntryResult(entry, kubeconform, kubectlDryRun, judge) ==
        Returned(entry["cli_syntax_pass" := JBool(false)]["error" := JStr(Split(Response(entry).s).error)]["auto_pass" := JBool(false)])
    ensures Response(entry).JStr? && Split(Response(entry).s).Success? ==>
      EntryResult(entry, kubeconform, kubectlDryRun, judge) ==
        Explained(entry["cli_syntax_pass" := JBool(true)], judge)
  {
    var r := ValidateCliValue(Response(entry));
    if !Response(entry).JStr? {
      assert entry + r == entry["cli_syntax_pass" := JBool(false)]["error" := JStr(NotAStringError)];
    } else if Split(Response(entry).s).Failure? {
      assert r == map["cli_syntax_pass" := JBool(false), "error" := JStr(Split(Response(entry).s).error)];
      assert entry + r == entry["cli_syntax_pass" := JBool(false)]["error" := JStr(Split(Response(entry).s).error)];
    } else {
      assert r == map["cli_syntax_pass" := JBool(true)];
      assert entry + r == entry["cli_syntax_pass" := JBool(true)];
    }
  }

  /** Any other category, or none (which defaults to "Explanation"), goes
      straight to the explanation scorer. */
  lemma OtherCategoriesAreExplained(entry: Fields, kubeconform: string -> ToolOutcome,
                                    kubectlDryRun: (string, string) -> ToolOutcome, judge: Judge)
    requires CategoryOf(entry) != JStr("YAML") && CategoryOf(entry) != JStr("CLI")
    ensures EntryResult(entry, kubeconform, kubectlDryRun, judge) == Explained(entry, judge)
  {
  }

  /** The gate passed: the YAML dry run passed, or the CLI response split, or
      the entry is of another category. */
  predicate GatePassed(entry: Fields, kubeconform: string -> ToolOutcome,
                       kubectlDryRun: (string, string) -> ToolOutcome) {
    (CategoryOf(entry) == JStr("YAML") ==>
      Response(entry).JStr? && YamlChecksOf(Response(entry).s, kubeconform, kubectlDryRun).dryRun.pass) &&
    (CategoryOf(entry) == JStr("CLI") ==> Response(entry).JStr? && Split(Response(entry).s).Success?)
  }

  /** `evaluate_entry` raises exactly when a YAML entry's response is not a
      string, or the entry got through its gate and the explanation scorer
      raises on it; a gated entry never reaches its assertions. */
  lemma RaisesIff(entry: Fields, kubeconform: string -> ToolOutcome,
                  kubectlDryRun: (string, string) -> ToolOutcome, judge: Judge)
    ensures EntryResult(entry, kubeconform, kubectlDryRun, judge).Failed? <==>
      (CategoryOf(entry) == JStr("YAML") && !Response(entry).JStr?) ||
      (GatePassed(entry, kubeconform, kubectlDryRun) && EntryScores(entry, judge).Failure?)
  {
    var response := Response(entry);
    if CategoryOf(entry) == JStr("YAML") && response.JStr? {
      UpdateKeepsScores(entry, YamlChecksFields(YamlChecksOf(response.s, kubeconform, kubectlDryRun)), judge);
    } else if CategoryOf(entry) == JStr("CLI") {
      UpdateKeepsScores(entry, ValidateCliValue(response), judge);
    }
  }

  /** Every entry that `evaluate_entry` returns carries a boolean `auto_pass`;
      it is true only when the entry got through its gate and its explanation
      accuracy reached 0.75. */
  lemma AutoPassMeans(entry: Fields, kubeconform: string -> ToolOutcome,
                      kubectlDryRun: (string, string) -> ToolOutcome, judge: Judge)
    requires EntryResult(entry, kubeconform, kubectlDryRun, judge).Returned?
    ensures "auto_pass" in EntryResult(entry, kubeconform, kubectlDryRun, judge).fields
    ensures EntryResult(entry, kubeconform, kubectlDryRun, judge).fields["auto_pass"].JBool?
    ensures EntryResult(entry, kubeconform, kubectlDryRun, judge).fields["auto_pass"] == JBool(true) ==>
      GatePassed(entry, kubeconform, kubectlDryRun) &&
      EntryScores(entry, judge).Success? && EntryScores(entry, judge).value.accuracy >= 0.75
  {
    var response := Response(entry);
    if CategoryOf(entry) == JStr("YAML") && response.JStr? {
      UpdateKeepsScores(entry, YamlChecksFields(YamlChecksOf(response.s, kubeconform, kubectlDryRun)), judge);
    } else if CategoryOf(entry) == JStr("CLI") {
      UpdateKeepsScores(entry, ValidateCliValue(response), judge);
    }
  }

  /** `evaluate_entry(entry)`: updates the dict in place and returns it, or
      raises, leaving in the dict what was stored before the exception. */
  method Evaluate(entry: Dict, kubeconform: string -> ToolOutcome,
                  kubectlDryRun: (string, string) -> ToolOutcome, judge: Judge)
    returns (r: Result<Dict>)
    modifies entry
    ensures entry.fields == EntryResult(old(entry.fields), kubeconform, kubectlDryRun, judge).fields
    ensures r.Success? <==> EntryResult(old(entry.fields), kubeconform, kubectlDryRun, judge).Returned?
    ensures r.Success? ==> r.value == entry
    ensures r.Failure? ==> r.error == EntryResult(old(entry.fields), kubeconform, kubectlDryRun, judge).error
  {
    var category := Get(entry.fields, "output_category", JStr("Explanation"));
    var response := Get(entry.fields, "generated_response", JStr(""));
    if category == JStr("YAML") {
      if !response.JStr? {
        return Failure(NotAStringPattern);
      }
      var yamlText := ExtractYaml(response.s);
      var yamlRes := ValidateYamlKubeTools(yamlText, "default", kubeconform, kubectlDryRun);
      entry.fields := entry.fields + YamlChecksFields(yamlRes);
      if !yamlRes.dryRun.pass {
        entry.fields := entry.fields["auto_pass" := JBool(false)];
        return Success(entry);
      }
    } else if category == JStr("CLI") {
      var cliRes := ValidateCliValue(response);
      entry.fields := entry.fields + cliRes;
      if CliFailed(cliRes) {
        entry.fields := entry.fields["auto_pass" := JBool(false)];
        return Success(entry);
      }
    }
    r := EvaluateExplanationEntry(entry, judge);
  }

  /** The loop of `evaluate_all`: each entry is evaluated in list order and
      collected, until one raises, which ends the run before anything is
      written. `json.load` builds a distinct dict for every list element. */
  method EvaluateAll(data: seq<Dict>, kubeconform: string -> ToolOutcome,
                     kubectlDryRun: (string, string) -> ToolOutcome, judge: Judge)
    returns (results: seq<Dict>, error: Option<string>)
    requires forall i, j :: 0 <= i < j < |data| ==> data[i] != data[j]
    modifies set i | 0 <= i < |data| :: data[i]
    ensures |results| <= |data| && results == data[..|results|]
    ensures error.None? <==> |results| == |data|
    ensures forall i :: 0 <= i < |results| ==>
      EntryResult(old(data[i].fields), kubeconform, kubectlDryRun, judge) == Returned(data[i].fields)
    ensures error.Some? ==>
      EntryResult(old(data[|results|].fields), kubeconform, kubectlDryRun, judge) ==
        Failed(data[|results|].fields, error.value)
    ensures forall i :: |results| < i < |data| ==> data[i].fields == old(data[i].fields)
  {
    results := [];
    while |results| < |data|
      invariant |results| <= |data| && results == data[..|results|]
      invariant forall i :: 0 <= i < |results| ==>
        EntryResult(old(data[i].fields), kubeconform, kubectlDryRun, judge) == Returned(data[i].fields)
      invariant forall i :: |results| <= i < |data| ==> data[i].fields == old(data[i].fields)
    {
      var k := |results|;
      var evaluated := Evaluate(data[k], kubeconform, kubectlDryRun, judge);
      if evaluated.Failure? {
        return results, Some(evaluated.error);
      }
      results := results + [evaluated.value];
    }
    error := None;
  }
}
