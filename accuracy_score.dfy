/**
 * The accuracy stage of the evaluation engine (`evaluate_all` of the accuracy
 * script): YAML entries are checked with three Kubernetes tools, CLI entries
 * are syntax-checked, and CLI and Explanation entries receive the row of
 * RAGAS scores computed for them, in order.
 */
module AccuracyScore {
  import opened Wrappers
  import opened PyStr
  import opened JsonValue
  import opened ToolRun
  import opened ShellWords
  import opened CliScore

  // ---------------------------------------------------------------- evaluate_yaml

  /** The three external checkers, each run on a temporary file holding the text. */
  datatype KubeTools = KubeTools(
    kubeconform: string -> ToolOutcome,
    kubeScore: string -> ToolOutcome,
    kubectlDryRun: (string, string) -> ToolOutcome)

  /** `{"Pass": pass, detailKey: detail if not pass else None}`. */
  function Verdict(pass: bool, detailKey: string, detail: string): Json {
    JObj(map["Pass" := JBool(pass), detailKey := if pass then JNull else JStr(detail)])
  }

  /** `evaluate_yaml(yaml_str)` with the default namespace. A tool that cannot be
      started raises out of the whole stage, which is `Failure`; the tools run in
      the order kubeconform, kube-score, kubectl. */
  function EvaluateYaml(yamlStr: string, tools: KubeTools): Result<Fields> {
    match tools.kubeconform(yamlStr)
    case Raised(m) => Failure(m)
    case Exited(schemaCode, _, schemaErr) =>
      match tools.kubeScore(yamlStr)
      case Raised(m) => Failure(m)
      case Exited(_, scoreOut, _) =>
        match tools.kubectlDryRun(yamlStr, "default")
        case Raised(m) => Failure(m)
        case Exited(dryRunCode, _, dryRunErr) =>
          Success(map[
            "SchemaValidation" := Verdict(schemaCode == 0, "Error", schemaErr),
            "KubeScore" := Verdict(!Contains(scoreOut, "CRITICAL"), "Summary", scoreOut),
            "DryRun" := Verdict(dryRunCode == 0, "Error", dryRunErr)])
  }

  const WriteError := "TypeError: write() argument must be str"

  /** `evaluate_yaml(item["generated_response"])` on whatever the entry holds:
      writing a value other than a string to the temporary file raises before
      any tool runs. */
  function EvaluateYamlValue(response: Json, tools: KubeTools): Result<Fields> {
    match response
    case JStr(s) => EvaluateYaml(s, tools)
    case _ => Failure(WriteError)
  }

  /** The three verdicts: schema and dry run pass on exit status 0, kube-score
      passes when its output has no "CRITICAL" (whatever its exit status); a
      detail is recorded only for a failed check; a tool that raises makes the
      stage fail with its message. */
  lemma EvaluateYamlSpec(yamlStr: string, tools: KubeTools)
    ensures EvaluateYaml(yamlStr, tools).Failure? <==>
      tools.kubeconform(yamlStr).Raised? || tools.kubeScore(yamlStr).Raised? ||
      tools.kubectlDryRun(yamlStr, "default").Raised?
    ensures tools.kubeconform(yamlStr).Raised? ==>
      EvaluateYaml(yamlStr, tools) == Failure(tools.kubeconform(yamlStr).message)
    ensures EvaluateYaml(yamlStr, tools).Success? ==>
      var r := EvaluateYaml(yamlStr, tools).value;
      var kc := tools.kubeconform(yamlStr);
      var ks := tools.kubeScore(yamlStr);
      var kd := tools.kubectlDryRun(yamlStr, "default");
      r.Keys == {"SchemaValidation", "KubeScore", "DryRun"} &&
      r["SchemaValidation"].fields["Pass"] == JBool(kc.code == 0) &&
      r["SchemaValidation"].fields["Error"] == (if kc.code == 0 then JNull else JStr(kc.stderr)) &&
      r["KubeScore"].fields["Pass"] == JBool(!Contains(ks.stdout, "CRITICAL")) &&
      r["KubeScore"].fields["Summary"] == (if Contains(ks.stdout, "CRITICAL") then JStr(ks.stdout) else JNull) &&
      r["DryRun"].fields["Pass"] == JBool(kd.code == 0) &&
      r["DryRun"].fields["Error"] == (if kd.code == 0 then JNull else JStr(kd.stderr))
  {
  }

  // ---------------------------------------------------------------- is_cli_valid

  /** `is_cli_valid(cli_str)`: the command splits into shell words; any other
      value than a string makes `shlex` fail, which is caught. */
  predicate IsCliValid(cli: Json) {
    cli.JStr? && Split(cli.s).Success?
  }

  /** The accuracy stage and the CLI verifier agree on every response. */
  lemma IsCliValidAgrees(cli: Json)
    ensures IsCliValid(cli) <==> ValidateCliValue(cli)["cli_syntax_pass"] == JBool(true)
  {
  }

  // ---------------------------------------------------------------- RAGAS input

  /** `d[key]` on a missing key. */
  function KeyError(key: string): string {
    "KeyError: '" + key + "'"
  }

  const UnhashableError := "TypeError: unhashable type"

  /** The entry has this category. */
  predicate HasCategory(item: Fields, c: string) {
    "output_category" in item && item["output_category"] == JStr(c)
  }

  /** RAGAS is applied to Explanation and CLI entries. */
  predicate Eligible(item: Fields) {
    HasCategory(item, "Explanation") || HasCategory(item, "CLI")
  }

  /** `d["output_category"] in {...}` can be evaluated: the key is present and
      its value can be looked up in a set (it is not a list or a dict). */
  predicate CategoryReadable(item: Fields) {
    "output_category" in item && !item["output_category"].JArr? && !item["output_category"].JObj?
  }

  /** The exception of an entry whose category cannot be read. */
  function CategoryFault(item: Fields): string {
    if "output_category" !in item then KeyError("output_category") else UnhashableError
  }

  /** The eligible entries, in order. */
  function RagasInput(data: seq<Fields>): (r: seq<Fields>)
    ensures |r| <= |data|
  {
    if data == [] then []
    else RagasInput(data[..|data| - 1]) + (if Eligible(data[|data| - 1]) then [data[|data| - 1]] else [])
  }

  /** The filter distributes over concatenation. */
  lemma {:induction false} RagasInputAppend(a: seq<Fields>, b: seq<Fields>)
    ensures RagasInput(a + b) == RagasInput(a) + RagasInput(b)
    decreases |b|
  {
    if b == [] {
      assert a + b == a;
    } else {
      assert (a + b)[..|a + b| - 1] == a + b[..|b| - 1];
      RagasInputAppend(a, b[..|b| - 1]);
    }
  }

  /** The RAGAS input holds exactly the eligible entries. */
  lemma {:induction false} RagasInputMembers(data: seq<Fields>)
    ensures forall x :: x in RagasInput(data) <==> x in data && Eligible(x)
  {
    if data != [] {
      RagasInputMembers(data[..|data| - 1]);
      assert data == data[..|data| - 1] + [data[|data| - 1]];
    }
  }

  /** `[d for d in data if d["output_category"] in {"Explanation", "CLI"}]`: the
      eligible entries in order, or the exception of the first entry whose
      category cannot be read. */
  function SelectRagasInput(data: seq<Fields>): (r: Result<seq<Fields>>)
    ensures r.Success? <==> forall i :: 0 <= i < |data| ==> CategoryReadable(data[i])
    ensures r.Success? ==> r.value == RagasInput(data)
  {
    if data == [] then Success([])
    else if !CategoryReadable(data[0]) then Failure(CategoryFault(data[0]))
    else
      match SelectRagasInput(data[1..])
      case Failure(e) => Failure(e)
      case Success(rest) =>
        RagasInputAppend([data[0]], data[1..]);
        assert [data[0]] + data[1..] == data;
        assert [data[0]][..0] == [];
        Success((if Eligible(data[0]) then [data[0]] else []) + rest)
  }

  /** The comprehension raises with the fault of the first entry whose category
      cannot be read. */
  lemma {:induction false} SelectFailsAtFirstFault(data: seq<Fields>, i: nat)
    requires i < |data| && !CategoryReadable(data[i])
    requires forall j :: 0 <= j < i ==> CategoryReadable(data[j])
    ensures SelectRagasInput(data) == Failure(CategoryFault(data[i]))
  {
    if i > 0 {
      SelectFailsAtFirstFault(data[1..], i - 1);
    }
  }

  /** Score row alignment: the eligible entry at position `i` is element number
      |RagasInput(data[..i])| of the RAGAS input, which is therefore in range. */
  lemma RagasRowAligned(data: seq<Fields>, i: nat)
    requires i < |data| && Eligible(data[i])
    ensures |RagasInput(data[..i])| < |RagasInput(data)|
    ensures RagasInput(data)[|RagasInput(data[..i])|] == data[i]
  {
    assert data == data[..i] + [data[i]] + data[i + 1..];
    RagasInputAppend(data[..i] + [data[i]], data[i + 1..]);
    RagasInputAppend(data[..i], [data[i]]);
    assert [data[i]][..0] == [];
  }

  // ---------------------------------------------------------------- baseline

  /** The entries before position `i` carry contexts, all of them empty. */
  predicate NoContextsBefore(input: seq<Fields>, i: nat)
    requires i <= |input|
  {
    forall j :: 0 <= j < i ==> "retrieved_contexts" in input[j] && !Truthy(input[j]["retrieved_contexts"])
  }

  /** `all(not d["retrieved_contexts"] for d in ragas_input)`, which stops at the
      first entry with contexts and raises at the first entry without the key. */
  function Baseline(input: seq<Fields>): Result<bool> {
    if input == [] then Success(true)
    else if "retrieved_contexts" !in input[0] then Failure(KeyError("retrieved_contexts"))
    else if Truthy(input[0]["retrieved_contexts"]) then Success(false)
    else Baseline(input[1..])
  }

  /** The scan is true exactly when every entry has empty contexts, false
      exactly when an entry with contexts comes before any entry without the
      key, and raises exactly when an entry without the key comes first. */
  lemma {:induction false} BaselineSpec(input: seq<Fields>)
    ensures Baseline(input) == Success(true) <==> NoContextsBefore(input, |input|)
    ensures Baseline(input) == Success(false) <==>
      exists i :: 0 <= i < |input| && NoContextsBefore(input, i) &&
        "retrieved_contexts" in input[i] && Truthy(input[i]["retrieved_contexts"])
    ensures Baseline(input).Failure? <==>
      exists i :: 0 <= i < |input| && NoContextsBefore(input, i) && "retrieved_contexts" !in input[i]
    ensures Baseline(input).Failure? ==> Baseline(input).error == KeyError("retrieved_contexts")
  {
    if input != [] {
      var tail := input[1..];
      BaselineSpec(tail);
      assert forall i :: 0 < i <= |input| ==> (NoContextsBefore(input, i) <==>
        NoContextsBefore(input, 1) && NoContextsBefore(tail, i - 1));
      if Baseline(input) == Success(false) && "retrieved_contexts" in input[0] && !Truthy(input[0]["retrieved_contexts"]) {
        var i :| 0 <= i < |tail| && NoContextsBefore(tail, i) &&
          "retrieved_contexts" in tail[i] && Truthy(tail[i]["retrieved_contexts"]);
        assert NoContextsBefore(input, i + 1);
      }
      if Baseline(input).Failure? && "retrieved_contexts" in input[0] {
        var i :| 0 <= i < |tail| && NoContextsBefore(tail, i) && "retrieved_contexts" !in tail[i];
        assert NoContextsBefore(input, i + 1);
      }
      if exists i :: 0 <= i < |input| && NoContextsBefore(input, i) && "retrieved_contexts" !in input[i] {
        var i :| 0 <= i < |input| && NoContextsBefore(input, i) && "retrieved_contexts" !in input[i];
        if i > 0 {
          assert NoContextsBefore(tail, i - 1);
        }
      }
      if exists i :: 0 <= i < |input| && NoContextsBefore(input, i) &&
           "retrieved_contexts" in input[i] && Truthy(input[i]["retrieved_contexts"]) {
        var i :| 0 <= i < |input| && NoContextsBefore(input, i) &&
          "retrieved_contexts" in input[i] && Truthy(input[i]["retrieved_contexts"]);
        if i > 0 {
          assert NoContextsBefore(tail, i - 1);
        }
      }
    }
  }

  /** The run is a baseline exactly when every eligible entry carries empty
      contexts; with no eligible entry it is one. */
  lemma BaselineIff(data: seq<Fields>)
    ensures Baseline(RagasInput(data)) == Success(true) <==>
      forall i :: 0 <= i < |data| && Eligible(data[i]) ==>
        "retrieved_contexts" in data[i] && !Truthy(data[i]["retrieved_contexts"])
  {
    var input := RagasInput(data);
    BaselineSpec(input);
    RagasInputMembers(data);
    if NoContextsBefore(input, |input|) {
      forall i | 0 <= i < |data| && Eligible(data[i])
        ensures "retrieved_contexts" in data[i] && !Truthy(data[i]["retrieved_contexts"])
      {
        assert data[i] in input;
        var j :| 0 <= j < |input| && input[j] == data[i];
      }
    }
    if forall i :: 0 <= i < |data| && Eligible(data[i]) ==>
         "retrieved_contexts" in data[i] && !Truthy(data[i]["retrieved_contexts"]) {
      forall j | 0 <= j < |input|
        ensures "retrieved_contexts" in input[j] && !Truthy(input[j]["retrieved_contexts"])
      {
        assert input[j] in input;
        var i :| 0 <= i < |data| && data[i] == input[j];
      }
    }
  }

  // ---------------------------------------------------------------- RAGAS columns

  /** The columns `run_ragas` reads from every entry of its input, in order. */
  const RagasColumns := ["question", "generated_response", "retrieved_contexts", "reference_answer"]

  /** The first of `cols` that some entry of `input` lacks: building the dataset
      reads each column from every entry, one column after the other. */
  function MissingColumn(cols: seq<string>, input: seq<Fields>): (r: Option<string>)
    ensures r.None? <==> forall k, i :: 0 <= k < |cols| && 0 <= i < |input| ==> cols[k] in input[i]
    ensures r.Some? ==> r.value in cols && exists i :: 0 <= i < |input| && r.value !in input[i]
  {
    if cols == [] then None
    else if exists i :: 0 <= i < |input| && cols[0] !in input[i] then Some(cols[0])
    else
      var r := MissingColumn(cols[1..], input);
      assert forall k :: 0 < k < |cols| ==> cols[k] == cols[1..][k - 1];
      r
  }

  // ---------------------------------------------------------------- merge loop

  /** The five metrics the scorer reports. */
  datatype Metric = Faithfulness | AnswerRelevancy | ContextPrecision | ContextRecall | AnswerCorrectness

  /** The score columns for RAGAS row `row`; the three context metrics are not
      computed for a baseline run and are written as 0.0. */
  function ScoreFields(row: nat, isBaseline: bool, scores: (Metric, nat) -> real): Fields {
    map[
      "faithfulness" := JNum(if isBaseline then 0.0 else scores(Faithfulness, row)),
      "context_precision" := JNum(if isBaseline then 0.0 else scores(ContextPrecision, row)),
      "context_recall" := JNum(if isBaseline then 0.0 else scores(ContextRecall, row)),
      "answer_relevancy" := JNum(scores(AnswerRelevancy, row)),
      "answer_correctness" := JNum(scores(AnswerCorrectness, row))]
  }

  /** The loop body raises on an entry: it has no category, or it is a YAML or
      CLI entry without a response, or a YAML entry whose check raises. */
  predicate ItemFails(item: Fields, tools: KubeTools) {
    "output_category" !in item ||
    ((HasCategory(item, "YAML") || HasCategory(item, "CLI")) && "generated_response" !in item) ||
    (HasCategory(item, "YAML") && "generated_response" in item &&
     EvaluateYamlValue(item["generated_response"], tools).Failure?)
  }

  /** The result for one entry, `row` being the current RAGAS row index and
      `rows` the length of the RAGAS input; whether it raises does not depend
      on the row. */
  function ResultItem(item: Fields, row: nat, rows: nat, isBaseline: bool,
                      scores: (Metric, nat) -> real, tools: KubeTools): (r: Result<Fields>)
    ensures r.Failure? <==> ItemFails(item, tools)
  {
    if "output_category" !in item then Failure(KeyError("output_category"))
    else if HasCategory(item, "YAML") then
      if "generated_response" !in item then Failure(KeyError("generated_response"))
      else
        match EvaluateYamlValue(item["generated_response"], tools)
        case Failure(m) => Failure(m)
        case Success(y) => Success(item + y)
    else if HasCategory(item, "CLI") then
      if "generated_response" !in item then Failure(KeyError("generated_response"))
      else
        var r := item["CLI_Syntax_Valid" := JBool(IsCliValid(item["generated_response"]))];
        Success(if row < rows then r + ScoreFields(row, isBaseline, scores) else r)
    else if HasCategory(item, "Explanation") then
      Success(item + ScoreFields(row, isBaseline, scores))
    else
      Success(item)
  }

  /** The results of the loop over `data`, stopping at the first entry that
      raises. The RAGAS row of an entry is the number of eligible entries
      before it. */
  function Merged(data: seq<Fields>, rows: nat, isBaseline: bool,
                  scores: (Metric, nat) -> real, tools: KubeTools): (r: Result<seq<Fields>>)
    ensures r.Success? ==> |r.value| == |data|
  {
    if data == [] then Success([])
    else
      var prefix := data[..|data| - 1];
      match Merged(prefix, rows, isBaseline, scores, tools)
      case Failure(m) => Failure(m)
      case Success(done) =>
        match ResultItem(data[|data| - 1], |RagasInput(prefix)|, rows, isBaseline, scores, tools)
        case Failure(m) => Failure(m)
        case Success(x) => Success(done + [x])
  }

  /** Result `i` is the result of entry `i` with its own RAGAS row. */
  lemma {:induction false} MergedAt(data: seq<Fields>, rows: nat, isBaseline: bool,
                                    scores: (Metric, nat) -> real, tools: KubeTools, i: nat)
    requires Merged(data, rows, isBaseline, scores, tools).Success? && i < |data|
    ensures ResultItem(data[i], |RagasInput(data[..i])|, rows, isBaseline, scores, tools).Success?
    ensures Merged(data, rows, isBaseline, scores, tools).value[i] ==
      ResultItem(data[i], |RagasInput(data[..i])|, rows, isBaseline, scores, tools).value
  {
    var prefix := data[..|data| - 1];
    if i < |data| - 1 {
      assert prefix[..i] == data[..i];
      MergedAt(prefix, rows, isBaseline, scores, tools, i);
    }
  }

  /** The loop fails exactly when some entry makes its body raise. */
  lemma {:induction false} MergedFailsIff(data: seq<Fields>, rows: nat, isBaseline: bool,
                                          scores: (Metric, nat) -> real, tools: KubeTools)
    ensures Merged(data, rows, isBaseline, scores, tools).Failure? <==>
      exists j :: 0 <= j < |data| && ItemFails(data[j], tools)
  {
    if data != [] {
      var prefix := data[..|data| - 1];
      MergedFailsIff(prefix, rows, isBaseline, scores, tools);
      assert forall j :: 0 <= j < |prefix| ==> prefix[j] == data[j];
    }
  }

  /** A YAML entry gains exactly the three verdict keys and keeps all others. */
  lemma YamlResult(item: Fields, row: nat, rows: nat, isBaseline: bool,
                   scores: (Metric, nat) -> real, tools: KubeTools)
    requires HasCategory(item, "YAML")
    requires ResultItem(item, row, rows, isBaseline, scores, tools).Success?
    ensures var r := ResultItem(item, row, rows, isBaseline, scores, tools).value;
      r.Keys == item.Keys + {"SchemaValidation", "KubeScore", "DryRun"} &&
      forall k :: k in item && k !in {"SchemaValidation", "KubeScore", "DryRun"} ==> r[k] == item[k]
  {
    EvaluateYamlSpec(item["generated_response"].s, tools);
  }

  /** A YAML entry whose response is not a string makes the stage raise. */
  lemma YamlNonStringFails(item: Fields, row: nat, rows: nat, isBaseline: bool,
                           scores: (Metric, nat) -> real, tools: KubeTools)
    requires HasCategory(item, "YAML") && "generated_response" in item && !item["generated_response"].JStr?
    ensures ResultItem(item, row, rows, isBaseline, scores, tools) == Failure(WriteError)
  {
  }

  /** A CLI entry with a row in range gains the syntax flag, true exactly when
      the response is a string that splits, and the five score columns of its
      row. */
  lemma CliResult(item: Fields, row: nat, rows: nat, isBaseline: bool,
                  scores: (Metric, nat) -> real, tools: KubeTools)
    requires HasCategory(item, "CLI") && "generated_response" in item && row < rows
    ensures var r := ResultItem(item, row, rows, isBaseline, scores, tools);
      r.Success? &&
      r.value.Keys == item.Keys + {"CLI_Syntax_Valid"} + ScoreFields(row, isBaseline, scores).Keys &&
      r.value["CLI_Syntax_Valid"] == JBool(item["generated_response"].JStr? && Split(item["generated_response"].s).Success?) &&
      forall k :: k in ScoreFields(row, isBaseline, scores) ==> r.value[k] == ScoreFields(row, isBaseline, scores)[k]
  {
    var flagged := item["CLI_Syntax_Valid" := JBool(IsCliValid(item["generated_response"]))];
    assert ResultItem(item, row, rows, isBaseline, scores, tools) == Success(flagged + ScoreFields(row, isBaseline, scores));
  }

  /** An Explanation entry gains the five score columns of its row. */
  lemma ExplanationResult(item: Fields, row: nat, rows: nat, isBaseline: bool,
                          scores: (Metric, nat) -> real, tools: KubeTools)
    requires HasCategory(item, "Explanation")
    ensures var r := ResultItem(item, row, rows, isBaseline, scores, tools);
      r.Success? &&
      r.value.Keys == item.Keys + ScoreFields(row, isBaseline, scores).Keys &&
      forall k :: k in ScoreFields(row, isBaseline, scores) ==> r.value[k] == ScoreFields(row, isBaseline, scores)[k]
  {
  }

  /** Entries of any other category, including null or numeric ones, are
      copied unchanged. */
  lemma OtherResult(item: Fields, row: nat, rows: nat, isBaseline: bool,
                    scores: (Metric, nat) -> real, tools: KubeTools)
    requires "output_category" in item && !Eligible(item) && !HasCategory(item, "YAML")
    ensures ResultItem(item, row, rows, isBaseline, scores, tools) == Success(item)
  {
  }

  /** Under a baseline, every CLI and Explanation result has faithfulness,
      context precision and context recall 0.0. */
  lemma BaselineZeros(row: nat, scores: (Metric, nat) -> real)
    ensures ScoreFields(row, true, scores)["faithfulness"] == JNum(0.0)
    ensures ScoreFields(row, true, scores)["context_precision"] == JNum(0.0)
    ensures ScoreFields(row, true, scores)["context_recall"] == JNum(0.0)
    ensures ScoreFields(row, true, scores)["answer_relevancy"] == JNum(scores(AnswerRelevancy, row))
  {
  }

  /** One more entry: the RAGAS row advances exactly on eligible entries. */
  lemma RagasInputStep(data: seq<Fields>, k: nat)
    requires k < |data|
    ensures |RagasInput(data[..k + 1])| == |RagasInput(data[..k])| + (if Eligible(data[k]) then 1 else 0)
  {
    assert data[..k + 1][..k] == data[..k];
  }

  /** One more entry whose result is `x`. */
  lemma MergedStep(data: seq<Fields>, k: nat, rows: nat, isBaseline: bool,
                   scores: (Metric, nat) -> real, tools: KubeTools, done: seq<Fields>, x: Fields)
    requires k < |data|
    requires Merged(data[..k], rows, isBaseline, scores, tools) == Success(done)
    requires ResultItem(data[k], |RagasInput(data[..k])|, rows, isBaseline, scores, tools) == Success(x)
    ensures Merged(data[..k + 1], rows, isBaseline, scores, tools) == Success(done + [x])
  {
    assert data[..k + 1][..k] == data[..k];
  }

  /** An entry whose body raises `m` after a prefix that did not ends the loop
      with `m`, whatever follows. */
  lemma MergedFailsAt(data: seq<Fields>, k: nat, rows: nat, isBaseline: bool,
                      scores: (Metric, nat) -> real, tools: KubeTools, done: seq<Fields>, m: string)
    requires k < |data|
    requires Merged(data[..k], rows, isBaseline, scores, tools) == Success(done)
    requires ResultItem(data[k], |RagasInput(data[..k])|, rows, isBaseline, scores, tools) == Failure(m)
    ensures Merged(data, rows, isBaseline, scores, tools) == Failure(m)
  {
    assert data[..k + 1][..k] == data[..k];
    MergedFailureExtends(data, k + 1, rows, isBaseline, scores, tools, m);
  }

  /** A failure stays the result when more entries follow. */
  lemma {:induction false} MergedFailureExtends(data: seq<Fields>, k: nat, rows: nat, isBaseline: bool,
                                                scores: (Metric, nat) -> real, tools: KubeTools, m: string)
    requires k <= |data|
    requires Merged(data[..k], rows, isBaseline, scores, tools) == Failure(m)
    ensures Merged(data, rows, isBaseline, scores, tools) == Failure(m)
    decreases |data| - k
  {
    if k < |data| {
      assert data[..k + 1][..k] == data[..k];
      MergedFailureExtends(data, k + 1, rows, isBaseline, scores, tools, m);
    } else {
      assert data[..k] == data;
    }
  }

  /** The loop of `evaluate_all`: `ragas_index` counts the CLI and Explanation
      entries seen so far; each result is a copy of its entry with keys added.
      The first entry whose body raises ends the stage. */
  method MergeResults(data: seq<Fields>, isBaseline: bool, scores: (Metric, nat) -> real, tools: KubeTools)
    returns (r: Result<seq<Fields>>)
    ensures r == Merged(data, |RagasInput(data)|, isBaseline, scores, tools)
  {
    var rows := |RagasInput(data)|;
    var ragasIndex := 0;
    var finalData: seq<Fields> := [];
    for k := 0 to |data|
      invariant ragasIndex == |RagasInput(data[..k])|
      invariant Merged(data[..k], rows, isBaseline, scores, tools) == Success(finalData)
    {
      var item := data[k];
      RagasInputStep(data, k);
      if "output_category" !in item {
        r := Failure(KeyError("output_category"));
        MergedFailsAt(data, k, rows, isBaseline, scores, tools, finalData, r.error);
        return;
      }
      var result := item;
      if HasCategory(item, "YAML") {
        if "generated_response" !in item {
          r := Failure(KeyError("generated_response"));
          MergedFailsAt(data, k, rows, isBaseline, scores, tools, finalData, r.error);
          return;
        }
        var y := EvaluateYamlValue(item["generated_response"], tools);
        if y.Failure? {
          r := Failure(y.error);
          MergedFailsAt(data, k, rows, isBaseline, scores, tools, finalData, r.error);
          return;
        }
        result := result + y.value;
      } else if HasCategory(item, "CLI") {
        if "generated_response" !in item {
          r := Failure(KeyError("generated_response"));
          MergedFailsAt(data, k, rows, isBaseline, scores, tools, finalData, r.error);
          return;
        }
        result := result["CLI_Syntax_Valid" := JBool(IsCliValid(item["generated_response"]))];
        RagasRowAligned(data, k);
        if ragasIndex < rows {
          result := result + ScoreFields(ragasIndex, isBaseline, scores);
          ragasIndex := ragasIndex + 1;
        }
      } else if HasCategory(item, "Explanation") {
        result := result + ScoreFields(ragasIndex, isBaseline, scores);
        ragasIndex := ragasIndex + 1;
      }
      MergedStep(data, k, rows, isBaseline, scores, tools, finalData, result);
      finalData := finalData + [result];
    }
    assert data[..|data|] == data;
    r := Success(finalData);
  }

  /** `evaluate_all` without the file reading and writing: the RAGAS input, the
      baseline scan, the columns of the RAGAS dataset, then the merge loop. The
      scores RAGAS computes for that input are a parameter. */
  function AccuracyStage(data: seq<Fields>, scores: (Metric, nat) -> real, tools: KubeTools): Result<seq<Fields>> {
    match SelectRagasInput(data)
    case Failure(e) => Failure(e)
    case Success(input) =>
      match Baseline(input)
      case Failure(e) => Failure(e)
      case Success(isBaseline) =>
        match MissingColumn(RagasColumns, input)
        case Some(c) => Failure(KeyError(c))
        case None => Merged(data, |input|, isBaseline, scores, tools)
  }

  /** The stage completes exactly when every category can be read, the
      baseline scan and the RAGAS columns find their keys, and no entry makes
      the loop body raise; the run is then a baseline exactly when every
      eligible entry has empty contexts. */
  lemma AccuracyStageSucceedsIff(data: seq<Fields>, scores: (Metric, nat) -> real, tools: KubeTools)
    ensures AccuracyStage(data, scores, tools).Success? <==>
      (forall i :: 0 <= i < |data| ==> CategoryReadable(data[i])) &&
      Baseline(RagasInput(data)).Success? &&
      MissingColumn(RagasColumns, RagasInput(data)).None? &&
      (forall j :: 0 <= j < |data| ==> !ItemFails(data[j], tools))
    ensures AccuracyStage(data, scores, tools).Success? ==>
      (Baseline(RagasInput(data)) == Success(true) <==>
       forall i :: 0 <= i < |data| && Eligible(data[i]) ==>
         "retrieved_contexts" in data[i] && !Truthy(data[i]["retrieved_contexts"]))
  {
    var input := RagasInput(data);
    BaselineIff(data);
    if forall i :: 0 <= i < |data| ==> CategoryReadable(data[i]) {
      assert SelectRagasInput(data) == Success(input);
      if Baseline(input).Success? && MissingColumn(RagasColumns, input).None? {
        assert AccuracyStage(data, scores, tools) == Merged(data, |input|, Baseline(input).value, scores, tools);
        MergedFailsIff(data, |input|, Baseline(input).value, scores, tools);
      }
    }
  }

  /** `evaluate_all` without the file reading and writing: on success, result
      `i` is the result of entry `i` with its own RAGAS row. */
  method EvaluateAll(data: seq<Fields>, scores: (Metric, nat) -> real, tools: KubeTools)
    returns (r: Result<seq<Fields>>)
    ensures r == AccuracyStage(data, scores, tools)
    ensures r.Success? ==> |r.value| == |data| && Baseline(RagasInput(data)).Success?
    ensures r.Success? ==> forall i :: 0 <= i < |data| ==>
      Success(r.value[i]) == ResultItem(data[i], |RagasInput(data[..i])|, |RagasInput(data)|,
                                        Baseline(RagasInput(data)).value, scores, tools)
  {
    var selected := SelectRagasInput(data);
    if selected.Failure? {
      return Failure(selected.error);
    }
    var ragasInput := selected.value;
    var isBaseline := Baseline(ragasInput);
    if isBaseline.Failure? {
      return Failure(isBaseline.error);
    }
    var missing := MissingColumn(RagasColumns, ragasInput);
    if missing.Some? {
      return Failure(KeyError(missing.value));
    }
    r := MergeResults(data, isBaseline.value, scores, tools);
    if r.Success? {
      forall i | 0 <= i < |data|
        ensures Success(r.value[i]) == ResultItem(data[i], |RagasInput(data[..i])|, |RagasInput(data)|,
                                                  isBaseline.value, scores, tools)
      {
        MergedAt(data, |RagasInput(data)|, isBaseline.value, scores, tools, i);
      }
    }
  }
}
