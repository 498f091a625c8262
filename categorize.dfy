/**
 * The output-modality classifier of the data-processing stage
 * (`categorize_response`): a first-match-wins chain of a substring test, a
 * word-boundary tool search and a word count.
 */
module Categorize {
  import opened PyStr

  /** The four tags the classifier writes into `output_category`. */
  datatype Category = Yaml | Cli | Explanation | Other

  /** The tag as it is stored in the JSON entry. */
  function Name(c: Category): string {
    match c
    case Yaml => "YAML"
    case Cli => "CLI"
    case Explanation => "Explanation"
    case Other => "Other"
  }

  /** The tool names of the pattern `\b(kubectl|helm|docker)\b`, in alternation order. */
  const Tools: seq<string> := ["kubectl", "helm", "docker"]

  /** The regular-expression assertion `\b` at position `p` of `s`, over ASCII word characters. */
  predicate Boundary(s: string, p: nat)
    requires p <= |s|
  {
    (p > 0 && IsWordChar(s[p - 1])) != (p < |s| && IsWordChar(s[p]))
  }

  /** Tool name `w` occurs at `i` as a whole word. */
  predicate WholeWordAt(s: string, w: string, i: nat) {
    OccursAt(s, w, i) && Boundary(s, i) && Boundary(s, i + |w|)
  }

  /** `\b(kubectl|helm|docker)\b` matches in `s` starting at `i`. */
  predicate ToolWordAt(s: string, i: nat) {
    WholeWordAt(s, "kubectl", i) || WholeWordAt(s, "helm", i) || WholeWordAt(s, "docker", i)
  }

  /** `re.search(r'\b(kubectl|helm|docker)\b', s)` succeeds at some start
      position at or after `from`: the scan of the regular-expression engine. */
  function SearchTool(s: string, from: nat): bool
    decreases |s| - from
  {
    if from > |s| then false
    else ToolWordAt(s, from) || SearchTool(s, from + 1)
  }

  /** The scan finds a match exactly when one exists. */
  lemma {:induction false} SearchToolIff(s: string, from: nat)
    ensures SearchTool(s, from) <==> exists i :: from <= i <= |s| && ToolWordAt(s, i)
    decreases |s| - from
  {
    if from <= |s| {
      SearchToolIff(s, from + 1);
    }
  }

  /** `categorize_response`. */
  function CategorizeResponse(response: string): Category {
    if Contains(response, "apiVersion:") && Contains(response, "kind:") then Yaml
    else if SearchTool(response, 0) && !Contains(response, "apiVersion:") then Cli
    else if WordCount(response) > 20 then Explanation
    else Other
  }

  /** Text holding both "apiVersion:" and "kind:" is YAML, whatever else it holds. */
  lemma YamlWhenBothMarkers(response: string, i: nat, j: nat)
    requires OccursAt(response, "apiVersion:", i) && OccursAt(response, "kind:", j)
    ensures CategorizeResponse(response) == Yaml
  {
    ContainsIff(response, "apiVersion:");
    ContainsIff(response, "kind:");
  }

  /** CLI exactly when a tool name occurs as a whole word and "apiVersion:" occurs nowhere. */
  lemma CliIff(response: string)
    ensures CategorizeResponse(response) == Cli <==>
      (exists i :: 0 <= i <= |response| && ToolWordAt(response, i)) &&
      !exists k :: 0 <= k <= |response| && OccursAt(response, "apiVersion:", k)
  {
    SearchToolIff(response, 0);
    ContainsIff(response, "apiVersion:");
  }

  /** "apiVersion:" without "kind:" rules out both YAML and CLI. */
  lemma ApiVersionWithoutKind(response: string, i: nat)
    requires OccursAt(response, "apiVersion:", i)
    requires !Contains(response, "kind:")
    ensures CategorizeResponse(response) == Explanation || CategorizeResponse(response) == Other
  {
    ContainsIff(response, "apiVersion:");
  }

  /** Explanation exactly when there are more than 20 words and no earlier rule applies. */
  lemma ExplanationIff(response: string)
    ensures CategorizeResponse(response) == Explanation <==>
      !(Contains(response, "apiVersion:") && Contains(response, "kind:")) &&
      !(SearchTool(response, 0) && !Contains(response, "apiVersion:")) &&
      |WordStarts(response)| > 20
  {
    WordCountIsWordStarts(response);
  }

  /** Text of at most 20 words that mentions no tool and no "apiVersion:" is Other. */
  lemma OtherWhenShortAndPlain(response: string)
    requires !Contains(response, "apiVersion:")
    requires forall i :: 0 <= i <= |response| ==> !ToolWordAt(response, i)
    requires |WordStarts(response)| <= 20
    ensures CategorizeResponse(response) == Other
  {
    SearchToolIff(response, 0);
    WordCountIsWordStarts(response);
  }

  /** A tool name glued to a word character is not a whole word: "kubectlx" is Other. */
  lemma GluedToolIsNotCli()
    ensures CategorizeResponse("kubectlx") == Other
  {
    var s := "kubectlx";
    forall i | 0 <= i <= |s| ensures !ToolWordAt(s, i) {
      if i == 0 { assert !Boundary(s, 7); }
    }
    SearchToolIff(s, 0);
    WordCountNoSpace(s);
  }

  /** A sentence that runs `kubectl get pods` is CLI. */
  lemma CommandExampleIsCli()
    ensures CategorizeResponse(CommandExample) == Cli
  {
    CommandExampleHasTool();
    assert "apiVersion:"[3] == 'V';
    AbsentWhenCharMissing(CommandExample, "apiVersion:", 'V');
  }

  const CommandExample := "Run `kubectl get pods -n default`"

  lemma CommandExampleHasTool()
    ensures SearchTool(CommandExample, 0)
  {
    var s := CommandExample;
    assert s == "Run `" + "kubectl" + " get pods -n default`";
    assert s[5..12] == "kubectl";
    assert s[4] == '`' && s[12] == ' ';
    assert WholeWordAt(s, "kubectl", 5);
    SearchToolIff(s, 0);
  }
}
