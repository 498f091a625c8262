/**
 * The sample response at the end of the YAML verifier script: a YAML block
 * that is opened and never closed.
 */
module YamlSample {
  const SampleInput := "\n```yaml\n" + SampleBody

  const SampleBody := SampleHeader + SampleMetadata + SampleAnnotations + SampleRules + SampleBackend

  const SampleHeader :=
    "apiVersion: networking.k8s.io/v1\n" +
    "kind: Ingress\n"

  const SampleMetadata :=
    "metadata:\n" +
    "  name: test-ingress\n" +
    "  namespace: test-layer\n"

  const SampleAnnotations :=
    "  annotations:\n" +
    "    nginx.ingress.kubernetes.io/" + "rewrite-target: /$1\n"

  const SampleRules :=
    "spec:\n" +
    "  rules:\n" +
    "    - host: mylocalhost.com\n" +
    "      http:\n" +
    "        paths:\n"

  const SampleBackend :=
    "          - path: /\n" +
    "            pathType: Prefix\n" +
    "            backend:\n" +
    "              service:\n" +
    "                name: test-app\n" +
    "                port:\n" +
    "                  number: 5000\n"

  /** No backtick follows the opening fence of the sample. */
  lemma SampleBodyHasNoBacktick()
    ensures '`' !in SampleBody
  {
    SampleHeaderHasNoBacktick();
    SampleMetadataHasNoBacktick();
    SampleAnnotationsHasNoBacktick();
    SampleRulesHasNoBacktick();
    SampleBackendHasNoBacktick();
  }

  lemma SampleHeaderHasNoBacktick()
    ensures '`' !in SampleHeader
  {
  }

  lemma SampleMetadataHasNoBacktick()
    ensures '`' !in SampleMetadata
  {
  }

  lemma SampleAnnotationsHasNoBacktick()
    ensures '`' !in SampleAnnotations
  {
  }

  lemma SampleRulesHasNoBacktick()
    ensures '`' !in SampleRules
  {
  }

  lemma SampleBackendHasNoBacktick()
    ensures '`' !in SampleBackend
  {
  }
}

/**
 * The YAML verifier of the evaluation engine: the extraction of the first
 * fenced YAML block from a response (`extract_yaml_from_response`) and the
 * result dictionary of the kubeconform and kubectl dry-run checks
 * (`validate_yaml_kube_tools`), given the outcomes of the two tool runs.
 */
module YamlScore {
  import opened Wrappers
  import opened PyStr
  import opened JsonValue
  import opened ToolRun
  import opened YamlSample

  /** The fence of the pattern "```(?:yaml)?\n(.*?)```". */
  const Fence := "```"

  /** Where the group of a match at `i` begins, when the opening part of the
      pattern matches there. The optional "yaml" is tried first; when it is
      present the other alternative cannot match, since it needs a newline
      where the "y" stands. */
  function OpeningEnd(s: string, i: nat): (r: Option<nat>)
    ensures r.Some? ==> i + 4 <= r.value <= |s|
  {
    if OccursAt(s, "```yaml\n", i) then Some(i + 8)
    else if OccursAt(s, "```\n", i) then Some(i + 4)
    else None
  }

  /** The match of the pattern (with DOTALL) that starts at `i`, as the span of
      its group: the lazy group ends at the first fence after the opening. */
  function MatchAt(s: string, i: nat): (r: Option<(nat, nat)>)
    ensures r.Some? ==> i + 4 <= r.value.0 <= r.value.1 && r.value.1 + 3 <= |s|
  {
    match OpeningEnd(s, i)
    case None => None
    case Some(a) =>
      match Find(s, Fence, a)
      case None => None
      case Some(b) => Some((a, b))
  }

  /** Reference reading of the pattern: it matches at `i` with its group
      spanning s[a..b] when "```yaml\n" or "```\n" starts at `i` and ends at
      `a`, and `b` is the first fence at or after `a`. */
  predicate IsMatch(s: string, i: nat, a: nat, b: nat) {
    ((OccursAt(s, "```yaml\n", i) && a == i + 8) || (OccursAt(s, "```\n", i) && a == i + 4)) &&
    a <= b && OccursAt(s, Fence, b) &&
    forall k :: a <= k < b ==> !OccursAt(s, Fence, k)
  }

  /** An opening of the pattern is three backticks and then "y" or a newline. */
  lemma OpeningChars(s: string, i: nat)
    ensures OccursAt(s, "```yaml\n", i) || OccursAt(s, "```\n", i) ==>
      s[i] == '`' && s[i + 1] == '`' && s[i + 2] == '`' && (s[i + 3] == 'y' || s[i + 3] == '\n')
  {
    assert OccursAt(s, "```yaml\n", i) ==> s[i..i + 8][3] == s[i + 3];
    assert OccursAt(s, "```\n", i) ==> s[i..i + 4][3] == s[i + 3];
  }

  /** A fence is three backticks. */
  lemma FenceChars(s: string, i: nat)
    ensures OccursAt(s, Fence, i) ==> s[i] == '`' && s[i + 1] == '`' && s[i + 2] == '`'
  {
    assert OccursAt(s, Fence, i) ==> s[i..i + 3][2] == s[i + 2];
  }

  /** The scanner's match at `i` is exactly the reference match at `i`. */
  lemma MatchAtIff(s: string, i: nat, a: nat, b: nat)
    ensures MatchAt(s, i) == Some((a, b)) <==> IsMatch(s, i, a, b)
  {
    assert OccursAt(s, "```yaml\n", i) ==> s[i + 3] == "```yaml\n"[3];
    assert OccursAt(s, "```\n", i) ==> s[i + 3] == "```\n"[3];
    if IsMatch(s, i, a, b) {
      assert OpeningEnd(s, i) == Some(a);
      var f := Find(s, Fence, a);
      assert f.Some?;
      assert f.value == b;
    }
  }

  /** The leftmost match at or after `from`, as the regular-expression search
      (and so the first element of `findall`) finds it. */
  function FirstMatch(s: string, from: nat): (r: Option<(nat, nat)>)
    ensures r.Some? ==> r.value.0 <= r.value.1 && r.value.1 + 3 <= |s|
    decreases |s| - from
  {
    if from > |s| then None
    else
      match MatchAt(s, from)
      case Some(m) => Some(m)
      case None => FirstMatch(s, from + 1)
  }

  /** When the leftmost match at or after `from` starts at `i`, the search
      returns its group. */
  lemma {:induction false} FirstMatchLeftmost(s: string, from: nat, i: nat, a: nat, b: nat)
    requires from <= i && IsMatch(s, i, a, b)
    requires forall j: nat, a': nat, b': nat :: from <= j < i ==> !IsMatch(s, j, a', b')
    ensures FirstMatch(s, from) == Some((a, b))
    decreases i - from
  {
    assert i <= |s|;
    if from == i {
      MatchAtIff(s, i, a, b);
    } else {
      match MatchAt(s, from) {
        case Some(m) =>
          MatchAtIff(s, from, m.0, m.1);
        case None =>
          FirstMatchLeftmost(s, from + 1, i, a, b);
      }
    }
  }

  /** Without any match at or after `from`, the search finds nothing. */
  lemma {:induction false} FirstMatchNone(s: string, from: nat)
    requires forall j: nat, a: nat, b: nat :: from <= j ==> !IsMatch(s, j, a, b)
    ensures FirstMatch(s, from) == None
    decreases |s| - from
  {
    if from <= |s| {
      match MatchAt(s, from) {
        case Some(m) =>
          MatchAtIff(s, from, m.0, m.1);
        case None =>
          FirstMatchNone(s, from + 1);
      }
    }
  }

  /** `extract_yaml_from_response`: the stripped group of the first match, or "". */
  function ExtractYaml(text: string): string {
    match FirstMatch(text, 0)
    case None => ""
    case Some(m) => Strip(text[m.0..m.1])
  }

  /** Text where the pattern matches nowhere extracts to "". */
  lemma ExtractYamlNoMatch(text: string)
    requires forall i: nat, a: nat, b: nat :: !IsMatch(text, i, a, b)
    ensures ExtractYaml(text) == ""
  {
    FirstMatchNone(text, 0);
  }

  /** Otherwise the result is the stripped group of the leftmost match; later
      blocks are ignored. */
  lemma ExtractYamlLeftmost(text: string, i: nat, a: nat, b: nat)
    requires IsMatch(text, i, a, b)
    requires forall j: nat, a': nat, b': nat :: j < i ==> !IsMatch(text, j, a', b')
    ensures ExtractYaml(text) == Strip(text[a..b])
  {
    FirstMatchLeftmost(text, 0, i, a, b);
  }

  /** The scan only returns groups that have no fence inside. */
  lemma {:induction false} FirstMatchHasNoFence(s: string, from: nat)
    requires FirstMatch(s, from).Some?
    ensures forall k :: FirstMatch(s, from).value.0 <= k < FirstMatch(s, from).value.1 ==> !OccursAt(s, Fence, k)
    decreases |s| - from
  {
    if MatchAt(s, from).None? {
      FirstMatchHasNoFence(s, from + 1);
    }
  }

  /** The lazy group stops at the first closing fence, so the extracted text
      never holds a fence. */
  lemma ExtractedHasNoFence(text: string)
    ensures !Contains(ExtractYaml(text), Fence)
  {
    match FirstMatch(text, 0) {
      case None =>
      case Some(m) =>
        FirstMatchHasNoFence(text, 0);
        var a, b := m.0, m.1;
        var c := text[a..b];
        NoOccurrenceInSlice(text, Fence, a, b);
        ContainsIff(c, Fence);
        var i, j := StripSpec(c);
        NoOccurrenceInSlice(c, Fence, i, j);
    }
  }

  /** A fence followed by any other tag (such as "```json") cannot start a match. */
  lemma OtherTagNoMatch(s: string, i: nat)
    requires OccursAt(s, Fence, i) && i + 3 < |s|
    requires s[i + 3] != '\n' && !OccursAt(s, "yaml\n", i + 3)
    ensures MatchAt(s, i) == None
  {
  }

  /** The search goes on past such a fence: here the match starts at the fence
      that closes the json block and captures "y". */
  lemma LaterFenceMatches()
    ensures ExtractYaml(JsonThenText) == "y"
  {
    var s := JsonThenText;
    JsonThenTextMatch();
    JsonThenTextNoEarlierMatch();
    ExtractYamlLeftmost(s, 10, 14, 16);
    JsonThenTextGroup();
    StripOneLine("y");
  }

  const JsonThenText := "```json\nx\n```\ny\n```"

  lemma JsonThenTextMatch()
    ensures IsMatch(JsonThenText, 10, 14, 16)
  {
    var s := JsonThenText;
    assert s[10..14] == "```\n" && s[16..19] == Fence;
    forall k | 14 <= k < 16 ensures !OccursAt(s, Fence, k) {
      assert s[k] != '`';
    }
  }

  lemma JsonThenTextGroup()
    ensures JsonThenText[14..16] == "y" + "\n"
  {
  }

  lemma JsonThenTextNoEarlierMatch()
    ensures forall j: nat, a: nat, b: nat :: j < 10 ==> !IsMatch(JsonThenText, j, a, b)
  {
    var s := JsonThenText;
    forall j: nat | j < 10 ensures !OccursAt(s, "```yaml\n", j) && !OccursAt(s, "```\n", j) {
      OpeningChars(s, j);
      if j == 0 {
        assert s[3] == 'j';
      } else {
        assert s[j] != '`' || s[j + 1] != '`' || s[j + 2] != '`';
      }
    }
  }

  /** Stripping a word followed by a newline leaves the word. */
  lemma StripOneLine(w: string)
    requires w != [] && !IsSpace(w[0]) && !IsSpace(w[|w| - 1])
    ensures Strip(w + "\n") == w
  {
    var t := w + "\n";
    assert LStrip(t) == t;
    assert t[..|t| - 1] == w;
    assert RStrip(w) == w;
  }

  /** Text whose backticks all lie in one run of at most three has no match. */
  lemma OneFenceNoMatch(s: string, f: nat)
    requires forall k :: 0 <= k < |s| && s[k] == '`' ==> f <= k < f + 3
    ensures ExtractYaml(s) == ""
  {
    forall i: nat, a: nat, b: nat | IsMatch(s, i, a, b) ensures false {
      OpeningChars(s, i);
      FenceChars(s, b);
    }
    ExtractYamlNoMatch(s);
  }

  /** The module's own sample response opens a YAML block that it never
      closes, so nothing is extracted from it. */
  lemma SampleInputExtractsNothing()
    ensures ExtractYaml(SampleInput) == ""
  {
    SampleBodyHasNoBacktick();
    assert forall k :: 0 <= k < |SampleInput| && SampleInput[k] == '`' ==> 1 <= k < 4;
    OneFenceNoMatch(SampleInput, 1);
  }

  /** The "pass"/"output" pair kept for one tool. */
  datatype CheckResult = CheckResult(pass: bool, output: string)

  /** The result dictionary of `validate_yaml_kube_tools`. */
  datatype YamlChecks = YamlChecks(kubeconform: CheckResult, dryRun: CheckResult)

  /** The pair a tool run leaves behind. */
  function CheckOf(outcome: ToolOutcome): CheckResult {
    match outcome
    case Exited(code, out, err) => CheckResult(code == 0, out + err)
    case Raised(msg) => CheckResult(false, msg)
  }

  /** `validate_yaml_kube_tools(yaml_str, namespace)`, with the two tool runs
      (on a temporary file holding `yamlText`) given as functions. Each check
      starts as not passed with empty output and is overwritten after its run. */
  method ValidateYamlKubeTools(yamlText: string, namespace: string,
                               kubeconform: string -> ToolOutcome,
                               kubectlDryRun: (string, string) -> ToolOutcome)
    returns (result: YamlChecks)
    ensures result.kubeconform.pass <==> kubeconform(yamlText).Exited? && kubeconform(yamlText).code == 0
    ensures result.dryRun.pass <==> kubectlDryRun(yamlText, namespace).Exited? && kubectlDryRun(yamlText, namespace).code == 0
    ensures kubeconform(yamlText).Exited? ==>
      result.kubeconform.output == kubeconform(yamlText).stdout + kubeconform(yamlText).stderr
    ensures kubeconform(yamlText).Raised? ==> result.kubeconform.output == kubeconform(yamlText).message
    ensures kubectlDryRun(yamlText, namespace).Exited? ==>
      result.dryRun.output == kubectlDryRun(yamlText, namespace).stdout + kubectlDryRun(yamlText, namespace).stderr
    ensures kubectlDryRun(yamlText, namespace).Raised? ==>
      result.dryRun.output == kubectlDryRun(yamlText, namespace).message
    ensures result == YamlChecks(CheckOf(kubeconform(yamlText)), CheckOf(kubectlDryRun(yamlText, namespace)))
  {
    result := YamlChecks(CheckResult(false, ""), CheckResult(false, ""));
    match kubeconform(yamlText) {
      case Exited(code, out, err) =>
        result := result.(kubeconform := result.kubeconform.(pass := code == 0));
        result := result.(kubeconform := result.kubeconform.(output := out + err));
      case Raised(msg) =>
        result := result.(kubeconform := result.kubeconform.(output := msg));
    }
    match kubectlDryRun(yamlText, namespace) {
      case Exited(code, out, err) =>
        result := result.(dryRun := result.dryRun.(pass := code == 0));
        result := result.(dryRun := result.dryRun.(output := out + err));
      case Raised(msg) =>
        result := result.(dryRun := result.dryRun.(output := msg));
    }
  }

  /** One check as the nested dictionary {"pass": ..., "output": ...}. */
  function CheckFields(c: CheckResult): Json {
    JObj(map["pass" := JBool(c.pass), "output" := JStr(c.output)])
  }

  /** The result dictionary as JSON: exactly the keys "kubeconform" and "dry_run". */
  function YamlChecksFields(r: YamlChecks): (d: Fields)
    ensures d.Keys == {"kubeconform", "dry_run"}
  {
    map["kubeconform" := CheckFields(r.kubeconform), "dry_run" := CheckFields(r.dryRun)]
  }
}
