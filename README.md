# Answer evaluation pipeline — a verified Dafny model

This project models the deterministic core of a retrieval-augmented-generation
(RAG) answer-evaluation pipeline for Kubernetes questions. Language-model
calls, embedding similarity, the RAGAS scorer and the Kubernetes command-line
tools surround that core.

- **Data processing.** Each CSV row becomes a JSON entry: a question, retrieved
  contexts, the generated response, a reference answer, and a category. The
  category is YAML, CLI, Explanation or Other.
- **Verifiers.** The YAML block is extracted and its tool results are shaped
  into a dictionary. CLI responses are syntax-checked with a POSIX
  word-splitter (`shlex.split`).
- **Explanation scorer.** Substring fact coverage and judge-based entailment
  coverage are blended 0.4/0.6, with a pass rule at 0.75.
- **Gate.** YAML and CLI entries that fail their check skip the explanation
  scorer.
- **Accuracy stage.** RAGAS score rows are aligned with the CLI and
  Explanation entries.
- **Older tools.**
  - `process_row` of the key-point comparison: a Y/N verdict at 60.
  - `classify_answer`: a three-way threshold label.
  - The three copies of `split_string`: code blocks first, then sentences.
  - The first, top-level data-processing script.

Collaborators become parameters:
- the entailment judge is a function from (prediction, fact) to a reply text or no reply;
- each external tool run is a value `Exited(code, stdout, stderr) | Raised(message)`;
- RAGAS scores are a function from (metric, row) to `real`;
- each chat-completion call is a `Replied(text) | CallFailed(message)` value.

Python dicts are a `Json` value type (`map<string, Json>` for a dict). The
in-place `dict` updates of the explanation scorer and the gate are a `Dict`
class whose methods give their full new state.

Python's string builtins are defined once in `PyStr`:
- `strip` uses the `str.isspace` set;
- `find`, `in`, `replace`, `split` and word counting are modelled directly;
- `lower` and the regular-expression class `\w` cover ASCII only.

The regular expressions are modelled as scanners, each proved against an
independent reading of the pattern:
- `re.findall`/`re.search` with lazy groups;
- `\b`;
- `$` before a final newline;
- the `^#+.*$` heading pattern in multiline mode;
- the split with two negative lookbehinds.

| file | module | source |
|---|---|---|
| wrappers.dfy | Wrappers | `Option`, `Result` |
| pystr.dfy | PyStr | Python string builtins |
| py_int.dfy | PyInt | `int()` on a string, `str()` of a natural number |
| json.dfy | JsonValue | JSON values, dicts, the `Dict` class |
| tool_outcome.dfy | ToolRun | outcome of one external command |
| categorize.dfy | Categorize | `categorize_response` |
| data_process.dfy | DataProcess | `data_process` of the evaluation engine |
| root_data_process.dfy | RootDataProcess | the top-level `01_data_process.py` loop |
| yaml_score.dfy | YamlScore, YamlSample | `extract_yaml_from_response`, `validate_yaml_kube_tools` |
| shell_words.dfy | ShellWords | `shlex.split` in POSIX mode |
| cli_score.dfy | CliScore | `validate_cli_command` |
| explanation_score.dfy | ExplanationScore | the explanation scorer |
| evaluate_entry.dfy | EvaluateEntry | `evaluate_entry`, `evaluate_all` of the gate |
| accuracy_score.dfy | AccuracyScore | `evaluate_yaml`, `is_cli_valid`, `evaluate_all` of the accuracy stage |
| keypoint.dfy | Keypoint | `process_row`, `process_all_rows` |
| embedding_compare.dfy | EmbeddingCompare | `classify_answer` (two copies) |
| segmenter.dfy | Segmenter | `split_string` (three copies) |

## Model

| member | source | states |
|---|---|---|
| PyStr.StripSpec | new_evaluation_engine/01_data_process.py:47-48 | `strip` keeps one contiguous slice and removes only whitespace on each side |
| PyStr.StripEmptyIff | new_evaluation_engine/01_data_process.py:50 | a stripped string is empty exactly when the original is all whitespace |
| PyStr.StripIdempotent | new_evaluation_engine/01_data_process.py:68 | stripping twice is stripping once |
| PyStr.Lower | new_evaluation_engine/02.5_evaluation_evaluator.py:26 | `lower` keeps the length and lowers each ASCII capital, leaving other characters alone |
| PyStr.Find | LLM_keypoint_async.py:91 | the search returns the first occurrence at or after the start, or none exists |
| PyStr.ContainsIff | new_evaluation_engine/02.5_evaluation_evaluator.py:27 | `t in s` holds exactly when `t` occurs at some position of `s` |
| PyStr.LastSegment | new_evaluation_engine/01_data_process.py:31 | `split("/")[-1]` is the longest separator-free suffix, the whole string when there is no separator |
| PyStr.ReplaceFirst | new_evaluation_engine/01_data_process.py:31 | `replace` substitutes the first occurrence and continues after it |
| PyStr.Before | trash_bin/chunk_answer.py:39 | the first line is the longest prefix without the separator, followed by the separator when shorter than the text |
| PyStr.WordCountIsWordStarts | new_evaluation_engine/01_data_process.py:18 | `len(split())` equals the number of positions where a word starts |
| PyInt.DecimalValue | LLM_keypoint_async.py:92 | the digits of `str(n)` spell `n` |
| PyInt.ParseDecimal | LLM_keypoint_async.py:92 | `int()` reads back `str(n)`, also surrounded by whitespace |
| PyInt.ParseSignedDecimal | LLM_keypoint_async.py:92 | `int()` accepts one leading sign: "-" negates, "+" keeps the value |
| PyInt.ParseRejects | LLM_keypoint_async.py:92 | empty text, blank text, a trailing letter and a double underscore do not parse |
| Categorize.SearchToolIff | new_evaluation_engine/01_data_process.py:16 | the search for kubectl, helm or docker between word boundaries succeeds exactly when one occurs as a whole word, bounded by ASCII word characters |
| Categorize.YamlWhenBothMarkers | new_evaluation_engine/01_data_process.py:14-15 | text with both "apiVersion:" and "kind:" is YAML, whatever else it contains |
| Categorize.CliIff | new_evaluation_engine/01_data_process.py:14-17 | CLI exactly when a tool name occurs as a whole word and "apiVersion:" does not occur |
| Categorize.ApiVersionWithoutKind | new_evaluation_engine/01_data_process.py:14-21 | "apiVersion:" without "kind:" gives Explanation or Other |
| Categorize.ExplanationIff | new_evaluation_engine/01_data_process.py:14-19 | Explanation exactly when neither earlier rule applies and there are more than 20 words |
| Categorize.OtherWhenShortAndPlain | new_evaluation_engine/01_data_process.py:18-21 | at most 20 words, no tool word and no "apiVersion:" gives Other |
| Categorize.GluedToolIsNotCli | new_evaluation_engine/01_data_process.py:16 | "kubectlx" has no word boundary after the tool name and is Other |
| Categorize.CommandExampleIsCli | new_evaluation_engine/01_data_process.py:16-17 | a command sentence naming kubectl is CLI |
| Categorize.CommandExampleHasTool | new_evaluation_engine/01_data_process.py:16 | the tool search succeeds on that sentence |
| DataProcess.QuestionSpec | new_evaluation_engine/01_data_process.py:47-53 | the question starts with the stripped title; it is the title alone exactly when the body is blank, and otherwise title, " - ", stripped body |
| DataProcess.KeepNonEmpty | new_evaluation_engine/01_data_process.py:65 | filtering never lengthens the list |
| DataProcess.KeepNonEmptyConcat | new_evaluation_engine/01_data_process.py:65 | filtering distributes over concatenation, so order is kept |
| DataProcess.KeepNonEmptyMembers | new_evaluation_engine/01_data_process.py:65 | exactly the non-empty members are kept; a list without empties is kept whole |
| DataProcess.RetrievedContextsSpec | new_evaluation_engine/01_data_process.py:56-65 | a baseline has no contexts; otherwise at most three, each non-empty and stripped |
| DataProcess.ContextsInColumnOrder | new_evaluation_engine/01_data_process.py:59-65 | outside a baseline the contexts are the non-blank Top-1, Top-2 and Top-3 columns, stripped, in that order |
| DataProcess.KeepNonEmptyThree | new_evaluation_engine/01_data_process.py:59-65 | filtering three strings keeps the non-empty ones in order |
| DataProcess.ReferenceAnswerSpec | new_evaluation_engine/01_data_process.py:69 | the reference answer is None exactly for a blank answer body, otherwise the stripped body |
| DataProcess.GeneratedResponseSpec | new_evaluation_engine/01_data_process.py:68-75 | the stored response is stripped and the category is computed from that stripped text |
| DataProcess.IsBaselineIff | new_evaluation_engine/01_data_process.py:32-37 | the baseline regex matches exactly when the file name ends in "test_0.csv" (or that plus a final newline) |
| DataProcess.SuffixThroughPrefix | new_evaluation_engine/01_data_process.py:32-37 | the "./dev_data/" prefix cannot take part in a slash-free suffix match |
| DataProcess.ReplaceKeepsCharOut | new_evaluation_engine/01_data_process.py:31 | replacing ".csv" cannot introduce a "/" |
| DataProcess.OutputPathInDirectory | new_evaluation_engine/01_data_process.py:29-31 | the output file lies directly inside "./processed_data" |
| DataProcess.OutputPathOfPlainName | new_evaluation_engine/01_data_process.py:31 | a plain name "stem.csv" (no "/" or ".") becomes "./processed_data/stem_processed.json", for example "newKD_test.csv" |
| DataProcess.BuildEntries | new_evaluation_engine/01_data_process.py:45-78 | one entry per row |
| DataProcess.BuildEntriesAt | new_evaluation_engine/01_data_process.py:45-78 | entry `i` is built from row `i` alone |
| DataProcess.ProcessRows | new_evaluation_engine/01_data_process.py:40-78 | the row loop appends exactly the entries of the rows in row order |
| DataProcess.DataProcessFile | new_evaluation_engine/01_data_process.py:24-78 | output path, baseline flag (as a file-name suffix test) and entries of `data_process` |
| RootDataProcess.RootEntryAgrees | 01_data_process.py:15-41 | the older entry shares question, contexts, response and reference answer with the engine's non-baseline entry, and copies the without-retrieval response verbatim |
| RootDataProcess.RootEntrySpec | 01_data_process.py:26-39 | at most three non-empty stripped contexts; reference answer None exactly for a blank body; stripped response |
| RootDataProcess.RootEntries | 01_data_process.py:15-43 | one entry per row |
| RootDataProcess.RootEntriesAt | 01_data_process.py:15-43 | entry `i` is built from row `i` alone |
| RootDataProcess.ProcessRootRows | 01_data_process.py:10-43 | the loop appends exactly the entries of the rows in row order |
| YamlScore.OpeningEnd | new_evaluation_engine/02.5_YAML_score.py:11 | the group of a match starts after "```\n" or "```yaml\n" and within the text |
| YamlScore.MatchAt | new_evaluation_engine/02.5_YAML_score.py:11 | a match at `i` is a group span followed by a closing fence |
| YamlScore.MatchAtIff | new_evaluation_engine/02.5_YAML_score.py:11 | the scanner's match at `i` is exactly the pattern's lazy match at `i`: an opening, a group without a fence, the first closing fence |
| YamlScore.FirstMatch | new_evaluation_engine/02.5_YAML_score.py:11-12 | the found group lies inside the text before a closing fence |
| YamlScore.FirstMatchLeftmost | new_evaluation_engine/02.5_YAML_score.py:11-13 | the search returns the leftmost match at or after the start |
| YamlScore.FirstMatchNone | new_evaluation_engine/02.5_YAML_score.py:11-15 | without any match the search finds nothing |
| YamlScore.ExtractYamlNoMatch | new_evaluation_engine/02.5_YAML_score.py:11-15 | no match anywhere gives "" |
| YamlScore.ExtractYamlLeftmost | new_evaluation_engine/02.5_YAML_score.py:11-13 | otherwise the result is the stripped group of the leftmost match; later blocks are ignored |
| YamlScore.FirstMatchHasNoFence | new_evaluation_engine/02.5_YAML_score.py:11 | the lazy group never contains a fence |
| YamlScore.ExtractedHasNoFence | new_evaluation_engine/02.5_YAML_score.py:11-13 | the extracted text never contains "```" |
| YamlScore.OtherTagNoMatch | new_evaluation_engine/02.5_YAML_score.py:11 | a fence followed by another tag (such as "json") cannot start a match |
| YamlScore.LaterFenceMatches | new_evaluation_engine/02.5_YAML_score.py:11-13 | the search continues past such a fence and can match at a later one |
| YamlScore.JsonThenTextMatch | new_evaluation_engine/02.5_YAML_score.py:11 | the later fence of that example starts a match |
| YamlScore.JsonThenTextNoEarlierMatch | new_evaluation_engine/02.5_YAML_score.py:11 | no match starts before it |
| YamlScore.OneFenceNoMatch | new_evaluation_engine/02.5_YAML_score.py:11-15 | text whose backticks form one run of at most three extracts to "" |
| YamlScore.SampleInputExtractsNothing | new_evaluation_engine/02.5_YAML_score.py:61-82 | the module's sample response never closes its block and extracts to "" |
| YamlScore.ValidateYamlKubeTools | new_evaluation_engine/02.5_YAML_score.py:17-59 | each check passes exactly on exit status 0; its output is stdout then stderr, or the exception text when the tool raised; the dry run runs whatever kubeconform did |
| YamlScore.YamlChecksFields | new_evaluation_engine/02.5_YAML_score.py:27-30 | the result dict has exactly the keys "kubeconform" and "dry_run" |
| ShellWords.Finish | new_evaluation_engine/02.5_CLI_score.py:5 | the end of input is an error exactly inside a quote or after a pending backslash |
| ShellWords.RunAppend | new_evaluation_engine/02.5_CLI_score.py:5 | the tokenizer is a left fold: reading `a + b` is reading `a`, then `b` |
| ShellWords.PlainRun | new_evaluation_engine/02.5_CLI_score.py:5 | plain text keeps the lexer outside quotes, and the words read so far spell its non-space characters |
| ShellWords.PlainSplit | new_evaluation_engine/02.5_CLI_score.py:5 | text without quotes or backslashes splits into non-empty space-free words that spell its non-space characters |
| ShellWords.StaysInSingle | new_evaluation_engine/02.5_CLI_score.py:5 | inside single quotes everything but the closing quote is literal |
| ShellWords.StaysInDouble | new_evaluation_engine/02.5_CLI_score.py:5 | inside double quotes, text without `"` or backslash keeps the quote open |
| ShellWords.UnclosedQuote | new_evaluation_engine/02.5_CLI_score.py:5 | a quote opened and never closed is the error "No closing quotation" |
| ShellWords.TrailingBackslash | new_evaluation_engine/02.5_CLI_score.py:5 | a final unescaped backslash is the error "No escaped character" |
| ShellWords.PlainIsOutside | new_evaluation_engine/02.5_CLI_score.py:5 | after plain text the lexer is outside quotes |
| ShellWords.QuotingExample | new_evaluation_engine/02.5_CLI_score.py:5 | `'a b'` is one word "a b" |
| CliScore.ValidateCliCommand | new_evaluation_engine/02.5_CLI_score.py:3-8 | the result is exactly {"cli_syntax_pass": True} on success, and the flag False plus an "error" string on failure; it never raises |
| CliScore.PlainCommandPasses | new_evaluation_engine/02.5_CLI_score.py:4-6 | a command without quotes or backslashes always passes |
| CliScore.UnclosedQuoteFails | new_evaluation_engine/02.5_CLI_score.py:4-8 | an unclosed quote fails with the lexer's message |
| CliScore.TrailingBackslashFails | new_evaluation_engine/02.5_CLI_score.py:4-8 | a trailing backslash fails with the lexer's message |
| CliScore.ValidateCliValue | new_evaluation_engine/02.5_CLI_score.py:3-8 | the flag is True exactly when the response is a string that splits; any other value fails the check with an error instead of raising |
| ExplanationScore.Fraction | new_evaluation_engine/02.5_evaluation_evaluator.py:28 | a hit ratio lies in [0, 1]; it is 1 exactly for all hits of a non-empty list and 0 exactly for no facts or no hits |
| ExplanationScore.CountIsPositions | new_evaluation_engine/02.5_evaluation_evaluator.py:27 | the number of hits is the number of positions that hit, so duplicates count separately |
| ExplanationScore.AssertionCoverageSpec | new_evaluation_engine/02.5_evaluation_evaluator.py:22-28 | coverage lies in [0, 1]; it is 1 exactly when facts exist and all occur case-insensitively, 0 exactly when there are none or none occur |
| ExplanationScore.KeyOrderIrrelevant | new_evaluation_engine/02.5_evaluation_evaluator.py:22-65 | facts given as a dict are counted over its key set, which gives both coverages exactly as iterating the keys in any order |
| ExplanationScore.SetCountSpec | new_evaluation_engine/02.5_evaluation_evaluator.py:27 | a count over a set of facts is at most its size, equals it exactly when all satisfy the test, and is 0 exactly when none does |
| ExplanationScore.EmptyFactHits | new_evaluation_engine/02.5_evaluation_evaluator.py:27 | an empty fact is always a hit |
| ExplanationScore.EntailmentScore | new_evaluation_engine/02.5_evaluation_evaluator.py:33-56 | a reply gives 1.0 exactly when, stripped and lowercased, it starts with "yes", and 0.0 otherwise; a call that raises or returns no content raises |
| ExplanationScore.YesReplies | new_evaluation_engine/02.5_evaluation_evaluator.py:55-56 | "Yes." and " YES" count as entailment, "No." does not |
| ExplanationScore.EntailmentCoverageSpec | new_evaluation_engine/02.5_evaluation_evaluator.py:58-65 | the coverage is computed exactly when the judge replies for every fact; it then lies in [0, 1], is 1 exactly when facts exist and every reply is yes, and 0 exactly when no reply is yes |
| ExplanationScore.BlendSpec | new_evaluation_engine/02.5_evaluation_evaluator.py:70-77 | the 0.4/0.6 blend lies in [0, 1] and is 1 exactly when both coverages are 1 |
| ExplanationScore.PassNeedsBothSignals | new_evaluation_engine/02.5_evaluation_evaluator.py:95-100 | a pass needs entailment coverage of at least 7/12 and fact coverage of at least 3/8 |
| ExplanationScore.NoFactsNoPass | new_evaluation_engine/02.5_evaluation_evaluator.py:62-77 | with no facts, as an empty list or an empty dict, the accuracy is 0 and the judge is never asked |
| ExplanationScore.SingleFactPassIff | new_evaluation_engine/02.5_evaluation_evaluator.py:70-77 | with one fact, the accuracy exists exactly when the judge replies, and a pass needs both the substring hit and a yes |
| ExplanationScore.Round3Close | new_evaluation_engine/02.5_evaluation_evaluator.py:97-99 | rounding moves a value by at most half a thousandth |
| ExplanationScore.Round3Monotone | new_evaluation_engine/02.5_evaluation_evaluator.py:97-99 | rounding keeps order |
| ExplanationScore.Round3Exact | new_evaluation_engine/02.5_evaluation_evaluator.py:97-99 | multiples of 1/1000 are unchanged |
| ExplanationScore.Round3Unit | new_evaluation_engine/02.5_evaluation_evaluator.py:97-99 | a rounded value in [0, 1] stays in [0, 1] |
| ExplanationScore.ExplanationFieldsKeep | new_evaluation_engine/02.5_evaluation_evaluator.py:82-102 | the update adds exactly the four score keys, keeps every other key and leaves the scores of the entry unchanged |
| ExplanationScore.ExplanationScoresSpec | new_evaluation_engine/02.5_evaluation_evaluator.py:93-100 | the three stored scores lie in [0, 1]; auto_pass is True exactly when the unrounded accuracy reaches 0.75, and the stored accuracy is then at least 0.75 |
| ExplanationScore.ExplanationIdempotent | new_evaluation_engine/02.5_evaluation_evaluator.py:82-102 | scoring an already scored entry changes nothing |
| ExplanationScore.ExplanationRaises | new_evaluation_engine/02.5_evaluation_evaluator.py:82-95 | scoring raises for a response that is not a string, for assertions that are null, a boolean or a number, or a list holding a non-string; a dict is scored by its keys; otherwise it raises exactly when the judge gives no reply for some fact |
| ExplanationScore.EvaluateExplanationEntry | new_evaluation_engine/02.5_evaluation_evaluator.py:82-102 | the dict is updated in place to the scored entry and returned; when scoring raises, the dict is left as it was |
| ExplanationScore.EvaluateBatch | new_evaluation_engine/02.5_evaluation_evaluator.py:107-121 | entries are scored in list order, whatever their category, until the first that raises; the scored dicts hold their scored entries, the failing entry's exception is reported, and later dicts are unchanged unless they occurred earlier |
| EvaluateEntry.UpdateKeepsScores | new_evaluation_engine/02_evaluate_entry.py:22-40 | merging verifier results leaves the response and the explanation scores of the entry unchanged |
| EvaluateEntry.YamlGate | new_evaluation_engine/02_evaluate_entry.py:19-26 | a YAML entry with a string response whose dry run fails keeps both tool results, gets auto_pass False and is not scored |
| EvaluateEntry.YamlNonStringRaises | new_evaluation_engine/02_evaluate_entry.py:19-20 | a YAML entry whose response is not a string raises before any tool runs or anything is stored |
| EvaluateEntry.YamlPassesThrough | new_evaluation_engine/02_evaluate_entry.py:19-40 | a YAML entry whose dry run passes is scored as an explanation with both tool results merged in, whatever kubeconform's verdict |
| EvaluateEntry.CliGate | new_evaluation_engine/02_evaluate_entry.py:29-40 | a CLI entry whose response is not a string, or does not split, gets the flag False, the error and auto_pass False, and its assertions are never read; one that splits gets the flag True and is then scored |
| EvaluateEntry.OtherCategoriesAreExplained | new_evaluation_engine/02_evaluate_entry.py:15-40 | every other category, and a missing one, goes straight to the explanation scorer |
| EvaluateEntry.AutoPassMeans | new_evaluation_engine/02_evaluate_entry.py:10-42 | every returned entry has a boolean auto_pass, true only when the entry passed its gate and its accuracy reached 0.75 |
| EvaluateEntry.RaisesIff | new_evaluation_engine/02_evaluate_entry.py:10-42 | `evaluate_entry` raises exactly for a YAML entry whose response is not a string, or for an entry that passed its gate and makes the scorer raise |
| EvaluateEntry.Evaluate | new_evaluation_engine/02_evaluate_entry.py:10-42 | the dict ends up holding what the outcome says was stored; the call returns the dict exactly when the outcome is a return, and otherwise raises with its exception |
| EvaluateEntry.EvaluateAll | new_evaluation_engine/02_evaluate_entry.py:45-54 | entries are evaluated in list order until the first that raises; the collected dicts are the evaluated ones, each holding its result; the failing one holds what was stored before the exception, and later ones are unchanged |
| AccuracyScore.EvaluateYamlSpec | new_evaluation_engine/03_accuracy_score.py:23-47 | schema and dry run pass on exit status 0, kube-score on the absence of "CRITICAL"; a detail is stored only for a failed check; a raising tool fails the stage |
| AccuracyScore.IsCliValidAgrees | new_evaluation_engine/03_accuracy_score.py:50-55 | `is_cli_valid` agrees with the CLI verifier on every response, including values that are not strings |
| AccuracyScore.RagasInput | new_evaluation_engine/03_accuracy_score.py:85 | the RAGAS input is no longer than the data |
| AccuracyScore.RagasInputAppend | new_evaluation_engine/03_accuracy_score.py:85 | the filter distributes over concatenation, so order is kept |
| AccuracyScore.RagasInputMembers | new_evaluation_engine/03_accuracy_score.py:85 | exactly the CLI and Explanation entries are kept |
| AccuracyScore.RagasRowAligned | new_evaluation_engine/03_accuracy_score.py:85-121 | the k-th eligible entry is row k of the RAGAS input |
| AccuracyScore.SelectRagasInput | new_evaluation_engine/03_accuracy_score.py:85 | the comprehension yields exactly the eligible entries, in order, when every category can be read, and raises otherwise |
| AccuracyScore.SelectFailsAtFirstFault | new_evaluation_engine/03_accuracy_score.py:85 | it raises with the fault of the first entry whose category is missing (KeyError) or is a list or dict (unhashable) |
| AccuracyScore.BaselineSpec | new_evaluation_engine/03_accuracy_score.py:86 | the scan is True exactly when every entry has empty contexts, False exactly when an entry with contexts comes before any entry without the key, and raises KeyError exactly when such an entry comes first |
| AccuracyScore.BaselineIff | new_evaluation_engine/03_accuracy_score.py:86 | the run is a baseline exactly when every eligible entry has empty contexts, and trivially so without eligible entries |
| AccuracyScore.MissingColumn | new_evaluation_engine/03_accuracy_score.py:58-64 | no column is reported exactly when every RAGAS entry has all four columns; a reported column is one of them and is missing from some entry |
| AccuracyScore.ResultItem | new_evaluation_engine/03_accuracy_score.py:93-121 | the loop body raises on an entry exactly when it has no category, is a YAML or CLI entry without a response, or is a YAML entry whose check raises, whatever its row |
| AccuracyScore.Merged | new_evaluation_engine/03_accuracy_score.py:93-123 | a completed loop yields one result per entry |
| AccuracyScore.MergedAt | new_evaluation_engine/03_accuracy_score.py:93-123 | result `i` is entry `i` with the RAGAS row counted by the eligible entries before it |
| AccuracyScore.MergedFailsIff | new_evaluation_engine/03_accuracy_score.py:93-123 | the loop fails exactly when some entry makes its body raise |
| AccuracyScore.YamlResult | new_evaluation_engine/03_accuracy_score.py:97-98 | a YAML entry gains exactly the three verdict keys and no score keys |
| AccuracyScore.YamlNonStringFails | new_evaluation_engine/03_accuracy_score.py:97-98 | a YAML entry whose response is not a string makes the stage raise, since writing it to the file fails |
| AccuracyScore.CliResult | new_evaluation_engine/03_accuracy_score.py:100-111 | a CLI entry gains the syntax flag, true exactly when the response is a string that splits, and the five scores of its row |
| AccuracyScore.ExplanationResult | new_evaluation_engine/03_accuracy_score.py:113-121 | an Explanation entry gains the five scores of its row |
| AccuracyScore.OtherResult | new_evaluation_engine/03_accuracy_score.py:93-123 | entries of any other category, including a null, boolean or numeric one, are copied unchanged |
| AccuracyScore.BaselineZeros | new_evaluation_engine/03_accuracy_score.py:105-117 | under a baseline, faithfulness, context precision and context recall are 0.0, and relevancy comes from the row |
| AccuracyScore.RagasInputStep | new_evaluation_engine/03_accuracy_score.py:103-121 | the RAGAS index advances exactly on CLI and Explanation entries |
| AccuracyScore.MergeResults | new_evaluation_engine/03_accuracy_score.py:89-123 | the loop, whose running index counts the CLI and Explanation entries seen, computes the merged results; the first entry whose body raises ends it |
| AccuracyScore.AccuracyStageSucceedsIff | new_evaluation_engine/03_accuracy_score.py:80-123 | the stage completes exactly when every category can be read, the baseline scan and the RAGAS columns find their keys and no loop body raises; it is then a baseline exactly when every eligible entry has empty contexts |
| AccuracyScore.EvaluateAll | new_evaluation_engine/03_accuracy_score.py:80-123 | the stage's outcome; on success one result per entry, each the result of that entry with its own RAGAS row and the baseline flag |
| Keypoint.RecordFields | LLM_keypoint_async.py:76-101 | every record has exactly the keys ID, Key Points, LLM Method Result and RAG_Answer |
| Keypoint.MissingDataRecord | LLM_keypoint_async.py:72-81 | a blank text on either side gives the fixed N/A record and consults no model call |
| Keypoint.ProcessRowAgreesOnText | LLM_keypoint_async.py:70-101 | on present texts the corrected row function is the function as written |
| Keypoint.MissingCellReachesModel | LLM_keypoint_async.py:72-75 | as written, a missing cell reads as "nan" and the row gets a Y/N verdict instead of the N/A record |
| Keypoint.MissingCellIsBlank | LLM_keypoint_async.py:72-81 | corrected, a missing cell on either side gives the N/A record |
| Keypoint.VerdictIff | LLM_keypoint_async.py:83-101 | with both texts the record holds the key points and the evaluation, and RAG_Answer is "Y" exactly when the parsed score is at least 60 |
| Keypoint.NoTagScoresZero | LLM_keypoint_async.py:90-92 | without an `<accuracy_score>` tag the score is 0 |
| Keypoint.TagTextAfter | LLM_keypoint_async.py:90-92 | the first tag's text runs to the next markup character |
| Keypoint.TagScoreParses | LLM_keypoint_async.py:90-92 | a tag holding a number, possibly after whitespace, parses to that number |
| Keypoint.FallbackScoresZero | LLM_keypoint_async.py:66-68 | the fallback text of a failed evaluation scores 0 |
| Keypoint.FailedEvaluationIsN | LLM_keypoint_async.py:58-93 | a failed evaluation call always yields "N" |
| Keypoint.EmptyTagRaises | LLM_keypoint_async.py:92 | an empty tag raises instead of scoring 0 |
| Keypoint.WordTagRaises | LLM_keypoint_async.py:92 | a tag whose text does not start like an integer raises |
| Keypoint.WordTagExample | LLM_keypoint_async.py:92 | "high" in the tag raises |
| Keypoint.Gather | LLM_keypoint_async.py:108-109 | `gather` yields every value, in order, exactly when every task succeeds |
| Keypoint.ProcessAllRows | LLM_keypoint_async.py:103-109 | the run yields one record per row, in row order, exactly when no row raises; one raising row makes the whole run raise |
| EmbeddingCompare.Classify | embedding_compare.py:34-39 | Correct exactly at or above high; Incorrect exactly below both; Borderline exactly in [low, high) |
| EmbeddingCompare.DefaultBoundaries | embedding_compare.py:27-39 | with 0.9/0.7, 0.9 is Correct, 0.7 Borderline and 0.69 Incorrect |
| EmbeddingCompare.ClassifyMonotone | archive/embedding_compare.py:35-40 | when low is at most high, a higher score never gets a lower label (the archived copy is the same chain) |
| EmbeddingCompare.NoBorderlineWhenInverted | archive/embedding_compare.py:35-40 | when high is at most low, Borderline is unreachable |
| Segmenter.NextPair | trash_bin/chunk_answer.py:21 | a fence pair lies in the text, the closing fence after the opening one |
| Segmenter.NextPairSpec | trash_bin/chunk_answer.py:21 | the pair is the leftmost fence and the first fence after it; with no pair, no fence is followed by another |
| Segmenter.Scan | trash_bin/chunk_answer.py:21-24 | there is one more gap than blocks |
| Segmenter.ScanWeaves | trash_bin/chunk_answer.py:21-24 | gaps and blocks woven with fences give the input back |
| Segmenter.ScanFenceFree | trash_bin/chunk_answer.py:21-24 | no block and no gap before the last holds a fence; the last gap holds no closable fence |
| Segmenter.UnmatchedFenceStays | trash_bin/chunk_answer.py:21-24 | a single fence finds no block and stays in the prose |
| Segmenter.Lines | trash_bin/chunk_answer.py:27 | a text has at least one line |
| Segmenter.UnheadAll | trash_bin/chunk_answer.py:27 | the heading rule is applied line by line |
| Segmenter.LinesJoin | trash_bin/chunk_answer.py:27 | joining the lines gives the text back |
| Segmenter.JoinSplits | trash_bin/chunk_answer.py:27 | splitting joined newline-free lines gives them back |
| Segmenter.LinesNewlineFree | trash_bin/chunk_answer.py:27 | lines hold no newline |
| Segmenter.DropHeadingsByLine | trash_bin/chunk_answer.py:27 | the heading scan blanks exactly the lines that start with "#" |
| Segmenter.NoHeadingLeft | trash_bin/chunk_answer.py:27 | the line count is kept and no line starts with "#" afterwards |
| Segmenter.NoHashUnchanged | trash_bin/chunk_answer.py:27 | a text without "#" is unchanged |
| Segmenter.SplitFrom | trash_bin/chunk_answer.py:30 | a split yields at least one piece |
| Segmenter.Sentences | trash_bin/chunk_answer.py:30 | `re.split` yields at least one piece |
| Segmenter.CutsExact | trash_bin/chunk_answer.py:30 | the cut positions are increasing and are exactly the positions where the lookbehind pattern matches |
| Segmenter.Pieces | trash_bin/chunk_answer.py:30 | cutting at `n` positions yields `n + 1` pieces |
| Segmenter.SplitFromIsPieces | trash_bin/chunk_answer.py:30 | the split is the cut of the text at exactly those positions |
| Segmenter.PiecesRejoin | trash_bin/chunk_answer.py:30 | pieces and the cut characters interleaved give the text back |
| Segmenter.SentencesRejoin | trash_bin/chunk_answer.py:30 | the sentences and the single whitespace characters removed between them give the text back |
| Segmenter.AbbreviationExample | trash_bin/chunk_answer.py:30 | "e.g. x" is not split |
| Segmenter.TitleExample | trash_bin/chunk_answer.py:30 | "Mr. X" is not split |
| Segmenter.SentenceEndExample | trash_bin/chunk_answer.py:30 | "Yes! No" splits into "Yes!" and "No" |
| Segmenter.TwoLetterWordExample | trash_bin/chunk_answer.py:30 | "Go. Now" is not split, because "Go." looks like a title |
| Segmenter.NonBlank | trash_bin/chunk_answer.py:45 | the kept sentences are non-blank members of the input, no more of them |
| Segmenter.NonBlankMembers | trash_bin/chunk_answer.py:45 | exactly the non-blank sentences are kept |
| Segmenter.SingleLineBlock | trash_bin/chunk_answer.py:36-42 | a block without a newline is kept stripped |
| Segmenter.MultiLineBlock | trash_bin/chunk_answer.py:36-40 | a tagged multi-line block loses its first line and the rest is stripped |
| Segmenter.CleanAll | trash_bin/chunk_answer.py:34-42 | every block is cleaned, in order |
| Segmenter.CleanBlockItem | trash_bin/chunk_answer.py:36-42 | the loop body computes the cleaned block |
| Segmenter.SplitString | trash_bin/chunk_answer.py:19-47 | `split_string`: the cleaned blocks, then the non-blank sentences of the heading-free prose |
| Segmenter.SplitStringShape | trash_bin/faithfulness_analyse_async.py:46-74 | block items come first in order, then sentence items that are never blank |
| Segmenter.EmptyBlockExample | trash_bin/chunk_answer.py:19-47 | "``````" yields one empty block item |
| Segmenter.EmptyBlockScan | trash_bin/chunk_answer.py:21-24 | "``````" is one empty block between two empty gaps |
| Segmenter.Wrap | trash_bin/011_data_process.py:34-39 | each item becomes a one-element list |
| Segmenter.WrapConcat | trash_bin/011_data_process.py:27-39 | wrapping distributes over concatenation |
| Segmenter.FlattenWrap | trash_bin/011_data_process.py:27-41 | flattening the wrapped list gives the plain result back |
| Segmenter.SplitStringNested | trash_bin/011_data_process.py:13-41 | the third copy wraps every item of the plain result in a one-element list |

## Left out

- File, CSV and JSON reading and writing, `argparse`, `print`, `tqdm` and directory creation are not modelled. The functions take the parsed rows or entries and return the values written.
- Network and library calls are parameters: chat completions, the entailment judge, RAGAS, and the kubeconform, kube-score and kubectl runs with their temporary files.
- Concurrency (`asyncio` gather and the semaphore) is not modelled. `process_all_rows` is modelled as the per-row results gathered in row order.
- Cosine similarity and embeddings, `semantic_chunking`, plotting and the statistics scripts are floating-point library code and are not modelled.
- `get_file_names` lists a directory and is not modelled.
- The `data_process` of trash_bin/011_data_process.py uses the undefined name `question_title` inside its row loop, so it raises NameError on its first data row (a CSV with only a header writes `[]`); only its `split_string` is modelled.
- The relative imports at new_evaluation_engine/02_evaluate_entry.py:6-8 cannot resolve. The gate is bound to the modelled verifier and scorer functions instead.
- Categorize.SearchToolIff: the `\b` of `\b(kubectl|helm|docker)\b` is taken over ASCII word characters (letters, digits, `_`). Python 3 uses Unicode word characters, so a tool name glued to a non-ASCII letter, as in "使用kubectl", is a match here and not in Python. On ASCII text the two agree.
- Categorize.CliIff: "whole word" means the same ASCII boundary as `SearchToolIff`, so the CLI rule departs from Python only next to non-ASCII word characters.
- Categorize.ExplanationIff: "neither earlier rule applies" includes that ASCII-boundary CLI rule and shares its gap next to non-ASCII word characters.
- ExplanationScore.EntailmentScore: the judge is a deterministic function of (prediction, fact). The source asks the model twice per fact (once for the coverage, once for the accuracy), and the model assumes both calls give the same reply.
- ExplanationScore.Round3: uses exact `real` arithmetic and rounds ties up. Python's `round` works on binary doubles and rounds ties to even; all scores are reals, not IEEE floats.
- ExplanationScore.FactsOf: the keys of a dict are taken as a set. The insertion order Python iterates them in is not kept, and the coverages do not depend on it (`KeyOrderIrrelevant`).
- ExplanationScore.JudgeReply: a chat call that raises and a reply without content are one `NoReply` value, and the scorer fails with a fixed message instead of the exception's text.
- CliScore.ValidateCliValue: for a response that is not a string the stored error is a fixed message. Python's text depends on the value's type, and before Python 3.12 `shlex.split(None)` reads standard input instead of failing.
- EvaluateEntry.EvaluateAll: requires the list to hold distinct dicts. A list that contains one dict object twice cannot come from `json.load`, and it is not modelled.
- AccuracyScore.EvaluateAll: the RAGAS evaluation is the `scores` parameter. Exceptions raised inside RAGAS are not modelled, nor is the `reference_answer or ""` default it is given.
- Exception messages throughout are fixed strings close to Python's, not its exact text.
- PyStr.Lower: lowers ASCII letters only, not the full Unicode case mapping.
- Segmenter.SplitAt: `\w` is ASCII letters, digits and underscore, not every Unicode word character.
- PyInt.ParseDecimal: `int()` is modelled for ASCII digits with single underscores between groups, not for other Unicode decimal digits.
- Keypoint.TagText: BeautifulSoup parsing is approximated. The tag's text is taken as what follows the first literal `<accuracy_score>` up to the next `<`. Attributes, other capitalisations and entity decoding are not modelled.
- Keypoint.ProcessRow: the CSV cells are text or missing. Other pandas dtypes, such as numbers, are not modelled.

## Findings

| source | as written | input that shows it | evidently intended | confidence | as-written member | corrected member |
|---|---|---|---|---|---|---|
| LLM_keypoint_async.py:72-75 | `str(row[...]).strip()` turns a missing pandas cell (NaN) into "nan", which is not blank | a row whose "Previous RAG Answer" cell is empty in the CSV | the "Missing Data" record for that row, as the branch at lines 75-81 describes | medium, not executed | Keypoint.MissingCellReachesModel | Keypoint.MissingCellIsBlank |
