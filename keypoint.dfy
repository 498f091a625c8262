/**
 * The verdict logic of the asynchronous key-point comparison
 * (`process_row`): a fixed record for missing data, fallbacks for failed model
 * calls, the `<accuracy_score>` tag parse and the Y/N threshold at 60.
 */
module Keypoint {
  import opened Wrappers
  import opened PyStr
  import opened PyInt
  import opened JsonValue

  /** How one chat-completion call ended: with the reply text, or with an exception. */
  datatype LlmReply = Replied(content: string) | CallFailed(message: string)

  /** A CSV cell as pandas reads it: text, or a missing value (NaN). */
  datatype Cell = Text(s: string) | Missing

  /** `str(cell)`: a missing value prints as "nan". */
  function CellString(c: Cell): string {
    match c
    case Text(s) => s
    case Missing => "nan"
  }

  /** The record written for one row: always these four fields. */
  datatype KeypointRecord = KeypointRecord(id: Json, keyPoints: string, llmResult: string, ragAnswer: string)

  /** The record as a dict with the keys of the output CSV. */
  function RecordFields(r: KeypointRecord): (d: Fields)
    ensures d.Keys == {"ID", "Key Points", "LLM Method Result", "RAG_Answer"}
  {
    map["ID" := r.id, "Key Points" := JStr(r.keyPoints),
        "LLM Method Result" := JStr(r.llmResult), "RAG_Answer" := JStr(r.ragAnswer)]
  }

  /** The record for a row with a blank answer on either side. */
  function MissingRecord(id: Json): KeypointRecord {
    KeypointRecord(id, "N/A", "Similarity Score: N/A\nReasoning: Missing Data", "N/A")
  }

  const KeyPointsFallback := "Error extracting key points."
  const OpenTag := "<accuracy_score>"
  const CloseTag := "</accuracy_score>"
  const EvaluationFallback := OpenTag + "0" + CloseTag + "\n<reasoning>Error during evaluation.</reasoning>"

  /** `extract_key_points_from_text1`: the stripped reply, or the fallback text. */
  function KeyPoints(reply: LlmReply): string {
    match reply
    case Replied(c) => Strip(c)
    case CallFailed(_) => KeyPointsFallback
  }

  /** `evaluate_generated_answer`: the stripped reply, or the fallback evaluation. */
  function Evaluation(reply: LlmReply): string {
    match reply
    case Replied(c) => Strip(c)
    case CallFailed(_) => EvaluationFallback
  }

  /** The text content of the first `<accuracy_score>` tag, up to the next
      markup character, or None when there is no such tag. */
  function TagText(explanation: string): Option<string> {
    match Find(explanation, OpenTag, 0)
    case None => None
    case Some(i) => Some(Before(explanation[i + |OpenTag|..], '<'))
  }

  /** `int(tag.contents[0]) if tag else 0`: a tag without text content raises
      (there is no first child), text that is not an integer raises. */
  function Score(explanation: string): Result<int> {
    match TagText(explanation)
    case None => Success(0)
    case Some(t) =>
      if t == [] then Failure("list index out of range")
      else match ParseInt(t)
        case None => Failure("invalid literal for int() with base 10")
        case Some(v) => Success(v)
  }

  /** `"Y" if accuracy_score >= 60 else "N"`. */
  function Verdict(score: int): string {
    if score >= 60 then "Y" else "N"
  }

  /** The two texts are compared only when both are non-blank. */
  predicate HasBothTexts(answer: Cell, ragAnswer: Cell) {
    Strip(CellString(answer)) != [] && Strip(CellString(ragAnswer)) != []
  }

  /** `process_row` as written: the two calls are parameters (the evaluation call
      receives the two stripped texts and the key points). */
  function ProcessRowAsWritten(id: Json, answer: Cell, ragAnswer: Cell,
                               extract: string -> LlmReply,
                               evaluate: (string, string, string) -> LlmReply): Result<KeypointRecord> {
    var text1 := Strip(CellString(answer));
    var text2 := Strip(CellString(ragAnswer));
    if text1 == [] || text2 == [] then Success(MissingRecord(id))
    else
      var keyPoints := KeyPoints(extract(text1));
      var explanation := Evaluation(evaluate(text1, text2, keyPoints));
      match Score(explanation)
      case Failure(e) => Failure(e)
      case Success(score) => Success(KeypointRecord(id, keyPoints, explanation, Verdict(score)))
  }

  /** A missing cell prints as "nan", which is not blank: the row is sent to
      the model and gets a Y/N verdict (or fails) instead of the missing-data record. */
  lemma MissingCellReachesModel(id: Json, answer: string,
                                extract: string -> LlmReply, evaluate: (string, string, string) -> LlmReply)
    requires Strip(answer) != []
    ensures ProcessRowAsWritten(id, Text(answer), Missing, extract, evaluate).Success? ==>
      ProcessRowAsWritten(id, Text(answer), Missing, extract, evaluate).value.ragAnswer in {"Y", "N"}
  {
    StripUnpadded("nan");
  }

  /** The text compared for a cell: a missing value counts as blank. */
  function CellText(c: Cell): string {
    match c
    case Text(s) => Strip(s)
    case Missing => ""
  }

  /** `process_row` with missing cells treated as blank, as its missing-data
      record intends. */
  function ProcessRow(id: Json, answer: Cell, ragAnswer: Cell,
                      extract: string -> LlmReply,
                      evaluate: (string, string, string) -> LlmReply): Result<KeypointRecord> {
    var text1 := CellText(answer);
    var text2 := CellText(ragAnswer);
    if text1 == [] || text2 == [] then Success(MissingRecord(id))
    else
      var keyPoints := KeyPoints(extract(text1));
      var explanation := Evaluation(evaluate(text1, text2, keyPoints));
      match Score(explanation)
      case Failure(e) => Failure(e)
      case Success(score) => Success(KeypointRecord(id, keyPoints, explanation, Verdict(score)))
  }

  /** A missing or blank cell on either side gives the missing-data record, and
      the result does not depend on the model calls at all. */
  lemma MissingDataRecord(id: Json, answer: Cell, ragAnswer: Cell,
                          extract: string -> LlmReply, evaluate: (string, string, string) -> LlmReply,
                          extract': string -> LlmReply, evaluate': (string, string, string) -> LlmReply)
    requires CellText(answer) == [] || CellText(ragAnswer) == []
    ensures ProcessRow(id, answer, ragAnswer, extract, evaluate) == Success(MissingRecord(id))
    ensures ProcessRow(id, answer, ragAnswer, extract, evaluate) == ProcessRow(id, answer, ragAnswer, extract', evaluate')
  {
  }

  /** For two present texts the two functions agree: they differ only on missing cells. */
  lemma ProcessRowAgreesOnText(id: Json, answer: string, ragAnswer: string,
                               extract: string -> LlmReply, evaluate: (string, string, string) -> LlmReply)
    ensures ProcessRow(id, Text(answer), Text(ragAnswer), extract, evaluate) ==
      ProcessRowAsWritten(id, Text(answer), Text(ragAnswer), extract, evaluate)
  {
  }

  /** A missing cell is treated as blank by the corrected function. */
  lemma MissingCellIsBlank(id: Json, answer: Cell,
                           extract: string -> LlmReply, evaluate: (string, string, string) -> LlmReply)
    ensures ProcessRow(id, answer, Missing, extract, evaluate) == Success(MissingRecord(id))
    ensures ProcessRow(id, Missing, answer, extract, evaluate) == Success(MissingRecord(id))
  {
  }

  /** With both texts present, the record holds the key points and the
      evaluation text, and the verdict is "Y" exactly when the parsed score is
      at least 60. */
  lemma VerdictIff(id: Json, answer: Cell, ragAnswer: Cell,
                   extract: string -> LlmReply, evaluate: (string, string, string) -> LlmReply)
    requires CellText(answer) != [] && CellText(ragAnswer) != []
    ensures var keyPoints := KeyPoints(extract(CellText(answer)));
      var explanation := Evaluation(evaluate(CellText(answer), CellText(ragAnswer), keyPoints));
      var r := ProcessRow(id, answer, ragAnswer, extract, evaluate);
      (r.Success? <==> Score(explanation).Success?) &&
      (r.Success? ==>
        r.value.keyPoints == keyPoints && r.value.llmResult == explanation &&
        (r.value.ragAnswer == "Y" <==> Score(explanation).value >= 60) &&
        (r.value.ragAnswer == "N" <==> Score(explanation).value < 60))
  {
  }

  /** An evaluation without any `<accuracy_score>` tag scores 0. */
  lemma NoTagScoresZero(explanation: string)
    requires !Contains(explanation, OpenTag)
    ensures Score(explanation) == Success(0)
  {
  }

  /** The text of the first tag runs to the next '<'. */
  lemma TagTextAfter(pre: string, content: string, rest: string)
    requires '<' !in pre && '<' !in content && StartsWith(rest, "<")
    ensures TagText(pre + OpenTag + content + rest) == Some(content)
  {
    var s := pre + OpenTag + content + rest;
    FirstTagAfterPlainPrefix(pre, OpenTag + content + rest);
    assert s == pre + (OpenTag + content + rest);
    assert s[|pre| + |OpenTag|..] == content + rest;
    BeforeStopsAt(content, rest, '<');
  }

  /** A tag holding `str(n)`, with whitespace `ws` before it, parses to `n`. */
  lemma TagScoreParses(pre: string, ws: string, n: nat, post: string)
    requires '<' !in pre && '<' !in ws && AllSpace(ws)
    ensures Score(pre + OpenTag + ws + Decimal(n) + CloseTag + post) == Success(n)
  {
    var content := ws + Decimal(n);
    TagRegroup(pre, ws, Decimal(n), post);
    NoMarkupInDecimal(ws, n);
    CloseTagIsMarkup(post);
    TagTextAfter(pre, content, CloseTag + post);
    ParseDecimal(n, ws, "");
    EmptyRight(content);
    ScoreOfTag(pre + OpenTag + ws + Decimal(n) + CloseTag + post, content);
  }

  /** Regrouping a tagged text around its content. */
  lemma TagRegroup(pre: string, ws: string, d: string, post: string)
    ensures pre + OpenTag + ws + d + CloseTag + post == pre + OpenTag + (ws + d) + (CloseTag + post)
  {
  }

  lemma EmptyRight(s: string)
    ensures s + "" == s
  {
  }

  lemma EmptyLeft(s: string)
    ensures "" + s == s
  {
  }

  /** The score of a text whose first tag holds `t`. */
  lemma ScoreOfTag(x: string, t: string)
    requires TagText(x) == Some(t)
    ensures t == [] ==> Score(x).Failure?
    ensures t != [] ==> Score(x) == (match ParseInt(t)
      case None => Failure("invalid literal for int() with base 10")
      case Some(v) => Success(v))
  {
  }

  /** The closing tag starts with a markup character. */
  lemma CloseTagIsMarkup(post: string)
    ensures StartsWith(CloseTag + post, "<")
  {
    assert (CloseTag + post)[..1] == [CloseTag[0]];
  }

  /** Whitespace and digits hold no '<'. */
  lemma NoMarkupInDecimal(ws: string, n: nat)
    requires '<' !in ws
    ensures '<' !in ws + Decimal(n)
  {
    var d := Decimal(n);
    assert forall i :: 0 <= i < |d| ==> d[i] != '<';
  }

  /** A prefix without '<' cannot hold the tag, so the first tag starts after it. */
  lemma FirstTagAfterPlainPrefix(pre: string, rest: string)
    requires '<' !in pre && StartsWith(rest, OpenTag)
    ensures Find(pre + rest, OpenTag, 0) == Some(|pre|)
  {
    var s := pre + rest;
    assert OccursAt(s, OpenTag, |pre|) by { assert s[|pre|..|pre| + |OpenTag|] == rest[..|OpenTag|]; }
    forall k | 0 <= k < |pre| ensures !OccursAt(s, OpenTag, k) {
      assert s[k] == pre[k];
    }
    FindFirst(s, OpenTag, |pre|);
  }

  /** `Find` returns the first occurrence. */
  lemma FindFirst(s: string, t: string, i: nat)
    requires OccursAt(s, t, i) && forall k :: 0 <= k < i ==> !OccursAt(s, t, k)
    ensures Find(s, t, 0) == Some(i)
  {
  }

  /** The fallback evaluation of a failed call scores 0. */
  lemma FallbackScoresZero()
    ensures Score(EvaluationFallback) == Success(0)
  {
    var tail := "\n<reasoning>Error during evaluation.</reasoning>";
    TagScoreParses("", "", 0, tail);
    assert Decimal(0) == "0";
    assert EvaluationFallback == "" + OpenTag + "" + Decimal(0) + CloseTag + tail by {
      assert "" + OpenTag + "" + Decimal(0) == OpenTag + "0";
    }
  }

  /** A failed evaluation call always gives the verdict "N". */
  lemma FailedEvaluationIsN(id: Json, answer: Cell, ragAnswer: Cell,
                            extract: string -> LlmReply, evaluate: (string, string, string) -> LlmReply)
    requires CellText(answer) != [] && CellText(ragAnswer) != []
    requires evaluate(CellText(answer), CellText(ragAnswer), KeyPoints(extract(CellText(answer)))).CallFailed?
    ensures ProcessRow(id, answer, ragAnswer, extract, evaluate).Success?
    ensures ProcessRow(id, answer, ragAnswer, extract, evaluate).value.ragAnswer == "N"
  {
    FallbackScoresZero();
  }

  /** An empty tag raises instead of scoring 0. */
  lemma EmptyTagRaises()
    ensures Score(OpenTag + CloseTag).Failure?
  {
    CloseTagIsMarkup("");
    assert CloseTag + "" == CloseTag;
    TagTextAfter("", "", CloseTag);
    assert "" + OpenTag + "" + CloseTag == OpenTag + CloseTag;
    ScoreOfTag(OpenTag + CloseTag, "");
  }

  /** A tag whose text starts with neither whitespace, a sign nor a digit raises
      instead of scoring 0. */
  lemma WordTagRaises(w: string)
    requires w != [] && '<' !in w
    requires !IsSpace(w[0]) && !IsDigit(w[0]) && w[0] != '+' && w[0] != '-'
    ensures Score(OpenTag + w + CloseTag).Failure?
  {
    CloseTagIsMarkup("");
    EmptyRight(CloseTag);
    TagTextAfter("", w, CloseTag);
    EmptyLeft(OpenTag);
    ScoreOfTag(OpenTag + w + CloseTag, w);
    WordNotInt(w);
  }

  /** Text starting with neither whitespace, a sign nor a digit is no integer. */
  lemma WordNotInt(w: string)
    requires w != [] && !IsSpace(w[0]) && !IsDigit(w[0]) && w[0] != '+' && w[0] != '-'
    ensures ParseInt(w) == None
  {
    RStripSpec(w);
    assert Strip(w)[0] == w[0];
  }

  /** For instance `<accuracy_score>high</accuracy_score>` raises. */
  lemma WordTagExample()
    ensures Score(OpenTag + "high" + CloseTag).Failure?
  {
    WordTagRaises("high");
  }

  /** `gather` without `return_exceptions`: all the records, in order, when every
      row succeeds; one failing row makes the whole run raise. */
  function Gather(rs: seq<Result<KeypointRecord>>): (r: Result<seq<KeypointRecord>>)
    ensures r.Success? <==> forall i :: 0 <= i < |rs| ==> rs[i].Success?
    ensures r.Success? ==> |r.value| == |rs| && forall i :: 0 <= i < |rs| ==> rs[i] == Success(r.value[i])
  {
    if rs == [] then Success([])
    else match rs[0]
      case Failure(e) => Failure(e)
      case Success(v) =>
        match Gather(rs[1..])
        case Failure(e) => Failure(e)
        case Success(vs) => Success([v] + vs)
  }

  /** `process_all_rows`: every row goes through `process_row` as written (the calls
      run concurrently, but `gather` keeps the row order); the run produces the
      records only when no row raises. */
  function ProcessAllRows(rows: seq<(Json, Cell, Cell)>, extract: string -> LlmReply,
                          evaluate: (string, string, string) -> LlmReply): (r: Result<seq<KeypointRecord>>)
    ensures r.Success? <==>
      forall i :: 0 <= i < |rows| ==> ProcessRowAsWritten(rows[i].0, rows[i].1, rows[i].2, extract, evaluate).Success?
    ensures r.Success? ==> |r.value| == |rows|
    ensures r.Success? ==> forall i :: 0 <= i < |rows| ==>
      ProcessRowAsWritten(rows[i].0, rows[i].1, rows[i].2, extract, evaluate) == Success(r.value[i])
  {
    Gather(RowResults(rows, extract, evaluate))
  }

  /** The outcome of `process_row` for each row, in row order. */
  function RowResults(rows: seq<(Json, Cell, Cell)>, extract: string -> LlmReply,
                      evaluate: (string, string, string) -> LlmReply): (rs: seq<Result<KeypointRecord>>)
    ensures |rs| == |rows|
    ensures forall i :: 0 <= i < |rows| ==> rs[i] == ProcessRowAsWritten(rows[i].0, rows[i].1, rows[i].2, extract, evaluate)
  {
    seq(|rows|, i requires 0 <= i < |rows| => ProcessRowAsWritten(rows[i].0, rows[i].1, rows[i].2, extract, evaluate))
  }
}
