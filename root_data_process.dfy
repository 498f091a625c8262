/**
 * The first, top-level version of the data-processing script: one JSON entry
 * per CSV row, without the baseline test and the output category of the
 * evaluation engine's version, but with the response generated without
 * retrieval copied as it is.
 */
module RootDataProcess {
  import opened Wrappers
  import opened PyStr
  import opened DataProcess

  /** The JSON entry the script writes for one row. */
  datatype RootEntry = RootEntry(
    question: string,
    retrievedContexts: seq<string>,
    generatedResponse: string,
    referenceAnswer: Option<string>,
    gptResponse: string)

  /** The entry built for one row. */
  function RootEntryOf(row: CsvRow): RootEntry {
    RootEntry(
      Question(row.questionTitle, row.questionBody),
      KeepNonEmpty([Strip(row.top1Context), Strip(row.top2Context), Strip(row.top3Context)]),
      Strip(row.generatedResponse),
      ReferenceAnswer(row.answerBody),
      row.generatedWithoutRag)
  }

  /** The older entry agrees with the evaluation engine's entry for a run
      that is not a baseline on every field they share, and it keeps the
      response generated without retrieval unstripped. */
  lemma RootEntryAgrees(row: CsvRow)
    ensures RootEntryOf(row).question == BuildEntry(row, false).question
    ensures RootEntryOf(row).retrievedContexts == BuildEntry(row, false).retrievedContexts
    ensures RootEntryOf(row).generatedResponse == BuildEntry(row, false).generatedResponse
    ensures RootEntryOf(row).referenceAnswer == BuildEntry(row, false).referenceAnswer
    ensures RootEntryOf(row).gptResponse == row.generatedWithoutRag
  {
  }

  /** Its contexts are at most three non-empty stripped strings, its reference
      answer is absent exactly for a blank answer body, and its generated
      response is stripped. */
  lemma RootEntrySpec(row: CsvRow)
    ensures |RootEntryOf(row).retrievedContexts| <= 3
    ensures forall c :: c in RootEntryOf(row).retrievedContexts ==> c != [] && Strip(c) == c
    ensures RootEntryOf(row).referenceAnswer.None? <==> AllSpace(row.answerBody)
    ensures Strip(RootEntryOf(row).generatedResponse) == RootEntryOf(row).generatedResponse
  {
    RetrievedContextsSpec(row, false);
    ReferenceAnswerSpec(row.answerBody);
    StripIdempotent(row.generatedResponse);
  }

  /** The entries of the rows, in row order. */
  function RootEntries(rows: seq<CsvRow>): (r: seq<RootEntry>)
    ensures |r| == |rows|
  {
    if rows == [] then [] else RootEntries(rows[..|rows| - 1]) + [RootEntryOf(rows[|rows| - 1])]
  }

  /** Entry `i` is built from row `i` alone. */
  lemma {:induction false} RootEntriesAt(rows: seq<CsvRow>, i: nat)
    requires i < |rows|
    ensures RootEntries(rows)[i] == RootEntryOf(rows[i])
  {
    if i < |rows| - 1 {
      RootEntriesAt(rows[..|rows| - 1], i);
    }
  }

  /** The row loop of the script: one entry per row, appended in row order. */
  method ProcessRootRows(rows: seq<CsvRow>) returns (data: seq<RootEntry>)
    ensures data == RootEntries(rows)
  {
    data := [];
    for k := 0 to |rows|
      invariant data == RootEntries(rows[..k])
    {
      var row := rows[k];
      var questionTitle := Strip(row.questionTitle);
      var questionBody := Strip(row.questionBody);
      var question := if questionBody != [] then questionTitle + " - " + questionBody else questionTitle;
      var retrievedContexts := KeepNonEmpty([Strip(row.top1Context), Strip(row.top2Context), Strip(row.top3Context)]);
      var entry := RootEntry(
        question,
        retrievedContexts,
        Strip(row.generatedResponse),
        if Strip(row.answerBody) != [] then Some(Strip(row.answerBody)) else None,
        row.generatedWithoutRag);
      assert rows[..k + 1][..k] == rows[..k];
      data := data + [entry];
    }
    assert rows[..|rows|] == rows;
  }
}
