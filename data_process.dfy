/**
 * The data-processing stage of the evaluation engine: one JSON entry per CSV
 * row (question, retrieved contexts, stripped response, optional reference
 * answer, output category), the baseline test and the output path.
 */
module DataProcess {
  import opened Wrappers
  import opened PyStr
  import opened Categorize

  /** The CSV columns the processing scripts read from a row. */
  datatype CsvRow = CsvRow(
    questionTitle: string,
    questionBody: string,
    top1Context: string,
    top2Context: string,
    top3Context: string,
    generatedResponse: string,
    generatedWithoutRag: string,
    answerBody: string)

  /** The JSON entry written for one row. */
  datatype ProcessedEntry = ProcessedEntry(
    question: string,
    retrievedContexts: seq<string>,
    generatedResponse: string,
    referenceAnswer: Option<string>,
    outputCategory: Category)

  /** `title + " - " + body` when the stripped body is non-empty, else the stripped title. */
  function Question(title: string, body: string): string {
    if Strip(body) != [] then Strip(title) + " - " + Strip(body) else Strip(title)
  }

  /** The question starts with the stripped title, is the title alone exactly
      when the body is blank, and otherwise appends " - " and the stripped body. */
  lemma QuestionSpec(title: string, body: string)
    ensures StartsWith(Question(title, body), Strip(title))
    ensures Question(title, body) == Strip(title) <==> AllSpace(body)
    ensures !AllSpace(body) ==> Question(title, body) == Strip(title) + " - " + Strip(body)
  {
    StripEmptyIff(body);
    if Strip(body) != [] {
      assert Question(title, body)[..|Strip(title)|] == Strip(title);
    }
  }

  /** `[c for c in xs if c]`. */
  function KeepNonEmpty(xs: seq<string>): (r: seq<string>)
    ensures |r| <= |xs|
  {
    if xs == [] then []
    else if xs[0] == [] then KeepNonEmpty(xs[1..])
    else [xs[0]] + KeepNonEmpty(xs[1..])
  }

  /** Filtering distributes over concatenation, so it keeps the original order. */
  lemma {:induction false} KeepNonEmptyConcat(a: seq<string>, b: seq<string>)
    ensures KeepNonEmpty(a + b) == KeepNonEmpty(a) + KeepNonEmpty(b)
  {
    if a != [] {
      assert (a + b)[0] == a[0];
      assert (a + b)[1..] == a[1..] + b;
      KeepNonEmptyConcat(a[1..], b);
    } else {
      assert a + b == b;
    }
  }

  /** Exactly the non-empty members are kept: a list without empty strings is kept whole. */
  lemma {:induction false} KeepNonEmptyMembers(xs: seq<string>)
    ensures forall x :: x in KeepNonEmpty(xs) <==> x in xs && x != []
    ensures (forall i :: 0 <= i < |xs| ==> xs[i] != []) ==> KeepNonEmpty(xs) == xs
  {
    if xs != [] {
      KeepNonEmptyMembers(xs[1..]);
      assert xs == [xs[0]] + xs[1..];
    }
  }

  /** The retrieved contexts: none for a baseline run, otherwise the stripped
      Top-1..3 contexts without the empty ones. */
  function RetrievedContexts(row: CsvRow, isBaseline: bool): seq<string> {
    if isBaseline then []
    else KeepNonEmpty([Strip(row.top1Context), Strip(row.top2Context), Strip(row.top3Context)])
  }

  /** The stripped answer body, or None when it is empty. */
  function ReferenceAnswer(answerBody: string): Option<string> {
    if Strip(answerBody) != [] then Some(Strip(answerBody)) else None
  }

  /** The entry built for one row. */
  function BuildEntry(row: CsvRow, isBaseline: bool): ProcessedEntry {
    var generated := Strip(row.generatedResponse);
    ProcessedEntry(
      Question(row.questionTitle, row.questionBody),
      RetrievedContexts(row, isBaseline),
      generated,
      ReferenceAnswer(row.answerBody),
      CategorizeResponse(generated))
  }

  /** The retrieved contexts: none for a baseline run, at most three, each
      non-empty and already stripped. */
  lemma RetrievedContextsSpec(row: CsvRow, isBaseline: bool)
    ensures isBaseline ==> RetrievedContexts(row, isBaseline) == []
    ensures |RetrievedContexts(row, isBaseline)| <= 3
    ensures forall c :: c in RetrievedContexts(row, isBaseline) ==> c != [] && Strip(c) == c
  {
    var cs := [Strip(row.top1Context), Strip(row.top2Context), Strip(row.top3Context)];
    KeepNonEmptyMembers(cs);
    forall c | c in RetrievedContexts(row, isBaseline) ensures c != [] && Strip(c) == c {
      assert c in cs;
      if c == cs[0] {
        StripIdempotent(row.top1Context);
      } else if c == cs[1] {
        StripIdempotent(row.top2Context);
      } else {
        StripIdempotent(row.top3Context);
      }
    }
  }

  /** The reference answer is absent exactly when the answer body is blank, and
      is the stripped body otherwise. */
  lemma ReferenceAnswerSpec(answerBody: string)
    ensures ReferenceAnswer(answerBody).None? <==> AllSpace(answerBody)
    ensures ReferenceAnswer(answerBody).Some? ==> ReferenceAnswer(answerBody).value == Strip(answerBody)
  {
    StripEmptyIff(answerBody);
  }

  /** The stored response is stripped, and the category is computed from it. */
  lemma GeneratedResponseSpec(row: CsvRow, isBaseline: bool)
    ensures Strip(BuildEntry(row, isBaseline).generatedResponse) == BuildEntry(row, isBaseline).generatedResponse
    ensures BuildEntry(row, isBaseline).outputCategory == CategorizeResponse(BuildEntry(row, isBaseline).generatedResponse)
  {
    StripIdempotent(row.generatedResponse);
  }

  /** Outside a baseline run, the contexts are exactly the non-blank Top-1..3
      contexts, stripped, in column order. */
  lemma ContextsInColumnOrder(row: CsvRow)
    ensures RetrievedContexts(row, false) ==
      (if AllSpace(row.top1Context) then [] else [Strip(row.top1Context)]) +
      (if AllSpace(row.top2Context) then [] else [Strip(row.top2Context)]) +
      (if AllSpace(row.top3Context) then [] else [Strip(row.top3Context)])
  {
    StripEmptyIff(row.top1Context);
    StripEmptyIff(row.top2Context);
    StripEmptyIff(row.top3Context);
    KeepNonEmptyThree(Strip(row.top1Context), Strip(row.top2Context), Strip(row.top3Context));
  }

  /** Filtering three strings keeps the non-empty ones in order. */
  lemma KeepNonEmptyThree(a: string, b: string, c: string)
    ensures KeepNonEmpty([a, b, c]) ==
      (if a == [] then [] else [a]) + (if b == [] then [] else [b]) + (if c == [] then [] else [c])
  {
    assert [c][1..] == [];
    assert KeepNonEmpty([c]) == (if c == [] then [] else [c]);
    assert [b, c][1..] == [c];
    assert KeepNonEmpty([b, c]) == (if b == [] then [] else [b]) + KeepNonEmpty([c]);
    assert [a, b, c][1..] == [b, c];
    assert KeepNonEmpty([a, b, c]) == (if a == [] then [] else [a]) + KeepNonEmpty([b, c]);
  }

  /** `re.search(r'test_0\.csv$', "./dev_data/" + name)`; `$` also matches
      just before a final newline. */
  predicate IsBaseline(csvName: string) {
    var path := "./dev_data/" + csvName;
    EndsWith(path, "test_0.csv") || EndsWith(path, "test_0.csv\n")
  }

  /** The directory prefix cannot take part in the match: a run is a baseline
      exactly when the file name itself ends in "test_0.csv" (or that and a newline). */
  lemma IsBaselineIff(csvName: string)
    ensures IsBaseline(csvName) <==>
      EndsWith(csvName, "test_0.csv") || EndsWith(csvName, "test_0.csv\n")
  {
    SuffixThroughPrefix(csvName, "test_0.csv");
    SuffixThroughPrefix(csvName, "test_0.csv\n");
  }

  /** A suffix that holds no '/' ends "./dev_data/" + name exactly when it ends name. */
  lemma SuffixThroughPrefix(csvName: string, p: string)
    requires p != [] && '/' !in p
    ensures EndsWith("./dev_data/" + csvName, p) <==> EndsWith(csvName, p)
  {
    var path := "./dev_data/" + csvName;
    if EndsWith(path, p) {
      EndsWithChars(path, p);
      assert path[10] == '/';
    }
    if |p| <= |csvName| {
      assert path[|path| - |p|..] == csvName[|csvName| - |p|..];
    }
  }

  /** `os.path.join("./processed_data", name.split("/")[-1].replace(".csv", "_processed.json"))`. */
  function OutputPath(csvName: string): string {
    "./processed_data/" + Replace(LastSegment(csvName, '/'), ".csv", "_processed.json")
  }

  /** Replacing with a text free of `c` keeps a `c`-free string free of `c`. */
  lemma {:induction false} ReplaceKeepsCharOut(s: string, pat: string, rep: string, c: char)
    requires pat != [] && c !in s && c !in rep
    ensures c !in Replace(s, pat, rep)
    decreases |s|
  {
    if s != [] {
      if OccursAt(s, pat, 0) {
        ReplaceKeepsCharOut(s[|pat|..], pat, rep, c);
      } else {
        ReplaceKeepsCharOut(s[1..], pat, rep, c);
      }
    }
  }

  /** The output file always lies directly inside "./processed_data". */
  lemma OutputPathInDirectory(csvName: string)
    ensures StartsWith(OutputPath(csvName), "./processed_data/")
    ensures '/' !in OutputPath(csvName)[17..]
  {
    ReplaceKeepsCharOut(LastSegment(csvName, '/'), ".csv", "_processed.json", '/');
    assert OutputPath(csvName)[17..] == Replace(LastSegment(csvName, '/'), ".csv", "_processed.json");
  }

  /** A plain file name "stem.csv" becomes "./processed_data/stem_processed.json". */
  lemma OutputPathOfPlainName(stem: string)
    requires '/' !in stem && '.' !in stem
    ensures OutputPath(stem + ".csv") == "./processed_data/" + stem + "_processed.json"
  {
    var name := stem + ".csv";
    assert '/' !in name by {
      forall k | 0 <= k < |name| ensures name[k] != '/' {
        if k < |stem| { assert name[k] == stem[k]; }
      }
    }
    assert name == stem + ".csv" + "";
    ReplaceFirst(stem, ".csv", "_processed.json", "");
    assert stem + "_processed.json" + [] == stem + "_processed.json";
  }

  /** The entries of the rows, in row order. */
  function BuildEntries(rows: seq<CsvRow>, isBaseline: bool): (r: seq<ProcessedEntry>)
    ensures |r| == |rows|
  {
    if rows == [] then []
    else BuildEntries(rows[..|rows| - 1], isBaseline) + [BuildEntry(rows[|rows| - 1], isBaseline)]
  }

  /** Entry `i` is built from row `i` alone. */
  lemma {:induction false} BuildEntriesAt(rows: seq<CsvRow>, isBaseline: bool, i: nat)
    requires i < |rows|
    ensures BuildEntries(rows, isBaseline)[i] == BuildEntry(rows[i], isBaseline)
  {
    if i < |rows| - 1 {
      BuildEntriesAt(rows[..|rows| - 1], isBaseline, i);
    }
  }

  /** The row loop of `data_process`: one entry per row, in row order. */
  method ProcessRows(rows: seq<CsvRow>, isBaseline: bool) returns (data: seq<ProcessedEntry>)
    ensures data == BuildEntries(rows, isBaseline)
  {
    data := [];
    for k := 0 to |rows|
      invariant data == BuildEntries(rows[..k], isBaseline)
    {
      var row := rows[k];
      var generatedResponse := Strip(row.generatedResponse);
      var entry := ProcessedEntry(
        Question(row.questionTitle, row.questionBody),
        RetrievedContexts(row, isBaseline),
        generatedResponse,
        ReferenceAnswer(row.answerBody),
        CategorizeResponse(generatedResponse));
      assert rows[..k + 1][..k] == rows[..k];
      data := data + [entry];
    }
    assert rows[..|rows|] == rows;
  }

  /** `data_process(csv_filename)` without the file reading and writing: the
      output path, the baseline flag and the entries of the rows read. */
  method DataProcessFile(csvName: string, rows: seq<CsvRow>)
    returns (jsonName: string, isBaseline: bool, data: seq<ProcessedEntry>)
    ensures jsonName == OutputPath(csvName)
    ensures isBaseline <==> EndsWith(csvName, "test_0.csv") || EndsWith(csvName, "test_0.csv\n")
    ensures data == BuildEntries(rows, isBaseline)
  {
    jsonName := OutputPath(csvName);
    isBaseline := IsBaseline(csvName);
    IsBaselineIff(csvName);
    data := ProcessRows(rows, isBaseline);
  }
}
