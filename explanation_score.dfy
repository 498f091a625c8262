/**
 * The explanation scorer of the evaluation engine: rule-based fact coverage
 * (lower-cased substring hits), entailment coverage from a yes/no judge, their
 * weighted blend, and the in-place update of each entry with the four scores.
 */
module ExplanationScore {
  import opened Wrappers
  import opened PyStr
  import opened JsonValue

  // ---------------------------------------------------------------- counting

  /** The number of elements of `xs` that satisfy `p`. */
  function Count<T>(xs: seq<T>, p: T -> bool): (n: nat)
    ensures n <= |xs|
  {
    if xs == [] then 0 else Count(xs[..|xs| - 1], p) + (if p(xs[|xs| - 1]) then 1 else 0)
  }

  /** The positions of `xs` whose element satisfies `p`. */
  function Positions<T>(xs: seq<T>, p: T -> bool): set<nat> {
    set i: nat | i < |xs| && p(xs[i])
  }

  /** The count is the number of satisfying positions. */
  lemma {:induction false} CountIsPositions<T>(xs: seq<T>, p: T -> bool)
    ensures Count(xs, p) == |Positions(xs, p)|
  {
    if xs != [] {
      var q := xs[..|xs| - 1];
      CountIsPositions(q, p);
      var last := if p(xs[|xs| - 1]) then {|xs| - 1} else {};
      assert Positions(xs, p) == Positions(q, p) + last;
    }
  }

  /** Every element satisfies `p` exactly when the count is the length. */
  lemma {:induction false} CountAll<T>(xs: seq<T>, p: T -> bool)
    ensures Count(xs, p) == |xs| <==> forall i :: 0 <= i < |xs| ==> p(xs[i])
  {
    if xs != [] {
      CountAll(xs[..|xs| - 1], p);
    }
  }

  /** No element satisfies `p` exactly when the count is zero. */
  lemma {:induction false} CountNone<T>(xs: seq<T>, p: T -> bool)
    ensures Count(xs, p) == 0 <==> forall i :: 0 <= i < |xs| ==> !p(xs[i])
  {
    if xs != [] {
      CountNone(xs[..|xs| - 1], p);
    }
  }

  /** `k / n`, or 0.0 for an empty list (both coverages guard the division this way). */
  function Fraction(k: nat, n: nat): (r: real)
    requires k <= n
    ensures 0.0 <= r <= 1.0
    ensures r == 1.0 <==> n > 0 && k == n
    ensures r == 0.0 <==> n == 0 || k == 0
  {
    if n == 0 then 0.0 else k as real / n as real
  }

  /** The strings occurring in `xs`. */
  function Elements(xs: seq<string>): set<string> {
    set x | x in xs
  }

  /** No string occurs twice in `xs`. */
  predicate Distinct(xs: seq<string>) {
    forall i, j :: 0 <= i < j < |xs| ==> xs[i] != xs[j]
  }

  /** The number of strings of `ks` that satisfy `p`. */
  function SetCount(ks: set<string>, p: string -> bool): nat {
    |set k | k in ks && p(k)|
  }

  /** On a list without repetitions, counting along the list and counting its
      set of elements agree. */
  lemma {:induction false} CountOfDistinct(xs: seq<string>, p: string -> bool)
    requires Distinct(xs)
    ensures |Elements(xs)| == |xs|
    ensures Count(xs, p) == SetCount(Elements(xs), p)
  {
    if xs != [] {
      var q := xs[..|xs| - 1];
      var x := xs[|xs| - 1];
      CountOfDistinct(q, p);
      assert Elements(xs) == Elements(q) + {x};
      assert x !in Elements(q);
      SetCountAddOne(Elements(q), x, p);
    }
  }

  /** Adding a new element adds one to the count exactly when it satisfies `p`. */
  lemma SetCountAddOne(ks: set<string>, x: string, p: string -> bool)
    requires x !in ks
    ensures |ks + {x}| == |ks| + 1
    ensures SetCount(ks + {x}, p) == SetCount(ks, p) + (if p(x) then 1 else 0)
  {
    var a := set k | k in ks && p(k);
    var b := set k | k in ks + {x} && p(k);
    if p(x) {
      assert b == a + {x};
    } else {
      assert b == a;
    }
  }

  /** Every finite set of strings can be listed without repetitions. */
  lemma {:induction false} Enumeration(ks: set<string>) returns (xs: seq<string>)
    ensures Distinct(xs) && Elements(xs) == ks
    decreases ks
  {
    if ks == {} {
      xs := [];
    } else {
      var k :| k in ks;
      var rest := Enumeration(ks - {k});
      xs := rest + [k];
      assert Elements(xs) == Elements(rest) + {k};
    }
  }

  /** The set count is at most the size of the set, equals it exactly when
      every element satisfies `p`, and is 0 exactly when none does. */
  lemma SetCountSpec(ks: set<string>, p: string -> bool)
    ensures SetCount(ks, p) <= |ks|
    ensures SetCount(ks, p) == |ks| <==> forall k :: k in ks ==> p(k)
    ensures SetCount(ks, p) == 0 <==> forall k :: k in ks ==> !p(k)
  {
    var xs := Enumeration(ks);
    CountOfDistinct(xs, p);
    CountAll(xs, p);
    CountNone(xs, p);
    assert forall k :: k in ks <==> exists i :: 0 <= i < |xs| && xs[i] == k;
  }

  // ---------------------------------------------------------------- rule coverage

  /** `fact.lower() in prediction.lower()`. */
  predicate Hit(prediction: string, fact: string) {
    Contains(Lower(prediction), Lower(fact))
  }

  /** `assertion_coverage(prediction, facts)` on a list of facts: the fraction of
      facts found verbatim, ignoring case. */
  function AssertionCoverage(prediction: string, facts: seq<string>): real {
    Fraction(Count(facts, f => Hit(prediction, f)), |facts|)
  }

  /** Fact coverage lies in [0, 1], is 1 exactly when there are facts and every
      one is found, and 0 exactly when there are none or none is found. */
  lemma AssertionCoverageSpec(prediction: string, facts: seq<string>)
    ensures 0.0 <= AssertionCoverage(prediction, facts) <= 1.0
    ensures AssertionCoverage(prediction, facts) == 1.0 <==>
      facts != [] && forall i :: 0 <= i < |facts| ==> Hit(prediction, facts[i])
    ensures AssertionCoverage(prediction, facts) == 0.0 <==>
      forall i :: 0 <= i < |facts| ==> !Hit(prediction, facts[i])
  {
    CountAll(facts, f => Hit(prediction, f));
    CountNone(facts, f => Hit(prediction, f));
  }

  /** The empty string is found in every prediction, so an empty fact always counts. */
  lemma EmptyFactHits(prediction: string)
    ensures Hit(prediction, "")
  {
    assert OccursAt(Lower(prediction), Lower(""), 0);
    ContainsIff(Lower(prediction), Lower(""));
  }

  // ---------------------------------------------------------------- entailment

  /** How one call of the entailment judge ended: with the reply text, or
      without one (the chat call raised, or the message had no content, on
      which `.strip()` raises). */
  datatype JudgeReply = Reply(content: string) | NoReply

  /** The chat model asked whether the prediction entails the fact. */
  type Judge = (string, string) -> JudgeReply

  const JudgeError := "the entailment judge gave no reply"

  /** The judge's reply counts as entailment when, stripped and lower-cased, it
      starts with "yes". */
  predicate IsYes(reply: string) {
    StartsWith(Lower(Strip(reply)), "yes")
  }

  /** The judge replied for this fact. */
  predicate Answered(judge: Judge, prediction: string, fact: string) {
    judge(prediction, fact).Reply?
  }

  /** The judge replied yes for this fact. */
  predicate Entailed(judge: Judge, prediction: string, fact: string) {
    judge(prediction, fact).Reply? && IsYes(judge(prediction, fact).content)
  }

  /** `entailment_score(prediction, assertion)`: 1.0 or 0.0 from the judge's
      reply; a call without a reply raises. */
  function EntailmentScore(judge: Judge, prediction: string, fact: string): (r: Result<real>)
    ensures r.Success? <==> Answered(judge, prediction, fact)
    ensures r.Success? ==> r.value == 1.0 || r.value == 0.0
    ensures r == Success(1.0) <==> Entailed(judge, prediction, fact)
  {
    match judge(prediction, fact)
    case NoReply => Failure(JudgeError)
    case Reply(c) => Success(if IsYes(c) then 1.0 else 0.0)
  }

  /** `entailment_coverage(prediction, facts)` on a list of facts: 0.0 without
      facts, else the mean entailment score, whose sum is the number of yes
      replies; the first call without a reply raises. */
  function EntailmentCoverage(judge: Judge, prediction: string, facts: seq<string>): Result<real> {
    if forall i :: 0 <= i < |facts| ==> Answered(judge, prediction, facts[i]) then
      Success(Fraction(Count(facts, f => Entailed(judge, prediction, f)), |facts|))
    else Failure(JudgeError)
  }

  /** Entailment coverage is computed exactly when the judge replies for every
      fact; it then lies in [0, 1], is 1 exactly when there are facts and the
      judge says yes to every one, and 0 exactly when it says yes to none. */
  lemma EntailmentCoverageSpec(judge: Judge, prediction: string, facts: seq<string>)
    ensures EntailmentCoverage(judge, prediction, facts).Success? <==>
      forall i :: 0 <= i < |facts| ==> Answered(judge, prediction, facts[i])
    ensures EntailmentCoverage(judge, prediction, facts).Success? ==>
      var c := EntailmentCoverage(judge, prediction, facts).value;
      0.0 <= c <= 1.0 &&
      (c == 1.0 <==> facts != [] && forall i :: 0 <= i < |facts| ==> Entailed(judge, prediction, facts[i])) &&
      (c == 0.0 <==> forall i :: 0 <= i < |facts| ==> !Entailed(judge, prediction, facts[i]))
  {
    CountAll(facts, f => Entailed(judge, prediction, f));
    CountNone(facts, f => Entailed(judge, prediction, f));
  }

  /** A reply of "Yes." with any surrounding whitespace and case counts as yes. */
  lemma YesReplies()
    ensures IsYes("Yes.") && IsYes(" YES") && !IsYes("No.")
  {
    StripTrimmed("Yes.");
    assert Strip("Yes.") == "Yes." by {
      assert LStrip("Yes.") == "Yes.";
      assert RStrip("Yes.") == "Yes.";
    }
    assert Strip(" YES") == "YES" by {
      assert LStrip(" YES") == LStrip("YES") == "YES";
      assert RStrip("YES") == "YES";
    }
    assert Strip("No.") == "No." by {
      assert LStrip("No.") == "No.";
      assert RStrip("No.") == "No.";
    }
  }

  // ---------------------------------------------------------------- fact sources

  /** The facts as the two coverages iterate them: a list of strings (or the
      characters of a string) in order, or the keys of a dict. */
  datatype Facts = InOrder(xs: seq<string>) | Keys(ks: set<string>)

  /** `assertion_coverage` on any of the fact sources. Iterating a dict yields
      its keys, each at most once. */
  function RuleCoverage(prediction: string, facts: Facts): real {
    match facts
    case InOrder(xs) => AssertionCoverage(prediction, xs)
    case Keys(ks) =>
      SetCountSpec(ks, f => Hit(prediction, f));
      Fraction(SetCount(ks, f => Hit(prediction, f)), |ks|)
  }

  /** `entailment_coverage` on any of the fact sources. */
  function NliCoverage(judge: Judge, prediction: string, facts: Facts): Result<real> {
    match facts
    case InOrder(xs) => EntailmentCoverage(judge, prediction, xs)
    case Keys(ks) =>
      if forall k :: k in ks ==> Answered(judge, prediction, k) then
        SetCountSpec(ks, f => Entailed(judge, prediction, f));
        Success(Fraction(SetCount(ks, f => Entailed(judge, prediction, f)), |ks|))
      else Failure(JudgeError)
  }

  /** The keys of a dict come in insertion order, which the model does not
      keep; the coverages do not depend on it: counting over the key set gives
      what counting along any repetition-free listing of the keys gives. */
  lemma KeyOrderIrrelevant(judge: Judge, prediction: string, xs: seq<string>)
    requires Distinct(xs)
    ensures RuleCoverage(prediction, Keys(Elements(xs))) == AssertionCoverage(prediction, xs)
    ensures NliCoverage(judge, prediction, Keys(Elements(xs))) == EntailmentCoverage(judge, prediction, xs)
  {
    CountOfDistinct(xs, f => Hit(prediction, f));
    CountOfDistinct(xs, f => Entailed(judge, prediction, f));
    assert (forall k :: k in Elements(xs) ==> Answered(judge, prediction, k)) <==>
      (forall i :: 0 <= i < |xs| ==> Answered(judge, prediction, xs[i]));
  }

  /** Both coverages of a fact source lie in [0, 1]. */
  lemma CoveragesInUnit(judge: Judge, prediction: string, facts: Facts)
    ensures 0.0 <= RuleCoverage(prediction, facts) <= 1.0
    ensures NliCoverage(judge, prediction, facts).Success? ==>
      0.0 <= NliCoverage(judge, prediction, facts).value <= 1.0
  {
    if facts.InOrder? {
      AssertionCoverageSpec(prediction, facts.xs);
      EntailmentCoverageSpec(judge, prediction, facts.xs);
    }
  }

  // ---------------------------------------------------------------- blend

  const WRule: real := 0.4
  const WNli: real := 0.6

  /** `w_rule * rule_cov + w_nli * nli_cov`. */
  function Blend(ruleCov: real, nliCov: real, wRule: real, wNli: real): real {
    wRule * ruleCov + wNli * nliCov
  }

  /** With the default weights, the blend of two coverages lies in [0, 1] and
      is 1 exactly when both coverages are. */
  lemma BlendSpec(ruleCov: real, nliCov: real)
    requires 0.0 <= ruleCov <= 1.0 && 0.0 <= nliCov <= 1.0
    ensures 0.0 <= Blend(ruleCov, nliCov, WRule, WNli) <= 1.0
    ensures Blend(ruleCov, nliCov, WRule, WNli) == 1.0 <==> ruleCov == 1.0 && nliCov == 1.0
  {
  }

  /** The pass mark 0.75 with the default weights cannot be reached on one
      signal alone: it needs entailment coverage of at least 7/12 and fact
      coverage of at least 3/8. */
  lemma PassNeedsBothSignals(ruleCov: real, nliCov: real)
    requires 0.0 <= ruleCov <= 1.0 && 0.0 <= nliCov <= 1.0
    requires Blend(ruleCov, nliCov, WRule, WNli) >= 0.75
    ensures nliCov >= 7.0 / 12.0
    ensures ruleCov >= 3.0 / 8.0
  {
  }

  /** `explanation_accuracy(prediction, facts)` under the default weights; it
      raises when the entailment coverage does. */
  function ExplanationAccuracy(judge: Judge, prediction: string, facts: Facts): Result<real> {
    match NliCoverage(judge, prediction, facts)
    case Failure(e) => Failure(e)
    case Success(nli) => Success(Blend(RuleCoverage(prediction, facts), nli, WRule, WNli))
  }

  /** Without facts the accuracy is 0, whatever the judge does, so the entry
      cannot pass. */
  lemma NoFactsNoPass(judge: Judge, prediction: string)
    ensures ExplanationAccuracy(judge, prediction, InOrder([])) == Success(0.0)
    ensures ExplanationAccuracy(judge, prediction, Keys({})) == Success(0.0)
  {
    assert SetCount({}, f => Entailed(judge, prediction, f)) == 0;
  }

  /** With a single fact the accuracy is computed exactly when the judge
      replies, and reaches the pass mark exactly when the fact is found and the
      judge says it is entailed. */
  lemma SingleFactPassIff(judge: Judge, prediction: string, fact: string)
    ensures ExplanationAccuracy(judge, prediction, InOrder([fact])).Success? <==> Answered(judge, prediction, fact)
    ensures ExplanationAccuracy(judge, prediction, InOrder([fact])).Success? ==>
      (ExplanationAccuracy(judge, prediction, InOrder([fact])).value >= 0.75 <==>
       Hit(prediction, fact) && Entailed(judge, prediction, fact))
  {
    var facts := [fact];
    assert facts[..0] == [];
    assert AssertionCoverage(prediction, facts) == if Hit(prediction, fact) then 1.0 else 0.0;
    if Answered(judge, prediction, fact) {
      assert EntailmentCoverage(judge, prediction, facts) ==
        Success(if Entailed(judge, prediction, fact) then 1.0 else 0.0);
    }
  }

  // ---------------------------------------------------------------- rounding

  /** `round(x, 3)`: to the nearest multiple of 1/1000 (exact ties go up). */
  function Round3(x: real): real {
    (x * 1000.0 + 0.5).Floor as real / 1000.0
  }

  /** Rounding moves a value by at most half a thousandth. */
  lemma Round3Close(x: real)
    ensures -0.0005 < Round3(x) - x <= 0.0005
  {
    var f := (x * 1000.0 + 0.5).Floor;
    assert f as real <= x * 1000.0 + 0.5 < f as real + 1.0;
  }

  /** Rounding keeps the order of values. */
  lemma Round3Monotone(x: real, y: real)
    requires x <= y
    ensures Round3(x) <= Round3(y)
  {
    FloorMonotone(x * 1000.0 + 0.5, y * 1000.0 + 0.5);
  }

  lemma FloorMonotone(a: real, b: real)
    requires a <= b
    ensures a.Floor <= b.Floor
  {
  }

  lemma FloorHalf(k: int)
    ensures (k as real + 0.5).Floor == k
  {
  }

  /** Multiples of 1/1000, such as 0, 0.75 and 1, are left alone. */
  lemma Round3Exact(k: int)
    ensures Round3(k as real / 1000.0) == k as real / 1000.0
  {
    assert k as real / 1000.0 * 1000.0 + 0.5 == k as real + 0.5;
    FloorHalf(k);
  }

  /** A rounded coverage stays in [0, 1]. */
  lemma Round3Unit(x: real)
    requires 0.0 <= x <= 1.0
    ensures 0.0 <= Round3(x) <= 1.0
  {
    Round3Monotone(x, 1.0);
    Round3Monotone(0.0, x);
    Round3Exact(1000);
    Round3Exact(0);
  }

  // ---------------------------------------------------------------- entries

  const NoLowerError := "AttributeError: object has no attribute 'lower'"
  const NotIterableError := "TypeError: object is not iterable"

  /** `entry.get("generated_response", "")`. */
  function Response(entry: Fields): Json {
    Get(entry, "generated_response", JStr(""))
  }

  /** `entry.get("assertions", [])`. */
  function Assertions(entry: Fields): Json {
    Get(entry, "assertions", JArr([]))
  }

  /** Python can iterate strings, lists and dicts, not null, booleans or numbers. */
  predicate Iterable(v: Json) {
    v.JStr? || v.JArr? || v.JObj?
  }

  /** The prediction, on which `.lower()` is called first: any value other
      than a string raises. */
  function Prediction(entry: Fields): Result<string> {
    match Response(entry)
    case JStr(s) => Success(s)
    case _ => Failure(NoLowerError)
  }

  /** The characters of a string, each as a one-character string. */
  function Chars(s: string): (r: seq<string>)
    ensures |r| == |s| && forall i :: 0 <= i < |s| ==> r[i] == [s[i]]
  {
    seq(|s|, i requires 0 <= i < |s| => [s[i]])
  }

  /** The assertions as the coverage iterates them: a string
      character by character, a dict by its keys, a list item by item (an item
      that is not a string has no `.lower()`); null, a boolean or a number
      cannot be iterated. */
  function FactsOf(entry: Fields): Result<Facts> {
    match Assertions(entry)
    case JStr(s) => Success(InOrder(Chars(s)))
    case JArr(items) =>
      if IsStrList(JArr(items)) then Success(InOrder(StrList(JArr(items)))) else Failure(NoLowerError)
    case JObj(m) => Success(Keys(m.Keys))
    case JNull => Failure(NotIterableError)
    case JBool(_) => Failure(NotIterableError)
    case JNum(_) => Failure(NotIterableError)
  }

  /** The three scores of an entry: fact coverage, entailment coverage and the
      unrounded accuracy. */
  datatype Scores = Scores(fact: real, entailment: real, accuracy: real)

  /** The scores `evaluate_explanation_entry` computes, or the first exception:
      the prediction is lower-cased first, then the facts are iterated, then the
      judge is asked about each fact. */
  function EntryScores(entry: Fields, judge: Judge): Result<Scores> {
    match Prediction(entry)
    case Failure(e) => Failure(e)
    case Success(pred) =>
      match FactsOf(entry)
      case Failure(e) => Failure(e)
      case Success(facts) =>
        match ExplanationAccuracy(judge, pred, facts)
        case Failure(e) => Failure(e)
        case Success(acc) => Success(Scores(RuleCoverage(pred, facts), NliCoverage(judge, pred, facts).value, acc))
  }

  /** The entry after `evaluate_explanation_entry`: the three rounded scores and
      the pass flag (taken on the unrounded accuracy) are written over it. */
  function ExplanationFields(entry: Fields, judge: Judge): Result<Fields> {
    match EntryScores(entry, judge)
    case Failure(e) => Failure(e)
    case Success(sc) =>
      Success(entry["fact_coverage" := JNum(Round3(sc.fact))]
                   ["entailment_coverage" := JNum(Round3(sc.entailment))]
                   ["accuracy_score" := JNum(Round3(sc.accuracy))]
                   ["auto_pass" := JBool(sc.accuracy >= 0.75)])
  }

  /** When scoring raises: a response that is not a string, assertions that
      are null, a boolean or a number, or a list with an item that is not a
      string; and otherwise exactly when the judge gives no reply for some fact.
      Facts given as a dict are scored by its keys. */
  lemma ExplanationRaises(entry: Fields, judge: Judge)
    ensures !Response(entry).JStr? ==> ExplanationFields(entry, judge) == Failure(NoLowerError)
    ensures Response(entry).JStr? && Assertions(entry).JArr? && !IsStrList(Assertions(entry)) ==>
      ExplanationFields(entry, judge) == Failure(NoLowerError)
    ensures Response(entry).JStr? && !Iterable(Assertions(entry)) ==>
      ExplanationFields(entry, judge) == Failure(NotIterableError)
    ensures Response(entry).JStr? && Assertions(entry).JObj? ==>
      FactsOf(entry) == Success(Keys(Assertions(entry).fields.Keys))
    ensures Prediction(entry).Success? && FactsOf(entry).Success? ==>
      (ExplanationFields(entry, judge).Success? <==>
       NliCoverage(judge, Prediction(entry).value, FactsOf(entry).value).Success?)
  {
  }

  /** The update adds exactly the four score keys, keeps every other key and
      keeps the prediction and the facts, so the scores of the updated entry
      are the same. */
  lemma ExplanationFieldsKeep(entry: Fields, judge: Judge)
    requires ExplanationFields(entry, judge).Success?
    ensures ExplanationFields(entry, judge).value.Keys ==
      entry.Keys + {"fact_coverage", "entailment_coverage", "accuracy_score", "auto_pass"}
    ensures forall k :: k in entry && k !in {"fact_coverage", "entailment_coverage", "accuracy_score", "auto_pass"} ==>
      ExplanationFields(entry, judge).value[k] == entry[k]
    ensures EntryScores(ExplanationFields(entry, judge).value, judge) == EntryScores(entry, judge)
  {
    var f := ExplanationFields(entry, judge).value;
    assert Response(f) == Response(entry) && Assertions(f) == Assertions(entry);
  }

  /** The stored scores lie in [0, 1], and an entry passes exactly when its
      unrounded accuracy reaches 0.75, in which case the stored accuracy is at
      least 0.75 too. */
  lemma ExplanationScoresSpec(entry: Fields, judge: Judge)
    requires ExplanationFields(entry, judge).Success?
    ensures var f := ExplanationFields(entry, judge).value;
      0.0 <= f["fact_coverage"].n <= 1.0 &&
      0.0 <= f["entailment_coverage"].n <= 1.0 &&
      0.0 <= f["accuracy_score"].n <= 1.0
    ensures var f := ExplanationFields(entry, judge).value;
      (f["auto_pass"] == JBool(true) <==> EntryScores(entry, judge).value.accuracy >= 0.75) &&
      (f["auto_pass"] == JBool(true) ==> f["accuracy_score"].n >= 0.75)
  {
    var pred := Prediction(entry).value;
    var facts := FactsOf(entry).value;
    var sc := EntryScores(entry, judge).value;
    CoveragesInUnit(judge, pred, facts);
    BlendSpec(sc.fact, sc.entailment);
    Round3Unit(sc.fact);
    Round3Unit(sc.entailment);
    Round3Unit(sc.accuracy);
    if sc.accuracy >= 0.75 {
      Round3Monotone(0.75, sc.accuracy);
      Round3Exact(750);
    }
  }

  /** Scoring an entry twice gives the same entry as scoring it once: the
      scores are not among the inputs. */
  lemma ExplanationIdempotent(entry: Fields, judge: Judge)
    requires ExplanationFields(entry, judge).Success?
    ensures ExplanationFields(ExplanationFields(entry, judge).value, judge) == ExplanationFields(entry, judge)
  {
    ExplanationFieldsKeep(entry, judge);
    var f := ExplanationFields(entry, judge).value;
    var sc := EntryScores(entry, judge).value;
    RewriteSame(f, "fact_coverage", JNum(Round3(sc.fact)));
    RewriteSame(f, "entailment_coverage", JNum(Round3(sc.entailment)));
    RewriteSame(f, "accuracy_score", JNum(Round3(sc.accuracy)));
    RewriteSame(f, "auto_pass", JBool(sc.accuracy >= 0.75));
  }

  /** Writing the value a key already has changes nothing. */
  lemma RewriteSame(m: Fields, k: string, v: Json)
    requires k in m && m[k] == v
    ensures m[k := v] == m
  {
  }

  /** `evaluate_explanation_entry(entry)`: updates the dict in place and returns
      it; when a computation raises, the dict is left as it was, since the four
      assignments come after all of them. */
  method EvaluateExplanationEntry(entry: Dict, judge: Judge) returns (r: Result<Dict>)
    modifies entry
    ensures ExplanationFields(old(entry.fields), judge).Success? ==>
      r == Success(entry) && entry.fields == ExplanationFields(old(entry.fields), judge).value
    ensures ExplanationFields(old(entry.fields), judge).Failure? ==>
      r == Failure(ExplanationFields(old(entry.fields), judge).error) && entry.fields == old(entry.fields)
  {
    var pred := Prediction(entry.fields);
    if pred.Failure? {
      return Failure(pred.error);
    }
    var facts := FactsOf(entry.fields);
    if facts.Failure? {
      return Failure(facts.error);
    }
    var fc := RuleCoverage(pred.value, facts.value);
    var ec := NliCoverage(judge, pred.value, facts.value);
    if ec.Failure? {
      return Failure(ec.error);
    }
    var acc := ExplanationAccuracy(judge, pred.value, facts.value);
    entry.fields := entry.fields["fact_coverage" := JNum(Round3(fc))];
    entry.fields := entry.fields["entailment_coverage" := JNum(Round3(ec.value))];
    entry.fields := entry.fields["accuracy_score" := JNum(Round3(acc.value))];
    entry.fields := entry.fields["auto_pass" := JBool(acc.value >= 0.75)];
    r := Success(entry);
  }

  /** The loop of `evaluate_batch`: the entries are scored in list order,
      whatever their category, until one raises, which ends the batch before
      anything is written. `scored` entries were scored; a dict that occurs
      twice in the list is scored twice, which gives the same result as once. */
  method EvaluateBatch(data: seq<Dict>, judge: Judge) returns (scored: nat, error: Option<string>)
    modifies set i | 0 <= i < |data| :: data[i]
    ensures scored <= |data|
    ensures error.None? <==> scored == |data|
    ensures forall i :: 0 <= i < scored ==>
      ExplanationFields(old(data[i].fields), judge).Success? &&
      data[i].fields == ExplanationFields(old(data[i].fields), judge).value
    ensures error.Some? ==> ExplanationFields(old(data[scored].fields), judge) == Failure(error.value)
    ensures forall i :: scored <= i < |data| ==>
      (exists j :: 0 <= j < scored && data[j] == data[i]) || data[i].fields == old(data[i].fields)
  {
    scored := 0;
    while scored < |data|
      invariant scored <= |data|
      invariant forall i :: 0 <= i < scored ==>
        ExplanationFields(old(data[i].fields), judge).Success? &&
        data[i].fields == ExplanationFields(old(data[i].fields), judge).value
      invariant forall i :: scored <= i < |data| ==>
        (exists j :: 0 <= j < scored && data[j] == data[i]) || data[i].fields == old(data[i].fields)
    {
      var d := data[scored];
      if exists j :: 0 <= j < scored && data[j] == d {
        ExplanationIdempotent(old(d.fields), judge);
      }
      var r := EvaluateExplanationEntry(d, judge);
      if r.Failure? {
        return scored, Some(r.error);
      }
      scored := scored + 1;
    }
    error := None;
  }
}
