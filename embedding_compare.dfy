/**
 * The three-way threshold classifier of the embedding comparison
 * (`classify_answer`, identical in the current and the archived script).
 */
module EmbeddingCompare {

  /** The three labels, ordered Incorrect < Borderline < Correct. */
  datatype Label = Incorrect | Borderline | Correct

  /** The label as the script returns it. */
  function LabelText(l: Label): string {
    match l
    case Correct => "Correct"
    case Incorrect => "Incorrect"
    case Borderline => "Borderline (Needs LLM Evaluation)"
  }

  /** The rank of a label in the order Incorrect < Borderline < Correct. */
  function Rank(l: Label): nat {
    match l
    case Incorrect => 0
    case Borderline => 1
    case Correct => 2
  }

  const DefaultHigh: real := 0.9
  const DefaultLow: real := 0.7

  /** `classify_answer(similarity_score, high_threshold, low_threshold)`. */
  function Classify(score: real, high: real, low: real): (l: Label)
    ensures l == Correct <==> score >= high
    ensures l == Incorrect <==> score < high && score < low
    ensures l == Borderline <==> low <= score < high
  {
    if score >= high then Correct
    else if score < low then Incorrect
    else Borderline
  }

  /** With the default thresholds 0.9 is Correct and 0.7 is Borderline. */
  lemma DefaultBoundaries()
    ensures Classify(0.9, DefaultHigh, DefaultLow) == Correct
    ensures Classify(0.7, DefaultHigh, DefaultLow) == Borderline
    ensures Classify(0.69, DefaultHigh, DefaultLow) == Incorrect
  {
  }

  /** When low <= high, a higher score never gets a lower label. */
  lemma ClassifyMonotone(s: real, t: real, high: real, low: real)
    requires low <= high && s <= t
    ensures Rank(Classify(s, high, low)) <= Rank(Classify(t, high, low))
  {
  }

  /** When high <= low, no score is Borderline. */
  lemma NoBorderlineWhenInverted(score: real, high: real, low: real)
    requires high <= low
    ensures Classify(score, high, low) != Borderline
  {
  }
}
