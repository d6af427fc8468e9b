/** The closed set of pillar priorities (src/entities/types/Priority.tsx). */
module Priorities {
  import opened Wrappers

  /** The five members of the `Priority` type, least important first. */
  datatype Priority = VeryLow | Low | Medium | High | VeryHigh

  /** The `priorities` list: the labels as stored, in the order the source lists them. */
  const Labels: seq<string> := ["very low", "low", "medium", "high", "very high"]

  /** Position of a priority in `Labels`. */
  function Rank(p: Priority): (k: nat)
    ensures k < |Labels|
  {
    match p
    case VeryLow => 0
    case Low => 1
    case Medium => 2
    case High => 3
    case VeryHigh => 4
  }

  /** The string a priority is stored and compared as. */
  function Label(p: Priority): string {
    Labels[Rank(p)]
  }

  /** `isPriority`: membership of the label list. */
  predicate IsPriority(value: string) {
    value in Labels
  }

  /** The narrowing `value as Priority` that `isPriority` licenses. */
  function Parse(value: string): (r: Option<Priority>)
    ensures r.Some? <==> IsPriority(value)
    ensures r.Some? ==> Label(r.value) == value
  {
    if value == Labels[0] then Some(VeryLow)
    else if value == Labels[1] then Some(Low)
    else if value == Labels[2] then Some(Medium)
    else if value == Labels[3] then Some(High)
    else if value == Labels[4] then Some(VeryHigh)
    else None
  }

  /** The guard accepts exactly the five spelled-out labels. */
  lemma IsPriorityExactly(value: string)
    ensures IsPriority(value) <==>
      value == "very low" || value == "low" || value == "medium" || value == "high" || value == "very high"
  {
  }

  /** Five labels, pairwise distinct, so each priority has its own label. */
  lemma LabelsDistinct()
    ensures |Labels| == 5
    ensures forall i, j :: 0 <= i < j < |Labels| ==> Labels[i] != Labels[j]
  {
  }

  /** Every priority survives a round trip through its label, and distinct priorities have distinct labels. */
  lemma LabelRoundTrip(p: Priority, q: Priority)
    ensures Parse(Label(p)) == Some(p)
    ensures Label(p) == Label(q) ==> p == q
  {
    LabelsDistinct();
  }

  /** Labels use a space: hyphenated or unknown words are not priorities. */
  lemma SpelledLabelsOnly()
    ensures IsPriority("very high") && IsPriority("very low")
    ensures !IsPriority("very-high") && !IsPriority("extreme") && !IsPriority("invalid")
  {
    assert "very-high" != "very high" by { assert "very-high"[4] != "very high"[4]; }
  }
}
