/** The two rules of the progress indicator
    (src/components/ui/processing-steps.tsx): the status of each step
    relative to the active one, and the label of the results step. */
module ProcessingSteps {
  import opened Strings
  import opened Optional

  datatype Step = Search | Results | Generating

  datatype Status = Completed | Active | Pending

  /** The steps in the order they happen. */
  const StepOrder: seq<Step> := [Search, Results, Generating]

  /** `xs.indexOf(x)`: the position of the first occurrence, or -1. */
  function IndexOf<T(==)>(xs: seq<T>, x: T): (i: int)
    ensures -1 <= i < |xs|
    ensures i == -1 <==> x !in xs
    ensures 0 <= i ==> xs[i] == x && x !in xs[..i]
  {
    if xs == [] then -1
    else if xs[0] == x then 0
    else
      var j := IndexOf(xs[1..], x);
      if j == -1 then -1
      else
        assert xs[..j + 1] == [xs[0]] + xs[1..][..j];
        j + 1
  }

  /** In a list without repeats, the position of the element at `i` is `i`. */
  lemma IndexOfDistinct<T>(xs: seq<T>, i: int)
    requires forall p, q :: 0 <= p < q < |xs| ==> xs[p] != xs[q]
    requires 0 <= i < |xs|
    ensures IndexOf(xs, xs[i]) == i
  {
    var k := IndexOf(xs, xs[i]);
    assert k <= i by {
      assert xs[i] in xs[..i + 1];
    }
  }

  /** `getStepStatus`: the position of `step` compared with that of the
      active step (-1 when there is none). */
  function StepStatus(activeStep: Option<Step>, step: Step): Status
  {
    var activeIndex := if activeStep.Some? then IndexOf(StepOrder, activeStep.value) else -1;
    var currentIndex := IndexOf(StepOrder, step);
    if currentIndex < activeIndex then Completed
    else if currentIndex == activeIndex then Active
    else Pending
  }

  /** Every step is in the order, at its own position. */
  lemma StepPositions(i: int)
    requires 0 <= i < |StepOrder|
    ensures IndexOf(StepOrder, StepOrder[i]) == i
  {
    IndexOfDistinct(StepOrder, i);
  }

  lemma StepInOrder(s: Step)
    ensures exists i :: 0 <= i < |StepOrder| && StepOrder[i] == s
  {
    match s
    case Search => assert StepOrder[0] == s;
    case Results => assert StepOrder[1] == s;
    case Generating => assert StepOrder[2] == s;
  }

  /** With no active step, every step is pending. */
  lemma NoActiveStepAllPending(step: Step)
    ensures StepStatus(None, step) == Pending
  {
    StepInOrder(step);
    var i :| 0 <= i < |StepOrder| && StepOrder[i] == step;
    StepPositions(i);
  }

  /** With the step at position `a` active, the steps before it are
      completed, it is active, and those after it are pending. */
  lemma StatusByPosition(a: int, i: int)
    requires 0 <= a < |StepOrder| && 0 <= i < |StepOrder|
    ensures StepStatus(Some(StepOrder[a]), StepOrder[i])
         == if i < a then Completed else if i == a then Active else Pending
  {
    StepPositions(a);
    StepPositions(i);
  }

  /** When a step is active, it is the only active step. */
  lemma ExactlyOneActive(active: Step, step: Step)
    ensures StepStatus(Some(active), step) == Active <==> step == active
  {
    StepInOrder(active);
    StepInOrder(step);
    var a :| 0 <= a < |StepOrder| && StepOrder[a] == active;
    var i :| 0 <= i < |StepOrder| && StepOrder[i] == step;
    StatusByPosition(a, i);
  }

  /** `documentCount = 0`: the count, or 0 when absent. */
  function CountOrZero(documentCount: Option<int>): int
  {
    if documentCount.Some? then documentCount.value else 0
  }

  /** The label of the results step. */
  function ResultsLabel(documentCount: Option<int>): string
  {
    var n := CountOrZero(documentCount);
    "Found " + IntToString(n) + " document" + (if n != 1 then "s" else "")
  }

  /** "Found N document" for one document, "Found N documents" for any
      other count; the number shown is the count, or 0 when absent. */
  lemma ResultsLabelPlural(documentCount: Option<int>)
    ensures StartsWith(ResultsLabel(documentCount), "Found ")
    ensures CountOrZero(documentCount) == 1 ==> ResultsLabel(documentCount) == "Found 1 document"
    ensures CountOrZero(documentCount) != 1 <==> EndsWith(ResultsLabel(documentCount), " documents")
    ensures CountOrZero(documentCount) != 1 ==>
              ResultsLabel(documentCount)[6..|ResultsLabel(documentCount)| - 10] == IntToString(CountOrZero(documentCount))
    ensures documentCount.None? ==> ResultsLabel(documentCount) == "Found 0 documents"
  {
    var n := CountOrZero(documentCount);
    var text := ResultsLabel(documentCount);
    var digits := IntToString(n);
    assert text == "Found " + (digits + (" document" + if n != 1 then "s" else ""));
    assert text[..6] == "Found ";
    if n == 1 {
      assert digits == "1";
      assert !EndsWith(text, " documents") by {
        assert text[|text| - 1] == 't';
      }
    } else {
      assert text[|text| - 10..] == " documents";
      assert text[6..|text| - 10] == digits;
    }
    if documentCount.None? {
      assert IntToString(0) == "0";
    }
  }
}
