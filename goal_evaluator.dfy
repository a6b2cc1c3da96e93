/**
 * The goal evaluator of one subject: given a target percentage, report
 * whether it is reached, out of reach, moot because nothing remains to be
 * graded, or which average the remaining assessments need.
 */
module GoalEvaluator {
  import opened Js
  import opened Types
  import opened Seqs
  import opened Wam
  import ValidatedInput

  /** An assessment still to be sat: no obtained mark, or a mark of exactly
      0 (a scored zero is not told apart from an ungraded assessment). */
  predicate IsRemaining(a: Assessment)
  {
    a.obtainedMarks == None || a.obtainedMarks == Some(0.0)
  }

  /** The full marks of the remaining assessments, summed one assessment at
      a time (`RemainingIsFilteredSum` shows this is the sum over the
      filtered list). */
  function RemainingFullMarks(assessments: seq<Assessment>): real
  {
    if assessments == [] then 0.0
    else (if IsRemaining(assessments[0]) then assessments[0].fullMarks else 0.0)
         + RemainingFullMarks(assessments[1..])
  }

  /** The marks still missing for `target` percent of the full marks. */
  function RequiredMarks(assessments: seq<Assessment>, target: real, totalObtained: real): real
  {
    target / 100.0 * FullSum(assessments) - totalObtained
  }

  datatype Status = NoRemaining | Achieved | Unachievable | Possible

  /** `{ status, value }` as `calculateRequiredMarks` returns it. */
  datatype RequiredResult = RequiredResult(status: Status, value: real)

  /** `calculateRequiredMarks`: classify the target, checking for remaining
      work first. A `Possible` result carries the average percentage the
      remaining assessments need: a value in (0, 100] that, scored on all
      of them, supplies exactly the missing marks. */
  function CalculateRequiredMarks(assessments: seq<Assessment>, target: real, totalObtained: real): (r: RequiredResult)
    ensures r.status != Possible ==> r.value == 0.0
    ensures r.status == Possible ==> 0.0 < r.value <= 100.0
    ensures r.status == Possible ==>
      r.value / 100.0 * RemainingFullMarks(assessments) == RequiredMarks(assessments, target, totalObtained)
  {
    var remainingFullMarks := RemainingFullMarks(assessments);
    var requiredMarks := RequiredMarks(assessments, target, totalObtained);
    if remainingFullMarks == 0.0 then RequiredResult(NoRemaining, 0.0)
    else if requiredMarks <= 0.0 then RequiredResult(Achieved, 0.0)
    else if requiredMarks > remainingFullMarks then RequiredResult(Unachievable, 0.0)
    else
      var average := requiredMarks / remainingFullMarks * 100.0;
      QuotientBetween(requiredMarks, remainingFullMarks, 0.0, 1.0);
      assert average / 100.0 * remainingFullMarks == requiredMarks;
      RequiredResult(Possible, average)
  }

  /** The status follows the branches in their order: no remaining work is
      reported before a target already met is. */
  lemma StatusByBranch(assessments: seq<Assessment>, target: real, totalObtained: real)
    ensures var r := CalculateRequiredMarks(assessments, target, totalObtained);
      var remaining := RemainingFullMarks(assessments);
      var required := RequiredMarks(assessments, target, totalObtained);
      && (r.status == NoRemaining <==> remaining == 0.0)
      && (r.status == Achieved <==> remaining != 0.0 && required <= 0.0)
      && (r.status == Unachievable <==> remaining != 0.0 && required > 0.0 && required > remaining)
      && (r.status == Possible <==> remaining != 0.0 && 0.0 < required <= remaining)
  {
  }

  /** When every assessment carries a nonzero mark, nothing remains. */
  lemma AllMarkedMeansNoRemaining(assessments: seq<Assessment>, target: real, totalObtained: real)
    requires forall a | a in assessments :: a.obtainedMarks.Some? && a.obtainedMarks.value != 0.0
    ensures CalculateRequiredMarks(assessments, target, totalObtained).status == NoRemaining
  {
    NothingRemainsWhenAllMarked(assessments);
  }

  lemma {:induction false} NothingRemainsWhenAllMarked(assessments: seq<Assessment>)
    requires forall a | a in assessments :: a.obtainedMarks.Some? && a.obtainedMarks.value != 0.0
    ensures RemainingFullMarks(assessments) == 0.0
  {
    if assessments != [] {
      assert assessments[0] in assessments;
      NothingRemainsWhenAllMarked(assessments[1..]);
    }
  }

  /** Every remaining assessment given `percent` percent of its full marks. */
  function FillRemaining(assessments: seq<Assessment>, percent: real): (r: seq<Assessment>)
    ensures |r| == |assessments|
  {
    if assessments == [] then []
    else
      var a := assessments[0];
      [if IsRemaining(a) then a.(obtainedMarks := Some(percent / 100.0 * a.fullMarks)) else a]
      + FillRemaining(assessments[1..], percent)
  }

  lemma {:induction false} FullSumConcat(xs: seq<Assessment>, ys: seq<Assessment>)
    ensures FullSum(xs + ys) == FullSum(xs) + FullSum(ys)
  {
    if xs == [] {
      assert xs + ys == ys;
    } else {
      assert (xs + ys)[1..] == xs[1..] + ys;
      FullSumConcat(xs[1..], ys);
    }
  }

  /** The remaining full marks are the full marks of the assessments the
      remaining filter keeps. */
  lemma {:induction false} RemainingIsFilteredSum(assessments: seq<Assessment>)
    ensures RemainingFullMarks(assessments) == FullSum(Filter(assessments, IsRemaining))
  {
    if assessments != [] {
      RemainingIsFilteredSum(assessments[1..]);
      var kept := if IsRemaining(assessments[0]) then [assessments[0]] else [];
      assert Filter(assessments, IsRemaining) == kept + Filter(assessments[1..], IsRemaining);
      FullSumConcat(kept, Filter(assessments[1..], IsRemaining));
      assert kept != [] ==> kept[1..] == [];
    }
  }

  /** The first assessment of a filled list, and the rest. */
  lemma FilledFirst(assessments: seq<Assessment>, percent: real)
    requires assessments != []
    ensures var a := assessments[0];
      var filled := FillRemaining(assessments, percent);
      && filled[0] == (if IsRemaining(a) then a.(obtainedMarks := Some(percent / 100.0 * a.fullMarks)) else a)
      && filled[1..] == FillRemaining(assessments[1..], percent)
  {
  }

  /** Filling in marks leaves the full marks as they were. */
  lemma {:induction false} FilledFullSum(assessments: seq<Assessment>, percent: real)
    ensures FullSum(FillRemaining(assessments, percent)) == FullSum(assessments)
  {
    if assessments != [] {
      FilledFullSum(assessments[1..], percent);
      FilledFirst(assessments, percent);
    }
  }

  /** The marks `percent` percent on every remaining assessment brings. */
  function RemainingShare(assessments: seq<Assessment>, percent: real): real
  {
    if assessments == [] then 0.0
    else (if IsRemaining(assessments[0]) then percent / 100.0 * assessments[0].fullMarks else 0.0)
         + RemainingShare(assessments[1..], percent)
  }

  /** Filling in adds the remaining share to the obtained total. */
  lemma {:induction false} FilledObtainedSum(assessments: seq<Assessment>, percent: real)
    ensures ObtainedSum(FillRemaining(assessments, percent))
      == ObtainedSum(assessments) + RemainingShare(assessments, percent)
  {
    if assessments != [] {
      FilledObtainedSum(assessments[1..], percent);
      FilledFirst(assessments, percent);
    }
  }

  /** The remaining share is `percent` percent of the remaining full marks. */
  lemma {:induction false} RemainingShareIsPercentage(assessments: seq<Assessment>, percent: real)
    ensures RemainingShare(assessments, percent) == percent / 100.0 * RemainingFullMarks(assessments)
  {
    if assessments != [] {
      var a, rest := assessments[0], assessments[1..];
      RemainingShareIsPercentage(rest, percent);
      var head := if IsRemaining(a) then a.fullMarks else 0.0;
      ShareStep(RemainingShare(assessments, percent), RemainingShare(rest, percent), percent,
                head, RemainingFullMarks(rest), RemainingFullMarks(assessments));
    }
  }

  /** The arithmetic of one step of the induction above. */
  lemma ShareStep(share: real, restShare: real, percent: real, head: real, restFull: real, full: real)
    requires share == percent / 100.0 * head + restShare
    requires restShare == percent / 100.0 * restFull
    requires full == head + restFull
    ensures share == percent / 100.0 * full
  {
  }

  /** Scoring `percent` percent on every remaining assessment adds `percent`
      percent of the remaining full marks to the obtained total, and leaves
      the full marks as they were. */
  lemma FilledTotals(assessments: seq<Assessment>, percent: real)
    ensures FullSum(FillRemaining(assessments, percent)) == FullSum(assessments)
    ensures ObtainedSum(FillRemaining(assessments, percent))
      == ObtainedSum(assessments) + percent / 100.0 * RemainingFullMarks(assessments)
  {
    FilledFullSum(assessments, percent);
    FilledObtainedSum(assessments, percent);
    RemainingShareIsPercentage(assessments, percent);
  }

  lemma ScaledQuotient(t: real, f: real)
    requires f != 0.0
    ensures t / 100.0 * f / f * 100.0 == t
  {
  }

  /** Scoring the `Possible` average on every remaining assessment brings
      the subject to the target percentage exactly. */
  lemma PossibleReachesTargetExactly(assessments: seq<Assessment>, target: real)
    requires FullSum(assessments) != 0.0
    requires CalculateRequiredMarks(assessments, target, ObtainedSum(assessments)).status == Possible
    ensures var average := CalculateRequiredMarks(assessments, target, ObtainedSum(assessments)).value;
      Percentage(ObtainedSum(FillRemaining(assessments, average)), FullSum(FillRemaining(assessments, average)))
        == Finite(target)
  {
    var average := CalculateRequiredMarks(assessments, target, ObtainedSum(assessments)).value;
    FilledTotals(assessments, average);
    ScaledQuotient(target, FullSum(assessments));
  }

  /** An `Unachievable` target stays out of reach even with full marks on
      every remaining assessment. */
  lemma UnachievableEvenWithFullMarks(assessments: seq<Assessment>, target: real)
    requires FullSum(assessments) > 0.0
    requires CalculateRequiredMarks(assessments, target, ObtainedSum(assessments)).status == Unachievable
    ensures !AtLeast(Percentage(ObtainedSum(FillRemaining(assessments, 100.0)), FullSum(FillRemaining(assessments, 100.0))), target)
  {
    FilledTotals(assessments, 100.0);
    var f := FullSum(assessments);
    var best := ObtainedSum(FillRemaining(assessments, 100.0));
    assert best < target / 100.0 * f;
    QuotientBetween(best, f, best / f, target / 100.0);
  }

  /** The current percentage of a subject (`NaN` or an infinity when its
      full marks add up to 0). */
  function CurrentPercentage(assessments: seq<Assessment>): JsNumber
  {
    Percentage(ObtainedSum(assessments), FullSum(assessments))
  }

  /** With positive full marks, a target the current percentage falls
      short of needs a positive number of marks, so `handleCalculate`
      never meets the `Achieved` status. */
  lemma AchievedUnreachableFromCalculate(assessments: seq<Assessment>, target: real)
    requires FullSum(assessments) > 0.0
    requires !AtLeast(CurrentPercentage(assessments), target)
    ensures RequiredMarks(assessments, target, ObtainedSum(assessments)) > 0.0
    ensures CalculateRequiredMarks(assessments, target, ObtainedSum(assessments)).status != Achieved
  {
    var o, f := ObtainedSum(assessments), FullSum(assessments);
    assert o / f * 100.0 < target;
    if target / 100.0 * f - o <= 0.0 {
      QuotientBetween(o, f, target / 100.0, o / f + 1.0);
    }
  }

  /** The message `handleCalculate` shows, in the system's terms. */
  datatype Message =
    | NoMessage
    | GoalReached(current: JsNumber)
    | NotReachable(current: JsNumber)
    | NoneRemaining(current: JsNumber)
    | NeedAverage(average: real, current: JsNumber)

  /** The decision of `handleCalculate` for a finite target. */
  function Evaluate(assessments: seq<Assessment>, target: real): Message
  {
    var current := CurrentPercentage(assessments);
    if AtLeast(current, target) then GoalReached(current)
    else
      var required := CalculateRequiredMarks(assessments, target, ObtainedSum(assessments));
      match required.status
      case Achieved => GoalReached(current)
      case Unachievable => NotReachable(current)
      case NoRemaining => NoneRemaining(current)
      case Possible => NeedAverage(required.value, current)
  }

  /** What each message means for a subject with positive full marks: the
      goal is reported reached exactly when the current percentage meets
      it; a needed average lies in (0, 100] and, scored on every remaining
      assessment, lands exactly on the target; an unreachable goal stays
      out of reach with full marks on all of them; and "none remaining"
      means no remaining assessment carries any full marks. */
  lemma EvaluateMeaning(assessments: seq<Assessment>, target: real)
    requires FullSum(assessments) > 0.0
    ensures var m := Evaluate(assessments, target);
      && m != NoMessage
      && m.current == CurrentPercentage(assessments)
      && (m.GoalReached? <==> AtLeast(CurrentPercentage(assessments), target))
      && (m.NeedAverage? ==>
            0.0 < m.average <= 100.0 &&
            CurrentPercentage(FillRemaining(assessments, m.average)) == Finite(target))
      && (m.NotReachable? ==> !AtLeast(CurrentPercentage(FillRemaining(assessments, 100.0)), target))
      && (m.NoneRemaining? ==> RemainingFullMarks(assessments) == 0.0)
  {
    var m := Evaluate(assessments, target);
    var r := CalculateRequiredMarks(assessments, target, ObtainedSum(assessments));
    if !AtLeast(CurrentPercentage(assessments), target) {
      AchievedUnreachableFromCalculate(assessments, target);
      if r.status == Possible {
        PossibleReachesTargetExactly(assessments, target);
      } else if r.status == Unachievable {
        UnachievableEvenWithFullMarks(assessments, target);
      }
    }
  }

  /** A subject at 50% (100 of 200 marks, the other 100 still to be sat)
      needs an average of 60% on what remains to reach 80%. */
  lemma ExampleNeedsSixtyPercent()
    ensures Evaluate([
        Assessment("mid", "Mid-semester test", 50.0, 100.0, 50.0, Some(100.0)),
        Assessment("final", "Final exam", 50.0, 100.0, 50.0, None)], 80.0)
      == NeedAverage(60.0, Finite(50.0))
  {
    var mid := Assessment("mid", "Mid-semester test", 50.0, 100.0, 50.0, Some(100.0));
    var final := Assessment("final", "Final exam", 50.0, 100.0, 50.0, None);
    var assessments := [mid, final];
    assert assessments[1..] == [final] && [final][1..] == [];
    assert RemainingFullMarks([final]) == 100.0 && RemainingFullMarks(assessments) == 100.0;
    assert FullSum([final]) == 100.0;
    assert ObtainedSum(assessments) == 100.0 && FullSum(assessments) == 200.0;
  }

  /** A subject without assessments has the percentage `0 / 0`, which is
      NaN and meets no target, and nothing remains to be sat. */
  lemma NoAssessmentsNoneRemaining(target: real)
    ensures CurrentPercentage([]) == NaN
    ensures Evaluate([], target) == NoneRemaining(NaN)
  {
  }

  /** The target percentage: 60 for the low-pass goal, otherwise the number
      in the high-pass field. */
  function TargetPercentage(selectedGoal: string, highPassPercentage: string): JsNumber
  {
    if selectedGoal == "low-pass" then Finite(60.0) else Number(highPassPercentage)
  }

  /** The state of a `WAMGoalEvaluator` component for one subject. */
  class WamGoalEvaluator {
    const subject: Subject
    var resultMessage: Message
    var currentWam: JsNumber
    var selectedGoal: string
    const highPass: ValidatedInput.InputState

    /** The high-pass field holds nothing or a finite number, so the
        target is always a finite number. */
    ghost predicate Valid()
      reads this, highPass
    {
      highPass.HoldsNumber()
    }

    constructor (subject: Subject)
      ensures Valid() && fresh(highPass)
      ensures this.subject == subject
      ensures resultMessage == NoMessage && currentWam == Finite(0.0) && selectedGoal == ""
      ensures highPass.value == "60" && highPass.min == 60 && highPass.max == 100
    {
      this.subject := subject;
      resultMessage := NoMessage;
      currentWam := Finite(0.0);
      selectedGoal := "";
      highPass := new ValidatedInput.InputState("60", 60, 100);
      new;
      assert IntegerText(60) == "60";
      NumberOfIntegerText(60);
    }

    /** `handleGoalChange`: record the goal; any goal other than high pass
        empties the high-pass field. */
    method HandleGoalChange(goal: string)
      requires Valid()
      modifies this, highPass
      ensures Valid()
      ensures selectedGoal == goal
      ensures highPass.value == if goal != "high-pass" then "" else old(highPass.value)
      ensures resultMessage == old(resultMessage) && currentWam == old(currentWam)
    {
      selectedGoal := goal;
      if goal != "high-pass" {
        highPass.HandleChange("");
      }
    }

    /** `handleCalculate`: record the current percentage and the message for
        the selected target. */
    method HandleCalculate()
      requires Valid()
      modifies this
      ensures Valid()
      ensures selectedGoal == old(selectedGoal)
      ensures currentWam == CurrentPercentage(subject.assessments)
      ensures TargetPercentage(selectedGoal, highPass.value).Finite?
      ensures resultMessage == Evaluate(subject.assessments, TargetPercentage(selectedGoal, highPass.value).value)
    {
      var totalObtainedMarks := ObtainedSum(subject.assessments);
      var totalFullMarks := FullSum(subject.assessments);
      var currentPercentage := Percentage(totalObtainedMarks, totalFullMarks);
      currentWam := currentPercentage;
      var targetPercentage := if selectedGoal == "low-pass" then 60.0 else Number(highPass.value).value;
      if AtLeast(currentPercentage, targetPercentage) {
        resultMessage := GoalReached(currentPercentage);
      } else {
        var requiredResult := CalculateRequiredMarks(subject.assessments, targetPercentage, totalObtainedMarks);
        match requiredResult.status
        case Achieved =>
          resultMessage := GoalReached(currentPercentage);
        case Unachievable =>
          resultMessage := NotReachable(currentPercentage);
        case NoRemaining =>
          resultMessage := NoneRemaining(currentPercentage);
        case Possible =>
          resultMessage := NeedAverage(requiredResult.value, currentPercentage);
      }
    }
  }
}
