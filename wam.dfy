/**
 * The weighted average mark (WAM): the credit-weighted mean of the
 * percentage grades of the included subjects that have assessments.
 */
module Wam {
  import opened Types

  /** `assessment.obtained_marks || 0`. */
  function ObtainedOrZero(a: Assessment): real
  {
    match a.obtainedMarks
    case None => 0.0
    case Some(m) => m
  }

  /** The obtained marks of the assessments, a missing mark counting as 0. */
  function ObtainedSum(assessments: seq<Assessment>): real
  {
    if assessments == [] then 0.0
    else ObtainedOrZero(assessments[0]) + ObtainedSum(assessments[1..])
  }

  /** The full marks of the assessments. */
  function FullSum(assessments: seq<Assessment>): real
  {
    if assessments == [] then 0.0
    else assessments[0].fullMarks + FullSum(assessments[1..])
  }

  /** Whether a subject takes part in the average. */
  predicate Counts(s: Subject)
  {
    s.included && |s.assessments| > 0
  }

  /** Every subject that takes part has a nonzero full-marks total, so its
      grade is a finite number. */
  predicate GradesDefined(subjects: seq<Subject>)
  {
    forall s | s in subjects :: Counts(s) ==> FullSum(s.assessments) != 0.0
  }

  /** A subject's percentage: obtained over full marks, times 100. */
  function Grade(s: Subject): real
    requires FullSum(s.assessments) != 0.0
  {
    ObtainedSum(s.assessments) / FullSum(s.assessments) * 100.0
  }

  /** What one subject adds to the weighted sum: grade times credit when it
      takes part, nothing otherwise. */
  function Contribution(s: Subject): real
    requires Counts(s) ==> FullSum(s.assessments) != 0.0
  {
    if Counts(s) then Grade(s) * s.credit else 0.0
  }

  /** What one subject adds to the total credit. */
  function CreditOf(s: Subject): real
  {
    if Counts(s) then s.credit else 0.0
  }

  /** The sum of grade times credit over the subjects that take part. */
  function WeightedSum(subjects: seq<Subject>): real
    requires GradesDefined(subjects)
  {
    if subjects == [] then 0.0 else Contribution(subjects[0]) + WeightedSum(subjects[1..])
  }

  /** The sum of the credits of the subjects that take part. */
  function CreditSum(subjects: seq<Subject>): real
  {
    if subjects == [] then 0.0 else CreditOf(subjects[0]) + CreditSum(subjects[1..])
  }

  /** The WAM: the weighted sum over the total credit, or 0 when the total
      credit is not positive. */
  function WeightedAverage(subjects: seq<Subject>): real
    requires GradesDefined(subjects)
  {
    if CreditSum(subjects) > 0.0 then WeightedSum(subjects) / CreditSum(subjects) else 0.0
  }

  /** `calculateWAM`: one pass over the subjects accumulating the weighted
      marks and the credits of those that take part. */
  method CalculateWam(subjects: seq<Subject>) returns (wam: real)
    requires GradesDefined(subjects)
    ensures wam == WeightedAverage(subjects)
  {
    var totalWeightedMarks := 0.0;
    var totalCredits := 0.0;
    for i := 0 to |subjects|
      invariant GradesDefined(subjects[i..])
      invariant totalWeightedMarks + WeightedSum(subjects[i..]) == WeightedSum(subjects)
      invariant totalCredits + CreditSum(subjects[i..]) == CreditSum(subjects)
    {
      var subject := subjects[i];
      assert subjects[i..][1..] == subjects[i + 1..];
      if subject.included && |subject.assessments| > 0 {
        var totalObtainedMarks := ObtainedSum(subject.assessments);
        var totalFullMarks := FullSum(subject.assessments);
        var subjectGrade := totalObtainedMarks / totalFullMarks * 100.0;
        totalWeightedMarks := totalWeightedMarks + subjectGrade * subject.credit;
        totalCredits := totalCredits + subject.credit;
      }
    }
    assert subjects[|subjects|..] == [];
    wam := if totalCredits > 0.0 then totalWeightedMarks / totalCredits else 0.0;
  }

  lemma WeightedAverageOfNoSubjects()
    ensures WeightedAverage([]) == 0.0
  {
  }

  lemma {:induction false} SumsOfConcat(xs: seq<Subject>, ys: seq<Subject>)
    requires GradesDefined(xs + ys)
    ensures GradesDefined(xs) && GradesDefined(ys)
    ensures WeightedSum(xs + ys) == WeightedSum(xs) + WeightedSum(ys)
    ensures CreditSum(xs + ys) == CreditSum(xs) + CreditSum(ys)
  {
    if xs == [] {
      assert xs + ys == ys;
    } else {
      assert (xs + ys)[1..] == xs[1..] + ys;
      SumsOfConcat(xs[1..], ys);
    }
  }

  /** A subject that is excluded, or has no assessments, changes neither
      sum: dropping it from the list leaves the WAM as it was. */
  lemma SubjectNotCountedIsIgnored(xs: seq<Subject>, s: Subject, ys: seq<Subject>)
    requires !Counts(s)
    requires GradesDefined(xs + ys)
    ensures GradesDefined(xs + [s] + ys)
    ensures WeightedAverage(xs + [s] + ys) == WeightedAverage(xs + ys)
  {
    SumsOfConcat(xs, ys);
    assert GradesDefined(xs + [s] + ys);
    SumsOfConcat(xs + [s], ys);
    SumsOfConcat(xs, [s]);
  }

  /** A missing obtained mark contributes what an obtained mark of 0 does. */
  lemma {:induction false} MissingMarkCountsAsZero(assessments: seq<Assessment>, i: nat)
    requires i < |assessments| && assessments[i].obtainedMarks == None
    ensures ObtainedSum(assessments[i := assessments[i].(obtainedMarks := Some(0.0))]) == ObtainedSum(assessments)
  {
    var graded := assessments[i := assessments[i].(obtainedMarks := Some(0.0))];
    if i > 0 {
      assert graded[1..] == assessments[1..][i - 1 := assessments[i].(obtainedMarks := Some(0.0))];
      MissingMarkCountsAsZero(assessments[1..], i - 1);
    } else {
      assert graded[1..] == assessments[1..];
    }
  }

  lemma {:induction false} CreditSumNotPositive(subjects: seq<Subject>)
    requires forall s | s in subjects :: Counts(s) ==> s.credit <= 0.0
    ensures CreditSum(subjects) <= 0.0
  {
    if subjects != [] {
      CreditSumNotPositive(subjects[1..]);
    }
  }

  /** When no subject that takes part has a positive credit, the WAM is 0. */
  lemma NoPositiveCreditGivesZero(subjects: seq<Subject>)
    requires GradesDefined(subjects)
    requires forall s | s in subjects :: Counts(s) ==> s.credit <= 0.0
    ensures WeightedAverage(subjects) == 0.0
  {
    CreditSumNotPositive(subjects);
  }

  /** With one subject that takes part and has a positive credit, the WAM is
      that subject's grade. */
  lemma SingleSubjectAverageIsItsGrade(s: Subject)
    requires Counts(s) && s.credit > 0.0 && FullSum(s.assessments) != 0.0
    ensures GradesDefined([s])
    ensures WeightedAverage([s]) == Grade(s)
  {
    assert [s][1..] == [];
    assert WeightedSum([s]) == Grade(s) * s.credit;
    assert CreditSum([s]) == s.credit;
  }

  lemma GradesDefinedPermutation(xs: seq<Subject>, ys: seq<Subject>)
    requires multiset(xs) == multiset(ys)
    requires GradesDefined(xs)
    ensures GradesDefined(ys)
  {
    forall s | s in ys ensures s in xs {
      assert s in multiset(ys);
    }
  }

  /** Taking the subject at `j` out of the list takes its share out of
      both sums. */
  lemma {:induction false} SumsWithout(ys: seq<Subject>, j: nat)
    requires j < |ys| && GradesDefined(ys)
    ensures GradesDefined(ys[..j] + ys[j + 1..])
    ensures WeightedSum(ys) == Contribution(ys[j]) + WeightedSum(ys[..j] + ys[j + 1..])
    ensures CreditSum(ys) == CreditOf(ys[j]) + CreditSum(ys[..j] + ys[j + 1..])
  {
    var rest := ys[..j] + ys[j + 1..];
    assert forall s | s in rest :: s in ys;
    if j == 0 {
      assert rest == ys[1..];
    } else {
      SumsWithout(ys[1..], j - 1);
      assert rest == [ys[0]] + (ys[1..][..j - 1] + ys[1..][j..]);
      assert rest[1..] == ys[1..][..j - 1] + ys[1..][j..];
    }
  }

  lemma {:induction false} SumsArePermutationInvariant(xs: seq<Subject>, ys: seq<Subject>)
    requires multiset(xs) == multiset(ys)
    requires GradesDefined(xs)
    ensures GradesDefined(ys)
    ensures WeightedSum(xs) == WeightedSum(ys)
    ensures CreditSum(xs) == CreditSum(ys)
    decreases |xs|
  {
    GradesDefinedPermutation(xs, ys);
    if xs != [] {
      var x := xs[0];
      assert x in multiset(ys);
      var j :| 0 <= j < |ys| && ys[j] == x;
      var rest := ys[..j] + ys[j + 1..];
      assert ys == ys[..j] + [x] + ys[j + 1..];
      assert xs == [x] + xs[1..];
      assert multiset(ys) == multiset(ys[..j]) + multiset([x]) + multiset(ys[j + 1..]);
      assert multiset(xs) == multiset([x]) + multiset(xs[1..]);
      assert multiset(rest) == multiset(ys[..j]) + multiset(ys[j + 1..]);
      assert multiset(xs[1..]) == multiset(xs) - multiset([x]);
      assert multiset(rest) == multiset(ys) - multiset([x]);
      SumsArePermutationInvariant(xs[1..], rest);
      SumsWithout(ys, j);
    }
  }

  /** The WAM does not depend on the order of the subjects. */
  lemma OrderDoesNotMatter(xs: seq<Subject>, ys: seq<Subject>)
    requires multiset(xs) == multiset(ys)
    requires GradesDefined(xs)
    ensures GradesDefined(ys)
    ensures WeightedAverage(xs) == WeightedAverage(ys)
  {
    SumsArePermutationInvariant(xs, ys);
  }

  lemma ScaleMonotone(a: real, b: real, c: real)
    requires a <= b && c >= 0.0
    ensures a * c <= b * c
  {
  }

  lemma QuotientBetween(w: real, c: real, lo: real, hi: real)
    requires c > 0.0 && lo * c <= w <= hi * c
    ensures lo <= w / c <= hi
  {
  }

  /** Every grade in [lo, hi] with nonnegative credits bounds the weighted
      sum by lo and hi times the total credit. */
  lemma {:induction false} WeightedSumBounds(subjects: seq<Subject>, lo: real, hi: real)
    requires GradesDefined(subjects)
    requires forall s | s in subjects && Counts(s) :: s.credit >= 0.0 && lo <= Grade(s) <= hi
    ensures lo * CreditSum(subjects) <= WeightedSum(subjects) <= hi * CreditSum(subjects)
  {
    if subjects != [] {
      var s := subjects[0];
      WeightedSumBounds(subjects[1..], lo, hi);
      ContributionBounds(s, lo, hi);
      BoundsStep(lo, hi, Contribution(s), CreditOf(s), WeightedSum(subjects[1..]), CreditSum(subjects[1..]));
    }
  }

  lemma ContributionBounds(s: Subject, lo: real, hi: real)
    requires Counts(s) ==> FullSum(s.assessments) != 0.0 && s.credit >= 0.0 && lo <= Grade(s) <= hi
    ensures lo * CreditOf(s) <= Contribution(s) <= hi * CreditOf(s)
  {
    if Counts(s) {
      ScaleMonotone(lo, Grade(s), s.credit);
      ScaleMonotone(Grade(s), hi, s.credit);
    }
  }

  /** The arithmetic of one step of the induction above. */
  lemma BoundsStep(lo: real, hi: real, contribution: real, credit: real, w: real, c: real)
    requires lo * credit <= contribution <= hi * credit
    requires lo * c <= w <= hi * c
    ensures lo * (credit + c) <= contribution + w <= hi * (credit + c)
  {
  }

  /** With nonnegative credits, a positive total, and every grade in
      [lo, hi], the WAM lies in [lo, hi]. */
  lemma AverageWithinGradeBounds(subjects: seq<Subject>, lo: real, hi: real)
    requires GradesDefined(subjects)
    requires forall s | s in subjects && Counts(s) :: s.credit >= 0.0 && lo <= Grade(s) <= hi
    requires CreditSum(subjects) > 0.0
    ensures lo <= WeightedAverage(subjects) <= hi
  {
    WeightedSumBounds(subjects, lo, hi);
    QuotientBetween(WeightedSum(subjects), CreditSum(subjects), lo, hi);
  }

  /** Marks marked between 0 and the full marks of their assessment. */
  predicate MarksInRange(assessments: seq<Assessment>)
  {
    forall a | a in assessments :: 0.0 <= ObtainedOrZero(a) <= a.fullMarks
  }

  lemma {:induction false} SumsInRange(assessments: seq<Assessment>)
    requires MarksInRange(assessments)
    ensures 0.0 <= ObtainedSum(assessments) <= FullSum(assessments)
  {
    if assessments != [] {
      SumsInRange(assessments[1..]);
    }
  }

  /** When every obtained mark lies between 0 and its full marks, a
      subject's grade lies in [0, 100]. */
  lemma GradeIsPercentage(s: Subject)
    requires MarksInRange(s.assessments) && FullSum(s.assessments) != 0.0
    ensures 0.0 <= Grade(s) <= 100.0
  {
    SumsInRange(s.assessments);
    var o, f := ObtainedSum(s.assessments), FullSum(s.assessments);
    QuotientBetween(o, f, 0.0, 1.0);
  }

  /** With marks in range, nonnegative credits and a positive total credit,
      the WAM lies in [0, 100]. */
  lemma AverageIsPercentage(subjects: seq<Subject>)
    requires GradesDefined(subjects)
    requires forall s | s in subjects && Counts(s) :: s.credit >= 0.0 && MarksInRange(s.assessments)
    requires CreditSum(subjects) > 0.0
    ensures 0.0 <= WeightedAverage(subjects) <= 100.0
  {
    forall s | s in subjects && Counts(s) ensures 0.0 <= Grade(s) <= 100.0 {
      GradeIsPercentage(s);
    }
    AverageWithinGradeBounds(subjects, 0.0, 100.0);
  }
}
