# UniMelb WAM Calculator — a verified model of its grade logic

The UniMelb WAM Calculator is a web page for students of the University
of Melbourne. A student lists their subjects and each subject's
assessments. The page then computes:

- the weighted average mark (WAM): the credit-weighted mean of the
  subjects' percentages;
- for one subject, whether a target percentage is already reached, out of
  reach, or needs a certain average on the assessments still to be sat.

This project models the logic behind the page in Dafny and proves what
that logic promises:

- `js.dfy` (`Js`): the JavaScript semantics the code relies on:
  - numbers that may be `NaN` or infinite, with comparisons that are
    false on `NaN`;
  - `Number(text)` for decimal text, and `String(i)` for integers, with
    the round trip `Number(String(i)) == i`;
  - `Math.round` and truthiness;
  - the loosely typed values that form fields hold.
- `seqs.dfy` (`Seqs`): the array operations the code uses, with their
  laws:
  - `filter`, `map` that replaces the entries matching a key, and
    filter-by-index;
  - subsequences and distinctness.
- `types.dfy` (`Types`): the `Assessment`, `Subject` and
  `SubjectFormData` records, and the semester labels.
- `wam.dfy` (`Wam`): `calculateWAM`:
  - the loop is a method proved equal to a recursive definition;
  - lemmas cover the empty list, excluded subjects, missing marks,
    independence from order, and bounds.
- `goal_evaluator.dfy` (`GoalEvaluator`): `calculateRequiredMarks`, and the
  decision `handleCalculate` makes:
  - a needed average lies in (0, 100], and scoring it on every remaining
    assessment lands exactly on the target;
  - an unreachable target stays out of reach even with full marks;
  - for a positive full-marks total, the `achieved` status cannot arise
    from `handleCalculate`;
  - the component state is a class.
- `subject_updates.dfy` (`SubjectUpdates`): the per-subject list
  transforms shared by the reducer and the hook, with "nothing else
  changes", id-uniqueness and synchronisation lemmas.
- `subject_context.dfy` (`SubjectContext`): the `subjectReducer`, one
  lemma per action.
- `subject_management.dfy` (`SubjectManagement`): the
  `useSubjectManagement` hook as a class:
  - its fields are the subject list, the dialog flag, the open subject
    and the selected semester;
  - the open subject is proved to stay in agreement with its list entry.
- `validated_input.dfy` (`ValidatedInput`): `useValidatedInput`, as a class
  with one text field:
  - a keystroke is accepted or rejected;
  - leaving the field clamps and rounds, and doing so leaves an integer
    in range and is idempotent.
- `subject_list.dfy` (`SubjectList`): the semester filter of the subject
  list.
- `subject_form.dfy` (`SubjectForm`) and `assessment_form.dfy`
  (`AssessmentForm`): the form states, their defaults, the coercion of
  typed text, and the edits to the assessment array.

## Model

| member | source | states |
|---|---|---|
| Js.NumberOfIntegerText | src/hooks/useValidatedInput.ts:16 | printing an integer with `toString` and reading the text back with `Number` gives the same integer |
| Js.Round | src/hooks/useValidatedInput.ts:25 | `Math.round(x)` is the integer `r` with `r - 0.5 <= x < r + 0.5`, so a half rounds up |
| Js.RoundOfInteger | src/hooks/useValidatedInput.ts:25 | rounding an integer gives the integer back |
| Types.SemesterNameInjective | src/hooks/useSubjectManagement.ts:39-42 | two semester labels are equal only for the same year and the same half |
| Types.WithIdRoundTrip | src/types/global.d.ts:31-33 | adding an id to assessment data and dropping it again are inverse, in both directions |
| Wam.CalculateWam | src/utils/calculateWAM.ts:3-26 | the accumulating loop returns the credit-weighted mean of the grades of the included subjects with assessments, or 0 when the total credit is not positive |
| Wam.WeightedAverageOfNoSubjects | src/utils/calculateWAM.ts:4-5 | an empty subject list has WAM 0 |
| Wam.SumsOfConcat | src/utils/calculateWAM.ts:7-23 | the weighted sum and the credit total of a concatenation are the sums of the parts |
| Wam.SubjectNotCountedIsIgnored | src/utils/calculateWAM.ts:8 | inserting an excluded subject, or one without assessments, anywhere in the list leaves the WAM unchanged |
| Wam.MissingMarkCountsAsZero | src/utils/calculateWAM.ts:10-13 | giving a missing obtained mark the value 0 leaves the obtained total unchanged |
| Wam.NoPositiveCreditGivesZero | src/utils/calculateWAM.ts:25 | when no counted subject has a positive credit, the WAM is 0 |
| Wam.SingleSubjectAverageIsItsGrade | src/utils/calculateWAM.ts:18-25 | with one counted subject of positive credit, the WAM is that subject's percentage |
| Wam.SumsWithout | src/utils/calculateWAM.ts:20-21 | taking one subject out of the list takes its own share out of both accumulated sums |
| Wam.SumsArePermutationInvariant | src/utils/calculateWAM.ts:7-23 | both accumulated sums are the same for any reordering of the subjects |
| Wam.OrderDoesNotMatter | src/utils/calculateWAM.ts:7-23 | the WAM does not depend on the order of the subjects |
| Wam.WeightedSumBounds | src/utils/calculateWAM.ts:20-21 | with nonnegative credits and every counted grade in [lo, hi], the weighted sum lies between lo and hi times the credit total |
| Wam.ContributionBounds | src/utils/calculateWAM.ts:20 | one subject's grade times credit lies between lo and hi times its credit |
| Wam.AverageWithinGradeBounds | src/utils/calculateWAM.ts:18-25 | with nonnegative credits, a positive total and every counted grade in [lo, hi], the WAM lies in [lo, hi] |
| Wam.SumsInRange | src/utils/calculateWAM.ts:10-17 | with every obtained mark between 0 and its full marks, the obtained total lies between 0 and the full total |
| Wam.GradeIsPercentage | src/utils/calculateWAM.ts:18 | with marks in range, a subject's grade lies in [0, 100] |
| Wam.AverageIsPercentage | src/utils/calculateWAM.ts:18-25 | with marks in range, nonnegative credits and a positive total, the WAM lies in [0, 100] |
| GoalEvaluator.CalculateRequiredMarks | src/app/gpa-calculator/components/WAMGoalEvaluator.tsx:95-140 | a status other than `possible` carries 0; `possible` carries an average in (0, 100] that, applied to the remaining full marks, gives exactly the marks still required |
| GoalEvaluator.StatusByBranch | src/app/gpa-calculator/components/WAMGoalEvaluator.tsx:122-139 | each status holds exactly when its branch condition holds and the earlier ones fail: no remaining marks is tested before a met target |
| GoalEvaluator.RemainingIsFilteredSum | src/app/gpa-calculator/components/WAMGoalEvaluator.tsx:109-119 | the remaining full marks are the full marks of the assessments whose obtained mark is missing or exactly 0 |
| GoalEvaluator.AllMarkedMeansNoRemaining | src/app/gpa-calculator/components/WAMGoalEvaluator.tsx:109-124 | when every assessment carries a nonzero mark, the status is `noRemaining` |
| GoalEvaluator.NothingRemainsWhenAllMarked | src/app/gpa-calculator/components/WAMGoalEvaluator.tsx:109-119 | when every assessment carries a nonzero mark, the remaining full marks are 0 |
| GoalEvaluator.FilledFullSum | src/app/gpa-calculator/components/WAMGoalEvaluator.tsx:100-103 | scoring the remaining assessments leaves the full-marks total as it was |
| GoalEvaluator.FilledObtainedSum | src/app/gpa-calculator/components/WAMGoalEvaluator.tsx:30-32 | scoring the remaining assessments adds, to the obtained total, the marks scored on each of them |
| GoalEvaluator.RemainingShareIsPercentage | src/app/gpa-calculator/components/WAMGoalEvaluator.tsx:116-119 | scoring `p` percent on each remaining assessment brings `p` percent of the remaining full marks |
| GoalEvaluator.FilledTotals | src/app/gpa-calculator/components/WAMGoalEvaluator.tsx:137 | scoring `p` percent on every remaining assessment adds `p` percent of the remaining full marks to the obtained total and keeps the full total |
| GoalEvaluator.PossibleReachesTargetExactly | src/app/gpa-calculator/components/WAMGoalEvaluator.tsx:137-139 | scoring the `possible` average on every remaining assessment brings the subject's percentage to the target exactly |
| GoalEvaluator.UnachievableEvenWithFullMarks | src/app/gpa-calculator/components/WAMGoalEvaluator.tsx:132-134 | for an `unachievable` target, full marks on every remaining assessment still leave the percentage below the target |
| GoalEvaluator.AchievedUnreachableFromCalculate | src/app/gpa-calculator/components/WAMGoalEvaluator.tsx:45-56 | with positive full marks and a current percentage below the target, the marks still required are positive, so `achieved` cannot come back |
| GoalEvaluator.EvaluateMeaning | src/app/gpa-calculator/components/WAMGoalEvaluator.tsx:45-91 | for positive full marks: the goal is reported reached exactly when the current percentage meets it; a needed average lies in (0, 100] and lands on the target; an unreachable goal stays out of reach with full marks; "none remaining" means no remaining full marks |
| GoalEvaluator.NoAssessmentsNoneRemaining | src/app/gpa-calculator/components/WAMGoalEvaluator.tsx:38-124 | a subject without assessments has the percentage NaN, which meets no target, and is reported as having nothing remaining |
| GoalEvaluator.ExampleNeedsSixtyPercent | src/app/gpa-calculator/components/WAMGoalEvaluator.tsx:28-93 | a subject at 100 of 200 marks, with the other 100 still to be sat, needs an average of 60% to reach 80% |
| GoalEvaluator.WamGoalEvaluator.constructor | src/app/gpa-calculator/components/WAMGoalEvaluator.tsx:13-17 | no message, a current WAM of 0, no goal, and a high-pass field holding "60" within [60, 100] |
| GoalEvaluator.WamGoalEvaluator.HandleGoalChange | src/app/gpa-calculator/components/WAMGoalEvaluator.tsx:19-26 | records the goal; any goal but high pass empties the high-pass field; the field keeps holding a number |
| GoalEvaluator.WamGoalEvaluator.HandleCalculate | src/app/gpa-calculator/components/WAMGoalEvaluator.tsx:28-93 | records the current percentage; the target, 60 for low pass and otherwise the high-pass field's number, is always finite; the message is the decision for that target |
| SubjectUpdates.ApplyEdit | src/contexts/SubjectContext.tsx:66-115 | an assessment edit changes a subject's assessments and no other field |
| SubjectUpdates.ReplaceSubjectMeaning | src/contexts/SubjectContext.tsx:48-55 | replacing by id keeps the length, puts the update exactly where the id matches, is idempotent, and changes nothing when the id is absent |
| SubjectUpdates.RemoveSubjectMeaning | src/contexts/SubjectContext.tsx:57-64 | removing by id leaves no subject with that id, keeps every other subject as often as before and in its order, and is idempotent |
| SubjectUpdates.ApplyEditMeaning | src/contexts/SubjectContext.tsx:66-115 | appending puts the assessment last; replacing keeps the count and swaps exactly the assessments with its id; removing leaves none with the id and keeps the others, in order |
| SubjectUpdates.EditSubjectMeaning | src/contexts/SubjectContext.tsx:66-115 | an assessment edit keeps the subject count, edits exactly the subjects with the given id, and leaves the others as they were |
| SubjectUpdates.EditIdempotent | src/contexts/SubjectContext.tsx:83-115 | replacing or removing an assessment twice is the same as doing it once |
| SubjectUpdates.EditKeepsSync | src/hooks/useSubjectManagement.ts:98-177 | applying the same assessment edit to the list and to the open subject keeps the two in agreement |
| SubjectUpdates.ReplaceKeepsSync | src/hooks/useSubjectManagement.ts:74-84 | replacing a subject in the list and in the selection by the same update keeps them in agreement |
| SubjectUpdates.RemoveKeepsSync | src/hooks/useSubjectManagement.ts:87-95 | removing subjects keeps the remaining entries in agreement with the open subject |
| SubjectUpdates.EntryIsSynced | src/hooks/useSubjectManagement.ts:180-182 | with distinct subject ids, a subject taken from the list agrees with every list entry carrying its id |
| SubjectUpdates.AppendKeepsUniqueIds | src/hooks/useSubjectManagement.ts:58-69 | appending a subject with a new id and distinct assessment ids keeps all ids unique |
| SubjectUpdates.ReplaceKeepsUniqueIds | src/contexts/SubjectContext.tsx:48-55 | replacing a subject by one with distinct assessment ids keeps all ids unique |
| SubjectUpdates.RemoveKeepsUniqueIds | src/contexts/SubjectContext.tsx:57-64 | removing subjects keeps all ids unique |
| SubjectUpdates.ApplyEditKeepsDistinct | src/hooks/useSubjectManagement.ts:98-177 | an assessment edit keeps a subject's assessment ids distinct when an appended assessment brings a new id |
| SubjectUpdates.EditKeepsUniqueIds | src/contexts/SubjectContext.tsx:66-115 | editing the assessments of a subject keeps all ids unique when an appended assessment brings a new id |
| SubjectContext.SetReplacesList | src/contexts/SubjectContext.tsx:40-42 | `SET_SUBJECTS` replaces the list by the payload |
| SubjectContext.AddAppends | src/contexts/SubjectContext.tsx:44-46 | `ADD_SUBJECT` puts the subject last and keeps the earlier ones, in order |
| SubjectContext.UpdateReplacesById | src/contexts/SubjectContext.tsx:48-55 | `UPDATE_SUBJECT` keeps the count, replaces exactly the subjects with its id, is idempotent, and is a no-op for an absent id |
| SubjectContext.DeleteRemovesById | src/contexts/SubjectContext.tsx:57-64 | `DELETE_SUBJECT` leaves no subject with the id, keeps the others as often as before and in order, and deleting twice is deleting once |
| SubjectContext.AddAssessmentAppends | src/contexts/SubjectContext.tsx:66-81 | `ADD_ASSESSMENT` keeps the subject count; the subjects with the id gain the assessment at the end and keep every other field; the others are unchanged |
| SubjectContext.UpdateAssessmentReplacesById | src/contexts/SubjectContext.tsx:83-99 | `UPDATE_ASSESSMENT` keeps every subject's assessment count and replaces only the assessments with its id inside the subjects with the given id |
| SubjectContext.DeleteAssessmentRemovesById | src/contexts/SubjectContext.tsx:101-115 | `DELETE_ASSESSMENT` removes the assessments with the id from the subjects with the given id, keeping their other assessments in order, and leaves the other subjects unchanged |
| SubjectContext.UnknownKeepsState | src/contexts/SubjectContext.tsx:117-118 | any other action returns the state unchanged |
| SubjectContext.ReduceKeepsUniqueIds | src/contexts/SubjectContext.tsx:37-124 | every action keeps subject ids and each subject's assessment ids unique, given new ids for added subjects and assessments |
| SubjectManagement.LoadedDefaults | src/hooks/useSubjectManagement.ts:15-19 | loading keeps every subject and its stored fields; a missing or zero credit becomes 12; a subject is excluded exactly when it was stored as excluded |
| SubjectManagement.SemesterMenuDistinct | src/hooks/useSubjectManagement.ts:34-44 | the semester menu is "All" followed by four pairwise different labels |
| SubjectManagement.NamesDiffer | src/hooks/useSubjectManagement.ts:39-42 | labels of different years or different halves differ |
| SubjectManagement.NewSubject | src/hooks/useSubjectManagement.ts:59-68 | the new subject carries the new id and exactly the new assessment ids, in order, and dropping the ids gives back the form data |
| SubjectManagement.SubjectManager.constructor | src/hooks/useSubjectManagement.ts:9-44 | the loaded subjects with defaults, a closed dialog, no open subject, "All" selected, and the semester menu of the given year |
| SubjectManagement.SubjectManager.SetIsDialogOpen | src/hooks/useSubjectManagement.ts:29 | sets the dialog flag and nothing else |
| SubjectManagement.SubjectManager.AddSubject | src/hooks/useSubjectManagement.ts:58-71 | appends the subject built with fresh ids and closes the dialog; with fresh ids, ids stay unique; the open subject stays in agreement |
| SubjectManagement.SubjectManager.UpdateSubject | src/hooks/useSubjectManagement.ts:74-84 | replaces by id in the list, and in the open subject when it has the id; keeps agreement and unique ids |
| SubjectManagement.SubjectManager.DeleteSubject | src/hooks/useSubjectManagement.ts:87-95 | removes by id, and closes the open subject when it was removed; keeps agreement and unique ids |
| SubjectManagement.SubjectManager.Edit | src/hooks/useSubjectManagement.ts:98-177 | applies one assessment edit to the list and to the open subject alike; keeps agreement and unique ids |
| SubjectManagement.SubjectManager.AddAssessment | src/hooks/useSubjectManagement.ts:98-120 | appends the assessment with a fresh id to the subject in the list and in the open subject; with a fresh id, ids stay unique |
| SubjectManagement.SubjectManager.UpdateAssessment | src/hooks/useSubjectManagement.ts:123-152 | replaces the assessment by id inside the subject, in the list and in the open subject; keeps agreement and unique ids |
| SubjectManagement.SubjectManager.DeleteAssessment | src/hooks/useSubjectManagement.ts:155-177 | removes the assessment by id from the subject, in the list and in the open subject; keeps agreement and unique ids |
| SubjectManagement.SubjectManager.OpenSubjectDetails | src/hooks/useSubjectManagement.ts:180-182 | sets the open subject and nothing else; opening an entry of a list with distinct ids leaves the open subject in agreement with the list |
| SubjectManagement.SubjectManager.CloseSubjectDetails | src/hooks/useSubjectManagement.ts:185-187 | clears the open subject and nothing else |
| SubjectManagement.SubjectManager.HandleSemesterSelect | src/hooks/useSubjectManagement.ts:190-192 | sets the selected semester and nothing else |
| ValidatedInput.AcceptsExactly | src/hooks/useValidatedInput.ts:6-11 | a keystroke is accepted exactly when the text is empty or reads as a finite number in [0, max]; the lower bound is 0, not `min` |
| ValidatedInput.BlurredIsIntegerInRange | src/hooks/useValidatedInput.ts:13-27 | leaving a field that holds nothing or a number leaves an integer in [min, max]: `min` when empty or below, `max` when above, otherwise the nearest integer |
| ValidatedInput.BlurIdempotent | src/hooks/useValidatedInput.ts:13-27 | leaving the field twice is the same as leaving it once |
| ValidatedInput.InputState.constructor | src/hooks/useValidatedInput.ts:3-4 | the field starts with the initial value |
| ValidatedInput.InputState.HandleChange | src/hooks/useValidatedInput.ts:6-11 | takes the new text when it is acceptable, else keeps the old one; a field holding a number keeps holding one |
| ValidatedInput.InputState.HandleBlur | src/hooks/useValidatedInput.ts:13-27 | replaces the text by its clamped and rounded form; a field holding a number keeps holding one |
| SubjectList.ShowAll | src/app/gpa-calculator/components/SubjectList.tsx:35-36 | "All" and an empty selection show the whole list |
| SubjectList.FilterBySemester | src/app/gpa-calculator/components/SubjectList.tsx:37 | any other selection shows exactly the subjects of that semester, each as often as the list holds it, in list order |
| SubjectList.FilterTwice | src/app/gpa-calculator/components/SubjectList.tsx:33-39 | filtering the filtered list again changes nothing |
| AssessmentForm.GetWith | src/app/gpa-calculator/components/AssessmentForm.tsx:31-34 | setting a field changes that field and no other |
| AssessmentForm.InitialDraftMeaning | src/app/gpa-calculator/components/AssessmentForm.tsx:19-25 | no assessment gives the blank form; an edited one keeps its name and weight, 0 full marks and 0 pass mark become 100 and 50, and the obtained mark is the one the average counts |
| AssessmentForm.CoercedMeaning | src/app/gpa-calculator/components/AssessmentForm.tsx:33 | the name is stored as typed, a cleared numeric field as "", and any numeric field reads as the number typed |
| AssessmentForm.AssessmentFormState.constructor | src/app/gpa-calculator/components/AssessmentForm.tsx:19-25 | the form starts from the edited assessment or the defaults |
| AssessmentForm.AssessmentFormState.HandleChange | src/app/gpa-calculator/components/AssessmentForm.tsx:27-35 | stores the coerced text in the named field |
| AssessmentForm.AssessmentFormState.HandleSubmit | src/app/gpa-calculator/components/AssessmentForm.tsx:37-40 | hands the fields over unchanged |
| SubjectForm.GetWith | src/app/gpa-calculator/components/SubjectForm.tsx:46-56 | setting a field changes that field and no other |
| SubjectForm.CoercedMeaning | src/app/gpa-calculator/components/SubjectForm.tsx:46-56 | pass mark and credit read as the number typed; the include selector stores whether "yes" was chosen; other fields keep the text |
| SubjectForm.IncludedChoiceRoundTrip | src/app/gpa-calculator/components/SubjectForm.tsx:151 | choosing what the include selector shows leaves the answer as it was |
| SubjectForm.AssessmentInputMeaning | src/app/gpa-calculator/components/SubjectForm.tsx:265-273 | through both handlers, the name is kept as typed, a numeric field holds the number typed, and a cleared one holds 0 |
| SubjectForm.SubjectFormState.constructor | src/app/gpa-calculator/components/SubjectForm.tsx:20-40 | an empty form: pass mark 50, 12 credits, included, grey, no assessments, and the semester options of the given year |
| SubjectForm.SubjectFormState.HandleInputChange | src/app/gpa-calculator/components/SubjectForm.tsx:42-57 | stores the coerced text in the named field and leaves the assessments alone |
| SubjectForm.SubjectFormState.HandleAddAssessment | src/app/gpa-calculator/components/SubjectForm.tsx:59-73 | appends exactly one blank assessment |
| SubjectForm.SubjectFormState.HandleAssessmentChange | src/app/gpa-calculator/components/SubjectForm.tsx:75-88 | changes only the given field of the given assessment; the name is stored as given, other fields through `Number` |
| SubjectForm.SubjectFormState.AssessmentFieldsInput | src/app/gpa-calculator/components/SubjectForm.tsx:265-273 | the typed text reaches the assessment through both handlers, and nothing else changes |
| SubjectForm.SubjectFormState.HandleRemoveAssessment | src/app/gpa-calculator/components/SubjectForm.tsx:90-95 | removes exactly the assessment at the index and keeps the others in order; an index out of range changes nothing |
| SubjectForm.SubjectFormState.HandleSubmit | src/app/gpa-calculator/components/SubjectForm.tsx:97-100 | hands the form over unchanged |
| Js.Number | src/hooks/useValidatedInput.ts:8-14 | `Number(text)`: the empty text reads as 0, an optional sign then a decimal literal or `Infinity`, anything else NaN; its meaning on integer text is `NumberOfIntegerText` |
| Js.Percentage | src/app/gpa-calculator/components/WAMGoalEvaluator.tsx:38 | `(a / b) * 100`, NaN for 0/0 and an infinity of the sign of `a` for a zero `b`; see `GoalEvaluator.NoAssessmentsNoneRemaining` and `GoalEvaluator.EvaluateMeaning` |
| Wam.Grade | src/utils/calculateWAM.ts:10-18 | a subject's percentage; its range is `Wam.GradeIsPercentage` |
| Wam.WeightedAverage | src/utils/calculateWAM.ts:3-26 | the WAM as a recursive definition; `Wam.CalculateWam` is proved equal to it, and its meaning is given by `WeightedAverageOfNoSubjects` … `AverageIsPercentage` |
| GoalEvaluator.RemainingFullMarks | src/app/gpa-calculator/components/WAMGoalEvaluator.tsx:109-119 | the full marks of the remaining assessments; see `GoalEvaluator.RemainingIsFilteredSum` and `NothingRemainsWhenAllMarked` |
| GoalEvaluator.CurrentPercentage | src/app/gpa-calculator/components/WAMGoalEvaluator.tsx:30-38 | the subject's current percentage; see `GoalEvaluator.EvaluateMeaning` and `NoAssessmentsNoneRemaining` |
| GoalEvaluator.Evaluate | src/app/gpa-calculator/components/WAMGoalEvaluator.tsx:45-91 | the message `handleCalculate` chooses; its meaning is `GoalEvaluator.EvaluateMeaning`, `NoAssessmentsNoneRemaining` and `ExampleNeedsSixtyPercent` |
| GoalEvaluator.TargetPercentage | src/app/gpa-calculator/components/WAMGoalEvaluator.tsx:42-43 | 60 for the low-pass goal, otherwise `Number` of the high-pass field; `GoalEvaluator.WamGoalEvaluator.HandleCalculate` proves it finite |
| SubjectUpdates.ReplaceSubject | src/contexts/SubjectContext.tsx:48-55 | the by-id replacement; see `SubjectUpdates.ReplaceSubjectMeaning`, `ReplaceKeepsSync` and `ReplaceKeepsUniqueIds` |
| SubjectUpdates.RemoveSubject | src/contexts/SubjectContext.tsx:57-64 | the by-id removal; see `SubjectUpdates.RemoveSubjectMeaning`, `RemoveKeepsSync` and `RemoveKeepsUniqueIds` |
| SubjectUpdates.EditSubject | src/contexts/SubjectContext.tsx:66-115 | an assessment edit of the subjects with a given id; see `SubjectUpdates.EditSubjectMeaning`, `EditKeepsSync` and `EditKeepsUniqueIds` |
| SubjectContext.Reduce | src/contexts/SubjectContext.tsx:37-119 | `subjectReducer`; one lemma per action: `SubjectContext.SetReplacesList` … `UnknownKeepsState`, and `ReduceKeepsUniqueIds` |
| SubjectManagement.WithDefaults | src/hooks/useSubjectManagement.ts:15-19 | the load-time defaults of one subject; see `SubjectManagement.LoadedDefaults` |
| SubjectManagement.LoadSubjects | src/hooks/useSubjectManagement.ts:15-20 | the defaults applied to every stored subject; see `SubjectManagement.LoadedDefaults` |
| SubjectManagement.SemesterMenu | src/hooks/useSubjectManagement.ts:34-44 | the semester menu; see `SubjectManagement.SemesterMenuDistinct` |
| ValidatedInput.Accepts | src/hooks/useValidatedInput.ts:8 | the test `handleChange` applies; see `ValidatedInput.AcceptsExactly` |
| ValidatedInput.Blurred | src/hooks/useValidatedInput.ts:13-27 | the text `handleBlur` leaves; see `ValidatedInput.BlurredIsIntegerInRange` and `BlurIdempotent` |
| SubjectList.FilteredSubjects | src/app/gpa-calculator/components/SubjectList.tsx:33-39 | `filteredSubjects`; see `SubjectList.ShowAll`, `FilterBySemester` and `FilterTwice` |
| AssessmentForm.InitialDraft | src/app/gpa-calculator/components/AssessmentForm.tsx:19-25 | the initial form data; see `AssessmentForm.InitialDraftMeaning` |
| AssessmentForm.Coerced | src/app/gpa-calculator/components/AssessmentForm.tsx:33 | the value `handleChange` stores; see `AssessmentForm.CoercedMeaning` |
| SubjectForm.Coerced | src/app/gpa-calculator/components/SubjectForm.tsx:48-55 | the value `handleInputChange` stores; see `SubjectForm.CoercedMeaning` and `IncludedChoiceRoundTrip` |
| SubjectForm.FieldInput | src/app/gpa-calculator/components/SubjectForm.tsx:270-271 | the value `AssessmentFields` passes on; see `SubjectForm.AssessmentInputMeaning` |
| SubjectForm.AssessmentValue | src/app/gpa-calculator/components/SubjectForm.tsx:84 | the value `handleAssessmentChange` stores; see `SubjectForm.AssessmentInputMeaning` |

## Left out

- Storage: reading subjects from `localStorage` and parsing the JSON
  (src/hooks/useSubjectManagement.ts:9-27) is I/O. The model starts from
  already-parsed stored subjects. Writing the list back after each change
  (src/contexts/SubjectContext.tsx:122, src/hooks/useSubjectManagement.ts:47-55)
  is left out too. A parse error falls back to an empty list, and this
  model has no counterpart for that path.
- Fresh identifiers: `uuidv4` is a random source. The new ids are
  parameters of `AddSubject` and `AddAssessment`, and uniqueness is
  proved under the hypothesis that they are new.
- The current year: `new Date().getFullYear()` is a clock. The year is a
  parameter.
- Number representation:
  - Finite numbers are exact reals, so the rounding of IEEE-754 doubles and
    signed zeros are not modelled.
  - `Number(text)` reads only an optional sign followed by a decimal
    literal or `Infinity`. Surrounding white space, exponents and
    `0x`/`0o`/`0b` literals are not modelled.
- Wam.CalculateWam: requires every counted subject to have a nonzero
  full-marks total. Otherwise the source divides the subject's obtained
  total by a zero full-marks total (src/utils/calculateWAM.ts:18). The
  grade is then `NaN` (nothing obtained) or an infinity, and it reaches
  the returned WAM through lines 20-25; the model does not cover that
  case. The goal evaluator does model it: its current percentage is `NaN`
  or an infinity there.
- ValidatedInput: `min` and `max` are integers. The source only uses 60 and
  100, so non-integer bounds (whose `toString` is not an integer text) are
  not modelled.
- SubjectForm.SubjectFormState.HandleAssessmentChange: requires an index
  within the array. For an index past the end, the source would grow the
  array with a partial entry; that case is not modelled.
- Messages: the result texts of `handleCalculate` and their `toFixed(2)`
  formatting are text only. The model has a `Message` value per outcome
  instead.
- The `default` branch of the status switch in `handleCalculate` is not
  modelled: every status is one of the four named ones.
- Form values reaching subjects: the forms hand their loosely typed values
  to the hook, which stores them as typed records. The model keeps the two
  apart; a text left in a numeric field is not followed into the WAM.
- SubjectUpdates.UniqueIds, SubjectManagement.SubjectManager.AddSubject and
  SubjectContext.ReduceKeepsUniqueIds: assessment ids are proved unique
  within each subject, not across subjects. The latter is weaker than what
  fresh random ids give.
- SubjectManagement.StoredSubject: a stored `credit` or `included` that is
  missing is `None`. JSON values of other types in those fields are not
  modelled.
- User interface: React rendering, dialogs, menus, confirmation prompts and
  the share feature are not modelled. Neither are the page and glue
  components: SubjectDetailsModal.tsx, SubjectManagement.tsx,
  ShareResult.tsx, Header.tsx, Heading.tsx, Guides.tsx, mdx.tsx and
  FormComponents.tsx.
