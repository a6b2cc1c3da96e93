/**
 * The new-subject form: the subject's own fields and a growing list of
 * assessment drafts, each replaced as the user edits it.
 */
module SubjectForm {
  import opened Js
  import opened Types
  import opened Seqs
  import AssessmentForm

  datatype SubjectField = Name | PassingGrade | BgColor | Semester | Credit | Included

  /** The subject's own fields of `formData`, loosely typed. */
  datatype SubjectDraft = SubjectDraft(
    name: JsValue,
    passingGrade: JsValue,
    bgColor: JsValue,
    semester: JsValue,
    credit: JsValue,
    included: JsValue)

  function Get(draft: SubjectDraft, field: SubjectField): JsValue
  {
    match field
    case Name => draft.name
    case PassingGrade => draft.passingGrade
    case BgColor => draft.bgColor
    case Semester => draft.semester
    case Credit => draft.credit
    case Included => draft.included
  }

  /** `{ ...draft, [field]: value }`. */
  function With(draft: SubjectDraft, field: SubjectField, value: JsValue): SubjectDraft
  {
    match field
    case Name => draft.(name := value)
    case PassingGrade => draft.(passingGrade := value)
    case BgColor => draft.(bgColor := value)
    case Semester => draft.(semester := value)
    case Credit => draft.(credit := value)
    case Included => draft.(included := value)
  }

  /** Setting a field changes that field and no other. */
  lemma GetWith(draft: SubjectDraft, field: SubjectField, other: SubjectField, value: JsValue)
    ensures Get(With(draft, field, value), other) == if field == other then value else Get(draft, other)
  {
  }

  /** The value `handleInputChange` stores for `text` entered in `field`. */
  function Coerced(field: SubjectField, text: string): JsValue
  {
    if text == "" then Str(text)
    else if field == PassingGrade || field == Credit then Num(Number(text))
    else if field == Included then Bool(text == "yes")
    else Str(text)
  }

  /** What the include selector shows for the stored value. */
  function IncludedChoice(included: JsValue): string
  {
    if Truthy(included) then "yes" else "no"
  }

  /** The numeric fields read as the number typed (a cleared field as 0);
      the include selector stores whether "yes" was chosen, and showing
      what it stored gives the choice back; other fields keep the text. */
  lemma CoercedMeaning(field: SubjectField, text: string)
    ensures field == PassingGrade || field == Credit ==> ToNumber(Coerced(field, text)) == Number(text)
    ensures field == Included && text != "" ==> Coerced(field, text) == Bool(text == "yes")
    ensures field == Included && (text == "yes" || text == "no") ==>
      IncludedChoice(Coerced(field, text)) == text
    ensures field in {Name, BgColor, Semester} ==> Coerced(field, text) == Str(text)
  {
  }

  /** Choosing what the selector already shows leaves the answer as it
      reads. */
  lemma IncludedChoiceRoundTrip(included: JsValue)
    ensures Truthy(Coerced(Included, IncludedChoice(included))) == Truthy(included)
  {
  }

  /** The text `AssessmentFields` passes on for `text` typed into `field`:
      "" for a cleared field, the name as typed, otherwise a number. */
  function FieldInput(field: AssessmentForm.AssessmentField, text: string): JsValue
  {
    if text == "" then Str(text)
    else if field == AssessmentForm.Name then Str(text)
    else Num(Number(text))
  }

  /** The value `handleAssessmentChange` stores: the name as given, any
      other field through `Number`. */
  function AssessmentValue(field: AssessmentForm.AssessmentField, value: JsValue): JsValue
  {
    if field == AssessmentForm.Name then value else Num(ToNumber(value))
  }

  /** Through both handlers, a numeric assessment field ends up holding the
      number typed, and a cleared one holds 0; the name is kept as typed. */
  lemma AssessmentInputMeaning(field: AssessmentForm.AssessmentField, text: string)
    ensures field == AssessmentForm.Name ==> AssessmentValue(field, FieldInput(field, text)) == Str(text)
    ensures field != AssessmentForm.Name ==> AssessmentValue(field, FieldInput(field, text)) == Num(Number(text))
    ensures field != AssessmentForm.Name && text == "" ==>
      AssessmentValue(field, FieldInput(field, text)) == Num(Finite(0.0))
  {
  }

  /** The state of one new-subject form. */
  class SubjectFormState {
    var formData: SubjectDraft
    var assessments: seq<AssessmentForm.AssessmentDraft>
    const semesters: seq<string>

    /** An empty form: pass mark 50, 12 credits, included, grey, no
        assessments. */
    constructor (year: int)
      ensures formData == SubjectDraft(Str(""), Num(Finite(50.0)), Str("bg-gray-500"), Str(""), Num(Finite(12.0)), Bool(true))
      ensures assessments == []
      ensures semesters == SemesterOptions(year)
    {
      formData := SubjectDraft(Str(""), Num(Finite(50.0)), Str("bg-gray-500"), Str(""), Num(Finite(12.0)), Bool(true));
      assessments := [];
      semesters := SemesterOptions(year);
    }

    /** `handleInputChange`: store the coerced text in the named field. */
    method HandleInputChange(field: SubjectField, text: string)
      modifies this
      ensures formData == With(old(formData), field, Coerced(field, text))
      ensures assessments == old(assessments)
    {
      var value: JsValue;
      if text == "" {
        value := Str(text);
      } else if field == PassingGrade || field == Credit {
        value := Num(Number(text));
      } else if field == Included {
        value := Bool(text == "yes");
      } else {
        value := Str(text);
      }
      formData := With(formData, field, value);
    }

    /** `handleAddAssessment`: append one blank assessment. */
    method HandleAddAssessment()
      modifies this
      ensures assessments == old(assessments) + [AssessmentForm.BlankDraft()]
      ensures formData == old(formData)
    {
      assessments := assessments + [AssessmentForm.BlankDraft()];
    }

    /** `handleAssessmentChange`: replace assessment `index` by a copy with
        `field` set. */
    method HandleAssessmentChange(index: int, field: AssessmentForm.AssessmentField, value: JsValue)
      requires 0 <= index < |assessments|
      modifies this
      ensures |assessments| == |old(assessments)|
      ensures assessments[index] == AssessmentForm.With(old(assessments)[index], field, AssessmentValue(field, value))
      ensures forall i :: 0 <= i < |assessments| && i != index ==> assessments[i] == old(assessments)[i]
      ensures formData == old(formData)
    {
      var updatedAssessments := assessments;
      var newValue := if field == AssessmentForm.Name then value else Num(ToNumber(value));
      updatedAssessments := updatedAssessments[index := AssessmentForm.With(updatedAssessments[index], field, newValue)];
      assessments := updatedAssessments;
    }

    /** `AssessmentFields.handleInputChange` followed by
        `handleAssessmentChange`. */
    method AssessmentFieldsInput(index: int, field: AssessmentForm.AssessmentField, text: string)
      requires 0 <= index < |assessments|
      modifies this
      ensures |assessments| == |old(assessments)|
      ensures assessments[index] ==
        AssessmentForm.With(old(assessments)[index], field, AssessmentValue(field, FieldInput(field, text)))
      ensures forall i :: 0 <= i < |assessments| && i != index ==> assessments[i] == old(assessments)[i]
      ensures formData == old(formData)
    {
      var newValue := if text == "" then Str(text) else if field == AssessmentForm.Name then Str(text) else Num(Number(text));
      HandleAssessmentChange(index, field, newValue);
    }

    /** `handleRemoveAssessment`: drop the assessment at `index`. */
    method HandleRemoveAssessment(index: int)
      modifies this
      ensures assessments == WithoutIndex(old(assessments), index)
      ensures 0 <= index < |old(assessments)| ==>
        assessments == old(assessments)[..index] + old(assessments)[index + 1..]
      ensures !(0 <= index < |old(assessments)|) ==> assessments == old(assessments)
      ensures formData == old(formData)
    {
      WithoutIndexRemovesOne(assessments, index);
      assessments := WithoutIndex(assessments, index);
    }

    /** `handleSubmit`: hand the form over as it stands. */
    method HandleSubmit() returns (data: SubjectDraft, drafts: seq<AssessmentForm.AssessmentDraft>)
      ensures data == formData && drafts == assessments
    {
      data := formData;
      drafts := assessments;
    }
  }
}
