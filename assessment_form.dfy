/**
 * The assessment form: its fields start from the assessment being edited
 * (or from defaults) and are overwritten one at a time as the user types.
 * Field values are loosely typed, as in the form's state: text, a number,
 * or the empty text left by clearing a field.
 */
module AssessmentForm {
  import opened Js
  import opened Types
  import Wam

  datatype AssessmentField = Name | Weight | FullMarks | MinimumPassRequirement | ObtainedMarks

  /** The form's `formData`. */
  datatype AssessmentDraft = AssessmentDraft(
    name: JsValue,
    weight: JsValue,
    fullMarks: JsValue,
    minimumPassRequirement: JsValue,
    obtainedMarks: JsValue)

  function Get(draft: AssessmentDraft, field: AssessmentField): JsValue
  {
    match field
    case Name => draft.name
    case Weight => draft.weight
    case FullMarks => draft.fullMarks
    case MinimumPassRequirement => draft.minimumPassRequirement
    case ObtainedMarks => draft.obtainedMarks
  }

  /** `{ ...draft, [field]: value }`. */
  function With(draft: AssessmentDraft, field: AssessmentField, value: JsValue): AssessmentDraft
  {
    match field
    case Name => draft.(name := value)
    case Weight => draft.(weight := value)
    case FullMarks => draft.(fullMarks := value)
    case MinimumPassRequirement => draft.(minimumPassRequirement := value)
    case ObtainedMarks => draft.(obtainedMarks := value)
  }

  /** Setting a field changes that field and no other. */
  lemma GetWith(draft: AssessmentDraft, field: AssessmentField, other: AssessmentField, value: JsValue)
    ensures Get(With(draft, field, value), other) == if field == other then value else Get(draft, other)
  {
  }

  /** A fresh assessment: no name, weight 0, full marks 100, a pass mark
      of 50 and 0 obtained. */
  function BlankDraft(): AssessmentDraft
  {
    AssessmentDraft(Str(""), Num(Finite(0.0)), Num(Finite(100.0)), Num(Finite(50.0)), Num(Finite(0.0)))
  }

  /** The initial `formData`: each field of the edited assessment if it is
      truthy, otherwise the blank form's value. */
  function InitialDraft(assessment: Option<Assessment>): AssessmentDraft
  {
    match assessment
    case None => BlankDraft()
    case Some(a) =>
      AssessmentDraft(
        Str(a.name),
        Num(Finite(NumberOr(a.weight, 0.0))),
        Num(Finite(NumberOr(a.fullMarks, 100.0))),
        Num(Finite(NumberOr(a.minimumPassRequirement, 50.0))),
        Num(Finite(match a.obtainedMarks case None => 0.0 case Some(m) => NumberOr(m, 0.0))))
  }

  /** Opening an assessment keeps its name and weight; keeps its full marks
      and pass mark unless they are 0, which become 100 and 50; and shows
      the obtained mark the average counts, a missing mark as 0. Opening
      no assessment gives the blank form. */
  lemma InitialDraftMeaning(assessment: Option<Assessment>)
    ensures assessment == None ==> InitialDraft(assessment) == BlankDraft()
    ensures assessment.Some? ==>
      var a, d := assessment.value, InitialDraft(assessment);
      && d.name == Str(a.name)
      && d.weight == Num(Finite(a.weight))
      && d.fullMarks == Num(Finite(if a.fullMarks == 0.0 then 100.0 else a.fullMarks))
      && d.minimumPassRequirement == Num(Finite(if a.minimumPassRequirement == 0.0 then 50.0 else a.minimumPassRequirement))
      && d.obtainedMarks == Num(Finite(Wam.ObtainedOrZero(a)))
    ensures forall f :: f != Name ==> ToNumber(Get(InitialDraft(assessment), f)).Finite?
    ensures ToNumber(InitialDraft(assessment).fullMarks) != Finite(0.0)
  {
  }

  /** The value `handleChange` stores for `text` typed into `field`: the
      name as typed, a cleared field as "", anything else as a number. */
  function Coerced(field: AssessmentField, text: string): JsValue
  {
    if field == Name then Str(text) else if text == "" then Str("") else Num(Number(text))
  }

  /** Coercion never changes the number a numeric field reads as, and keeps
      the name as typed. */
  lemma CoercedMeaning(field: AssessmentField, text: string)
    ensures field == Name ==> Coerced(field, text) == Str(text)
    ensures field != Name ==> ToNumber(Coerced(field, text)) == Number(text)
    ensures field != Name && text == "" ==> Coerced(field, text) == Str("")
  {
  }

  /** The state of one assessment form. */
  class AssessmentFormState {
    var formData: AssessmentDraft

    constructor (assessment: Option<Assessment>)
      ensures formData == InitialDraft(assessment)
    {
      formData := InitialDraft(assessment);
    }

    /** `handleChange`: store the coerced text in the named field. */
    method HandleChange(field: AssessmentField, text: string)
      modifies this
      ensures formData == With(old(formData), field, Coerced(field, text))
    {
      var value := if field == Name then Str(text) else if text == "" then Str("") else Num(Number(text));
      formData := With(formData, field, value);
    }

    /** `handleSubmit`: hand the fields over as they stand. */
    method HandleSubmit() returns (saved: AssessmentDraft)
      ensures saved == formData
    {
      saved := formData;
    }
  }
}
