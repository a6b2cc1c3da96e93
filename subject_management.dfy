/**
 * `useSubjectManagement`: the subject list of the calculator page, with the
 * dialog flag, the subject whose details are open and the semester filter.
 * Every operation reassigns these fields.
 */
module SubjectManagement {
  import opened Types
  import opened Seqs
  import opened SubjectUpdates

  /** A subject as read back from storage: `credit` and `included` may be
      missing. */
  datatype StoredSubject = StoredSubject(
    id: string,
    name: string,
    passingGrade: real,
    bgColor: string,
    assessments: seq<Assessment>,
    semester: string,
    credit: Option<real>,
    included: Option<bool>)

  /** A missing or zero credit becomes 12; a subject is included unless it
      was stored as excluded. */
  function WithDefaults(s: StoredSubject): Subject
  {
    Subject(s.id, s.name, s.passingGrade, s.bgColor, s.assessments, s.semester,
            if s.credit == None || s.credit == Some(0.0) then 12.0 else s.credit.value,
            s.included != Some(false))
  }

  function LoadSubjects(stored: seq<StoredSubject>): seq<Subject>
  {
    seq(|stored|, i requires 0 <= i < |stored| => WithDefaults(stored[i]))
  }

  /** Loading keeps every subject and every stored field, gives a subject
      without a usable credit 12 credits (so no loaded credit is 0), and
      excludes exactly the subjects stored as excluded. */
  lemma LoadedDefaults(stored: seq<StoredSubject>)
    ensures var r := LoadSubjects(stored);
      && |r| == |stored|
      && forall i :: 0 <= i < |r| ==>
           && r[i].id == stored[i].id && r[i].assessments == stored[i].assessments
           && r[i].name == stored[i].name && r[i].semester == stored[i].semester
           && r[i].passingGrade == stored[i].passingGrade && r[i].bgColor == stored[i].bgColor
           && r[i].credit != 0.0
           && (stored[i].credit == None || stored[i].credit == Some(0.0) ==> r[i].credit == 12.0)
           && (stored[i].credit.Some? && stored[i].credit.value != 0.0 ==> r[i].credit == stored[i].credit.value)
           && (!r[i].included <==> stored[i].included == Some(false))
  {
  }

  /** The semester filter menu: "All", then the semester options. */
  function SemesterMenu(year: int): seq<string>
  {
    ["All"] + SemesterOptions(year)
  }

  /** The menu entries are pairwise different, so each can key its menu
      item. */
  lemma SemesterMenuDistinct(year: int)
    ensures Distinct(SemesterMenu(year))
    ensures |SemesterMenu(year)| == 5 && SemesterMenu(year)[0] == "All"
  {
    var m := SemesterMenu(year);
    var a, b, c, d := SemesterName(year, true), SemesterName(year, false),
                      SemesterName(year + 1, true), SemesterName(year + 1, false);
    assert m == ["All", a, b, c, d];
    NamesDiffer(year, true, year, false);
    NamesDiffer(year, true, year + 1, true);
    NamesDiffer(year, true, year + 1, false);
    NamesDiffer(year, false, year + 1, true);
    NamesDiffer(year, false, year + 1, false);
    NamesDiffer(year + 1, true, year + 1, false);
    assert |a| > 3 && |b| > 3 && |c| > 3 && |d| > 3;
  }

  lemma NamesDiffer(y1: int, first1: bool, y2: int, first2: bool)
    requires y1 != y2 || first1 != first2
    ensures SemesterName(y1, first1) != SemesterName(y2, first2)
  {
    if SemesterName(y1, first1) == SemesterName(y2, first2) {
      SemesterNameInjective(y1, first1, y2, first2);
    }
  }

  /** Form data without ids: what a subject looks like in the new-subject
      form. */
  function FormDataOf(s: Subject): SubjectFormData
  {
    SubjectFormData(s.name, s.passingGrade, s.bgColor,
                    seq(|s.assessments|, i requires 0 <= i < |s.assessments| => DataOf(s.assessments[i])),
                    s.semester, s.credit, s.included)
  }

  /** The subject `addSubject` builds from form data, given the new subject
      id and one new id per assessment. */
  function NewSubject(data: SubjectFormData, id: string, assessmentIds: seq<string>): (r: Subject)
    requires |assessmentIds| == |data.assessments|
    ensures r.id == id && AssessmentIds(r.assessments) == assessmentIds
    ensures FormDataOf(r) == data
  {
    var assessments := seq(|data.assessments|, i requires 0 <= i < |data.assessments| =>
                             WithId(data.assessments[i], assessmentIds[i]));
    var r := Subject(id, data.name, data.passingGrade, data.bgColor, assessments,
                     data.semester, data.credit, data.included);
    assert FormDataOf(r).assessments == data.assessments;
    forall i | 0 <= i < |assessments| ensures AssessmentIds(assessments)[i] == assessmentIds[i] {
      assert Keys(assessments, AssessmentId)[i] == AssessmentId(assessments[i]);
    }
    r
  }

  class SubjectManager {
    var subjects: seq<Subject>
    var isDialogOpen: bool
    var selectedSubject: Option<Subject>
    var selectedSemester: string
    const semesters: seq<string>

    /** The open subject agrees with its entry in the list. */
    ghost predicate InSync()
      reads this
    {
      selectedSubject.Some? ==> Synced(subjects, selectedSubject.value)
    }

    /** The state on first render, from the stored subjects and the
        current year. */
    constructor (stored: seq<StoredSubject>, year: int)
      ensures subjects == LoadSubjects(stored)
      ensures !isDialogOpen && selectedSubject == None && selectedSemester == "All"
      ensures semesters == SemesterMenu(year)
      ensures InSync()
    {
      subjects := LoadSubjects(stored);
      isDialogOpen := false;
      selectedSubject := None;
      selectedSemester := "All";
      semesters := SemesterMenu(year);
    }

    method SetIsDialogOpen(open: bool)
      modifies this
      ensures isDialogOpen == open
      ensures subjects == old(subjects) && selectedSubject == old(selectedSubject)
      ensures selectedSemester == old(selectedSemester)
    {
      isDialogOpen := open;
    }

    /** `addSubject`: append the subject built from the form with fresh
        ids, and close the dialog. */
    method AddSubject(subjectData: SubjectFormData, id: string, assessmentIds: seq<string>)
      requires |assessmentIds| == |subjectData.assessments|
      modifies this
      ensures subjects == old(subjects) + [NewSubject(subjectData, id, assessmentIds)]
      ensures !isDialogOpen
      ensures selectedSubject == old(selectedSubject) && selectedSemester == old(selectedSemester)
      ensures old(UniqueIds(subjects)) && id !in SubjectIds(old(subjects)) && Distinct(assessmentIds)
        ==> UniqueIds(subjects)
      ensures old(InSync()) && (selectedSubject.Some? ==> selectedSubject.value.id != id) ==> InSync()
    {
      var newSubject := NewSubject(subjectData, id, assessmentIds);
      if UniqueIds(subjects) && id !in SubjectIds(subjects) && Distinct(assessmentIds) {
        AppendKeepsUniqueIds(subjects, newSubject);
      }
      subjects := subjects + [newSubject];
      isDialogOpen := false;
    }

    /** `updateSubject`: replace by id in the list and in the selection. */
    method UpdateSubject(updatedSubject: Subject)
      modifies this
      ensures subjects == ReplaceSubject(old(subjects), updatedSubject)
      ensures selectedSubject ==
        if old(selectedSubject).Some? && old(selectedSubject).value.id == updatedSubject.id
        then Some(updatedSubject) else old(selectedSubject)
      ensures isDialogOpen == old(isDialogOpen) && selectedSemester == old(selectedSemester)
      ensures old(InSync()) ==> InSync()
      ensures old(UniqueIds(subjects)) && Distinct(AssessmentIds(updatedSubject.assessments)) ==> UniqueIds(subjects)
    {
      if UniqueIds(subjects) && Distinct(AssessmentIds(updatedSubject.assessments)) {
        ReplaceKeepsUniqueIds(subjects, updatedSubject);
      }
      if InSync() && selectedSubject.Some? {
        ReplaceKeepsSync(subjects, selectedSubject.value, updatedSubject);
      }
      subjects := ReplaceSubject(subjects, updatedSubject);
      if selectedSubject.Some? && selectedSubject.value.id == updatedSubject.id {
        selectedSubject := Some(updatedSubject);
      }
    }

    /** `deleteSubject`: remove by id, and close the details of a removed
        subject. */
    method DeleteSubject(subjectId: string)
      modifies this
      ensures subjects == RemoveSubject(old(subjects), subjectId)
      ensures selectedSubject ==
        if old(selectedSubject).Some? && old(selectedSubject).value.id == subjectId
        then None else old(selectedSubject)
      ensures isDialogOpen == old(isDialogOpen) && selectedSemester == old(selectedSemester)
      ensures old(InSync()) ==> InSync()
      ensures old(UniqueIds(subjects)) ==> UniqueIds(subjects)
    {
      if UniqueIds(subjects) {
        RemoveKeepsUniqueIds(subjects, subjectId);
      }
      if InSync() && selectedSubject.Some? {
        RemoveKeepsSync(subjects, selectedSubject.value, subjectId);
      }
      subjects := RemoveSubject(subjects, subjectId);
      if selectedSubject.Some? && selectedSubject.value.id == subjectId {
        selectedSubject := None;
      }
    }

    /** Apply one assessment edit to the subject with `subjectId`, in the
        list and in the selection. */
    method Edit(subjectId: string, edit: AssessmentEdit)
      modifies this
      ensures subjects == EditSubject(old(subjects), subjectId, edit)
      ensures selectedSubject ==
        if old(selectedSubject).Some? && old(selectedSubject).value.id == subjectId
        then Some(ApplyEdit(edit, old(selectedSubject).value)) else old(selectedSubject)
      ensures isDialogOpen == old(isDialogOpen) && selectedSemester == old(selectedSemester)
      ensures old(InSync()) ==> InSync()
      ensures old(UniqueIds(subjects)) &&
        (edit.Append? ==> forall i :: 0 <= i < |old(subjects)| && old(subjects)[i].id == subjectId ==>
                            edit.assessment.id !in AssessmentIds(old(subjects)[i].assessments))
        ==> UniqueIds(subjects)
    {
      if UniqueIds(subjects) &&
        (edit.Append? ==> forall i :: 0 <= i < |subjects| && subjects[i].id == subjectId ==>
                            edit.assessment.id !in AssessmentIds(subjects[i].assessments))
      {
        EditKeepsUniqueIds(subjects, subjectId, edit);
      }
      if InSync() && selectedSubject.Some? {
        EditKeepsSync(subjects, selectedSubject.value, subjectId, edit);
      }
      subjects := EditSubject(subjects, subjectId, edit);
      if selectedSubject.Some? && selectedSubject.value.id == subjectId {
        selectedSubject := Some(ApplyEdit(edit, selectedSubject.value));
      }
    }

    /** `addAssessment`: give the new assessment a fresh id and append it to
        the subject with `subjectId`. */
    method AddAssessment(subjectId: string, newAssessmentData: AssessmentData, newId: string)
      modifies this
      ensures subjects == EditSubject(old(subjects), subjectId, Append(WithId(newAssessmentData, newId)))
      ensures selectedSubject ==
        if old(selectedSubject).Some? && old(selectedSubject).value.id == subjectId
        then Some(ApplyEdit(Append(WithId(newAssessmentData, newId)), old(selectedSubject).value))
        else old(selectedSubject)
      ensures isDialogOpen == old(isDialogOpen) && selectedSemester == old(selectedSemester)
      ensures old(InSync()) ==> InSync()
      ensures old(UniqueIds(subjects)) &&
        (forall i :: 0 <= i < |old(subjects)| ==> newId !in AssessmentIds(old(subjects)[i].assessments))
        ==> UniqueIds(subjects)
    {
      var newAssessment := WithId(newAssessmentData, newId);
      Edit(subjectId, Append(newAssessment));
    }

    /** `updateAssessment`: replace the assessment with the same id inside
        the subject with `subjectId`. */
    method UpdateAssessment(subjectId: string, updatedAssessment: Assessment)
      modifies this
      ensures subjects == EditSubject(old(subjects), subjectId, Replace(updatedAssessment))
      ensures selectedSubject ==
        if old(selectedSubject).Some? && old(selectedSubject).value.id == subjectId
        then Some(ApplyEdit(Replace(updatedAssessment), old(selectedSubject).value))
        else old(selectedSubject)
      ensures isDialogOpen == old(isDialogOpen) && selectedSemester == old(selectedSemester)
      ensures old(InSync()) ==> InSync()
      ensures old(UniqueIds(subjects)) ==> UniqueIds(subjects)
    {
      Edit(subjectId, Replace(updatedAssessment));
    }

    /** `deleteAssessment`: remove the assessment with `assessmentId` from
        the subject with `subjectId`. */
    method DeleteAssessment(subjectId: string, assessmentId: string)
      modifies this
      ensures subjects == EditSubject(old(subjects), subjectId, Remove(assessmentId))
      ensures selectedSubject ==
        if old(selectedSubject).Some? && old(selectedSubject).value.id == subjectId
        then Some(ApplyEdit(Remove(assessmentId), old(selectedSubject).value))
        else old(selectedSubject)
      ensures isDialogOpen == old(isDialogOpen) && selectedSemester == old(selectedSemester)
      ensures old(InSync()) ==> InSync()
      ensures old(UniqueIds(subjects)) ==> UniqueIds(subjects)
    {
      Edit(subjectId, Remove(assessmentId));
    }

    /** Opening an entry of a list with distinct subject ids leaves the
        open subject in agreement with the list. */
    method OpenSubjectDetails(subject: Subject)
      modifies this
      ensures selectedSubject == Some(subject)
      ensures subject in old(subjects) && Distinct(SubjectIds(subjects)) ==> InSync()
      ensures subjects == old(subjects) && isDialogOpen == old(isDialogOpen)
      ensures selectedSemester == old(selectedSemester)
    {
      if subject in subjects && Distinct(SubjectIds(subjects)) {
        EntryIsSynced(subjects, subject);
      }
      selectedSubject := Some(subject);
    }

    method CloseSubjectDetails()
      modifies this
      ensures selectedSubject == None && InSync()
      ensures subjects == old(subjects) && isDialogOpen == old(isDialogOpen)
      ensures selectedSemester == old(selectedSemester)
    {
      selectedSubject := None;
    }

    method HandleSemesterSelect(semester: string)
      modifies this
      ensures selectedSemester == semester
      ensures subjects == old(subjects) && isDialogOpen == old(isDialogOpen)
      ensures selectedSubject == old(selectedSubject)
    {
      selectedSemester := semester;
    }
  }
}
