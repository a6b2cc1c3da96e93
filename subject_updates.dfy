/**
 * The list updates that both the subject reducer and the subject
 * management hook perform: replace or remove a subject by id, and edit the
 * assessments of the subject with a given id.
 */
module SubjectUpdates {
  import opened Types
  import opened Seqs

  function SubjectIds(subjects: seq<Subject>): seq<string>
  {
    Keys(subjects, SubjectId)
  }

  function AssessmentIds(assessments: seq<Assessment>): seq<string>
  {
    Keys(assessments, AssessmentId)
  }

  /** No two subjects share an id, and no two assessments of one subject
      share an id. */
  predicate UniqueIds(subjects: seq<Subject>)
  {
    && Distinct(SubjectIds(subjects))
    && forall i :: 0 <= i < |subjects| ==> Distinct(AssessmentIds(subjects[i].assessments))
  }

  /** `subjects.map(s => s.id === updated.id ? updated : s)`. */
  function ReplaceSubject(subjects: seq<Subject>, updated: Subject): seq<Subject>
  {
    MapMatching(subjects, SubjectId, updated.id, (s: Subject) => updated)
  }

  /** `subjects.filter(s => s.id !== subjectId)`. */
  function RemoveSubject(subjects: seq<Subject>, subjectId: string): seq<Subject>
  {
    Filter(subjects, (s: Subject) => s.id != subjectId)
  }

  /** The three changes made to the assessments of one subject. */
  datatype AssessmentEdit =
    | Append(assessment: Assessment)
    | Replace(assessment: Assessment)
    | Remove(assessmentId: string)

  /** One subject with `edit` applied to its assessments; every other field
      is copied. */
  function ApplyEdit(edit: AssessmentEdit, s: Subject): (r: Subject)
    ensures r == s.(assessments := r.assessments)
  {
    match edit
    case Append(a) => s.(assessments := s.assessments + [a])
    case Replace(a) => s.(assessments := MapMatching(s.assessments, AssessmentId, a.id, (x: Assessment) => a))
    case Remove(id) => s.(assessments := Filter(s.assessments, (x: Assessment) => x.id != id))
  }

  /** `subjects.map(s => s.id === subjectId ? edited(s) : s)`. */
  function EditSubject(subjects: seq<Subject>, subjectId: string, edit: AssessmentEdit): seq<Subject>
  {
    MapMatching(subjects, SubjectId, subjectId, (s: Subject) => ApplyEdit(edit, s))
  }

  /** Replacing by id keeps the length, puts `updated` exactly where the id
      matches, is idempotent, and changes nothing when the id is absent. */
  lemma ReplaceSubjectMeaning(subjects: seq<Subject>, updated: Subject)
    ensures var r := ReplaceSubject(subjects, updated);
      && |r| == |subjects|
      && (forall i :: 0 <= i < |r| ==> r[i] == if subjects[i].id == updated.id then updated else subjects[i])
      && ReplaceSubject(r, updated) == r
      && ((forall i :: 0 <= i < |subjects| ==> subjects[i].id != updated.id) ==> r == subjects)
  {
    MapMatchingIdempotent(subjects, SubjectId, updated.id, (s: Subject) => updated);
    if forall i :: 0 <= i < |subjects| ==> subjects[i].id != updated.id {
      MapMatchingNoMatch(subjects, SubjectId, updated.id, (s: Subject) => updated);
    }
  }

  /** Removing by id leaves no subject with that id, keeps every other
      subject exactly as often as before and in its order, and is
      idempotent. */
  lemma RemoveSubjectMeaning(subjects: seq<Subject>, subjectId: string)
    ensures var r := RemoveSubject(subjects, subjectId);
      && (forall i :: 0 <= i < |r| ==> r[i].id != subjectId)
      && (forall s: Subject :: s.id != subjectId ==> multiset(r)[s] == multiset(subjects)[s])
      && IsSubsequence(r, subjects)
      && RemoveSubject(r, subjectId) == r
  {
    var p := (s: Subject) => s.id != subjectId;
    forall s: Subject | s.id != subjectId ensures multiset(RemoveSubject(subjects, subjectId))[s] == multiset(subjects)[s] {
      FilterCounts(subjects, p, s);
    }
    FilterIsSubsequence(subjects, p);
    FilterIdempotent(subjects, p);
  }

  /** What each edit does to the assessments of a subject: append at the
      end; replace exactly the assessments with the given id, keeping the
      count; remove every assessment with the given id and keep the others
      in order. */
  lemma ApplyEditMeaning(edit: AssessmentEdit, s: Subject)
    ensures var r := ApplyEdit(edit, s).assessments;
      && (edit.Append? ==> r == s.assessments + [edit.assessment])
      && (edit.Replace? ==>
            |r| == |s.assessments| &&
            forall i :: 0 <= i < |r| ==>
              r[i] == if s.assessments[i].id == edit.assessment.id then edit.assessment else s.assessments[i])
      && (edit.Remove? ==>
            (forall i :: 0 <= i < |r| ==> r[i].id != edit.assessmentId) &&
            (forall a: Assessment :: a.id != edit.assessmentId ==> multiset(r)[a] == multiset(s.assessments)[a]) &&
            IsSubsequence(r, s.assessments))
  {
    if edit.Remove? {
      var p := (x: Assessment) => x.id != edit.assessmentId;
      forall a: Assessment | a.id != edit.assessmentId
        ensures multiset(ApplyEdit(edit, s).assessments)[a] == multiset(s.assessments)[a]
      {
        FilterCounts(s.assessments, p, a);
      }
      FilterIsSubsequence(s.assessments, p);
    }
  }

  /** Editing the subject with a given id keeps the subject count, edits
      exactly the subjects with that id, and leaves the others as they
      were. */
  lemma EditSubjectMeaning(subjects: seq<Subject>, subjectId: string, edit: AssessmentEdit)
    ensures var r := EditSubject(subjects, subjectId, edit);
      && |r| == |subjects|
      && forall i :: 0 <= i < |r| ==>
           r[i] == if subjects[i].id == subjectId then ApplyEdit(edit, subjects[i]) else subjects[i]
  {
  }

  /** Replacing and removing assessments are idempotent. */
  lemma EditIdempotent(edit: AssessmentEdit, s: Subject)
    requires !edit.Append?
    ensures ApplyEdit(edit, ApplyEdit(edit, s)) == ApplyEdit(edit, s)
  {
    match edit
    case Replace(a) =>
      MapMatchingIdempotent(s.assessments, AssessmentId, a.id, (x: Assessment) => a);
    case Remove(id) =>
      FilterIdempotent(s.assessments, (x: Assessment) => x.id != id);
  }

  /** The selected subject agrees with every list entry carrying its id. */
  predicate Synced(subjects: seq<Subject>, selected: Subject)
  {
    forall i :: 0 <= i < |subjects| && subjects[i].id == selected.id ==> subjects[i] == selected
  }

  /** With distinct subject ids, any entry of the list agrees with the list. */
  lemma EntryIsSynced(subjects: seq<Subject>, selected: Subject)
    requires selected in subjects && Distinct(SubjectIds(subjects))
    ensures Synced(subjects, selected)
  {
    var k :| 0 <= k < |subjects| && subjects[k] == selected;
    forall i | 0 <= i < |subjects| && subjects[i].id == selected.id
      ensures subjects[i] == selected
    {
      assert Keys(subjects, SubjectId)[i] == SubjectId(subjects[i]);
      assert Keys(subjects, SubjectId)[k] == SubjectId(subjects[k]);
    }
  }

  /** Applying the same edit to the list and to the selected subject keeps
      the two in agreement. */
  lemma EditKeepsSync(subjects: seq<Subject>, selected: Subject, subjectId: string, edit: AssessmentEdit)
    requires Synced(subjects, selected)
    ensures Synced(EditSubject(subjects, subjectId, edit),
                   if selected.id == subjectId then ApplyEdit(edit, selected) else selected)
  {
    EditSubjectMeaning(subjects, subjectId, edit);
  }

  /** Replacing a subject and the selection by the same update keeps them in
      agreement. */
  lemma ReplaceKeepsSync(subjects: seq<Subject>, selected: Subject, updated: Subject)
    requires Synced(subjects, selected)
    ensures Synced(ReplaceSubject(subjects, updated),
                   if selected.id == updated.id then updated else selected)
  {
    ReplaceSubjectMeaning(subjects, updated);
  }

  /** Removing subjects never breaks the agreement of the ones left. */
  lemma RemoveKeepsSync(subjects: seq<Subject>, selected: Subject, subjectId: string)
    requires Synced(subjects, selected)
    ensures Synced(RemoveSubject(subjects, subjectId), selected)
  {
  }

  /** Appending a subject whose id is new, and whose assessment ids are
      distinct, keeps all ids unique. */
  lemma AppendKeepsUniqueIds(subjects: seq<Subject>, s: Subject)
    requires UniqueIds(subjects)
    requires s.id !in SubjectIds(subjects)
    requires Distinct(AssessmentIds(s.assessments))
    ensures UniqueIds(subjects + [s])
  {
    KeysConcat(subjects, [s], SubjectId);
    assert Keys([s], SubjectId) == [s.id];
    DistinctConcat(SubjectIds(subjects), [s.id]);
    var r := subjects + [s];
    assert forall i :: 0 <= i < |subjects| ==> r[i] == subjects[i];
  }

  /** Replacing a subject by one with distinct assessment ids keeps all ids
      unique. */
  lemma ReplaceKeepsUniqueIds(subjects: seq<Subject>, updated: Subject)
    requires UniqueIds(subjects)
    requires Distinct(AssessmentIds(updated.assessments))
    ensures UniqueIds(ReplaceSubject(subjects, updated))
  {
    MapMatchingKeepsKeys(subjects, SubjectId, updated.id, (s: Subject) => updated);
  }

  /** Removing subjects keeps all ids unique. */
  lemma RemoveKeepsUniqueIds(subjects: seq<Subject>, subjectId: string)
    requires UniqueIds(subjects)
    ensures UniqueIds(RemoveSubject(subjects, subjectId))
  {
    FilterKeepsKeysDistinct(subjects, (s: Subject) => s.id != subjectId, SubjectId);
  }

  /** An edit keeps the assessment ids of a subject distinct, provided an
      appended assessment brings an id the subject does not use. */
  lemma ApplyEditKeepsDistinct(edit: AssessmentEdit, s: Subject)
    requires Distinct(AssessmentIds(s.assessments))
    requires edit.Append? ==> edit.assessment.id !in AssessmentIds(s.assessments)
    ensures Distinct(AssessmentIds(ApplyEdit(edit, s).assessments))
  {
    match edit
    case Append(a) =>
      KeysConcat(s.assessments, [a], AssessmentId);
      assert Keys([a], AssessmentId) == [a.id];
      DistinctConcat(AssessmentIds(s.assessments), [a.id]);
    case Replace(a) =>
      MapMatchingKeepsKeys(s.assessments, AssessmentId, a.id, (x: Assessment) => a);
    case Remove(id) =>
      FilterKeepsKeysDistinct(s.assessments, (x: Assessment) => x.id != id, AssessmentId);
  }

  /** Editing the subject with a given id keeps all ids unique, provided an
      appended assessment brings an id that subject does not use. */
  lemma EditKeepsUniqueIds(subjects: seq<Subject>, subjectId: string, edit: AssessmentEdit)
    requires UniqueIds(subjects)
    requires edit.Append? ==>
      forall i :: 0 <= i < |subjects| && subjects[i].id == subjectId ==>
        edit.assessment.id !in AssessmentIds(subjects[i].assessments)
    ensures UniqueIds(EditSubject(subjects, subjectId, edit))
  {
    var r := EditSubject(subjects, subjectId, edit);
    MapMatchingKeepsKeys(subjects, SubjectId, subjectId, (s: Subject) => ApplyEdit(edit, s));
    forall i | 0 <= i < |r| ensures Distinct(AssessmentIds(r[i].assessments)) {
      if subjects[i].id == subjectId {
        ApplyEditKeepsDistinct(edit, subjects[i]);
      }
    }
  }
}
