/**
 * The subject reducer of the shared subject context: every action yields a
 * new state built from the old one.
 */
module SubjectContext {
  import opened Types
  import opened Seqs
  import opened SubjectUpdates

  datatype State = State(subjects: seq<Subject>)

  /** The actions the reducer handles, and any other action type. */
  datatype Action =
    | SetSubjects(payload: seq<Subject>)
    | AddSubject(subject: Subject)
    | UpdateSubject(subject: Subject)
    | DeleteSubject(subjectId: string)
    | AddAssessment(subjectId: string, assessment: Assessment)
    | UpdateAssessment(subjectId: string, assessment: Assessment)
    | DeleteAssessment(subjectId: string, assessmentId: string)
    | Unknown(kind: string)

  /** `subjectReducer`. */
  function Reduce(state: State, action: Action): State
  {
    match action
    case SetSubjects(payload) => state.(subjects := payload)
    case AddSubject(s) => state.(subjects := state.subjects + [s])
    case UpdateSubject(s) => state.(subjects := ReplaceSubject(state.subjects, s))
    case DeleteSubject(id) => state.(subjects := RemoveSubject(state.subjects, id))
    case AddAssessment(id, a) => state.(subjects := EditSubject(state.subjects, id, Append(a)))
    case UpdateAssessment(id, a) => state.(subjects := EditSubject(state.subjects, id, Replace(a)))
    case DeleteAssessment(id, aid) => state.(subjects := EditSubject(state.subjects, id, Remove(aid)))
    case Unknown(_) => state
  }

  /** Setting the subjects replaces the list by the payload. */
  lemma SetReplacesList(state: State, payload: seq<Subject>)
    ensures Reduce(state, SetSubjects(payload)).subjects == payload
  {
  }

  /** Adding a subject puts it last and keeps the earlier ones in order. */
  lemma AddAppends(state: State, s: Subject)
    ensures var r := Reduce(state, AddSubject(s)).subjects;
      |r| == |state.subjects| + 1 && r[..|state.subjects|] == state.subjects && r[|state.subjects|] == s
  {
  }

  /** Updating a subject keeps the count, replaces exactly the subjects with
      its id, is idempotent, and changes nothing when the id is absent. */
  lemma UpdateReplacesById(state: State, s: Subject)
    ensures var r := Reduce(state, UpdateSubject(s)).subjects;
      && |r| == |state.subjects|
      && (forall i :: 0 <= i < |r| ==> r[i] == if state.subjects[i].id == s.id then s else state.subjects[i])
      && Reduce(Reduce(state, UpdateSubject(s)), UpdateSubject(s)) == Reduce(state, UpdateSubject(s))
      && (s.id !in SubjectIds(state.subjects) ==> r == state.subjects)
  {
    ReplaceSubjectMeaning(state.subjects, s);
    if s.id !in SubjectIds(state.subjects) {
      assert forall i :: 0 <= i < |state.subjects| ==> state.subjects[i].id == SubjectIds(state.subjects)[i];
    }
  }

  /** Deleting a subject leaves none with its id, keeps the others in order
      and as often as before, and deleting twice is deleting once. */
  lemma DeleteRemovesById(state: State, subjectId: string)
    ensures var r := Reduce(state, DeleteSubject(subjectId)).subjects;
      && (forall i :: 0 <= i < |r| ==> r[i].id != subjectId)
      && (forall s: Subject :: s.id != subjectId ==> multiset(r)[s] == multiset(state.subjects)[s])
      && IsSubsequence(r, state.subjects)
      && Reduce(Reduce(state, DeleteSubject(subjectId)), DeleteSubject(subjectId))
         == Reduce(state, DeleteSubject(subjectId))
  {
    RemoveSubjectMeaning(state.subjects, subjectId);
  }

  /** Adding an assessment keeps the subject count; the subjects with the
      given id gain it at the end of their assessments and keep every other
      field; the others are unchanged. */
  lemma AddAssessmentAppends(state: State, subjectId: string, a: Assessment)
    ensures var r := Reduce(state, AddAssessment(subjectId, a)).subjects;
      && |r| == |state.subjects|
      && forall i :: 0 <= i < |r| ==>
           r[i] == if state.subjects[i].id == subjectId
                   then state.subjects[i].(assessments := state.subjects[i].assessments + [a])
                   else state.subjects[i]
  {
    EditSubjectMeaning(state.subjects, subjectId, Append(a));
  }

  /** Updating an assessment keeps every subject's assessment count and
      replaces only the assessments with its id inside the subjects with
      the given id. */
  lemma UpdateAssessmentReplacesById(state: State, subjectId: string, a: Assessment)
    ensures var r := Reduce(state, UpdateAssessment(subjectId, a)).subjects;
      && |r| == |state.subjects|
      && forall i :: 0 <= i < |r| ==>
           && r[i] == state.subjects[i].(assessments := r[i].assessments)
           && |r[i].assessments| == |state.subjects[i].assessments|
           && forall j :: 0 <= j < |r[i].assessments| ==>
                r[i].assessments[j] ==
                  if state.subjects[i].id == subjectId && state.subjects[i].assessments[j].id == a.id
                  then a else state.subjects[i].assessments[j]
  {
    var r := Reduce(state, UpdateAssessment(subjectId, a)).subjects;
    EditSubjectMeaning(state.subjects, subjectId, Replace(a));
    forall i | 0 <= i < |r| && state.subjects[i].id == subjectId {
      ApplyEditMeaning(Replace(a), state.subjects[i]);
    }
  }

  /** Deleting an assessment keeps the subject count, removes the
      assessments with its id from the subjects with the given id (keeping
      their other assessments in order), and leaves the other subjects
      unchanged. */
  lemma DeleteAssessmentRemovesById(state: State, subjectId: string, assessmentId: string)
    ensures var r := Reduce(state, DeleteAssessment(subjectId, assessmentId)).subjects;
      && |r| == |state.subjects|
      && forall i :: 0 <= i < |r| ==>
           && r[i] == state.subjects[i].(assessments := r[i].assessments)
           && (state.subjects[i].id != subjectId ==> r[i] == state.subjects[i])
           && (state.subjects[i].id == subjectId ==>
                 && (forall j :: 0 <= j < |r[i].assessments| ==> r[i].assessments[j].id != assessmentId)
                 && IsSubsequence(r[i].assessments, state.subjects[i].assessments)
                 && forall x: Assessment :: x.id != assessmentId ==>
                      multiset(r[i].assessments)[x] == multiset(state.subjects[i].assessments)[x])
  {
    var r := Reduce(state, DeleteAssessment(subjectId, assessmentId)).subjects;
    EditSubjectMeaning(state.subjects, subjectId, Remove(assessmentId));
    forall i | 0 <= i < |r| && state.subjects[i].id == subjectId
      ensures forall j :: 0 <= j < |r[i].assessments| ==> r[i].assessments[j].id != assessmentId
      ensures IsSubsequence(r[i].assessments, state.subjects[i].assessments)
      ensures forall x: Assessment :: x.id != assessmentId ==>
                multiset(r[i].assessments)[x] == multiset(state.subjects[i].assessments)[x]
    {
      ApplyEditMeaning(Remove(assessmentId), state.subjects[i]);
    }
  }

  /** An action of any other type leaves the state as it was. */
  lemma UnknownKeepsState(state: State, kind: string)
    ensures Reduce(state, Unknown(kind)) == state
  {
  }

  /** Every action keeps subject and assessment ids unique, given a new id
      for an added subject and for an added assessment, and distinct ids
      inside an added or updated subject. */
  lemma ReduceKeepsUniqueIds(state: State, action: Action)
    requires UniqueIds(state.subjects)
    requires action.SetSubjects? ==> UniqueIds(action.payload)
    requires action.AddSubject? ==>
      action.subject.id !in SubjectIds(state.subjects) && Distinct(AssessmentIds(action.subject.assessments))
    requires action.UpdateSubject? ==> Distinct(AssessmentIds(action.subject.assessments))
    requires action.AddAssessment? ==>
      forall s | s in state.subjects :: action.assessment.id !in AssessmentIds(s.assessments)
    ensures UniqueIds(Reduce(state, action).subjects)
  {
    match action
    case SetSubjects(_) =>
    case AddSubject(s) => AppendKeepsUniqueIds(state.subjects, s);
    case UpdateSubject(s) => ReplaceKeepsUniqueIds(state.subjects, s);
    case DeleteSubject(id) => RemoveKeepsUniqueIds(state.subjects, id);
    case AddAssessment(id, a) => EditKeepsUniqueIds(state.subjects, id, Append(a));
    case UpdateAssessment(id, a) => EditKeepsUniqueIds(state.subjects, id, Replace(a));
    case DeleteAssessment(id, aid) => EditKeepsUniqueIds(state.subjects, id, Remove(aid));
    case Unknown(_) =>
  }
}
