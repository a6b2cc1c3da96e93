/**
 * The semester filter of the subject list.
 */
module SubjectList {
  import opened Types
  import opened Seqs

  /** `filteredSubjects`: every subject for "All" or no selection,
      otherwise the subjects filed under the selected semester. */
  function FilteredSubjects(subjects: seq<Subject>, selectedSemester: string): seq<Subject>
  {
    if selectedSemester == "All" || selectedSemester == "" then subjects
    else Filter(subjects, (s: Subject) => s.semester == selectedSemester)
  }

  /** "All" and the empty selection show the whole list. */
  lemma ShowAll(subjects: seq<Subject>)
    ensures FilteredSubjects(subjects, "All") == subjects
    ensures FilteredSubjects(subjects, "") == subjects
  {
  }

  /** Any other selection shows exactly the subjects of that semester, each
      as often as the list holds it, in list order. */
  lemma FilterBySemester(subjects: seq<Subject>, selectedSemester: string)
    requires selectedSemester != "All" && selectedSemester != ""
    ensures var r := FilteredSubjects(subjects, selectedSemester);
      && (forall s: Subject :: multiset(r)[s] == if s.semester == selectedSemester then multiset(subjects)[s] else 0)
      && IsSubsequence(r, subjects)
      && |r| <= |subjects|
  {
    var p := (s: Subject) => s.semester == selectedSemester;
    forall s: Subject
      ensures multiset(FilteredSubjects(subjects, selectedSemester))[s]
        == if s.semester == selectedSemester then multiset(subjects)[s] else 0
    {
      FilterCounts(subjects, p, s);
    }
    FilterIsSubsequence(subjects, p);
  }

  /** Filtering the filtered list again changes nothing. */
  lemma FilterTwice(subjects: seq<Subject>, selectedSemester: string)
    ensures FilteredSubjects(FilteredSubjects(subjects, selectedSemester), selectedSemester)
      == FilteredSubjects(subjects, selectedSemester)
  {
    if selectedSemester != "All" && selectedSemester != "" {
      FilterIdempotent(subjects, (s: Subject) => s.semester == selectedSemester);
    }
  }
}
