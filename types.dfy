/**
 * The records the grade tracker stores: assessments and subjects, the
 * same records without their identifiers as a form produces them, and the
 * semester labels that group subjects.
 */
module Types {
  import opened Js

  datatype Option<T> = None | Some(value: T)

  /** One gradable item of a subject. A missing `obtainedMarks` means the
      item has not been graded. */
  datatype Assessment = Assessment(
    id: string,
    name: string,
    weight: real,
    fullMarks: real,
    minimumPassRequirement: real,
    obtainedMarks: Option<real>)

  /** An assessment without its identifier (`Omit<Assessment, 'id'>`). */
  datatype AssessmentData = AssessmentData(
    name: string,
    weight: real,
    fullMarks: real,
    minimumPassRequirement: real,
    obtainedMarks: Option<real>)

  /** One course, owning its assessments. `credit` weighs the subject in the
      average; `included` says whether it counts at all. */
  datatype Subject = Subject(
    id: string,
    name: string,
    passingGrade: real,
    bgColor: string,
    assessments: seq<Assessment>,
    semester: string,
    credit: real,
    included: bool)

  /** A subject as the new-subject form submits it: no identifiers yet. */
  datatype SubjectFormData = SubjectFormData(
    name: string,
    passingGrade: real,
    bgColor: string,
    assessments: seq<AssessmentData>,
    semester: string,
    credit: real,
    included: bool)

  function AssessmentId(a: Assessment): string
  {
    a.id
  }

  function SubjectId(s: Subject): string
  {
    s.id
  }

  /** `{ ...data, id }`. */
  function WithId(data: AssessmentData, id: string): Assessment
  {
    Assessment(id, data.name, data.weight, data.fullMarks, data.minimumPassRequirement, data.obtainedMarks)
  }

  /** `${year} First Semester` or `${year} Second Semester`. */
  function SemesterName(year: int, first: bool): string
  {
    IntegerText(year) + HalfSuffix(first)
  }

  /** The semesters a subject can be filed under: First and Second Semester
      of `year`, then of the year after. */
  function SemesterOptions(year: int): seq<string>
  {
    [SemesterName(year, true), SemesterName(year, false), SemesterName(year + 1, true), SemesterName(year + 1, false)]
  }

  function HalfSuffix(first: bool): string
  {
    if first then " First Semester" else " Second Semester"
  }

  /** The tenth character from the end tells the halves apart. */
  lemma HalfMarker(text: string, first: bool)
    ensures var n := text + HalfSuffix(first);
      n[|n| - 10] == if first then 't' else 'd'
  {
    var n := text + HalfSuffix(first);
    assert n[|n| - 10] == HalfSuffix(first)[|HalfSuffix(first)| - 10];
  }

  /** Two semester names are equal only for the same year and half. */
  lemma SemesterNameInjective(y1: int, first1: bool, y2: int, first2: bool)
    requires SemesterName(y1, first1) == SemesterName(y2, first2)
    ensures y1 == y2 && first1 == first2
  {
    var t1, t2 := IntegerText(y1), IntegerText(y2);
    assert SemesterName(y1, first1) == t1 + HalfSuffix(first1);
    assert SemesterName(y2, first2) == t2 + HalfSuffix(first2);
    HalfMarker(t1, first1);
    HalfMarker(t2, first2);
    assert first1 == first2;
    var n := t1 + HalfSuffix(first1);
    assert t1 == n[..|t1|];
    assert t2 == n[..|t2|];
    NumberOfIntegerText(y1);
    NumberOfIntegerText(y2);
  }

  /** `Omit<Assessment, 'id'>` of an assessment. */
  function DataOf(a: Assessment): AssessmentData
  {
    AssessmentData(a.name, a.weight, a.fullMarks, a.minimumPassRequirement, a.obtainedMarks)
  }

  /** Adding an id and dropping it again are inverse. */
  lemma WithIdRoundTrip(data: AssessmentData, a: Assessment)
    ensures DataOf(WithId(data, a.id)) == data
    ensures WithId(DataOf(a), a.id) == a
  {
  }
}
