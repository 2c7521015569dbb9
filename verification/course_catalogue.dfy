/** The course list the timetable and section dialogs pick from: a code and its name. */
module CourseCatalogue {
  import Keyed

  datatype Course = Course(code: string, name: string)

  const Courses: seq<Course> := [
    Course("CS101", "Introduction to Computer Science"),
    Course("MATH201", "Calculus II"),
    Course("PHY101", "Physics I"),
    Course("ENG101", "English Composition")]

  /** `mockCourses.find(c => c.code === code)?.name || ''`: the name of a catalogued
      code, '' for any other code. */
  function CourseName(code: string): (name: string)
    ensures name != "" <==> exists i :: 0 <= i < |Courses| && Courses[i].code == code
    ensures forall i :: 0 <= i < |Courses| && Courses[i].code == code ==> name == Courses[i].name
  {
    match Keyed.Find(Courses, (c: Course) => c.code == code)
    case Some(c) => c.name
    case None => ""
  }

  /** No catalogued course has the empty code, so the empty code has no name. */
  lemma NoCourseHasEmptyCode()
    ensures CourseName("") == ""
  {
    assert forall i :: 0 <= i < |Courses| ==> Courses[i].code != "";
  }
}
