/** The course records page (src/app/admin/courses/page.tsx): search, add, edit, delete
    and a demo import. */
module CourseRecords {
  import opened Wrappers
  import Text
  import Keyed
  import Records

  /** `id` is `Date.now().toString()` for records added on the page. */
  datatype Course = Course(
    id: string,
    code: string,
    name: string,
    credits: int,
    department: string,
    semester: int,
    description: string)

  /** The dialog's fields: a course without the id. */
  datatype CourseForm = CourseForm(
    code: string,
    name: string,
    credits: int,
    department: string,
    semester: int,
    description: string)

  /** The form after a submit: no credits, first semester. */
  const EmptyForm: CourseForm := CourseForm("", "", 0, "", 1, "")

  function Make(id: string, f: CourseForm): Course
  {
    Course(id, f.code, f.name, f.credits, f.department, f.semester, f.description)
  }

  function FormOf(c: Course): CourseForm
  {
    CourseForm(c.code, c.name, c.credits, c.department, c.semester, c.description)
  }

  type CoursesPage = Records.Page<Course, CourseForm>

  // ---------------------------------------------------------------------------
  // filteredCourses
  // ---------------------------------------------------------------------------

  predicate Matches(c: Course, term: string)
  {
    || Text.ContainsIgnoringCase(c.name, term)
    || Text.ContainsIgnoringCase(c.code, term)
    || Text.ContainsIgnoringCase(c.department, term)
  }

  /** `filteredCourses`: the courses whose name, code or department contains the search
      term, ignoring case, in list order. */
  function Filter(courses: seq<Course>, term: string): (r: seq<Course>)
    ensures forall i :: 0 <= i < |r| ==> r[i] in courses && Matches(r[i], term)
    ensures forall i :: 0 <= i < |courses| && Matches(courses[i], term) ==> courses[i] in r
  {
    Keyed.Keep(courses, (c: Course) => Matches(c, term))
  }

  /** An empty search shows every course. */
  lemma FilterShowsAllByDefault(courses: seq<Course>)
    ensures Filter(courses, "") == courses
  {
    forall i | 0 <= i < |courses|
      ensures Matches(courses[i], "")
    {
      Text.EmptyTermMatches(courses[i].name);
    }
    Keyed.KeepAll(courses, (c: Course) => Matches(c, ""));
  }

  // ---------------------------------------------------------------------------
  // handleEdit, handleSubmit, handleDelete
  // ---------------------------------------------------------------------------

  /** `handleEdit`: the dialog filled from the course. */
  function OpenEdit(p: CoursesPage, c: Course): (r: CoursesPage)
    ensures r.records == p.records && r.form == FormOf(c) && r.editing == Some(c)
  {
    Records.Page(p.records, FormOf(c), Some(c))
  }

  /** `handleSubmit`. Editing: the courses with the edited id take all the form's fields
      (`{...course, ...formData}`) and keep that id. Adding: a course with id
      `String(now)` goes at the end. The form then returns to its defaults. */
  function Submit(p: CoursesPage, now: nat): (r: CoursesPage)
    ensures r.form == EmptyForm && r.form.credits == 0 && r.form.semester == 1 && r.editing.None?
    ensures p.editing.None? ==>
              && |r.records| == |p.records| + 1
              && r.records[..|p.records|] == p.records
              && r.records[|p.records|].id == Text.NatToString(now) && FormOf(r.records[|p.records|]) == p.form
    ensures p.editing.Some? ==>
              && |r.records| == |p.records|
              && (forall i :: 0 <= i < |p.records| && p.records[i].id != p.editing.value.id ==> r.records[i] == p.records[i])
              && (forall i :: 0 <= i < |p.records| && p.records[i].id == p.editing.value.id ==>
                    r.records[i].id == p.records[i].id && FormOf(r.records[i]) == p.form)
  {
    var r := Records.Save(p, (c: Course) => c.id, Make, Text.NatToString(now), EmptyForm);
    assert p.editing.None? ==> r.records[..|p.records|] == p.records;
    r
  }

  /** Submitting an edit without touching the form leaves the list as it was, when ids
      are distinct. */
  lemma SubmitUnchangedEdit(p: CoursesPage, c: Course, now: nat)
    requires c in p.records
    requires forall i, j :: 0 <= i < j < |p.records| ==> p.records[i].id != p.records[j].id
    ensures Submit(OpenEdit(p, c), now).records == p.records
  {
    Records.SaveUnchangedEdit(p.records, c, (x: Course) => x.id, Make, FormOf(c), Text.NatToString(now), EmptyForm);
  }

  /** `handleDelete`: the courses with the id go, the rest stay in order. */
  function Delete(courses: seq<Course>, id: string): (r: seq<Course>)
    ensures forall i :: 0 <= i < |r| ==> r[i].id != id && r[i] in courses
    ensures forall i :: 0 <= i < |courses| && courses[i].id != id ==> courses[i] in r
    ensures |r| == |courses| <==> forall i :: 0 <= i < |courses| ==> courses[i].id != id
  {
    Keyed.Remove(courses, (c: Course) => c.id, id)
  }

  /** Deleting a course splits the list around it: the rest keep their order. */
  lemma DeleteKeepsOrder(before: seq<Course>, c: Course, after: seq<Course>)
    ensures Delete(before + [c] + after, c.id) == Delete(before, c.id) + Delete(after, c.id)
  {
    Keyed.RemoveAround(before, c, after, (x: Course) => x.id, c.id);
  }

  /** Deleting a course that was just added with a fresh id gives back the list. */
  lemma DeleteUndoesAdd(courses: seq<Course>, f: CourseForm, now: nat)
    requires forall i :: 0 <= i < |courses| ==> courses[i].id != Text.NatToString(now)
    ensures Delete(Submit(Records.Page(courses, f, None), now).records, Text.NatToString(now)) == courses
  {
    var id := Text.NatToString(now);
    var added := Submit(Records.Page(courses, f, None), now).records;
    assert added == courses + [Make(id, f)];
    DeleteKeepsOrder(courses, Make(id, f), []);
    assert courses + [Make(id, f)] + [] == added;
    Keyed.KeepAll(courses, Keyed.NotKey((x: Course) => x.id, id));
    assert Delete(courses, id) == courses;
  }

  // ---------------------------------------------------------------------------
  // importDemoData
  // ---------------------------------------------------------------------------

  /** `importDemoData`: two fixed courses are appended. The page reads the clock once
      for each: `t1` and `t2` stand for those two readings of `Date.now()`, and the
      courses get the ids `String(t1)` and `String(t2 + 1)`. */
  function Import(courses: seq<Course>, t1: nat, t2: nat): (r: seq<Course>)
    ensures |r| == |courses| + 2
    ensures r[..|courses|] == courses
    ensures r[|courses|].id == Text.NatToString(t1) && r[|courses| + 1].id == Text.NatToString(t2 + 1)
    ensures r[|courses|].code == "CS201" && r[|courses| + 1].code == "CHEM101"
  {
    courses + [
      Course(Text.NatToString(t1), "CS201", "Data Structures", 4, "Computer Science", 2,
             "Advanced data structures and algorithms"),
      Course(Text.NatToString(t2 + 1), "CHEM101", "General Chemistry", 3, "Chemistry", 1,
             "Basic principles of chemistry")]
  }

  /** The clock never runs backwards between the two readings, so the two imported
      courses never share an id. */
  lemma ImportIdsDiffer(courses: seq<Course>, t1: nat, t2: nat)
    requires t1 <= t2
    ensures Import(courses, t1, t2)[|courses|].id != Import(courses, t1, t2)[|courses| + 1].id
  {
    Text.NatToStringInjective(t1, t2 + 1);
  }
}
