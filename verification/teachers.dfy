/** The teacher records page (src/app/admin/teachers/page.tsx): search, add, edit and a
    demo import; there is no delete. */
module Teachers {
  import opened Wrappers
  import Text
  import Keyed
  import Records

  /** `id` is `Date.now()` for records added on the page. */
  datatype Teacher = Teacher(
    id: int,
    name: string,
    department: string,
    email: string,
    phone: string,
    employeeId: string,
    specialization: string)

  /** The dialog's fields: a teacher without the id. */
  datatype TeacherForm = TeacherForm(
    name: string,
    department: string,
    email: string,
    phone: string,
    employeeId: string,
    specialization: string)

  /** `emptyTeacher`. */
  const EmptyForm: TeacherForm := TeacherForm("", "", "", "", "", "")

  function Make(id: int, f: TeacherForm): Teacher
  {
    Teacher(id, f.name, f.department, f.email, f.phone, f.employeeId, f.specialization)
  }

  function FormOf(t: Teacher): TeacherForm
  {
    TeacherForm(t.name, t.department, t.email, t.phone, t.employeeId, t.specialization)
  }

  type TeachersPage = Records.Page<Teacher, TeacherForm>

  // ---------------------------------------------------------------------------
  // filteredTeachers
  // ---------------------------------------------------------------------------

  predicate Matches(t: Teacher, term: string)
  {
    || Text.ContainsIgnoringCase(t.name, term)
    || Text.ContainsIgnoringCase(t.department, term)
    || Text.ContainsIgnoringCase(t.employeeId, term)
  }

  /** `filteredTeachers`: the teachers whose name, department or employee id contains the
      search term, ignoring case, in list order. */
  function Filter(teachers: seq<Teacher>, term: string): (r: seq<Teacher>)
    ensures forall i :: 0 <= i < |r| ==> r[i] in teachers && Matches(r[i], term)
    ensures forall i :: 0 <= i < |teachers| && Matches(teachers[i], term) ==> teachers[i] in r
  {
    Keyed.Keep(teachers, (t: Teacher) => Matches(t, term))
  }

  /** An empty search shows every teacher. */
  lemma FilterShowsAllByDefault(teachers: seq<Teacher>)
    ensures Filter(teachers, "") == teachers
  {
    forall i | 0 <= i < |teachers|
      ensures Matches(teachers[i], "")
    {
      Text.EmptyTermMatches(teachers[i].name);
    }
    Keyed.KeepAll(teachers, (t: Teacher) => Matches(t, ""));
  }

  // ---------------------------------------------------------------------------
  // handleAddTeacher, handleEditTeacher, handleSaveTeacher
  // ---------------------------------------------------------------------------

  /** `handleAddTeacher`: an empty dialog for a new teacher. */
  function OpenAdd(p: TeachersPage): (r: TeachersPage)
    ensures r.records == p.records && r.form == EmptyForm && r.editing.None?
  {
    Records.Page(p.records, EmptyForm, None)
  }

  /** `handleEditTeacher`: the dialog filled from the teacher. */
  function OpenEdit(p: TeachersPage, t: Teacher): (r: TeachersPage)
    ensures r.records == p.records && r.form == FormOf(t) && r.editing == Some(t)
  {
    Records.Page(p.records, FormOf(t), Some(t))
  }

  /** `handleSaveTeacher`. Editing: the teachers with the edited id take the form's fields
      and keep that id. Adding: a teacher with id `now` (standing for `Date.now()`) goes
      at the end. The dialog is then emptied and editing ends. */
  function Save(p: TeachersPage, now: int): (r: TeachersPage)
    ensures r.form == EmptyForm && r.editing.None?
    ensures p.editing.None? ==>
              && |r.records| == |p.records| + 1
              && r.records[..|p.records|] == p.records
              && r.records[|p.records|].id == now && FormOf(r.records[|p.records|]) == p.form
    ensures p.editing.Some? ==>
              && |r.records| == |p.records|
              && (forall i :: 0 <= i < |p.records| && p.records[i].id != p.editing.value.id ==> r.records[i] == p.records[i])
              && (forall i :: 0 <= i < |p.records| && p.records[i].id == p.editing.value.id ==>
                    r.records[i].id == p.records[i].id && FormOf(r.records[i]) == p.form)
  {
    var r := Records.Save(p, (t: Teacher) => t.id, Make, now, EmptyForm);
    assert p.editing.None? ==> r.records[..|p.records|] == p.records;
    r
  }

  /** Saving an edit without touching the form leaves the list as it was, when ids are
      distinct. */
  lemma SaveUnchangedEdit(p: TeachersPage, t: Teacher, now: int)
    requires t in p.records
    requires forall i, j :: 0 <= i < j < |p.records| ==> p.records[i].id != p.records[j].id
    ensures Save(OpenEdit(p, t), now).records == p.records
  {
    Records.SaveUnchangedEdit(p.records, t, (x: Teacher) => x.id, Make, FormOf(t), now, EmptyForm);
  }

  // ---------------------------------------------------------------------------
  // handleImportDemoData
  // ---------------------------------------------------------------------------

  /** `handleImportDemoData`: two fixed teachers are appended. The page reads the
      clock once for each: `t1` and `t2` stand for those two readings of `Date.now()`, and
      the ids are `t1 + 1` and `t2 + 2`, which differ as long as the clock does not run
      backwards. */
  function Import(teachers: seq<Teacher>, t1: int, t2: int): (r: seq<Teacher>)
    ensures |r| == |teachers| + 2
    ensures r[..|teachers|] == teachers
    ensures r[|teachers|].id == t1 + 1 && r[|teachers| + 1].id == t2 + 2
    ensures t1 <= t2 ==> r[|teachers|].id < r[|teachers| + 1].id
    ensures r[|teachers|].employeeId == "EMP004" && r[|teachers| + 1].employeeId == "EMP005"
  {
    teachers + [
      Teacher(t1 + 1, "Dr. James Anderson", "Biotechnology", "james.anderson@college.edu", "+1234567803",
              "EMP004", "Genetics"),
      Teacher(t2 + 2, "Prof. Lisa Thompson", "Computer Science", "lisa.thompson@college.edu", "+1234567804",
              "EMP005", "Database Systems")]
  }

  // ---------------------------------------------------------------------------
  // Sessions on the page
  // ---------------------------------------------------------------------------

  /** What a user can do on the page; `now`, `t1` and `t2` are readings of the clock. */
  datatype Action =
    | AddClicked
    | EditClicked(t: Teacher)
    | FormTyped(f: TeacherForm)
    | SaveClicked(now: int)
    | ImportClicked(t1: int, t2: int)

  function Step(p: TeachersPage, a: Action): TeachersPage
  {
    match a
    case AddClicked => OpenAdd(p)
    case EditClicked(t) => OpenEdit(p, t)
    case FormTyped(f) => p.(form := f)
    case SaveClicked(now) => Save(p, now)
    case ImportClicked(t1, t2) => Records.Page(Import(p.records, t1, t2), p.form, p.editing)
  }

  function Run(p: TeachersPage, actions: seq<Action>): TeachersPage
    decreases |actions|
  {
    if |actions| == 0 then p else Run(Step(p, actions[0]), actions[1..])
  }

  /** No sequence of actions removes a teacher: the list never gets shorter. */
  lemma {:induction false} RunNeverShrinks(p: TeachersPage, actions: seq<Action>)
    ensures |Run(p, actions).records| >= |p.records|
    decreases |actions|
  {
    if |actions| > 0 {
      RunNeverShrinks(Step(p, actions[0]), actions[1..]);
    }
  }
}
