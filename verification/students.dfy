/** The student records page (src/app/admin/students/page.tsx): search, add, edit and a
    demo import; there is no delete. */
module Students {
  import opened Wrappers
  import Text
  import Keyed
  import Records

  /** `id` is `Date.now()` for records added on the page. */
  datatype Student = Student(
    id: int,
    name: string,
    rollNumber: string,
    department: string,
    year: string,
    section: string,
    rfidTag: string,
    email: string,
    phone: string)

  /** The dialog's fields: a student without the id. */
  datatype StudentForm = StudentForm(
    name: string,
    rollNumber: string,
    department: string,
    year: string,
    section: string,
    rfidTag: string,
    email: string,
    phone: string)

  /** `emptyStudent`. */
  const EmptyForm: StudentForm := StudentForm("", "", "", "", "", "", "", "")

  function Make(id: int, f: StudentForm): Student
  {
    Student(id, f.name, f.rollNumber, f.department, f.year, f.section, f.rfidTag, f.email, f.phone)
  }

  function FormOf(s: Student): StudentForm
  {
    StudentForm(s.name, s.rollNumber, s.department, s.year, s.section, s.rfidTag, s.email, s.phone)
  }

  type StudentsPage = Records.Page<Student, StudentForm>

  // ---------------------------------------------------------------------------
  // filteredStudents
  // ---------------------------------------------------------------------------

  predicate Matches(s: Student, term: string)
  {
    || Text.ContainsIgnoringCase(s.name, term)
    || Text.ContainsIgnoringCase(s.rollNumber, term)
    || Text.ContainsIgnoringCase(s.department, term)
  }

  /** `filteredStudents`: the students whose name, roll number or department contains the
      search term, ignoring case, in list order. */
  function Filter(students: seq<Student>, term: string): (r: seq<Student>)
    ensures forall i :: 0 <= i < |r| ==> r[i] in students && Matches(r[i], term)
    ensures forall i :: 0 <= i < |students| && Matches(students[i], term) ==> students[i] in r
  {
    Keyed.Keep(students, (s: Student) => Matches(s, term))
  }

  /** An empty search shows every student. */
  lemma FilterShowsAllByDefault(students: seq<Student>)
    ensures Filter(students, "") == students
  {
    forall i | 0 <= i < |students|
      ensures Matches(students[i], "")
    {
      Text.EmptyTermMatches(students[i].name);
    }
    Keyed.KeepAll(students, (s: Student) => Matches(s, ""));
  }

  // ---------------------------------------------------------------------------
  // handleAddStudent, handleEditStudent, handleSaveStudent
  // ---------------------------------------------------------------------------

  /** `handleAddStudent`: an empty dialog for a new student. */
  function OpenAdd(p: StudentsPage): (r: StudentsPage)
    ensures r.records == p.records && r.form == EmptyForm && r.editing.None?
  {
    Records.Page(p.records, EmptyForm, None)
  }

  /** `handleEditStudent`: the dialog filled from the student. */
  function OpenEdit(p: StudentsPage, s: Student): (r: StudentsPage)
    ensures r.records == p.records && r.form == FormOf(s) && r.editing == Some(s)
  {
    Records.Page(p.records, FormOf(s), Some(s))
  }

  /** `handleSaveStudent`. Editing: the students with the edited id take the form's fields
      and keep that id. Adding: a student with id `now` (standing for `Date.now()`) goes
      at the end. The dialog is then emptied and editing ends. */
  function Save(p: StudentsPage, now: int): (r: StudentsPage)
    ensures r.form == EmptyForm && r.editing.None?
    ensures p.editing.None? ==>
              && |r.records| == |p.records| + 1
              && r.records[..|p.records|] == p.records
              && r.records[|p.records|].id == now && FormOf(r.records[|p.records|]) == p.form
    ensures p.editing.Some? ==>
              && |r.records| == |p.records|
              && (forall i :: 0 <= i < |p.records| && p.records[i].id != p.editing.value.id ==> r.records[i] == p.records[i])
              && (forall i :: 0 <= i < |p.records| && p.records[i].id == p.editing.value.id ==>
                    r.records[i].id == p.records[i].id && FormOf(r.records[i]) == p.form)
  {
    var r := Records.Save(p, (s: Student) => s.id, Make, now, EmptyForm);
    assert p.editing.None? ==> r.records[..|p.records|] == p.records;
    r
  }

  /** Saving an edit without touching the form leaves the list as it was, when ids are
      distinct. */
  lemma SaveUnchangedEdit(p: StudentsPage, s: Student, now: int)
    requires s in p.records
    requires forall i, j :: 0 <= i < j < |p.records| ==> p.records[i].id != p.records[j].id
    ensures Save(OpenEdit(p, s), now).records == p.records
  {
    Records.SaveUnchangedEdit(p.records, s, (x: Student) => x.id, Make, FormOf(s), now, EmptyForm);
  }

  // ---------------------------------------------------------------------------
  // handleImportDemoData
  // ---------------------------------------------------------------------------

  /** `handleImportDemoData`: two fixed students are appended. The page reads the
      clock once for each: `t1` and `t2` stand for those two readings of `Date.now()`, and
      the ids are `t1 + 1` and `t2 + 2`, which differ as long as the clock does not run
      backwards. */
  function Import(students: seq<Student>, t1: int, t2: int): (r: seq<Student>)
    ensures |r| == |students| + 2
    ensures r[..|students|] == students
    ensures r[|students|].id == t1 + 1 && r[|students| + 1].id == t2 + 2
    ensures t1 <= t2 ==> r[|students|].id < r[|students| + 1].id
    ensures r[|students|].name == "David Wilson" && r[|students| + 1].name == "Emma Brown"
  {
    students + [
      Student(t1 + 1, "David Wilson", "CS2022004", "Computer Science", "2nd Year", "B", "RFID001237",
              "david.wilson@college.edu", "+1234567893"),
      Student(t2 + 2, "Emma Brown", "BT2022005", "Biotechnology", "1st Year", "A", "RFID001238",
              "emma.brown@college.edu", "+1234567894")]
  }

  // ---------------------------------------------------------------------------
  // Sessions on the page
  // ---------------------------------------------------------------------------

  /** What a user can do on the page; `now`, `t1` and `t2` are readings of the clock. */
  datatype Action =
    | AddClicked
    | EditClicked(s: Student)
    | FormTyped(f: StudentForm)
    | SaveClicked(now: int)
    | ImportClicked(t1: int, t2: int)

  function Step(p: StudentsPage, a: Action): StudentsPage
  {
    match a
    case AddClicked => OpenAdd(p)
    case EditClicked(s) => OpenEdit(p, s)
    case FormTyped(f) => p.(form := f)
    case SaveClicked(now) => Save(p, now)
    case ImportClicked(t1, t2) => Records.Page(Import(p.records, t1, t2), p.form, p.editing)
  }

  function Run(p: StudentsPage, actions: seq<Action>): StudentsPage
    decreases |actions|
  {
    if |actions| == 0 then p else Run(Step(p, actions[0]), actions[1..])
  }

  /** No sequence of actions removes a student: the list never gets shorter. */
  lemma {:induction false} RunNeverShrinks(p: StudentsPage, actions: seq<Action>)
    ensures |Run(p, actions).records| >= |p.records|
    decreases |actions|
  {
    if |actions| > 0 {
      RunNeverShrinks(Step(p, actions[0]), actions[1..]);
    }
  }
}
