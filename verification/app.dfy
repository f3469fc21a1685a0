/** The application shell (`src/App.tsx`): the record builders behind the add
    and edit handlers, the editing cursor, and a form submission carried
    through to the roster. The course id that `parseInt` reads off the form, the
    `Date.now()` id and the ISO enrollment time come in as parameters. */
module App {
  import opened Wrappers
  import opened Types
  import Catalog
  import Roster
  import Patterns
  import Text
  import StudentForm

  /** The state the shell holds: the roster store, the record being edited (if
      any) and the loaded catalog. */
  datatype AppState = AppState(store: Roster.Store, editing: Option<Student>, courses: seq<Course>)

  /** The record `handleAddStudent` builds: the form's text fields, the parsed
      course id with the catalog's name for it (`""` when the catalog has none),
      the uploaded image's URL, and the supplied id and enrollment time. */
  function NewStudent(sub: Submission, courses: seq<Course>, newId: string, courseId: int, enrolledAt: string): (s: Student)
    ensures s.id == newId && s.enrollmentDate == enrolledAt
    ensures s.studentId == sub.form.studentId && s.name == sub.form.name
    ensures s.email == sub.form.email && s.phone == sub.form.phone && s.isActive == sub.form.isActive
    ensures s.courseId == courseId && s.profileImage == sub.profileImageUrl
    ensures (forall i :: 0 <= i < |courses| ==> courses[i].id != courseId) ==> s.courseName == ""
    ensures Catalog.FindCourse(courses, courseId).Some? ==>
              s.courseName == Catalog.FindCourse(courses, courseId).value.name
  {
    Student(newId, sub.form.studentId, sub.form.name, sub.form.email, sub.form.phone,
            courseId, Catalog.CourseNameFor(courses, courseId), sub.profileImageUrl,
            sub.form.isActive, enrolledAt)
  }

  /** The record `handleEditStudent` builds from the one being edited: it keeps
      `id` and `enrollmentDate`, takes the form's fields and the catalog name,
      and keeps the old image when no new one was uploaded (an empty URL). */
  function EditedStudent(prev: Student, sub: Submission, courses: seq<Course>, courseId: int): (s: Student)
    ensures s.id == prev.id && s.enrollmentDate == prev.enrollmentDate
    ensures s.studentId == sub.form.studentId && s.name == sub.form.name
    ensures s.email == sub.form.email && s.phone == sub.form.phone && s.isActive == sub.form.isActive
    ensures s.courseId == courseId && s.courseName == Catalog.CourseNameFor(courses, courseId)
    ensures sub.profileImageUrl == "" ==> s.profileImage == prev.profileImage
    ensures sub.profileImageUrl != "" ==> s.profileImage == sub.profileImageUrl
  {
    var image := if sub.profileImageUrl != "" then sub.profileImageUrl else prev.profileImage;
    prev.(studentId := sub.form.studentId, name := sub.form.name, email := sub.form.email,
         phone := sub.form.phone, courseId := courseId,
         courseName := Catalog.CourseNameFor(courses, courseId),
         profileImage := image, isActive := sub.form.isActive)
  }

  /** `handleAddStudent`: appends the built record to the roster; the cursor, the
      editing record and the catalog stay as they were. */
  function HandleAddStudent(app: AppState, sub: Submission, newId: string, courseId: int, enrolledAt: string): (r: AppState)
    ensures r.store.students == app.store.students + [NewStudent(sub, app.courses, newId, courseId, enrolledAt)]
    ensures r.store.selectedCourseId == app.store.selectedCourseId
    ensures r.editing == app.editing && r.courses == app.courses
  {
    var s := NewStudent(sub, app.courses, newId, courseId, enrolledAt);
    app.(store := app.store.(students := Roster.AddStudent(app.store.students, s)))
  }

  /** `handleEditStudent`: without a record being edited nothing happens;
      otherwise every record with the edited record's `id` is replaced by the
      rebuilt one, the rest stay, and editing ends. */
  function HandleEditStudent(app: AppState, sub: Submission, courseId: int): (r: AppState)
    ensures app.editing.None? ==> r == app
    ensures app.editing.Some? ==> r.editing.None? && r.courses == app.courses
    ensures app.editing.Some? ==> r.store.selectedCourseId == app.store.selectedCourseId
    ensures app.editing.Some? ==> |r.store.students| == |app.store.students|
    ensures app.editing.Some? ==> forall i :: 0 <= i < |app.store.students| ==>
              r.store.students[i] ==
                if app.store.students[i].id == app.editing.value.id
                then EditedStudent(app.editing.value, sub, app.courses, courseId)
                else app.store.students[i]
  {
    match app.editing
    case None => app
    case Some(e) =>
      var u := EditedStudent(e, sub, app.courses, courseId);
      AppState(app.store.(students := Roster.UpdateStudent(app.store.students, u)), None, app.courses)
  }

  /** `handleStartEdit`: the chosen record becomes the one being edited. */
  function HandleStartEdit(app: AppState, s: Student): (r: AppState)
    ensures r.editing == Some(s) && r.store == app.store && r.courses == app.courses
  {
    app.(editing := Some(s))
  }

  /** Editing a record of the roster and submitting leaves exactly that record
      changed (ids being unique): looking its id up yields the rebuilt record,
      which still has its id and enrollment date. */
  lemma StartEditThenSubmit(app: AppState, i: int, sub: Submission, courseId: int)
    requires Roster.UniqueIds(app.store.students)
    requires 0 <= i < |app.store.students|
    ensures var s := app.store.students[i];
      var r := HandleEditStudent(HandleStartEdit(app, s), sub, courseId);
      && Roster.FindById(r.store.students, s.id) == Some(EditedStudent(s, sub, app.courses, courseId))
      && Roster.UniqueIds(r.store.students)
      && (forall j :: 0 <= j < |app.store.students| && j != i ==> r.store.students[j] == app.store.students[j])
  {
    var s := app.store.students[i];
    var u := EditedStudent(s, sub, app.courses, courseId);
    Roster.UpdateKeepsIds(app.store.students, u);
    Roster.UpdateThenFind(app.store.students, u, i);
  }

  /** Adding a record with a fresh id makes it retrievable by that id. */
  lemma AddThenFind(app: AppState, sub: Submission, newId: string, courseId: int, enrolledAt: string)
    requires forall i :: 0 <= i < |app.store.students| ==> app.store.students[i].id != newId
    ensures Roster.FindById(HandleAddStudent(app, sub, newId, courseId, enrolledAt).store.students, newId)
         == Some(NewStudent(sub, app.courses, newId, courseId, enrolledAt))
  {
    var s := NewStudent(sub, app.courses, newId, courseId, enrolledAt);
    var students := app.store.students + [s];
    var r := Roster.FindById(students, newId);
    assert students[|app.store.students|] == s;
    assert r.Some?;
  }

  // ---------------------------------------------------------------------------
  // A submission carried through to the roster

  /** One press of the submit button: the form validates and, when it passes,
      hands its data to the edit handler if a record is being edited and to
      the add handler otherwise (`isEdit` is `!!editingStudent`). */
  function SubmitForm(app: AppState, form: StudentForm.FormState, uploadUrl: string,
                      newId: string, courseId: int, enrolledAt: string): (r: (AppState, StudentForm.FormState))
    ensures !StudentForm.FormIsValid(form.data, app.editing.Some?) ==> r.0 == app
    ensures StudentForm.FormIsValid(form.data, app.editing.Some?) && app.editing.None? ==>
              |r.0.store.students| == |app.store.students| + 1
    ensures StudentForm.FormIsValid(form.data, app.editing.Some?) && app.editing.Some? ==>
              |r.0.store.students| == |app.store.students| && r.0.editing.None?
    ensures !StudentForm.FormIsValid(form.data, app.editing.Some?) ==>
              r.1 == form.(errors := StudentForm.ValidateForm(form.data, app.editing.Some?))
    ensures StudentForm.FormIsValid(form.data, app.editing.Some?) && app.editing.None? ==>
              && r.0.store.students == app.store.students
                   + [NewStudent(Submission(form.data, uploadUrl), app.courses, newId, courseId, enrolledAt)]
              && r.0.editing == app.editing && r.0.courses == app.courses
              && r.0.store.selectedCourseId == app.store.selectedCourseId
              && r.0 == HandleAddStudent(app, Submission(form.data, uploadUrl), newId, courseId, enrolledAt)
              && r.1 == StudentForm.InitialAddForm
    ensures StudentForm.FormIsValid(form.data, app.editing.Some?) && app.editing.Some? ==>
              && r.0 == HandleEditStudent(app, Submission(form.data,
                          if form.data.profileImage.Some? then uploadUrl else ""), courseId)
              && r.1 == form.(errors := map[])
  {
    var isEdit := app.editing.Some?;
    var outcome := StudentForm.HandleSubmit(form, isEdit, uploadUrl);
    match outcome.submitted
    case None => (app, outcome.state)
    case Some(sub) =>
      if isEdit then (HandleEditStudent(app, sub, courseId), outcome.state)
      else (HandleAddStudent(app, sub, newId, courseId, enrolledAt), outcome.state)
  }

  /** A record added through the form carries a non-blank student id and name,
      an address matching the e-mail pattern, a phone number matching the phone
      pattern, and the URL of the picture that had to be picked. */
  lemma SubmittedRecordPassedValidation(app: AppState, form: StudentForm.FormState, uploadUrl: string,
                                        newId: string, courseId: int, enrolledAt: string)
    requires app.editing.None?
    requires StudentForm.FormIsValid(form.data, false)
    ensures var r := SubmitForm(app, form, uploadUrl, newId, courseId, enrolledAt).0;
      var s := r.store.students[|app.store.students|];
      && !Text.IsBlank(s.studentId) && !Text.IsBlank(s.name)
      && Patterns.MatchesEmailPattern(s.email)
      && Patterns.MatchesPhonePattern(Text.RemoveWhitespace(s.phone))
      && s.profileImage == uploadUrl
      && s.id == newId
  {
    var outcome := StudentForm.HandleSubmit(form, false, uploadUrl);
    assert outcome.submitted == Some(Submission(form.data, uploadUrl));
  }
}
