/** The course filter view (`src/components/Courses/CourseFilter.tsx`): its own
    per-course filter, the list it renders under a truthiness test of the
    cursor, the counts on its buttons, the banner for the selected course
    and the empty-state message. */
module CourseFilter {
  import opened Wrappers
  import opened Types
  import Seqs
  import Catalog
  import Roster

  /** Whether the cursor counts as a selection in a truthiness test: `null` and
      the course id `0` do not. */
  function IsSelected(cursor: Option<int>): (b: bool)
    ensures b <==> cursor !in {None, Some(0)}
  {
    cursor.Some? && cursor.value != 0
  }

  /** `getStudentsByCourse`: the records of one course, in roster order. */
  function GetStudentsByCourse(all: seq<Student>, courseId: int): (r: seq<Student>)
    ensures |r| == Seqs.CountOf(all, CourseIdOf, courseId)
    ensures forall i :: 0 <= i < |r| ==> r[i].courseId == courseId && r[i] in all
    ensures forall i :: 0 <= i < |all| && all[i].courseId == courseId ==> all[i] in r
    ensures exists idx :: Seqs.IsEmbedding(r, all, idx)
                       && (forall j :: 0 <= j < |all| ==> (all[j].courseId == courseId <==> j in idx))
  {
    Seqs.FilterKeyLength(all, CourseIdOf, courseId);
    Seqs.FilterKeySelectsInOrder(all, CourseIdOf, courseId);
    assert forall j :: 0 <= j < |all| ==> CourseIdOf(all[j]) == all[j].courseId;
    Seqs.FilterKey(all, CourseIdOf, courseId)
  }

  /** The list the view renders: every record unless the cursor is truthy, and
      then the records of the selected course. */
  function FilteredStudents(all: seq<Student>, cursor: Option<int>): (r: seq<Student>)
    ensures !IsSelected(cursor) ==> r == all
    ensures IsSelected(cursor) ==> |r| == Seqs.CountOf(all, CourseIdOf, cursor.value)
    ensures IsSelected(cursor) ==> forall i :: 0 <= i < |r| ==> r[i].courseId == cursor.value
  {
    if IsSelected(cursor) then GetStudentsByCourse(all, cursor.value) else all
  }

  /** The view's list agrees with the store's filtered list except when the cursor
      is the id `0` (falsy here, compared with `=== null` there) and some record
      lies outside course `0`. */
  lemma ViewAgreesWithStore(all: seq<Student>, cursor: Option<int>)
    ensures FilteredStudents(all, cursor) == Roster.FilteredStudents(Roster.Store(all, cursor))
        <==> !(cursor == Some(0) && exists i :: 0 <= i < |all| && all[i].courseId != 0)
  {
    if cursor == Some(0) {
      var stored := Roster.FilteredStudents(Roster.Store(all, cursor));
      Seqs.CountOfExtremes(all, CourseIdOf, 0);
      if forall i :: 0 <= i < |all| ==> all[i].courseId == 0 {
        Seqs.FilterKeyAll(all, CourseIdOf, 0);
      } else {
        assert |stored| != |all|;
      }
    }
  }

  /** With the fixed catalog every course id is truthy, so pressing a course
      button makes the view and the store show the same records. */
  lemma CatalogButtonsAgreeWithStore(all: seq<Student>, i: int)
    requires 0 <= i < |Catalog.FetchCourses()|
    ensures var c := Some(Catalog.FetchCourses()[i].id);
      FilteredStudents(all, c) == Roster.FilteredStudents(Roster.Store(all, c))
  {
    ViewAgreesWithStore(all, Some(Catalog.FetchCourses()[i].id));
  }

  // ---------------------------------------------------------------------------
  // Button labels

  /** A filter button: the caption and the number shown in parentheses. */
  datatype Button = Button(caption: string, count: nat)

  /** The "All Courses" button, counting every record. */
  function AllCoursesButton(all: seq<Student>): (b: Button)
    ensures b.count == |all|
  {
    Button("All Courses", |all|)
  }

  /** One button per course, in catalog order, each counting that course's records. */
  function CourseButtons(all: seq<Student>, courses: seq<Course>): (bs: seq<Button>)
    ensures |bs| == |courses|
    ensures forall i :: 0 <= i < |courses| ==>
              bs[i].caption == courses[i].name && bs[i].count == Seqs.CountOf(all, CourseIdOf, courses[i].id)
  {
    if |courses| == 0 then []
    else
      [Button(courses[0].name, |GetStudentsByCourse(all, courses[0].id)|)] + CourseButtons(all, courses[1..])
  }

  /** The total of the counts on `bs`. */
  function SumOfCounts(bs: seq<Button>): nat {
    if |bs| == 0 then 0 else bs[0].count + SumOfCounts(bs[1..])
  }

  /** The course buttons' counts sum to the per-course counts over the catalog's ids. */
  lemma {:induction false} CourseButtonsSum(all: seq<Student>, courses: seq<Course>)
    ensures SumOfCounts(CourseButtons(all, courses)) == Seqs.SumCounts(all, CourseIdOf, Catalog.Ids(courses))
  {
    if |courses| > 0 {
      CourseButtonsSum(all, courses[1..]);
      assert Catalog.Ids(courses)[1..] == Catalog.Ids(courses[1..]);
      assert CourseButtons(all, courses)[1..] == CourseButtons(all, courses[1..]);
    }
  }

  /** With distinct course ids the course buttons never count more than the "All
      Courses" button, and they count exactly as many precisely when every record
      belongs to a listed course. */
  lemma CourseButtonsCoverAll(all: seq<Student>, courses: seq<Course>)
    requires Seqs.NoDup(Catalog.Ids(courses))
    ensures SumOfCounts(CourseButtons(all, courses)) <= AllCoursesButton(all).count
    ensures SumOfCounts(CourseButtons(all, courses)) == AllCoursesButton(all).count
        <==> forall i :: 0 <= i < |all| ==> all[i].courseId in Catalog.Ids(courses)
  {
    CourseButtonsSum(all, courses);
    Seqs.SumCountsCoverage(all, CourseIdOf, Catalog.Ids(courses));
  }

  /** A course button's count is the length of the list that pressing it shows. */
  lemma ButtonCountMatchesList(all: seq<Student>, courses: seq<Course>, i: int)
    requires 0 <= i < |courses|
    requires courses[i].id != 0
    ensures CourseButtons(all, courses)[i].count == |FilteredStudents(all, Some(courses[i].id))|
  {
  }

  /** The condition above is needed: a course with id `0` counts only its own
      records on its button, but pressing it selects the falsy `0`, so every
      record is shown. */
  lemma ZeroIdButtonDisagrees(s: Student)
    requires s.courseId == 1
    ensures CourseButtons([s], [Course(0, "Zero")])[0].count == 0
    ensures |FilteredStudents([s], Some(0))| == 1
  {
    assert Seqs.CountOf([s], CourseIdOf, 0) == 0 by {
      Seqs.CountOfExtremes([s], CourseIdOf, 0);
    }
  }

  // ---------------------------------------------------------------------------
  // Banner and empty state

  /** The banner shown above the list while a course is selected: how many
      records are shown and the selected course's name (absent when the catalog
      has no such course). */
  datatype Banner = Banner(shown: nat, courseName: Option<string>)

  /** The banner, if the cursor is truthy. */
  function SelectionBanner(all: seq<Student>, courses: seq<Course>, cursor: Option<int>): (r: Option<Banner>)
    ensures r.Some? <==> IsSelected(cursor)
    ensures r.Some? ==> r.value.shown == |FilteredStudents(all, cursor)|
    ensures r.Some? ==> r.value.shown == Seqs.CountOf(all, CourseIdOf, cursor.value)
    ensures r.Some? ==>
              (r.value.courseName.None? <==> forall i :: 0 <= i < |courses| ==> courses[i].id != cursor.value)
    ensures r.Some? && r.value.courseName.Some? ==>
              exists i :: 0 <= i < |courses| && courses[i].id == cursor.value && courses[i].name == r.value.courseName.value
                       && (forall j :: 0 <= j < i ==> courses[j].id != cursor.value)
  {
    if !IsSelected(cursor) then None
    else
      var name := match Catalog.FindCourse(courses, cursor.value)
        case Some(c) => Some(c.name)
        case None => None;
      Some(Banner(|FilteredStudents(all, cursor)|, name))
  }

  const NoStudentsInCourse := "No students are enrolled in this course yet."
  const NoStudentsAtAll := "Add some students to get started."

  /** The empty-state message, shown exactly when the rendered list is empty. */
  function EmptyState(all: seq<Student>, cursor: Option<int>): (r: Option<string>)
    ensures r.Some? <==> |FilteredStudents(all, cursor)| == 0
    ensures r.Some? ==> r.value == if IsSelected(cursor) then NoStudentsInCourse else NoStudentsAtAll
  {
    if |FilteredStudents(all, cursor)| != 0 then None
    else if IsSelected(cursor) then Some(NoStudentsInCourse)
    else Some(NoStudentsAtAll)
  }

  /** Which message appears, in terms of the roster: with a course selected, the
      course message appears exactly when no record is in that course; otherwise
      the "add some" message appears exactly when the roster is empty. */
  lemma EmptyStateCases(all: seq<Student>, cursor: Option<int>)
    ensures IsSelected(cursor) ==>
              (EmptyState(all, cursor) == Some(NoStudentsInCourse)
               <==> forall i :: 0 <= i < |all| ==> all[i].courseId != cursor.value)
    ensures !IsSelected(cursor) ==> (EmptyState(all, cursor) == Some(NoStudentsAtAll) <==> |all| == 0)
  {
    if IsSelected(cursor) {
      Seqs.CountOfExtremes(all, CourseIdOf, cursor.value);
    }
  }
}
