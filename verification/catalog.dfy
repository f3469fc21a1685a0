/** The course catalog (`src/services/mockApi.ts`) and the first-match lookup
    (`Array.prototype.find`) the form handlers and the course filter use on it. */
module Catalog {
  import opened Wrappers
  import opened Types
  import Seqs

  /** The ids of `courses`, in order. */
  function Ids(courses: seq<Course>): (r: seq<int>)
    ensures |r| == |courses|
    ensures forall i :: 0 <= i < |courses| ==> r[i] == courses[i].id
  {
    if |courses| == 0 then [] else [courses[0].id] + Ids(courses[1..])
  }

  /** The value `fetchCourses` resolves to once its simulated delay has passed. */
  function FetchCourses(): (r: seq<Course>)
    ensures |r| == 4
    ensures Seqs.NoDup(Ids(r))
    ensures forall i :: 0 <= i < |r| ==> r[i].id == i + 1
  {
    [Course(1, "HTML Basics"), Course(2, "CSS Mastery"),
     Course(3, "JavaScript Pro"), Course(4, "React In Depth")]
  }

  /** The first course whose id is `id`, if any (`courses.find(c => c.id === id)`). */
  function FindCourse(courses: seq<Course>, id: int): (r: Option<Course>)
    ensures r.None? <==> forall i :: 0 <= i < |courses| ==> courses[i].id != id
    ensures r.Some? ==> exists i :: 0 <= i < |courses| && courses[i] == r.value
                                   && (forall j :: 0 <= j < i ==> courses[j].id != id)
    ensures r.Some? ==> r.value.id == id
  {
    Seqs.FindFirst(courses, CourseKey, id)
  }

  /** The name of the first course with id `id`, or `""` when none has it
      (`course?.name || ''`; the `|| ''` only matters when there is no course,
      since a course named `""` yields `""` either way). */
  function CourseNameFor(courses: seq<Course>, id: int): (r: string)
    ensures FindCourse(courses, id).Some? ==> r == FindCourse(courses, id).value.name
    ensures (forall i :: 0 <= i < |courses| ==> courses[i].id != id) ==> r == ""
  {
    match FindCourse(courses, id)
    case Some(c) => c.name
    case None => ""
  }

  /** With the fixed catalog, ids 1 to 4 name the four courses and every other id
      names nothing. */
  lemma CatalogNames(id: int)
    ensures CourseNameFor(FetchCourses(), id) ==
      if id == 1 then "HTML Basics"
      else if id == 2 then "CSS Mastery"
      else if id == 3 then "JavaScript Pro"
      else if id == 4 then "React In Depth"
      else ""
  {
    var cs := FetchCourses();
    if 1 <= id <= 4 {
      assert cs[id - 1].id == id;
      assert forall j :: 0 <= j < id - 1 ==> cs[j].id != id;
    }
  }

  /** Before the catalog has loaded (`courses` is still `[]`), every name is `""`. */
  lemma EmptyCatalogNamesNothing(id: int)
    ensures CourseNameFor([], id) == ""
  {
  }
}
