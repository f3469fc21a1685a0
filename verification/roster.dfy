/** The roster store (`src/hooks/useStudents.ts`): the ordered student records,
    the course cursor, the filtered view and the analytics derived from them,
    and the three always-succeeding transformations of the records. */
module Roster {
  import opened Wrappers
  import opened Types
  import Seqs

  /** The store's state: the records in insertion order and the selected course. */
  datatype Store = Store(students: seq<Student>, selectedCourseId: Option<int>)

  /** The derived counts: how many records, how many active and inactive, and how
      many bear each course name. */
  datatype Analytics = Analytics(
    totalStudents: nat,
    activeStudents: nat,
    inactiveStudents: nat,
    courseStats: map<string, nat>
  )

  /** The two records the store is seeded with. */
  const MockStudents: seq<Student> := [
    Student("1", "STU001", "Sarah Johnson", "sarah.johnson@email.com", "+1 (555) 123-4567",
            4, "React In Depth",
            "https://images.pexels.com/photos/774909/pexels-photo-774909.jpeg?auto=compress&cs=tinysrgb&w=150&h=150&fit=crop",
            true, "2024-01-15"),
    Student("2", "STU002", "Michael Chen", "michael.chen@email.com", "+1 (555) 234-5678",
            3, "JavaScript Pro",
            "https://images.pexels.com/photos/1239291/pexels-photo-1239291.jpeg?auto=compress&cs=tinysrgb&w=150&h=150&fit=crop",
            true, "2024-02-01")
  ]

  /** The store as first rendered: the seed records and no course selected. */
  const InitialStore: Store := Store(MockStudents, None)

  /** The `id`s of the records, in roster order. */
  function IdList(students: seq<Student>): (r: seq<string>)
    ensures |r| == |students|
    ensures forall i :: 0 <= i < |students| ==> r[i] == students[i].id
  {
    seq(|students|, i requires 0 <= i < |students| => students[i].id)
  }

  /** No two records share an `id`. */
  predicate UniqueIds(students: seq<Student>) {
    Seqs.NoDup(IdList(students))
  }

  // ---------------------------------------------------------------------------
  // Derived reads

  /** The view the store publishes as `students`: every record when no course is
      selected, otherwise the records of the selected course in roster order. */
  function FilteredStudents(st: Store): (r: seq<Student>)
    ensures st.selectedCourseId.None? ==> r == st.students
    ensures st.selectedCourseId.Some? ==>
              |r| == Seqs.CountOf(st.students, CourseIdOf, st.selectedCourseId.value)
    ensures st.selectedCourseId.Some? ==> forall i :: 0 <= i < |r| ==>
              r[i].courseId == st.selectedCourseId.value && r[i] in st.students
    ensures st.selectedCourseId.Some? ==> forall i :: 0 <= i < |st.students| ==>
              st.students[i].courseId == st.selectedCourseId.value ==> st.students[i] in r
  {
    match st.selectedCourseId
    case None => st.students
    case Some(c) =>
      Seqs.FilterKeyLength(st.students, CourseIdOf, c);
      Seqs.FilterKey(st.students, CourseIdOf, c)
  }

  /** The analytics of a list of records. */
  function ComputeAnalytics(students: seq<Student>): (a: Analytics)
    ensures a.totalStudents == |students|
    ensures a.activeStudents + a.inactiveStudents == a.totalStudents
    ensures a.activeStudents == Seqs.CountOf(students, IsActiveOf, true)
    ensures a.inactiveStudents == Seqs.CountOf(students, IsActiveOf, false)
    ensures a.courseStats.Keys == Seqs.KeySet(students, CourseNameOf)
    ensures forall n :: n in a.courseStats ==>
              a.courseStats[n] == Seqs.CountOf(students, CourseNameOf, n) && a.courseStats[n] >= 1
  {
    var total := |students|;
    var active := |Seqs.FilterKey(students, IsActiveOf, true)|;
    Seqs.FilterKeyLength(students, IsActiveOf, true);
    Seqs.BoolCountsPartition(students, IsActiveOf);
    Seqs.TallyFromEmpty(students, CourseNameOf);
    Analytics(total, active, total - active, Seqs.Tally(map[], students, CourseNameOf))
  }

  /** The analytics the store publishes: computed from every record, whatever the cursor. */
  function StoreAnalytics(st: Store): (a: Analytics)
    ensures a.totalStudents == |st.students|
    ensures a.activeStudents == Seqs.CountOf(st.students, IsActiveOf, true)
    ensures a.inactiveStudents == Seqs.CountOf(st.students, IsActiveOf, false)
    ensures a.courseStats.Keys == Seqs.KeySet(st.students, CourseNameOf)
    ensures forall n :: n in a.courseStats ==> a.courseStats[n] == Seqs.CountOf(st.students, CourseNameOf, n)
  {
    ComputeAnalytics(st.students)
  }

  /** The first record with identity `id`, if any. */
  function FindById(students: seq<Student>, id: string): (r: Option<Student>)
    ensures r.None? <==> forall i :: 0 <= i < |students| ==> students[i].id != id
    ensures r.Some? ==> exists i :: 0 <= i < |students| && students[i] == r.value
                                   && (forall j :: 0 <= j < i ==> students[j].id != id)
    ensures r.Some? ==> r.value.id == id
  {
    Seqs.FindFirst(students, IdOf, id)
  }

  // ---------------------------------------------------------------------------
  // Transformations

  /** `addStudent`: the new record goes last; the earlier ones stay as they were. */
  function AddStudent(students: seq<Student>, s: Student): (r: seq<Student>)
    ensures |r| == |students| + 1
    ensures r[|students|] == s
    ensures r[..|students|] == students
  {
    students + [s]
  }

  /** `updateStudent`: every record whose `id` is `u.id` becomes `u`, in place. */
  function UpdateStudent(students: seq<Student>, u: Student): (r: seq<Student>)
    ensures |r| == |students|
    ensures forall i :: 0 <= i < |students| ==>
              r[i] == if students[i].id == u.id then u else students[i]
  {
    if |students| == 0 then []
    else [if students[0].id == u.id then u else students[0]] + UpdateStudent(students[1..], u)
  }

  /** A record with its active flag negated. */
  function Toggled(s: Student): (r: Student)
    ensures r.isActive == !s.isActive
    ensures r.(isActive := s.isActive) == s
  {
    s.(isActive := !s.isActive)
  }

  /** `toggleStudentStatus`: records whose `id` is `id` get their active flag
      negated; nothing else changes. */
  function ToggleStudentStatus(students: seq<Student>, id: string): (r: seq<Student>)
    ensures |r| == |students|
    ensures forall i :: 0 <= i < |students| ==>
              r[i] == if students[i].id == id then Toggled(students[i]) else students[i]
  {
    if |students| == 0 then []
    else
      [if students[0].id == id then Toggled(students[0]) else students[0]]
        + ToggleStudentStatus(students[1..], id)
  }

  /** A series of `addStudent` calls, in order. */
  function AddAll(students: seq<Student>, news: seq<Student>): (r: seq<Student>)
    decreases |news|
  {
    if |news| == 0 then students else AddAll(AddStudent(students, news[0]), news[1..])
  }

  // ---------------------------------------------------------------------------
  // Properties of the derived reads

  /** With a course selected, the view is exactly the records of that course,
      taken in roster order. */
  lemma FilteredSelectsInOrder(st: Store, c: int)
    requires st.selectedCourseId == Some(c)
    ensures exists idx :: Seqs.IsEmbedding(FilteredStudents(st), st.students, idx)
                       && (forall j :: 0 <= j < |st.students| ==>
                             (st.students[j].courseId == c <==> j in idx))
  {
    var idx := Seqs.MatchPositions(st.students, CourseIdOf, c);
    Seqs.MatchPositionsEmbed(st.students, CourseIdOf, c);
    Seqs.MatchPositionsExact(st.students, CourseIdOf, c);
    assert FilteredStudents(st) == Seqs.FilterKey(st.students, CourseIdOf, c);
    assert forall j :: 0 <= j < |st.students| ==> CourseIdOf(st.students[j]) == st.students[j].courseId;
    assert Seqs.IsEmbedding(FilteredStudents(st), st.students, idx);
  }

  /** With a course selected, the view is empty exactly when no record is in that course. */
  lemma FilteredEmptyIffNoMatch(st: Store, c: int)
    requires st.selectedCourseId == Some(c)
    ensures |FilteredStudents(st)| == 0 <==> forall i :: 0 <= i < |st.students| ==> st.students[i].courseId != c
  {
    Seqs.CountOfExtremes(st.students, CourseIdOf, c);
  }

  /** Moving the cursor never changes the analytics: they are computed from all
      records, not from the filtered view. */
  lemma AnalyticsIgnoresCursor(st: Store, cursor: Option<int>)
    ensures StoreAnalytics(Store(st.students, cursor)) == StoreAnalytics(st)
  {
  }

  /** Over any duplicate-free listing of the course names present, the per-name
      counts add up to the total. */
  lemma CourseStatsSumToTotal(students: seq<Student>, names: seq<string>)
    requires Seqs.NoDup(names)
    requires forall i :: 0 <= i < |names| ==> names[i] in ComputeAnalytics(students).courseStats
    requires forall n :: n in ComputeAnalytics(students).courseStats ==> n in names
    ensures Seqs.SumOver(ComputeAnalytics(students).courseStats, names)
         == ComputeAnalytics(students).totalStudents
  {
    Seqs.TallySum(students, CourseNameOf, names);
  }

  /** A record that occurs with a unique id is what `FindById` returns for it. */
  lemma FindUnique(students: seq<Student>, i: int)
    requires UniqueIds(students)
    requires 0 <= i < |students|
    ensures FindById(students, students[i].id) == Some(students[i])
  {
    var r := FindById(students, students[i].id);
    var k :| 0 <= k < |students| && students[k] == r.value
             && (forall j :: 0 <= j < k ==> students[j].id != students[i].id);
    assert k == i;
  }

  // ---------------------------------------------------------------------------
  // Properties of the transformations

  /** Adding a record adds one to the total, one to the active or the inactive
      count, and one to its course name's count, leaving the other names alone. */
  lemma AddStudentAnalytics(students: seq<Student>, s: Student)
    ensures var before := ComputeAnalytics(students);
            var after := ComputeAnalytics(AddStudent(students, s));
            && after.totalStudents == before.totalStudents + 1
            && after.activeStudents == before.activeStudents + (if s.isActive then 1 else 0)
            && after.inactiveStudents == before.inactiveStudents + (if s.isActive then 0 else 1)
            && after.courseStats == before.courseStats[s.courseName :=
                                      Seqs.GetCount(before.courseStats, s.courseName) + 1]
  {
    assert [s][1..] == [];
    Seqs.CountOfAppend(students, [s], IsActiveOf, true);
    Seqs.CountOfAppend(students, [s], IsActiveOf, false);
    Seqs.TallyAppend(map[], students, [s], CourseNameOf);
  }

  /** Adding a record extends the view by that record when it is visible under
      the cursor, and leaves the view as it was otherwise. */
  lemma AddStudentFiltered(st: Store, s: Student)
    ensures FilteredStudents(Store(AddStudent(st.students, s), st.selectedCourseId))
         == FilteredStudents(st)
            + (if st.selectedCourseId.None? || s.courseId == st.selectedCourseId.value then [s] else [])
  {
    if st.selectedCourseId.Some? {
      assert [s][1..] == [];
      Seqs.FilterKeyAppend(st.students, [s], CourseIdOf, st.selectedCourseId.value);
    }
  }

  /** A series of additions appends the new records in order. */
  lemma {:induction false} AddAllAppends(students: seq<Student>, news: seq<Student>)
    ensures AddAll(students, news) == students + news
    decreases |news|
  {
    if |news| > 0 {
      AddAllAppends(AddStudent(students, news[0]), news[1..]);
      assert students + [news[0]] + news[1..] == students + news;
    }
  }

  /** After a series of additions with distinct ids, the length has grown by the
      number of additions and every added record is found by its id, intact. */
  lemma AddedRecordsRetrievable(students: seq<Student>, news: seq<Student>, k: int)
    requires UniqueIds(students + news)
    requires 0 <= k < |news|
    ensures |AddAll(students, news)| == |students| + |news|
    ensures FindById(AddAll(students, news), news[k].id) == Some(news[k])
  {
    AddAllAppends(students, news);
    assert (students + news)[|students| + k] == news[k];
    FindUnique(students + news, |students| + k);
  }

  /** Updating with an id no record has changes nothing. */
  lemma UpdateAbsentIsIdentity(students: seq<Student>, u: Student)
    requires forall i :: 0 <= i < |students| ==> students[i].id != u.id
    ensures UpdateStudent(students, u) == students
  {
  }

  /** Applying the same update twice is applying it once. */
  lemma UpdateIdempotent(students: seq<Student>, u: Student)
    ensures UpdateStudent(UpdateStudent(students, u), u) == UpdateStudent(students, u)
  {
  }

  /** An update keeps the id at every position, hence keeps ids unique. */
  lemma UpdateKeepsIds(students: seq<Student>, u: Student)
    ensures forall i :: 0 <= i < |students| ==> UpdateStudent(students, u)[i].id == students[i].id
    ensures UniqueIds(students) ==> UniqueIds(UpdateStudent(students, u))
  {
  }

  /** With unique ids, after updating a present record, looking its id up yields
      the new record. */
  lemma UpdateThenFind(students: seq<Student>, u: Student, i: int)
    requires UniqueIds(students)
    requires 0 <= i < |students| && students[i].id == u.id
    ensures FindById(UpdateStudent(students, u), u.id) == Some(u)
  {
    UpdateKeepsIds(students, u);
    FindUnique(UpdateStudent(students, u), i);
  }

  /** Toggling the same id twice restores the records. */
  lemma ToggleTwiceRestores(students: seq<Student>, id: string)
    ensures ToggleStudentStatus(ToggleStudentStatus(students, id), id) == students
  {
  }

  /** Toggling an id no record has changes nothing. */
  lemma ToggleAbsentIsIdentity(students: seq<Student>, id: string)
    requires forall i :: 0 <= i < |students| ==> students[i].id != id
    ensures ToggleStudentStatus(students, id) == students
  {
  }

  /** Toggling keeps the total and the per-course counts. */
  lemma ToggleKeepsTotalsAndStats(students: seq<Student>, id: string)
    ensures ComputeAnalytics(ToggleStudentStatus(students, id)).totalStudents
         == ComputeAnalytics(students).totalStudents
    ensures ComputeAnalytics(ToggleStudentStatus(students, id)).courseStats
         == ComputeAnalytics(students).courseStats
  {
    var t := ToggleStudentStatus(students, id);
    Seqs.TallyCongruent(map[], students, t, CourseNameOf);
  }

  /** With unique ids, toggling a present record moves exactly one record between
      the active and the inactive counts, in the direction of its new flag. */
  lemma ToggleMovesOneRecord(students: seq<Student>, i: int)
    requires UniqueIds(students)
    requires 0 <= i < |students|
    ensures var before := ComputeAnalytics(students);
            var after := ComputeAnalytics(ToggleStudentStatus(students, students[i].id));
            if students[i].isActive then
              after.activeStudents + 1 == before.activeStudents
              && after.inactiveStudents == before.inactiveStudents + 1
            else
              after.activeStudents == before.activeStudents + 1
              && after.inactiveStudents + 1 == before.inactiveStudents
  {
    var t := ToggleStudentStatus(students, students[i].id);
    assert t[i] == Toggled(students[i]);
    Seqs.CountOfPointChange(students, t, IsActiveOf, true, i);
    Seqs.CountOfPointChange(students, t, IsActiveOf, false, i);
  }

  // ---------------------------------------------------------------------------
  // The seeded store

  /** The seeded store holds two active records, one per course name. */
  lemma SeedAnalytics()
    ensures ComputeAnalytics(MockStudents)
         == Analytics(2, 2, 0, map["React In Depth" := 1, "JavaScript Pro" := 1])
  {
    var m := MockStudents;
    assert m[1..][1..] == [];
    assert Seqs.KeySet(m, CourseNameOf) == {"React In Depth", "JavaScript Pro"};
    assert Seqs.CountOf(m, CourseNameOf, "React In Depth") == 1;
    assert Seqs.CountOf(m, CourseNameOf, "JavaScript Pro") == 1;
    assert Seqs.CountOf(m, IsActiveOf, true) == 2;
  }

  /** The seed records have distinct ids. */
  lemma SeedIdsUnique()
    ensures UniqueIds(MockStudents)
  {
    assert IdList(MockStudents) == ["1", "2"];
  }

  /** Toggling seed record "1" leaves one active and one inactive record and the
      per-course counts as they were. */
  lemma SeedToggle()
    ensures var a := ComputeAnalytics(ToggleStudentStatus(MockStudents, "1"));
            && a.activeStudents == 1 && a.inactiveStudents == 1
            && a.courseStats == ComputeAnalytics(MockStudents).courseStats
  {
    SeedAnalytics();
    SeedIdsUnique();
    ToggleMovesOneRecord(MockStudents, 0);
    ToggleKeepsTotalsAndStats(MockStudents, "1");
  }

  /** After that toggle, adding a third JavaScript Pro record brings the total to 3
      and that name's count to 2. */
  lemma SeedAddCounts(third: Student)
    requires third.courseName == "JavaScript Pro"
    ensures var u := AddStudent(ToggleStudentStatus(MockStudents, "1"), third);
            && ComputeAnalytics(u).totalStudents == 3
            && ComputeAnalytics(u).courseStats["JavaScript Pro"] == 2
  {
    var t := ToggleStudentStatus(MockStudents, "1");
    SeedAnalytics();
    ToggleKeepsTotalsAndStats(MockStudents, "1");
    AddStudentAnalytics(t, third);
    var before := ComputeAnalytics(t).courseStats;
    assert Seqs.GetCount(before, "JavaScript Pro") == 1;
  }

  /** Then selecting course 3 shows the two JavaScript Pro records in insertion order. */
  lemma SeedAddThenSelect(third: Student)
    requires third.courseId == 3
    ensures var u := AddStudent(ToggleStudentStatus(MockStudents, "1"), third);
            FilteredStudents(Store(u, Some(3))) == [MockStudents[1], third]
  {
    var t := ToggleStudentStatus(MockStudents, "1");
    AddStudentFiltered(Store(t, Some(3)), third);
    assert t[0].courseId == 4 && t[1] == MockStudents[1];
    assert t[1..][1..] == [];
    assert Seqs.FilterKey(t[1..][1..], CourseIdOf, 3) == [];
    assert Seqs.FilterKey(t[1..], CourseIdOf, 3) == [MockStudents[1]];
  }
}
