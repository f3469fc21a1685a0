# Student roster — a Dafny model

This project models the core of a small React student-management app. It has four parts:

- **The roster store** (`useStudents`). It keeps the list of student records and the selected-course cursor. From them it derives the filtered list and the analytics: the total, the active and inactive counts, and a per-course-name tally. It also adds, updates and toggles records.
- **The record builders** behind the app shell's add and edit handlers. Each combines form data with a catalog name looked up by the first-match course lookup.
- **The student form.** This covers its validator, the checks on a picked image file, and what a submission does. A successful add resets the form.
- **The course filter view.** This covers its own per-course filter under a truthiness test of the cursor, the counts on its buttons, the banner for the selected course and the empty-state message.

Layout:

- `wrappers.dfy`: `Option`.
- `seqs.dfy`: generic keyed views over sequences. These are `filter`, `filter(...).length`, `find`, and the counting `reduce` into a map, with their lemmas.
- `types.dfy`: the records.
- `catalog.dfy`: the fixed course list and `find`.
- `text.dfy`: ECMAScript whitespace, `trim`, `replace(/\s/g, '')`.
- `patterns.dfy`: the e-mail and phone regular expressions. Each is stated twice and proved equivalent on every string: once read off the pattern, and once as a direct check.
- `roster.dfy`, `student_form.dfy`, `course_filter.dfy`, `app.dfy`: one module per source file.

Inputs that come from the environment are parameters:

- the course id `parseInt` reads off the form;
- the `Date.now()` id;
- the ISO enrollment time;
- the object URLs produced for previews and uploads.

## Model

| member | source | states |
|---|---|---|
| Seqs.FilterKey | src/hooks/useStudents.ts:38 | the filter keeps only elements with the key, takes them from the input, and misses none that has it |
| Seqs.FilterKeySelectsInOrder | src/hooks/useStudents.ts:38 | the filter result is the matching elements at strictly increasing positions, exactly the positions whose key matches |
| Seqs.FindFirst | src/App.tsx:46 | `find` yields nothing iff no element bears the key, and otherwise the first element that does |
| Seqs.FilterKeyLength | src/hooks/useStudents.ts:43 | `filter(...).length` equals the number of elements bearing the key |
| Seqs.BoolCountsPartition | src/hooks/useStudents.ts:43-44 | the true-count and the false-count of a boolean key add up to the length |
| Seqs.TallyFromEmpty | src/hooks/useStudents.ts:46-50 | the counting reduce from `{}` has as keys exactly the keys that occur, each mapped to its number of occurrences (at least 1) |
| Seqs.TallyKeys | src/hooks/useStudents.ts:46-50 | the counting reduce started from any map holds that map's keys together with the keys that occur |
| Seqs.TallyValues | src/hooks/useStudents.ts:46-50 | the counting reduce started from any map gives each key its starting count (0 when absent, as `acc[k] \|\| 0`) plus its number of occurrences |
| Seqs.TallySum | src/hooks/useStudents.ts:46-50 | over a duplicate-free listing of the tally's keys, the tallied counts add up to the length |
| Seqs.SumCountsCoverage | src/components/Courses/CourseFilter.tsx:83-95 | over distinct keys, the per-key counts add up to at most the length, and to exactly the length iff every element's key is listed |
| Seqs.CountOfExtremes | src/hooks/useStudents.ts:38 | a count is 0 iff no element matches and equals the length iff every element matches |
| Catalog.FetchCourses | src/services/mockApi.ts:6-16 | the catalog has four courses with distinct ids 1 to 4 in order |
| Catalog.FindCourse | src/App.tsx:46 | `find` returns nothing iff no course has the id, and otherwise the first course with it |
| Catalog.CourseNameFor | src/App.tsx:55 | `course?.name \|\| ''` is the found course's name, or `""` when no course has the id |
| Catalog.CatalogNames | src/services/mockApi.ts:10-15 | with the fixed catalog, ids 1 to 4 name HTML Basics, CSS Mastery, JavaScript Pro, React In Depth, and any other id names `""` |
| Catalog.EmptyCatalogNamesNothing | src/App.tsx:18 | before the catalog loads (`[]`) every looked-up name is `""` |
| Text.TrimStart | src/components/Students/StudentForm.tsx:48 | removes exactly the leading whitespace: the result is a suffix, everything cut is whitespace, and it starts with non-whitespace |
| Text.TrimEnd | src/components/Students/StudentForm.tsx:48 | mirror image of TrimStart at the end |
| Text.Trim | src/components/Students/StudentForm.tsx:48 | `trim()` is a contiguous slice with only whitespace around it and no whitespace at either end; it is empty iff the string is all whitespace |
| Text.TrimSlice | src/components/Students/StudentForm.tsx:48 | trimming leaves a slice of the input with only whitespace before and after it |
| Text.TrimEmpty | src/components/Students/StudentForm.tsx:48 | the trimmed string is empty exactly when every character is whitespace |
| Text.IsBlank | src/components/Students/StudentForm.tsx:48-62 | `!x.trim()` holds exactly when every character of `x` is whitespace (the empty string included) |
| Text.RemoveWhitespace | src/components/Students/StudentForm.tsx:64 | `replace(/\s/g, '')` leaves no whitespace, is no longer than the input and keeps every non-whitespace character |
| Text.RemoveWhitespaceSelectsInOrder | src/components/Students/StudentForm.tsx:64 | the result is the non-whitespace characters at strictly increasing positions, exactly the positions holding non-whitespace: order kept, nothing invented or repeated |
| Text.RemoveWhitespaceKeepsClean | src/components/Students/StudentForm.tsx:64 | removing whitespace from a string without any leaves it unchanged |
| Patterns.IndexOf | src/components/Students/StudentForm.tsx:58 | finds the first occurrence of a character, or reports that there is none |
| Patterns.IsValidEmail | src/components/Students/StudentForm.tsx:58 | an address the direct e-mail check accepts has no whitespace and exactly one `@`, which is not its first character |
| Patterns.EmailCheckSound | src/components/Students/StudentForm.tsx:58 | every string the direct e-mail check accepts matches `^[^\s@]+@[^\s@]+\.[^\s@]+$` |
| Patterns.EmailPatternComplete | src/components/Students/StudentForm.tsx:58 | every string matching the e-mail pattern passes the direct check |
| Patterns.EmailCheckMatchesPattern | src/components/Students/StudentForm.tsx:58 | the direct e-mail check accepts exactly the strings the pattern matches |
| Patterns.IsValidPhone | src/components/Students/StudentForm.tsx:64 | a number the direct phone check accepts has at least nine characters once whitespace is removed |
| Patterns.PhoneBodyMatchesPattern | src/components/Students/StudentForm.tsx:64 | on a whitespace-free string, an optional `+` followed by a digit 1-9 and at least eight digits, dashes or parentheses is exactly the phone pattern |
| Patterns.PhoneCheckMatchesPattern | src/components/Students/StudentForm.tsx:64 | the direct phone check accepts a number exactly when, whitespace removed, it matches `^[\+]?[1-9][\d\s\-\(\)]{8,}$` |
| Roster.FilteredStudents | src/hooks/useStudents.ts:36-39 | with no cursor the view is every record; with cursor `c` it has as many records as are in course `c`, all from course `c`, and misses none |
| Roster.FilteredSelectsInOrder | src/hooks/useStudents.ts:38 | with cursor `c` the view is the course-`c` records in roster order, nothing else |
| Roster.FilteredEmptyIffNoMatch | src/hooks/useStudents.ts:38 | with cursor `c` the view is empty iff no record is in course `c` |
| Roster.ComputeAnalytics | src/hooks/useStudents.ts:41-58 | total is the length; active and inactive count the flags and add to the total; the per-name tally has exactly the names present, each with its number of records |
| Roster.StoreAnalytics | src/hooks/useStudents.ts:41-58 | the published total, active and inactive counts and per-name tally are all computed from every record, not from the filtered view |
| Roster.AnalyticsIgnoresCursor | src/hooks/useStudents.ts:58 | moving the cursor never changes the analytics |
| Roster.CourseStatsSumToTotal | src/hooks/useStudents.ts:46-56 | the per-name counts add up to the total |
| Roster.FindById | src/hooks/useStudents.ts:67 | an observer the store itself does not export: under the store's `id ===` identity, the first record with a given id, or nothing iff no record has it |
| Roster.FindUnique | src/hooks/useStudents.ts:67 | with unique ids, looking up a record's id yields that record |
| Roster.AddStudent | src/hooks/useStudents.ts:60-62 | the new record goes last and the earlier ones are unchanged |
| Roster.AddStudentAnalytics | src/hooks/useStudents.ts:60-62 | adding raises the total by one, the active or the inactive count by one, and the record's name count by one, leaving other names alone |
| Roster.AddStudentFiltered | src/hooks/useStudents.ts:36-39 | adding extends the view by the record exactly when it is visible under the cursor |
| Roster.AddAllAppends | src/hooks/useStudents.ts:60-62 | a series of additions appends the records in order |
| Roster.AddedRecordsRetrievable | src/hooks/useStudents.ts:60-62 | after additions with distinct ids, each added record is found by its id, intact |
| Roster.UpdateStudent | src/hooks/useStudents.ts:64-70 | every record with the update's id becomes the update, in place; all others are kept |
| Roster.UpdateAbsentIsIdentity | src/hooks/useStudents.ts:64-70 | an update whose id no record has changes nothing |
| Roster.UpdateIdempotent | src/hooks/useStudents.ts:64-70 | applying the same update twice equals applying it once |
| Roster.UpdateKeepsIds | src/hooks/useStudents.ts:64-70 | an update keeps the id at every position, and so keeps ids unique |
| Roster.UpdateThenFind | src/hooks/useStudents.ts:64-70 | with unique ids, after updating a present record, looking up its id yields the update |
| Roster.Toggled | src/hooks/useStudents.ts:76 | `{ ...student, isActive: !student.isActive }` has the opposite active flag and agrees with the record on every other field |
| Roster.ToggleStudentStatus | src/hooks/useStudents.ts:72-80 | records with the id get their active flag negated; nothing else changes |
| Roster.ToggleTwiceRestores | src/hooks/useStudents.ts:72-80 | toggling the same id twice restores the roster |
| Roster.ToggleAbsentIsIdentity | src/hooks/useStudents.ts:72-80 | toggling an id no record has changes nothing |
| Roster.ToggleKeepsTotalsAndStats | src/hooks/useStudents.ts:72-80 | toggling keeps the total and the per-name counts |
| Roster.ToggleMovesOneRecord | src/hooks/useStudents.ts:72-80 | with unique ids, toggling a present record moves exactly one record between active and inactive, in the direction of its new flag |
| Roster.SeedAnalytics | src/hooks/useStudents.ts:5-30 | the two seed records give total 2, 2 active, 0 inactive, one record each for React In Depth and JavaScript Pro |
| Roster.SeedIdsUnique | src/hooks/useStudents.ts:5-30 | the two seed records have distinct ids, so the lemmas that need unique ids apply to the initial roster |
| Roster.SeedToggle | src/hooks/useStudents.ts:5-30 | toggling seed record "1" leaves one active and one inactive record with the same name counts |
| Roster.SeedAddCounts | src/hooks/useStudents.ts:60-62 | then adding a JavaScript Pro record makes the total 3 and that name's count 2 |
| Roster.SeedAddThenSelect | src/hooks/useStudents.ts:36-39 | then selecting course 3 shows the two JavaScript Pro records in insertion order |
| StudentForm.EmailError | src/components/Students/StudentForm.tsx:56-60 | the e-mail field has no message iff it matches the pattern; a blank address gets "required", any other failure gets "invalid" |
| StudentForm.PhoneError | src/components/Students/StudentForm.tsx:62-66 | the phone field has no message iff, whitespace removed, it matches the phone pattern; blank gets "required", otherwise "invalid" |
| StudentForm.FieldError | src/components/Students/StudentForm.tsx:45-74 | per field: it fails exactly when its rule fails (blank id or name, e-mail or phone pattern, no course, no picture when adding), with that rule's message |
| StudentForm.ValidateForm | src/components/Students/StudentForm.tsx:45-77 | the error map holds exactly the failing fields, each with its message |
| StudentForm.ValidateFormRules | src/components/Students/StudentForm.tsx:45-77 | field by field: which fields are in the error map and which message each gets, in terms of blankness and the two patterns |
| StudentForm.FormIsValid | src/components/Students/StudentForm.tsx:77 | the form passes iff the error map is empty, iff id and name are not blank, e-mail and phone match, a course is chosen, and a picture is picked or the form is an edit |
| StudentForm.BlankFieldFails | src/components/Students/StudentForm.tsx:119-127 | every field of the blank form data fails its rule in add mode |
| StudentForm.InitialAddFormFlagsEveryField | src/components/Students/StudentForm.tsx:13-21 | a freshly opened add form fails on all six fields |
| StudentForm.FileAccepted | src/components/Students/StudentForm.tsx:83-88 | a picked file is accepted exactly when it is at most 5242880 bytes and its type starts with `image/` |
| StudentForm.HandleFileChange | src/components/Students/StudentForm.tsx:80-97 | no file changes nothing; a file over 5 MiB gets the size message and a file within the limit that is not an image gets the "select an image" message, neither is stored; an accepted file is stored and previewed with its message cleared to `""`; other fields' messages are untouched |
| StudentForm.AcceptedFileSatisfiesImageRule | src/components/Students/StudentForm.tsx:72-74 | after an accepted file, validation no longer asks for a picture |
| StudentForm.HandleSubmit | src/components/Students/StudentForm.tsx:99-136 | submits iff the form is valid; an invalid form shows its messages; the submitted URL is the upload's when a file was picked, else `""`; after an add the form resets to the blank add form; an edit form keeps its values |
| StudentForm.ResetRestoresInitialForm | src/components/Students/StudentForm.tsx:117-130 | after a successful add the form equals a freshly opened one and could not be submitted again unchanged |
| CourseFilter.IsSelected | src/components/Courses/CourseFilter.tsx:45 | the cursor counts as a selection unless it is `null` or the id `0`, the only falsy values it can hold |
| CourseFilter.GetStudentsByCourse | src/components/Courses/CourseFilter.tsx:41-43 | the records of one course, in roster order: they sit at strictly increasing positions of the roster, exactly the positions of that course's records |
| CourseFilter.FilteredStudents | src/components/Courses/CourseFilter.tsx:45-47 | a falsy cursor (`null` or `0`) shows every record; a truthy one shows that course's records |
| CourseFilter.ViewAgreesWithStore | src/components/Courses/CourseFilter.tsx:45-47 | the view's list equals the store's filtered list except exactly when the cursor is `0` and some record is outside course `0` |
| CourseFilter.CatalogButtonsAgreeWithStore | src/components/Courses/CourseFilter.tsx:88 | pressing a button of the fixed catalog makes the view and the store show the same records |
| CourseFilter.AllCoursesButton | src/components/Courses/CourseFilter.tsx:80 | the "All Courses" button counts every record |
| CourseFilter.CourseButtons | src/components/Courses/CourseFilter.tsx:83-98 | one button per course in catalog order, captioned with the course name and counting that course's records |
| CourseFilter.CourseButtonsSum | src/components/Courses/CourseFilter.tsx:83-98 | the course buttons' counts sum to the per-id counts over the catalog ids |
| CourseFilter.CourseButtonsCoverAll | src/components/Courses/CourseFilter.tsx:80-95 | with distinct ids the course buttons together count at most the "All Courses" number, and exactly that number iff every record's course is listed |
| CourseFilter.ButtonCountMatchesList | src/components/Courses/CourseFilter.tsx:84-95 | for a course whose id is not 0, the button's count is the length of the list its press shows |
| CourseFilter.ZeroIdButtonDisagrees | src/components/Courses/CourseFilter.tsx:84-95 | a course with id 0 counts only its own records on its button, yet pressing it shows every record: a course-1 record gives a count of 0 and a shown list of 1 |
| CourseFilter.SelectionBanner | src/components/Courses/CourseFilter.tsx:104-114 | the banner appears iff the cursor is truthy, shows the length of the shown list, and names the first catalog course with that id, or nothing if there is none |
| CourseFilter.EmptyState | src/components/Courses/CourseFilter.tsx:128-141 | the empty state appears iff the shown list is empty, with the course message under a truthy cursor and the "add some" message otherwise |
| CourseFilter.EmptyStateCases | src/components/Courses/CourseFilter.tsx:128-141 | under a truthy cursor the course message appears iff no record is in that course; otherwise the "add some" message appears iff the roster is empty |
| App.NewStudent | src/App.tsx:45-59 | the added record takes the form's fields, the parsed course id, the catalog's name for it or `""`, the upload URL, and the supplied id and time |
| App.EditedStudent | src/App.tsx:72-84 | the edited record keeps its id and enrollment date, takes the form's fields and catalog name, and keeps its old picture when no new URL came |
| App.HandleAddStudent | src/App.tsx:45-61 | the roster gains the built record at the end; cursor, editing state and catalog are unchanged |
| App.HandleEditStudent | src/App.tsx:69-88 | with nothing being edited nothing changes; otherwise the records with the edited id are replaced in place and editing ends |
| App.HandleStartEdit | src/App.tsx:91-94 | the chosen record becomes the one being edited; the roster is untouched |
| App.StartEditThenSubmit | src/App.tsx:69-94 | editing a roster record and submitting changes exactly that record: its id then finds the rebuilt record, ids stay unique, and every other position is unchanged |
| App.AddThenFind | src/App.tsx:45-61 | a record added under a fresh id is found by that id |
| App.SubmitForm | src/App.tsx:111-113 | an invalid form leaves the app unchanged and shows its messages; a valid add is the add handler applied to the form data and upload URL: the built record is appended, the cursor, editing state and catalog are kept, and the form resets to the blank add form; a valid edit is the edit handler applied to the form data and chosen URL, and the form keeps its values with no messages |
| App.SubmittedRecordPassedValidation | src/App.tsx:45-61 | a record added through the form has a non-blank student id and name, an e-mail and a phone matching their patterns, and the upload URL as its picture |

## Left out

- Rendering, styling, the theme, tabs and tab switching (`setActiveTab`, including the 500 ms delayed switch), the "Cancel Editing" button, and button highlighting are left out. None of them changes any record.
- `StudentList`, `StudentCard` and `AnalyticsDashboard` only display data, so they are left out.
- The simulated delays and the asynchronous loading flags (`isLoading`, `coursesLoading`) are left out. `fetchCourses` is modelled as the value it resolves to.
- Upload and `URL.createObjectURL` are left out. The URL they produce is a parameter.
- Error handling around rejected promises is left out, because the modelled calls never reject.
- `parseInt` is left out. The parsed course id is a parameter, so a non-numeric course value (NaN) is not modelled. NaN is also why CourseFilter's truthiness test is modelled as "present and not 0".
- `Date.now().toString()` and `new Date().toISOString()` are left out. The id and the enrollment time are parameters. Two additions in the same millisecond would collide on id, and the lemmas that need distinct ids say so in their preconditions.
- Opening the form with `initialData` (an edit form pre-filled from a record) is left out. The source passes a `Student` where form data is expected, and a number `courseId` ends up where a string is expected. Only the blank add form (`StudentForm.InitialAddForm`) is modelled.
- Text.WhitespaceChars: the whitespace set is the fixed ECMAScript WhiteSpace and LineTerminator list. The Unicode space separators are the ones of current Unicode versions; a future Unicode version that adds one is not modelled.
- Roster.ComputeAnalytics: the source's `{}` accumulator is modelled as a map from names to counts. Names inherited from `Object.prototype` (`constructor`, `__proto__`, `toString` and the like) are not modelled: in the source they would give a string count or no key at all. This is harmless in the program, because a course name comes only from the fixed catalog (or `""`) or from the seed records, and none of these is such a name.
- Seqs.FilterKey, Roster.FilteredStudents: JavaScript array identity is not modelled, because sequences are values. The view equals the roster rather than being the same array object.
