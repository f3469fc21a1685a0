/** The records of the roster (`src/types/Student.ts`). */
module Types {
  import opened Wrappers

  /** One enrolled student. `courseName` is a snapshot of the catalog name taken
      when the record was built; `id` is the identity the store matches on. */
  datatype Student = Student(
    id: string,
    studentId: string,
    name: string,
    email: string,
    phone: string,
    courseId: int,
    courseName: string,
    profileImage: string,
    isActive: bool,
    enrollmentDate: string
  )

  /** One catalog entry. */
  datatype Course = Course(id: int, name: string)

  /** What the form reads of a picked `File`: its size in bytes and its MIME type. */
  datatype UploadFile = UploadFile(size: nat, mimeType: string)

  /** The raw contents of the student form; `courseId` is the text of the selected option. */
  datatype StudentFormData = StudentFormData(
    studentId: string,
    name: string,
    email: string,
    phone: string,
    courseId: string,
    profileImage: Option<UploadFile>,
    isActive: bool
  )

  /** What the form hands to its submit handler: the form data plus the URL the
      upload produced (empty when no file was picked). */
  datatype Submission = Submission(form: StudentFormData, profileImageUrl: string)

  // Projections used as keys when filtering and counting.

  function IdOf(s: Student): string { s.id }

  function CourseIdOf(s: Student): int { s.courseId }

  function CourseNameOf(s: Student): string { s.courseName }

  function IsActiveOf(s: Student): bool { s.isActive }

  function CourseKey(c: Course): int { c.id }
}
