/** The student form (`src/components/Students/StudentForm.tsx`): its initial
    contents, the validator that turns form fields into a field-to-message map,
    the checks applied to a picked image file, and what a submission does to the
    form. */
module StudentForm {
  import opened Wrappers
  import opened Types
  import opened Text
  import Patterns

  /** The keys of the error map. */
  datatype Field = StudentIdField | NameField | EmailField | PhoneField | CourseIdField | ProfileImageField

  const StudentIdRequired := "Student ID is required"
  const NameRequired := "Name is required"
  const EmailRequired := "Email is required"
  const EmailInvalid := "Please enter a valid email address"
  const PhoneRequired := "Phone number is required"
  const PhoneInvalid := "Please enter a valid phone number"
  const CourseRequired := "Please select a course"
  const ImageRequired := "Profile picture is required"
  const FileTooLarge := "File size must be less than 5MB"
  const NotAnImage := "Please select an image file"

  /** The largest accepted upload, in bytes (5 MiB). */
  const MaxFileSize: nat := 5 * 1024 * 1024

  /** The form's state: the field values, the messages on display (a message of
      `""` is present but shows nothing) and the preview image, if any. */
  datatype FormState = FormState(data: StudentFormData, errors: map<Field, string>, previewUrl: Option<string>)

  /** What a submission did: the form afterwards, and what was handed to the
      submit handler, if anything. */
  datatype SubmitOutcome = SubmitOutcome(state: FormState, submitted: Option<Submission>)

  /** The field values of a form opened without initial data, and after a reset. */
  const BlankFormData := StudentFormData("", "", "", "", "", None, true)

  /** A freshly opened add form: blank fields, no messages, no preview. */
  const InitialAddForm := FormState(BlankFormData, map[], None)

  // ---------------------------------------------------------------------------
  // validateForm

  /** The message for the e-mail field: "required" when blank, "invalid" when
      the address does not match the e-mail pattern. */
  function EmailError(email: string): (m: Option<string>)
    ensures m.None? <==> Patterns.MatchesEmailPattern(email)
    ensures m.Some? ==> m.value == if IsBlank(email) then EmailRequired else EmailInvalid
  {
    Patterns.EmailCheckMatchesPattern(email);
    if IsBlank(email) then Some(EmailRequired)
    else if !Patterns.IsValidEmail(email) then Some(EmailInvalid)
    else None
  }

  /** The message for the phone field: "required" when blank, "invalid" when the
      number, whitespace removed, does not match the phone pattern. */
  function PhoneError(phone: string): (m: Option<string>)
    ensures m.None? <==> Patterns.MatchesPhonePattern(RemoveWhitespace(phone))
    ensures m.Some? ==> m.value == if IsBlank(phone) then PhoneRequired else PhoneInvalid
  {
    if IsBlank(phone) then Some(PhoneRequired)
    else
      Patterns.PhoneCheckMatchesPattern(phone);
      if !Patterns.IsValidPhone(phone) then Some(PhoneInvalid) else None
  }

  /** The message `validateForm` records for one field, if any; a blank field
      gets its "required" message before any format check is made. */
  function FieldError(data: StudentFormData, isEdit: bool, f: Field): (m: Option<string>)
    ensures f == StudentIdField ==> (m.Some? <==> IsBlank(data.studentId))
    ensures f == NameField ==> (m.Some? <==> IsBlank(data.name))
    ensures f == EmailField ==> (m.None? <==> Patterns.MatchesEmailPattern(data.email))
    ensures f == PhoneField ==> (m.None? <==> Patterns.MatchesPhonePattern(RemoveWhitespace(data.phone)))
    ensures f == CourseIdField ==> (m.Some? <==> data.courseId == "")
    ensures f == ProfileImageField ==> (m.Some? <==> data.profileImage.None? && !isEdit)
    ensures m.Some? ==> m.value == match f
      case StudentIdField => StudentIdRequired
      case NameField => NameRequired
      case EmailField => if IsBlank(data.email) then EmailRequired else EmailInvalid
      case PhoneField => if IsBlank(data.phone) then PhoneRequired else PhoneInvalid
      case CourseIdField => CourseRequired
      case ProfileImageField => ImageRequired
  {
    match f
    case StudentIdField => if IsBlank(data.studentId) then Some(StudentIdRequired) else None
    case NameField => if IsBlank(data.name) then Some(NameRequired) else None
    case EmailField => EmailError(data.email)
    case PhoneField => PhoneError(data.phone)
    case CourseIdField => if data.courseId == "" then Some(CourseRequired) else None
    case ProfileImageField => if data.profileImage.None? && !isEdit then Some(ImageRequired) else None
  }

  /** `validateForm`'s error map: exactly the failing fields, each with its message. */
  function ValidateForm(data: StudentFormData, isEdit: bool): (errors: map<Field, string>)
    ensures forall f :: f in errors <==> FieldError(data, isEdit, f).Some?
    ensures forall f :: f in errors ==> errors[f] == FieldError(data, isEdit, f).value
  {
    map f: Field | FieldError(data, isEdit, f).Some? :: FieldError(data, isEdit, f).value
  }

  /** The rules `validateForm` applies, field by field: which fields fail and
      with which message. */
  lemma ValidateFormRules(data: StudentFormData, isEdit: bool)
    ensures var errors := ValidateForm(data, isEdit);
      && (StudentIdField in errors <==> IsBlank(data.studentId))
      && (NameField in errors <==> IsBlank(data.name))
      && (EmailField in errors <==> !Patterns.MatchesEmailPattern(data.email))
      && (PhoneField in errors <==> !Patterns.MatchesPhonePattern(RemoveWhitespace(data.phone)))
      && (CourseIdField in errors <==> data.courseId == "")
      && (ProfileImageField in errors <==> data.profileImage.None? && !isEdit)
      && (StudentIdField in errors ==> errors[StudentIdField] == StudentIdRequired)
      && (NameField in errors ==> errors[NameField] == NameRequired)
      && (EmailField in errors ==>
            errors[EmailField] == if IsBlank(data.email) then EmailRequired else EmailInvalid)
      && (PhoneField in errors ==>
            errors[PhoneField] == if IsBlank(data.phone) then PhoneRequired else PhoneInvalid)
      && (CourseIdField in errors ==> errors[CourseIdField] == CourseRequired)
      && (ProfileImageField in errors ==> errors[ProfileImageField] == ImageRequired)
  {
    var errors := ValidateForm(data, isEdit);
    FieldInErrors(data, isEdit, StudentIdField);
    FieldInErrors(data, isEdit, NameField);
    FieldInErrors(data, isEdit, EmailField);
    FieldInErrors(data, isEdit, PhoneField);
    FieldInErrors(data, isEdit, CourseIdField);
    FieldInErrors(data, isEdit, ProfileImageField);
  }

  /** One field's entry in the error map is exactly its `FieldError`. */
  lemma FieldInErrors(data: StudentFormData, isEdit: bool, f: Field)
    ensures var m := FieldError(data, isEdit, f);
      && (f in ValidateForm(data, isEdit) <==> m.Some?)
      && (m.Some? ==> ValidateForm(data, isEdit)[f] == m.value)
  {
  }

  /** `validateForm`'s verdict: the form may be submitted exactly when every field
      passes its check. */
  function FormIsValid(data: StudentFormData, isEdit: bool): (ok: bool)
    ensures ok <==> ValidateForm(data, isEdit) == map[]
    ensures ok <==>
              && !IsBlank(data.studentId)
              && !IsBlank(data.name)
              && Patterns.MatchesEmailPattern(data.email)
              && Patterns.MatchesPhonePattern(RemoveWhitespace(data.phone))
              && data.courseId != ""
              && (data.profileImage.Some? || isEdit)
  {
    var errors := ValidateForm(data, isEdit);
    ValidateFormRules(data, isEdit);
    var ok := forall f: Field :: FieldError(data, isEdit, f).None?;
    assert ok <==> errors == map[] by {
      if !ok {
        var f: Field :| FieldError(data, isEdit, f).Some?;
        assert f in errors;
      } else {
        assert forall f :: f !in errors;
      }
    }
    ok
  }

  /** Every field of the blank form fails its rule in add mode. */
  lemma BlankFieldFails(f: Field)
    ensures FieldError(BlankFormData, false, f).Some?
  {
    match f
    case StudentIdField => EmptyIsBlank();
    case NameField => EmptyIsBlank();
    case EmailField => EmptyIsBlank();
    case PhoneField => EmptyIsBlank();
    case CourseIdField =>
    case ProfileImageField =>
  }

  /** The empty string is blank. */
  lemma EmptyIsBlank()
    ensures IsBlank("")
  {
    assert Trim("") == "";
  }

  /** A freshly opened add form cannot be submitted: every field has a message. */
  lemma InitialAddFormFlagsEveryField()
    ensures forall f: Field :: f in ValidateForm(InitialAddForm.data, false)
  {
    forall f: Field ensures f in ValidateForm(BlankFormData, false) {
      BlankFieldFails(f);
    }
  }

  // ---------------------------------------------------------------------------
  // handleFileChange

  /** A picked file is kept when it is at most 5 MiB and its type starts with `image/`. */
  function FileAccepted(f: UploadFile): (b: bool)
    ensures b <==> f.size <= 5242880 && "image/" <= f.mimeType
  {
    f.size <= MaxFileSize && StartsWith(f.mimeType, "image/")
  }

  /** `handleFileChange`: no file changes nothing; a too-large or non-image file
      is refused with a message and not stored; an accepted file is stored, shown
      as the preview at `objectUrl`, and its message is set to `""`. */
  function HandleFileChange(st: FormState, file: Option<UploadFile>, objectUrl: string): (r: FormState)
    ensures file.None? ==> r == st
    ensures file.Some? ==> r.errors.Keys == st.errors.Keys + {ProfileImageField}
    ensures file.Some? ==> forall f :: f in st.errors && f != ProfileImageField ==> r.errors[f] == st.errors[f]
    ensures file.Some? && !FileAccepted(file.value) ==>
              r.data == st.data && r.previewUrl == st.previewUrl && r.errors[ProfileImageField] != ""
    ensures file.Some? && file.value.size > MaxFileSize ==> r.errors[ProfileImageField] == FileTooLarge
    ensures file.Some? && file.value.size <= MaxFileSize && !StartsWith(file.value.mimeType, "image/") ==>
              r.errors[ProfileImageField] == NotAnImage
    ensures file.Some? && FileAccepted(file.value) ==>
              r.data == st.data.(profileImage := file) && r.previewUrl == Some(objectUrl)
              && r.errors[ProfileImageField] == ""
  {
    match file
    case None => st
    case Some(f) =>
      if f.size > MaxFileSize then st.(errors := st.errors[ProfileImageField := FileTooLarge])
      else if !StartsWith(f.mimeType, "image/") then st.(errors := st.errors[ProfileImageField := NotAnImage])
      else FormState(st.data.(profileImage := file), st.errors[ProfileImageField := ""], Some(objectUrl))
  }

  /** Once a file has been accepted, validation no longer asks for a picture. */
  lemma AcceptedFileSatisfiesImageRule(st: FormState, f: UploadFile, objectUrl: string, isEdit: bool)
    requires FileAccepted(f)
    ensures ProfileImageField !in ValidateForm(HandleFileChange(st, Some(f), objectUrl).data, isEdit)
  {
  }

  // ---------------------------------------------------------------------------
  // handleSubmit

  /** `handleSubmit`: an invalid form shows its messages and submits nothing; a
      valid one hands its data and the upload URL to the handler (the URL is `""`
      when no file was picked), then an add form is reset while an edit form keeps
      its values with no messages. */
  function HandleSubmit(st: FormState, isEdit: bool, uploadUrl: string): (r: SubmitOutcome)
    ensures r.submitted.Some? <==> FormIsValid(st.data, isEdit)
    ensures r.submitted.None? ==> r.state == st.(errors := ValidateForm(st.data, isEdit))
    ensures r.submitted.Some? ==> r.submitted.value.form == st.data
    ensures r.submitted.Some? ==>
              r.submitted.value.profileImageUrl == if st.data.profileImage.Some? then uploadUrl else ""
    ensures r.submitted.Some? && !isEdit ==> r.submitted.value.profileImageUrl == uploadUrl
    ensures r.submitted.Some? && !isEdit ==> r.state == InitialAddForm
    ensures r.submitted.Some? && isEdit ==> r.state == st.(errors := map[])
  {
    var errors := ValidateForm(st.data, isEdit);
    if !FormIsValid(st.data, isEdit) then
      SubmitOutcome(st.(errors := errors), None)
    else
      var url := if st.data.profileImage.Some? then uploadUrl else "";
      var sub := Submission(st.data, url);
      if isEdit then SubmitOutcome(st.(errors := errors), Some(sub))
      else SubmitOutcome(FormState(BlankFormData, map[], None), Some(sub))
  }

  /** After a successful add the form is back where a freshly opened add form starts. */
  lemma ResetRestoresInitialForm(st: FormState, uploadUrl: string)
    requires FormIsValid(st.data, false)
    ensures HandleSubmit(st, false, uploadUrl).state == InitialAddForm
    ensures !FormIsValid(HandleSubmit(st, false, uploadUrl).state.data, false)
  {
    InitialAddFormFlagsEveryField();
  }
}
