/** The bulk-upload path of the student controller: the normalisers that turn
    a lead-form spreadsheet row into enquiry fields, and the mapping of a
    whole upload, which the schema either accepts in full or rejects. A
    missing spreadsheet column reads as the empty string; every normaliser
    treats the two alike. */
module StudentIntake {
  import opened Wrappers
  import Text
  import opened EnquiryModel

  /** The course names recognised in a form name, in the order they are tried. */
  const CoursePatterns: seq<string> := ["Software Testing", "Data Analytics", "MERN Stack Development"]

  /** The form name mentions `pattern`, ignoring letter case. */
  predicate Mentions(formName: string, pattern: string) {
    Text.Contains(Text.ToLower(formName), Text.ToLower(pattern))
  }

  /** The first of `patterns` that `formName` mentions, if any. */
  function FirstMentioned(formName: string, patterns: seq<string>): (r: Option<nat>)
    ensures r.Some? ==> r.value < |patterns| && Mentions(formName, patterns[r.value])
    ensures r.Some? ==> forall j :: 0 <= j < r.value ==> !Mentions(formName, patterns[j])
    ensures r.None? <==> forall j :: 0 <= j < |patterns| ==> !Mentions(formName, patterns[j])
  {
    if |patterns| == 0 then None
    else if Mentions(formName, patterns[0]) then Some(0)
    else match FirstMentioned(formName, patterns[1..])
      case None => None
      case Some(k) => Some(k + 1)
  }

  /** The course named by a form: empty for an empty form name, otherwise the
      first recognised course the name mentions in any letter case, otherwise
      `Unknown`. Characterised by `ExtractCourseNameFirstMention`. */
  function ExtractCourseName(formName: string): string {
    if formName == "" then ""
    else match FirstMentioned(formName, CoursePatterns)
      case Some(i) => CoursePatterns[i]
      case None => "Unknown"
  }

  /** The extracted course is empty exactly for an empty form name; otherwise
      it is the earliest recognised course the form name mentions, and
      `Unknown` exactly when it mentions none. */
  lemma ExtractCourseNameFirstMention(formName: string)
    ensures formName == "" <==> ExtractCourseName(formName) == ""
    ensures formName != "" && ExtractCourseName(formName) != "Unknown" ==>
      exists i :: 0 <= i < |CoursePatterns| && ExtractCourseName(formName) == CoursePatterns[i]
        && Mentions(formName, CoursePatterns[i])
        && forall j :: 0 <= j < i ==> !Mentions(formName, CoursePatterns[j])
    ensures formName != "" ==>
      (ExtractCourseName(formName) == "Unknown" <==>
        forall j :: 0 <= j < |CoursePatterns| ==> !Mentions(formName, CoursePatterns[j]))
  {
    if formName != "" {
      match FirstMentioned(formName, CoursePatterns)
      case Some(i) =>
        assert ExtractCourseName(formName) == CoursePatterns[i];
        assert i == 0 || i == 1 || i == 2;
      case None =>
    }
  }

  const IndiaPrefix: string := "+91"

  /** The phone number without one leading `+91`; any other string is kept. */
  function CleanPhoneNumber(phone: string): (r: string)
    ensures |r| <= |phone| && r == phone[|phone| - |r|..]
    ensures |r| == |phone| - 3 <==> Text.StartsWith(phone, IndiaPrefix)
    ensures Text.StartsWith(phone, IndiaPrefix) ==> IndiaPrefix + r == phone
    ensures !Text.StartsWith(phone, IndiaPrefix) ==> r == phone
  {
    if phone == "" then ""
    else if Text.StartsWith(phone, IndiaPrefix) then phone[3..]
    else phone
  }

  /** Cleaning undoes exactly one added prefix. */
  lemma CleanPhoneNumberStripsOnePrefix(local: string)
    ensures CleanPhoneNumber(IndiaPrefix + local) == local
  {
    assert (IndiaPrefix + local)[..3] == IndiaPrefix;
    assert (IndiaPrefix + local)[3..] == local;
  }

  /** The learning mode named, in any letter case, by a form answer; empty
      when it names neither mode. */
  function NormalizeLearningMode(mode: string): (r: string)
    ensures r == "" || r == "Online" || r == "Offline"
    ensures r == "Online" <==> Text.ToLower(mode) == "online"
    ensures r == "Offline" <==> Text.ToLower(mode) == "offline"
  {
    if mode == "" then ""
    else
      var lower := Text.ToLower(mode);
      if lower == "online" then "Online"
      else if lower == "offline" then "Offline"
      else ""
  }

  /** Normalising a normalised learning mode changes nothing. */
  lemma {:induction false} NormalizeLearningModeIdempotent(mode: string)
    ensures NormalizeLearningMode(NormalizeLearningMode(mode)) == NormalizeLearningMode(mode)
  {
    var r := NormalizeLearningMode(mode);
    if r == "Online" {
      assert Text.ToLower(r) == "online";
    } else if r == "Offline" {
      assert Text.ToLower(r) == "offline";
    }
  }

  /** The working sector named by a form answer: `Non IT` when the trimmed,
      lower-cased answer mentions `non` (checked first), `IT` when it
      mentions `it`, empty otherwise. */
  function NormalizeWorkingIn(workingIn: string): (r: string)
    ensures r == "" || r == "IT" || r == "Non IT"
    ensures r == "Non IT" <==> Text.Contains(Text.ToLower(Text.Trim(workingIn)), "non")
    ensures r == "IT" <==>
      !Text.Contains(Text.ToLower(Text.Trim(workingIn)), "non")
      && Text.Contains(Text.ToLower(Text.Trim(workingIn)), "it")
  {
    var lower := Text.ToLower(Text.Trim(workingIn));
    if workingIn == "" then
      assert !Text.Contains(lower, "non") && !Text.Contains(lower, "it");
      ""
    else if Text.Contains(lower, "non") then "Non IT"
    else if Text.Contains(lower, "it") then "IT"
    else ""
  }

  /** Normalising a normalised working sector changes nothing; in particular
      `Non IT` stays `Non IT` although it also mentions `it`. */
  lemma {:induction false} NormalizeWorkingInIdempotent(workingIn: string)
    ensures NormalizeWorkingIn(NormalizeWorkingIn(workingIn)) == NormalizeWorkingIn(workingIn)
  {
    var r := NormalizeWorkingIn(workingIn);
    if r == "Non IT" {
      NonITIsFixed();
    } else if r == "IT" {
      ITIsFixed();
    }
  }

  /** `Non IT` is a fixed point of the normaliser. */
  lemma NonITIsFixed()
    ensures NormalizeWorkingIn("Non IT") == "Non IT"
  {
    var w := "Non IT";
    assert !Text.IsSpace(w[0]) && !Text.IsSpace(w[|w| - 1]);
    Text.TrimFixpoint(w);
    var lower := Text.ToLower(w);
    assert lower[..3] == "non";
    assert Text.OccursAt(lower, "non", 0);
  }

  /** `IT` is a fixed point of the normaliser. */
  lemma ITIsFixed()
    ensures NormalizeWorkingIn("IT") == "IT"
  {
    var w := "IT";
    assert !Text.IsSpace(w[0]) && !Text.IsSpace(w[|w| - 1]);
    Text.TrimFixpoint(w);
    var lower := Text.ToLower(w);
    assert lower == "it";
    assert Text.OccursAt(lower, "it", 0);
  }

  /** One spreadsheet row of a lead-form export. `createdTime` is the parsed
      `Created Time` column. */
  datatype UploadRow = UploadRow(
    fullName: string,
    phoneNumber: string,
    formName: string,
    areYou: string,
    workingIn: string,
    learningMode: string,
    createdTime: DateInput)

  /** The fields the controller computes for one row, before the schema
      validates them. */
  datatype RowFields = RowFields(
    name: string, phone: string, course: string, areYou: AreYou,
    workingIn: string, learningMode: string, createdAt: int)

  /** The controller's mapping of one row; `None` when its creation time does
      not parse (formatting it as an ISO string throws). */
  function FormatRow(row: UploadRow): (f: Option<RowFields>)
    ensures f.Some? <==> row.createdTime.ValidDate?
    ensures f.Some? ==> (f.value.areYou == Experienced <==> row.areYou == "Experience")
  {
    match row.createdTime
    case InvalidDate => None
    case ValidDate(t) =>
      Some(RowFields(
        row.fullName,
        CleanPhoneNumber(row.phoneNumber),
        ExtractCourseName(row.formName),
        if row.areYou == "Experience" then Experienced else Fresher,
        NormalizeWorkingIn(row.workingIn),
        NormalizeLearningMode(row.learningMode),
        t))
  }

  /** The schema's verdict on one formatted row: `name`, `phone` and `course`
      must be non-empty once trimmed, and `currently_working_in` and
      `learning_mode` must be enum labels (an empty string is neither). */
  predicate SchemaAccepts(f: RowFields) {
    && Text.Trim(f.name) != ""
    && Text.Trim(f.phone) != ""
    && Text.Trim(f.course) != ""
    && ParseWorkingIn(f.workingIn).Some?
    && ParseLearningMode(f.learningMode).Some?
  }

  /** The document the schema builds from an accepted row at time `now`. */
  function RowEnquiry(f: RowFields, now: int): Enquiry
    requires SchemaAccepts(f)
  {
    Enquiry(
      Text.Trim(f.name), Text.Trim(f.phone), Text.Trim(f.course),
      f.areYou, ParseWorkingIn(f.workingIn), ParseLearningMode(f.learningMode).value,
      DefaultSource, DefaultStatus, None, [], [], None, None, DefaultPaymentStatus,
      f.createdAt, now)
  }

  /** A row the upload accepts: its time parses and the schema accepts it. */
  predicate RowAccepted(row: UploadRow) {
    FormatRow(row).Some? && SchemaAccepts(FormatRow(row).value)
  }

  /** `e` is the document created from `row` at time `now`: a valid enquiry
      holding the row's name, cleaned phone number, course, "are you" answer,
      normalised working sector and learning mode and creation time, with the
      schema defaults for everything else. */
  predicate CreatedFromRow(e: Enquiry, row: UploadRow, now: int) {
    && ValidEnquiry(e)
    && e.name == Text.Trim(row.fullName)
    && e.phone == Text.Trim(CleanPhoneNumber(row.phoneNumber))
    && e.areYou == (if row.areYou == "Experience" then Experienced else Fresher)
    && e.workingIn.Some? && WorkingInLabel(e.workingIn.value) == NormalizeWorkingIn(row.workingIn)
    && LearningModeLabel(e.learningMode) == NormalizeLearningMode(row.learningMode)
    && e.status == Pending
    && e.source == Instagram
    && e.paymentStatus == Unpaid
    && e.attender == None
    && e.history == [] && e.payments == []
    && row.createdTime.ValidDate? && e.createdAt == row.createdTime.ms
    && e.updatedAt == now
    && e.course == Text.Trim(ExtractCourseName(row.formName))
  }

  predicate AllRowsAccepted(rows: seq<UploadRow>) {
    forall i :: 0 <= i < |rows| ==> RowAccepted(rows[i])
  }

  /** A whole upload at time `now`: the new documents in row order when every
      row is accepted, and a failure otherwise (the insert is all or nothing). */
  function UploadStudents(rows: seq<UploadRow>, now: int): (r: Option<seq<Enquiry>>)
    ensures r.Some? <==> AllRowsAccepted(rows)
    ensures r.Some? ==> |r.value| == |rows|
  {
    if AllRowsAccepted(rows) then
      Some(seq(|rows|, i requires 0 <= i < |rows| => RowEnquiry(FormatRow(rows[i]).value, now)))
    else
      None
  }

  /** Every document of an accepted upload is created from its own row. */
  lemma UploadCreatesFromRows(rows: seq<UploadRow>, now: int)
    ensures UploadStudents(rows, now).Some? ==>
      forall i :: 0 <= i < |rows| ==> CreatedFromRow(UploadStudents(rows, now).value[i], rows[i], now)
  {
    var r := UploadStudents(rows, now);
    if r.Some? {
      forall i | 0 <= i < |rows| ensures CreatedFromRow(r.value[i], rows[i], now) {
        assert RowAccepted(rows[i]);
        var f := FormatRow(rows[i]).value;
        Text.TrimEmptyIffAllSpace(f.name);
        Text.TrimEmptyIffAllSpace(f.phone);
        Text.TrimEmptyIffAllSpace(f.course);
        TrimmedRequired(f.name);
        TrimmedRequired(f.phone);
        TrimmedRequired(f.course);
      }
    }
  }

  /** A required value with a character that is not white space is stored
      non-empty, and the schema's trim setter leaves the stored value as it is. */
  lemma TrimmedRequired(s: string)
    requires exists i :: 0 <= i < |s| && !Text.IsSpace(s[i])
    ensures RequiredTrimmed(Text.Trim(s))
  {
    Text.TrimEmptyIffAllSpace(s);
    Text.TrimIdempotent(s);
  }
}
