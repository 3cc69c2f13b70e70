# Revive CRM backend — a Dafny model of its core

This project models the part of the Revive CRM backend that carries its
business rules:

- **Student enquiries** (`EnquiryModel`, `StudentIntake`, `StudentUpdate`,
  `EnquiryQuery`): the enquiry document with its enumerations and defaults;
  the bulk upload of lead-form spreadsheet rows (course extraction, phone
  cleaning, learning-mode and working-sector normalisation, all-or-nothing
  insert); the update request that logs a history entry, records a payment,
  derives the balance and payment status, and applies the new status and
  attender; and the date-range filter of the enquiry listing.
- **The follow-up reminder job** (`ReminderCron`, `FollowUpFlow`): one tick
  at time `now` looks at the window `[now + 10 min, now + 11 min)`, mails the
  staff member responsible for each due follow-up, marks it as reminded and
  saves the enquiry. `FollowUpFlow` follows a follow-up request from the
  update handler through to the tick that reminds it.
- **User accounts** (`Credentials`, `UserAccounts`): the e-mail and password
  validators, registration, sign-in, and the three-step password reset
  (request an OTP, verify it, set a new password).

`Wrappers` holds `Option` and `Result`; `Text` gives JavaScript's string
operations (`trim`, `toLowerCase`, `includes`, `startsWith`, the `\s` class)
their meaning on `seq<char>`.

Conventions used throughout:

- Time is an `int` count of milliseconds. Request fields are `Option`s and
  follow JavaScript truthiness: a string is given when present and
  non-empty, a number when present and non-zero. A date field is `None` when
  absent or empty, and otherwise `ValidDate(ms)` or `InvalidDate`.
- The collections are maps: enquiries by document id, users by e-mail
  address.
- A save the schema refuses (an enum violation, an unparsable date, a `NaN`
  number) is the error `SaveRejected`, with the store unchanged.
- Hashing is the datatype `Digest(salt, secret)`, and the hash comparison is
  equality of secrets. The access token is the datatype `Token(email, role)`;
  it names the user by the stored, lower-cased address, which stands in for
  the document id the token is signed over. Users are stored and looked up
  by the lower-cased address (`UserAccounts.AddressKey`), because the schema's
  `lowercase` setter on `email` applies to saved documents and to query
  filters alike; the format check still sees the address as given.
  The random draw of an OTP is a parameter `r` in `[0, 1)`. The user
  directory the reminder job consults is a parameter mapping a staff name to
  an e-mail address.
- Mongoose refreshes `updated_at` on a save only when the document changed.
  The model does the same: an update that changes nothing keeps the old
  `updated_at`.

Two places in the code behave differently from what the code around them
evidently expects. Each is a row under "## Findings", and the model keeps
both versions:

- **The course fee.** The update handler assigns `course_fee`
  (controllers/studentController.js:152), but the enquiry schema declares no
  such path, so the fee is never stored. `StudentUpdate.ApplyUpdate` and
  `StudentUpdate.UpdateStudent` model the handler with the fee stored, which
  is the corrected behaviour. Only `StudentUpdate.ApplyUpdateAsWritten`
  follows the code as written, where a payment that does not repeat the fee
  is refused on save.
- **The first follow-up.** A history entry stores the status from before the
  update (`status: student.status`, controllers/studentController.js:136,
  pushed before the new status is applied at line 164). The reminder job
  selects entries whose stored status is `Follow up`
  (followupReminderCron.js:19 and 32). So the follow-up date given with the
  update that moves an enquiry into `Follow up` is never reminded, although
  the handler demands a note and a date exactly for that update
  (controllers/studentController.js:120-123). The reminder job takes a
  `Selection`: `ByRecordedStatus` is the job as written, and `ByFollowUpDate`
  is the corrected job, which recognises a follow-up entry by its date.
  Every `ReminderCron` lemma holds for both.

Other behaviours of the code that the model keeps:

- An upload row whose learning mode or working sector is not recognised
  normalises to the empty string. The schema's enum refuses that string, so
  the whole upload fails.
- The reminder job's save also refreshes the enquiry's `updated_at`.

## Model

| member | source | states |
|---|---|---|
| Text.Contains | controllers/studentController.js:11 | `includes` holds exactly when the pattern occurs at some index of the string |
| Text.Trim | controllers/studentController.js:42 | `trim` returns the infix left after removing white space from both ends; the result neither starts nor ends with white space |
| Text.TrimEmptyIffAllSpace | controllers/studentController.js:121 | a note is blank once trimmed exactly when every character is white space |
| Text.TrimIdempotent | models/studentEnquiryModel.js:4-18 | the schema's trim setter applied to an already trimmed value changes nothing |
| Credentials.ValidEmailMatchesPattern | controllers/userController.js:7 | the e-mail check accepts exactly the strings the pattern matches: no white space, exactly one `@` with something before it, and a `.` in the domain that is neither its first nor its last character |
| Credentials.ValidPasswordMatchesPattern | controllers/userController.js:8 | the password policy (at least 8 characters, all letters, digits or `@$!%*?&`, with a lower-case letter, an upper-case letter, a digit and a special character) accepts exactly what the pattern with its four lookaheads matches |
| Credentials.ValidCredentialsAreTrimmed | controllers/userController.js:32-36 | valid credentials contain no white space, so the sign-in handler's trimming leaves them unchanged |
| EnquiryModel.ParseStatus | models/studentEnquiryModel.js:39-43 | the status enum check accepts exactly the four labels, and a parsed label shows as itself |
| EnquiryModel.ParsePaymentMode | models/studentEnquiryModel.js:61 | the payment mode enum check accepts exactly `Cash`, `UPI`, `Card` and `Bank Transfer` |
| EnquiryModel.ParseWorkingIn | models/studentEnquiryModel.js:24-27 | the working-sector enum check accepts exactly `IT` and `Non IT` |
| EnquiryModel.ParseLearningMode | models/studentEnquiryModel.js:28-32 | the learning-mode enum check accepts exactly `Online` and `Offline` |
| StudentIntake.FirstMentioned | controllers/studentController.js:10-14 | the course patterns are tried in order: the result is the first one the form name mentions, and none means none is mentioned |
| StudentIntake.ExtractCourseNameFirstMention | controllers/studentController.js:3-17 | the course is empty exactly for an empty form name; otherwise it is the earliest listed course the name mentions in any letter case, and `Unknown` exactly when it mentions none |
| StudentIntake.CleanPhoneNumber | controllers/studentController.js:19-27 | a number starting with `+91` loses exactly those three characters, so `+91` followed by the result is the input; any other number, the empty one included, comes back unchanged |
| StudentIntake.CleanPhoneNumberStripsOnePrefix | controllers/studentController.js:22-24 | cleaning undoes exactly one added `+91`, even if the number itself starts with `+91` |
| StudentIntake.NormalizeLearningMode | controllers/studentController.js:29-37 | the result is `Online`, `Offline` or empty, `Online` exactly when the answer lower-cases to `online` and `Offline` exactly when it lower-cases to `offline` |
| StudentIntake.NormalizeLearningModeIdempotent | controllers/studentController.js:29-37 | normalising a normalised learning mode changes nothing |
| StudentIntake.NormalizeWorkingIn | controllers/studentController.js:39-48 | the result is `Non IT` exactly when the trimmed lower-cased answer mentions `non`, `IT` exactly when it mentions `it` but not `non`, and empty otherwise |
| StudentIntake.NormalizeWorkingInIdempotent | controllers/studentController.js:44-45 | normalising a normalised sector changes nothing; `Non IT` stays `Non IT` although it also mentions `it` |
| StudentIntake.UploadStudents | controllers/studentController.js:50-70 | the insert is all or nothing: it succeeds exactly when every row is accepted, and then creates one document per row |
| StudentIntake.UploadCreatesFromRows | controllers/studentController.js:54-64 | each created document comes from its own row: a valid enquiry holding the row's trimmed name, its cleaned and trimmed phone number, its extracted course, `Experienced` exactly when the row answers `Experience`, its normalised working sector and learning mode, and its creation time; and the schema defaults `Pending`, `Instagram` and `Unpaid`, with no attender, history or payments |
| StudentIntake.TrimmedRequired | models/studentEnquiryModel.js:4-18 | a required value that is not all white space is stored non-empty, and trimming the stored value again changes nothing |
| EnquiryQuery.FilterEnquiries | controllers/studentController.js:90-101 | the listing keeps, in their order, exactly the enquiries whose own `updated_at` or some history entry's `updated_at` lies in the closed range, each as many times as it occurs in the input |
| EnquiryQuery.FilterKeepsQueryResults | controllers/studentController.js:82-101 | the in-memory filter removes nothing from what the database query returned, since the query already used the same condition |
| EnquiryQuery.FilterIdempotent | controllers/studentController.js:90-101 | filtering the filtered listing again changes nothing |
| StudentUpdate.BalanceFor | controllers/studentController.js:153 | the balance is never negative, is zero exactly when the payments cover the fee, and otherwise adds to the total paid to give the fee |
| StudentUpdate.PaymentStatusFor | controllers/studentController.js:155-161 | `Fully Paid` exactly when the total covers the fee, `Partially Paid` exactly when something but not all is paid, `Unpaid` otherwise |
| StudentUpdate.AppendPayment | controllers/studentController.js:143-162 | a payment is appended with its amount, mode and time, earlier payments are kept, the total grows by the amount, and the derived fields agree with the payments |
| StudentUpdate.ApplyOverrides | controllers/studentController.js:164-165 | status and attender hold the given values when given and keep their values otherwise; nothing else changes |
| StudentUpdate.ApplyUpdate | controllers/studentController.js:120-167 | the handler with the fee stored (the corrected behaviour of the first finding): a follow-up without a non-blank note and a parsable date is refused with 400; otherwise the update fails on save exactly when the schema would refuse the modified document |
| StudentUpdate.UpdateStudent | controllers/studentController.js:110-174 | the handler with the fee stored (the corrected behaviour of the first finding): an unknown well-formed id gives 404 before anything is validated; a failed update leaves the collection unchanged; a successful one replaces only that enquiry |
| StudentUpdate.UpdateLogsPreviousState | controllers/studentController.js:126-141 | the history is append-only and grows by one entry exactly when the update is logged; that entry holds the status and attender from before the update, the trimmed note and the follow-up date, stamped now and not yet reminded |
| StudentUpdate.UpdateRecordsPayment | controllers/studentController.js:143-162 | a payment is recorded exactly when amount and mode are both given; the new payment carries the given amount, mode and time, earlier payments are kept, and the balance is what the fee leaves after all payments, and the status is fully or partially paid as the payments cover the fee; otherwise no payment field changes, even when a fee is supplied |
| StudentUpdate.UpdateOverwritesOnlyGiven | controllers/studentController.js:164-167 | only the status and attender can be overwritten, and only when given; the profile fields never change; `updated_at` moves to now exactly when the document changed |
| StudentUpdate.EmptyUpdateChangesNothing | controllers/studentController.js:126-167 | a request that supplies nothing leaves the enquiry exactly as it was |
| StudentUpdate.UpdatePreservesPaymentConsistency | controllers/studentController.js:143-162 | every successful update keeps the balance and payment status in agreement with the fee and the payments |
| StudentUpdate.FullPaymentSettles | controllers/studentController.js:151-156 | paying the whole fee of 5000 on an enquiry without payments leaves one payment, a zero balance, and the enquiry fully paid |
| StudentUpdate.ApplyUpdateAsWritten | controllers/studentController.js:152-153 | as written, the fee is never stored, so a payment without a supplied fee is refused on save |
| StudentUpdate.UndeclaredCourseFeeRefusesPayment | controllers/studentController.js:152-153 | on an enquiry with fee 5000, a payment of 2000 in cash is refused as written, while with the fee stored it gives a balance of 3000 and a partially paid enquiry |
| ReminderCron.TickWindow | followupReminderCron.js:7-9 | a tick at `now` covers follow-ups due from ten minutes ahead up to, but not including, eleven minutes ahead |
| ReminderCron.WindowIsOneMinute | followupReminderCron.js:7-9 | the window is one minute wide and starts ten minutes after the tick |
| ReminderCron.FollowUpPickedOnlyInItsWindow | followupReminderCron.js:12-23 | for either selection, a follow-up ten and a half minutes ahead is due for the tick now and no longer for the tick two minutes later |
| ReminderCron.WindowsTile | followupReminderCron.js:6-9 | with ticks one minute apart, every instant lies in the window of exactly one tick, so a follow-up is considered by one tick only |
| ReminderCron.NotifyCount | followupReminderCron.js:28-60 | some entry is mailed exactly when the count of mailed entries is positive |
| ReminderCron.Reminders | followupReminderCron.js:28-60 | the loop sends one mail per mailed entry |
| ReminderCron.RemindersCoverNotified | followupReminderCron.js:55-59 | every due entry whose recipient is a known user gets its reminder |
| ReminderCron.RemindersOnlyNotified | followupReminderCron.js:31-39 | every mail sent is the reminder for a due entry whose recipient is a known user |
| ReminderCron.TickRecord | followupReminderCron.js:25-64 | for either selection, one tick marks exactly the mailed entries, sends exactly their reminders in history order, and saves the enquiry exactly when it mailed something; an unsaved enquiry is unchanged, and a saved one differs only in its history and `updated_at` |
| ReminderCron.TickStore | followupReminderCron.js:12-25 | a tick over the collection keeps every id, and leaves every enquiry without a due entry unchanged |
| ReminderCron.TickIdempotent | followupReminderCron.js:31-39 | a second tick at the same time sends nothing, marks nothing and saves nothing |
| ReminderCron.RemindedOnce | followupReminderCron.js:31-36 | an entry mailed by one tick is never mailed again by any later tick, whatever that tick's selection and the directory it then consults |
| ReminderCron.QueryAgreesWithLoop | followupReminderCron.js:12-36 | the database query and the loop select with the same condition, so scanning every enquiry gives the same collection as scanning the queried ones |
| FollowUpFlow.FreshFollowUpIsNeverReminded | controllers/studentController.js:126-141 | as written, moving an enquiry into `Follow up` with a note and a date succeeds, but the entry it logs records the previous status, so no reminder tick ever mails it (the as-written half of the second finding) |
| FollowUpFlow.FollowUpIsLogged | controllers/studentController.js:120-165 | a follow-up request with a non-blank note succeeds, leaves the enquiry in `Follow up` with its attender, and logs one unreminded entry holding the previous status and attender and the requested date |
| FollowUpFlow.FollowUpIsReminded | followupReminderCron.js:28-59 | a follow-up request is mailed to the enquiry's attender by the tick whose window covers its date, and its entry is marked as reminded: always by the corrected job (the corrected half of the second finding), and by the job as written only when the enquiry was already in `Follow up` |
| UserAccounts.CreateUser | controllers/userController.js:11-29 | an address registered in any letter case is refused, and only then, with the users unchanged; otherwise a missing password or an empty field creates nothing, and only then; a new user is stored under the lower-cased address only when all fields are present, with the password hashed and no OTP state |
| UserAccounts.LoginUser | controllers/userController.js:31-62 | after trimming both inputs the first failing check decides the error, in the order address format, password policy, registration (looked up in lower case), password; success returns a token for the lower-cased address with the user's role and name |
| UserAccounts.GenerateOtp | controllers/userController.js:104 | the OTP drawn for any random number in `[0, 1)` has four digits |
| UserAccounts.EveryFourDigitOtpIsDrawn | controllers/userController.js:104 | every value from 1000 to 9999 can be drawn |
| UserAccounts.DecimalString | controllers/userController.js:104 | a number's text is a non-empty run of decimal digits without a leading zero |
| UserAccounts.DecimalRoundTrip | controllers/userController.js:104 | reading a number's decimal text gives the number back |
| UserAccounts.FourDigitText | controllers/userController.js:104 | the text of a four-digit OTP is four characters long |
| UserAccounts.ForgotPassword | controllers/userController.js:86-133 | a missing or empty, malformed, or unknown address (looked up in lower case) is refused with the users unchanged; otherwise only that user's hashed OTP and an expiry five minutes ahead are stored, and a four-digit OTP is mailed to the address |
| UserAccounts.VerifyOtp | controllers/userController.js:136-155 | a user, looked up by the lower-cased address, is marked verified exactly when the given OTP matches the stored one and the expiry has not passed; a match after expiry is reported expired; a mismatch is a wrong OTP; a missing address is refused; a missing user, stored OTP or given OTP makes the comparison throw; each error is stated by its own iff and every failure leaves the users unchanged |
| UserAccounts.ResetPassword | controllers/userController.js:157-198 | the checks run in the order fields given, password policy, user known (by the lower-cased address), user verified, each failure with its own error stated by an iff, and any failure leaves the users unchanged; success stores the new password's hash and clears the OTP, its expiry and the verified flag |
| UserAccounts.ResetFlow | controllers/userController.js:86-198 | an OTP requested, entered from its mail within five minutes, lets a valid new password be set; the new password then signs in, and a second reset is refused until a fresh OTP is verified |
| UserAccounts.LateOtpExpires | controllers/userController.js:144-150 | the mailed OTP entered more than five minutes after the request is reported expired and verifies nothing |
| UserAccounts.ForgotKeepsVerification | controllers/userController.js:110-113 | requesting an OTP changes no user's password or verified flag |
| UserAccounts.LoginAfterCreate | controllers/userController.js:11-57 | a user registered with valid credentials signs in with them, even when the address is padded with white space, and gets the registered role and name |
| UserAccounts.AddressCaseIgnored | models/userModel.js:8-13 | once an address is registered, the same address in other letter case cannot register again and signs in as the registered user |
| UserAccounts.LoginWithStoredPassword | controllers/userController.js:47-53 | valid credentials whose password hashes to the stored one sign in |
| UserAccounts.PaddingTrimmed | controllers/userController.js:32 | trimming removes white-space padding on both sides of a trimmed value |

## Left out

- I/O is not modelled: HTTP requests and replies, database round trips, logging, and the mail transport. The models return values in place of replies. Every mail handed to the mailer is taken as sent.
- The reminder job's error path is left out. A failed mail or save aborts the rest of a tick (followupReminderCron.js:66-68).
- Scheduling is left out. The job is modelled one tick at a time, and overlapping ticks or other concurrency are not modelled.
- The mail bodies are left out: the HTML, the `toLocaleString` time format and the rendered OTP template. Only the fields a mail carries are modelled.
- Date parsing and `setHours` are left out. The enquiry listing takes its range bounds as instants, so local-time day boundaries are not modelled.
- Number coercion is left out. Amounts and fees are integers, so `Number()` on strings, floating point and `NaN` do not arise. A missing fee is an absent `Option`.
- Text.ToLower: lower-cases ASCII letters only, because full Unicode case mapping is out of scope.
- CreateUser: an absent `email` is not modelled. How the database treats a lookup by an undefined value is outside this model.
- UpdateStudent: ids are taken to be well-formed. A string that is not an ObjectId makes `findById` throw a cast error, which the handler answers with 500 rather than 404 (studentController.js:115, 170-172); the model's `Id` cannot express such a string.
- UploadStudents: every cell is taken to be a string. A spreadsheet cell read as a number, such as a phone column, makes `startsWith` throw (studentController.js:22), and the whole upload then fails with 500 (studentController.js:66-68); this case is not modelled.
- LoginUser: a request without `email` or `password` throws before the handler's `try`. This case is not modelled, and the inputs are strings.
- VerifyOtp: without an `email` the handler replies 400 but does not return. The model stops at that reply. The rest of the handler then looks the user up by an undefined value, which is outside this model.
- bcrypt is not modelled. A hash is the datatype `Digest(salt, secret)`, and comparing a secret with a hash tests the secrets for equality. This treats bcrypt as collision-free.
- UserAccounts.GenerateOtp: uses exact real arithmetic in place of `Math.random`'s double precision.
- The access token's signature and six-hour expiry are left out. The token only carries the user and role, and names the user by e-mail address rather than by database id, because the address is the key of the user collection here.
- The users' own timestamps are left out.
- Other operations are left out: `getAllMembers`, `deleteUser`, `getUserDetails`, `createStudent`, the course controller and model, routing, and server start-up. They are thin CRUD outside the business rules modelled here.
- `next_due_date` is left out. It is declared in the enquiry schema but no handler reads or writes it.
- The order of mails across different enquiries in one tick is left out. It follows the database's return order. Within one enquiry, mails follow history order.

## Findings

| source | as written | input that shows it | evidently intended | confidence | as-written member | corrected member |
|---|---|---|---|---|---|---|
| controllers/studentController.js:152 | the handler assigns `course_fee`, but the enquiry schema (models/studentEnquiryModel.js:3-74) declares no such path; the fee is never stored, so a later payment that does not repeat the fee computes a `NaN` balance, which the save refuses | an enquiry with fee 5000 and no payments receives `{amount: 2000, payment_mode: "Cash"}`: the update fails with 500 (`StudentUpdate.UndeclaredCourseFeeRefusesPayment`) | the fee is stored; the payment is appended, the balance becomes 3000, and the status becomes `Partially Paid`, and the balance and status always agree with the payments (`StudentUpdate.UpdateRecordsPayment`, `StudentUpdate.UpdatePreservesPaymentConsistency`) | medium, not executed | StudentUpdate.ApplyUpdateAsWritten | StudentUpdate.ApplyUpdate |
| followupReminderCron.js:32 | the job reminds a history entry only when its stored status is `Follow up`, but an entry stores the status from before its update (controllers/studentController.js:136), so the entry logged by the update that moves an enquiry into `Follow up` never has that status | a `Pending` enquiry receives `{status: "Follow up", note: "call back", follow_up_date: D}`; no tick at any time mails a reminder for D (`FollowUpFlow.FreshFollowUpIsNeverReminded`) | the follow-up date demanded with the move into `Follow up` (controllers/studentController.js:120-123) is reminded by the tick whose window covers it (`FollowUpFlow.FollowUpIsReminded` with `ByFollowUpDate`) | medium, not executed | FollowUpFlow.FreshFollowUpIsNeverReminded | FollowUpFlow.FollowUpIsReminded |
