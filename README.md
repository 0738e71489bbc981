# Report review lifecycle — a Dafny model

This project models the back end that students use to submit project reports (a PDF plus a title) and that teachers and admins use to review them. It covers:

- the Report document and its schema: required fields, trimmed fields and defaults;
- the report routes: submit, list own, list all, serve the PDF, approve, reject, issue a certificate, delete;
- the legacy project controller: submit, list, evaluate;
- the six-month series of the dashboard and its pending predicate.

Files and modules:

- `wrappers.dfy` (`Wrappers`): `Option`.
- `report_schema.dfy` (`ReportSchema`): the `Report` datatype. It also holds JavaScript's `trim`, the `new Report({...})` constructor with its defaults (`Create`), and the `required` validation every `save()` runs (`Required`).
- `lifecycle.dfy` (`Lifecycle`): the record rewrites the handlers perform (`Approve`, `Reject`, `Certify`, `Evaluate`). It also defines the derived review status, the intended invariant `Consistent`, and lemmas about these.
- `ordering.dfy` (`Ordering`): the "newest submission first" order of the listings and the insertion that builds it.
- `certificate.dfy` (`Certificate`): the text drawn on the completion certificate.
- `report_store.dfy` (`ReportStore`): the class `Store`. It holds the reports collection and the users' email fields, with one method per HTTP handler that returns the status sent. Each method says what it writes and what stays unchanged. Every writing handler except `EvaluateProject` also keeps `AllConsistent`.
- `dashboard.dfy` (`Dashboard`): the pending count and the `monthlyStats` fill loop, with its calendar arithmetic and `"Mon YYYY"` keys.
- `scenarios.dfy` (`Scenarios`): four example runs of the handlers, written as client methods that rely only on the handlers' contracts:
  - submit, approve twice;
  - certify, reject with no reason, certificate refused;
  - delete by a stranger, unknown PDF id;
  - submit with a title of white space only.

External steps become inputs:

- the id the database assigns to a new record;
- the current time (`now`) and the certificate date (`today`);
- whether the mail relay accepted a message (`mailSent`);
- for the dashboard, the aggregation result and the current (year, month).

The persistence calls are modelled on the two maps:

- `findById` returns an absent record as `!in`.
- A malformed id makes `findById` throw. The handlers that do not check ids themselves answer 500 in that case: approve, reject, certificate, delete.
- `save()` validates the required paths and then writes.
- `findByIdAndDelete` removes the key.

Points where the code behaves differently from what one might expect:

- `submitProject` (controllers/projectController.js:9-18) builds a record without `studentEmail` and without `pdf`. Both are required by the schema, so `save()` always rejects it. The legacy submit therefore always answers 500 and stores nothing (`ProjectRecord` ensures `!Required(r)`, and `SubmitProject` ensures status 500 with the store unchanged). The record it would build does have `isApproved = false` and takes its owner and name from the caller.
- `evaluateProject` writes only `isApproved`. A rejected report evaluated as approved is then both approved and rejected (`EvaluateBreaksConsistency`, `RejectThenEvaluateConflicts`). This path does not keep `Consistent`. The report routes all keep it.
- A title of only white space passes the route's own check (a non-empty string is truthy). It is then trimmed to "" and fails validation, so the answer is 500, not 400, and nothing is stored (`BlankTrimsToEmpty`, `BlankTitleSubmissionFails`, `Scenarios.BlankTitleSubmit`).
- Every write in the report routes happens before the mail is sent. A failed rejection notice is a 500 with the rejection already stored. A failed certificate mail is a rejected promise inside the PDF stream's asynchronous `end` listener, outside the handler's `try`. Nothing handles it: the request gets no answer (`NO_RESPONSE`), and since server.js installs no `unhandledRejection` handler, a Node.js runtime of version 15 or later ends the whole process. The certificate flag is already stored.
- An empty stored PDF buffer is still served with status 200 (an empty buffer is truthy). Only an absent buffer gives 404.
- A rejected report counts as pending on the dashboard, because pending means `isApproved == false` (`RejectedCountsAsPending`). A certified report that is later rejected keeps `certificateGenerated = true` (`CertificateSurvivesRejection`).

## Model

| member | source | states |
|---|---|---|
| ReportSchema.TrimStartSpec | models/Report.js:9-23 | the result is a suffix of the input, every dropped character is white space, and it does not start with white space |
| ReportSchema.TrimEndSpec | models/Report.js:9-23 | the result is a prefix of the input, every dropped character is white space, and it does not end with white space |
| ReportSchema.TrimSpec | models/Report.js:9-23 | the stored value is a slice of the input with no white space at either end and only white space around it |
| ReportSchema.TrimIdempotent | models/Report.js:9-23 | trimming a stored (already trimmed) value changes nothing |
| ReportSchema.Create | models/Report.js:3-59 | a new record keeps owner and pdf, trims name, email and title, dates itself now when no date is given, and takes the defaults: not approved, not rejected, empty reason, no certificate |
| ReportSchema.CreateRequired | models/Report.js:4-37 | a new record passes validation exactly when owner, trimmed name, trimmed email, trimmed title, buffer, content type and file name are all non-empty |
| ReportSchema.BlankTrimsToEmpty | models/Report.js:19-23 | every non-empty string of white space only trims to the empty string |
| ReportSchema.BlankTitleFailsValidation | models/Report.js:19-23 | a new record whose title is white space only is stored with a blank title and fails the required check |
| Lifecycle.ReasonOrDefault | routes/reportRoutes.js:114 | the stored reason is the given one when it is non-empty, else "No reason provided"; never empty |
| Lifecycle.Approve | routes/reportRoutes.js:90-92 | approved, not rejected, reason cleared, consistent; submission fields and certificate flag unchanged |
| Lifecycle.Reject | routes/reportRoutes.js:112-114 | not approved, rejected, reason or its default, consistent; submission fields and certificate flag unchanged |
| Lifecycle.Certify | routes/reportRoutes.js:149 | only the certificate flag is set; review fields and submission unchanged |
| Lifecycle.Evaluate | controllers/projectController.js:52 | only `isApproved` takes the supplied value; `rejected`, reason, flag and submission unchanged |
| Lifecycle.SameSubmissionKeepsRequired | models/Report.js:4-37 | the review rewrites change neither the outcome of validation nor the trimmed fields |
| Lifecycle.CreatedIsPending | models/Report.js:43-58 | a record with the schema defaults is pending and consistent |
| Lifecycle.ConsistentHasStatus | models/Report.js:43-54 | a consistent record has exactly one of pending, approved, rejected, and a reason exactly when rejected |
| Lifecycle.ApproveIdempotent | routes/reportRoutes.js:90-92 | approving twice gives the record approving once gives |
| Lifecycle.ApproveApprovedIsNoOp | routes/reportRoutes.js:90-92 | approving an approved consistent record leaves it unchanged |
| Lifecycle.ReapprovalClearsReason | routes/reportRoutes.js:90-92 | approving a rejected report gives the same record as approving it before the rejection |
| Lifecycle.CertificateSurvivesRejection | routes/reportRoutes.js:112-114 | rejecting a certified report leaves the certificate flag set on a rejected record |
| Lifecycle.EvaluateBreaksConsistency | controllers/projectController.js:52-53 | evaluating a rejected report as approved makes it both approved and rejected |
| Lifecycle.EvaluateFalseOnApproved | controllers/projectController.js:52-53 | evaluating an approved report as not approved makes it pending, still consistent |
| Lifecycle.RejectThenEvaluateConflicts | controllers/projectController.js:52-53 | a new report rejected by the report routes and then evaluated as approved is in the conflicting state |
| Lifecycle.TransitionsPreserveConsistency | routes/reportRoutes.js:90-149 | approve, reject, certify and delete keep every record of the store consistent |
| Ordering.InsertByDate | routes/reportRoutes.js:45 | inserting keeps the list newest first and adds exactly the new entry |
| Ordering.InsertKeepsDistinct | routes/reportRoutes.js:45 | inserting an entry with a new id keeps ids distinct |
| Certificate.Render | routes/reportRoutes.js:187-220 | the certificate opens with the fixed college header and contains the student's name, the quoted title, the date and the three signature roles |
| Certificate.RenderRecoversFields | routes/reportRoutes.js:203-207 | the name and the title can be read back from fixed lines of the certificate |
| ReportStore.Submission | routes/reportRoutes.js:22-32 | the submitted record takes owner, trimmed name and email from the caller, pdf from the upload, is dated now and is pending with defaults |
| ReportStore.BlankTitleSubmissionFails | routes/reportRoutes.js:18-34 | a title of white space only passes the route's emptiness test, but the record it builds fails validation |
| ReportStore.ProjectRecord | controllers/projectController.js:9-16 | the legacy record takes owner and name from the caller, is not approved, is dated now, and never passes validation |
| ReportStore.Store.Save | routes/reportRoutes.js:34 | a save writes the record exactly when it passes validation and changes nothing else |
| ReportStore.Store.SubmitReport | routes/reportRoutes.js:15-40 | missing or empty title or no file: 400 and no record; otherwise exactly one record is added under the new id when valid and the id is free (201), else 500 and nothing stored; consistency kept |
| ReportStore.Store.Find | routes/reportRoutes.js:45 | the query returns every selected record once, with its id and stored value, newest first |
| ReportStore.Store.MyReports | routes/reportRoutes.js:43-51 | exactly the caller's records, each once, newest first |
| ReportStore.Store.AllReports | routes/reportRoutes.js:54-62 | every record, each once, newest first |
| ReportStore.Store.ServePdf | routes/reportRoutes.js:65-82 | malformed id: 400 and no bytes; unknown report or absent buffer: 404 and no bytes; otherwise 200 with the stored type, an inline disposition naming the original file, and the stored bytes |
| ReportStore.Store.ApproveReport | routes/reportRoutes.js:85-100 | malformed id: 500, unknown id: 404, both unchanged; otherwise only that record is approved (200), or nothing changes if it fails validation (500); consistency kept |
| ReportStore.Store.RejectReport | routes/reportRoutes.js:103-137 | 500, 404, or 400 when the owner has no email, all before any write; otherwise only that record is rejected, then the notice goes to the owner's email, and a failed mail is a 500 with the rejection kept |
| ReportStore.Store.IssueCertificate | routes/reportRoutes.js:140-227 | 500, 404, 400 for not approved and 400 for no owner email, none writing; otherwise only the flag is set and saved, then the certificate is rendered and mailed, and it is returned only when the mail succeeds (otherwise no answer); a document is returned only for an approved report |
| ReportStore.Store.DeleteReport | routes/reportRoutes.js:230-248 | 500, 404, or 403 unless owner, admin or teacher, all unchanged; otherwise exactly that record is removed |
| ReportStore.Store.SubmitProject | controllers/projectController.js:5-24 | always 500 and nothing stored, because the record lacks required fields |
| ReportStore.Store.GetAllProjects | controllers/projectController.js:27-35 | every record, each once, newest first |
| ReportStore.Store.EvaluateProject | controllers/projectController.js:38-60 | malformed id: 400, unknown: 404, both unchanged; otherwise only `isApproved` of that record is overwritten (200), or nothing changes if it fails validation (500) |
| Dashboard.PendingApprovals | routes/dashboard.js:14 | the count of not-approved reports never exceeds the number of reports |
| Dashboard.PendingAfterUpdate | routes/dashboard.js:14 | rewriting one record changes the pending count only by that record's change of pending status |
| Dashboard.ApproveLowersPending | routes/dashboard.js:14 | approving a pending report lowers the pending count by exactly one |
| Dashboard.RejectedCountsAsPending | routes/dashboard.js:14 | a rejected report is pending; rejecting never lowers the pending count and raises it by one for an approved report |
| Dashboard.MonthsBefore | routes/dashboard.js:44-46 | the month number of a normalised date is in 1..12 |
| Dashboard.MonthsBeforeWraps | routes/dashboard.js:44-46 | within a year back the month is plain subtraction in the same year; before January it wraps to the previous year's later months |
| Dashboard.MonthsBeforeStep | routes/dashboard.js:43-46 | the month one step less far back is the next calendar month |
| Dashboard.MonthsBeforeInjective | routes/dashboard.js:43-46 | different distances back give different months |
| Dashboard.LookupFindsFirst | routes/dashboard.js:49 | no bucket found exactly when none matches (year, month); otherwise the first matching bucket |
| Dashboard.FindBucket | routes/dashboard.js:49 | the linear scan returns the first bucket of (year, month), or none |
| Dashboard.NatToString | routes/dashboard.js:47 | a numeral is a non-empty string of decimal digits without a leading zero |
| Dashboard.NatToStringRoundTrip | routes/dashboard.js:47 | reading back the digits gives the number |
| Dashboard.IntToStringRoundTrip | routes/dashboard.js:47 | reading back the year's numeral gives the year |
| Dashboard.MonthNumberOfName | routes/dashboard.js:47 | each month's three-letter name reads back as that month's number |
| Dashboard.MonthKeyRoundTrip | routes/dashboard.js:47 | a key, read back as three-letter name and year numeral, gives the month it was made from |
| Dashboard.MonthKeyInjective | routes/dashboard.js:47 | two months share a key only when they are the same month |
| Dashboard.StatForCounts | routes/dashboard.js:49-53 | an entry with no matching bucket has zero totals; otherwise it carries the first matching bucket's counts |
| Dashboard.MonthEntry | routes/dashboard.js:44-53 | one pass of the loop body builds the month's key with the first matching bucket's counts, or zeros |
| Dashboard.MonthlyStats | routes/dashboard.js:42-55 | the loop produces exactly the six-entry series, entry k being the month 5 - k months back, oldest first |
| Dashboard.SeriesStep | routes/dashboard.js:42-55 | the entry of the month `back` months back extends the filled prefix of the series by one entry |
| Dashboard.SeriesIsConsecutive | routes/dashboard.js:43-47 | the series ends at the current month, each entry is the month after the one before it, and the six keys are different |
| Dashboard.SeriesAt | routes/dashboard.js:43-53 | entry k of the series is the month 5 - k months back, with that month's key and counts |
| Dashboard.SeriesShape | routes/dashboard.js:42-55 | the series has six entries, the last keyed by the current month, no two with the same key |
| Scenarios.BlankTitleSubmit | routes/reportRoutes.js:15-40 | on any store, a submission whose title is white space only is answered with 500, not 400, and stores nothing |

## Left out

- PDF drawing (layout, fonts, colours, the logo file). Only the certificate's text is modelled, as lines of strings. A failure while drawing (for example a missing logo) is not modelled: rendering always succeeds, after the flag is stored.
- Mail sending is an external call. It is reduced to the recipient address and a `mailSent` outcome, and it happens only after the write. The message bodies are not modelled. The rejection notice quotes the request's raw reason, not the defaulted one.
- Asynchronous ordering, event callbacks and concurrent requests: each handler is one atomic read-modify-write.
- Object ids: the validity test is modelled as 24 hexadecimal digits. The 12-character form that the library also accepts is left out, and so is the case-insensitivity of hexadecimal ids in lookups.
- Request bodies that are not strings (`projectTitle`, `reason`) or not booleans (`isApproved` in evaluate) are left out. Mongoose casting is not modelled.
- `description` in the legacy submit is dropped, as the strict schema drops it.
- Database failures other than validation, a malformed id, and an id clash on insert are left out (these three become 500).
- Equal submission dates: the model puts them in one fixed order, while the database may return them in any order. The contracts allow either.
- Dashboard: the aggregation result is an input, so that the month buckets are not computed from the reports. The user counts (students, teachers), the total `countDocuments()` and the JSON response are not modelled.
- Dashboard: JavaScript's two-digit-year rule for `new Date(y, …)` with `y` in 0..99 is not modelled. The model uses plain calendar arithmetic for every year.
- routes/auth.js, controllers/authController.js and middleware/authMiddleware.js: the caller's identity `{id, name, email, role}` is an input. server.js, app.js, routes/project.js, routes/teacherRoutes.js and scripts/createAdmin.js are wiring. models/ProjectSubmission.js and controllers/reportController.js are superseded. None of these is part of this model.
