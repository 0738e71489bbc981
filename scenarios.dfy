/**
 * Example runs of the handlers, as client code: what a caller can conclude
 * from the handlers' contracts alone.
 */
module Scenarios {
  import opened Wrappers
  import opened ReportSchema
  import opened Lifecycle
  import opened ReportStore

  const REPORT_ID: string := "65a1f0c2b3d4e5f60718293a"
  const STUDENT_ID: string := "65a1f0c2b3d4e5f607182900"
  const OTHER_ID: string := "65a1f0c2b3d4e5f607182901"
  const NAME: string := "Asha Patil"
  const EMAIL: string := "asha@example.org"
  const TITLE: string := "Library System"

  lemma IdsAreObjectIds()
    ensures IsObjectId(REPORT_ID) && IsObjectId(OTHER_ID)
  {
    HexId(REPORT_ID);
    HexId(OTHER_ID);
  }

  /** A 24-character id written with lower-case hexadecimal digits only is an object id. */
  lemma HexId(s: string)
    requires |s| == 24 && forall i :: 0 <= i < |s| ==> s[i] in "0123456789abcdef"
    ensures IsObjectId(s)
  {
  }

  lemma LiteralsAreTrimmed()
    ensures Trim(NAME) == NAME && Trim(EMAIL) == EMAIL && Trim(TITLE) == TITLE
  {
    TrimOfTrimmed(NAME);
    TrimOfTrimmed(EMAIL);
    TrimOfTrimmed(TITLE);
  }

  /** A submitted report is pending; approving it twice leaves it as approving once does. */
  method SubmitThenApprove(file: Upload, now: int)
    requires |file.buffer| > 0 && file.mimetype == "application/pdf" && file.originalname == "report.pdf"
  {
    IdsAreObjectIds();
    LiteralsAreTrimmed();
    var student := Identity(STUDENT_ID, NAME, EMAIL, "student");
    var store := new Store(map[], map[STUDENT_ID := Some(EMAIL)]);

    var status := store.SubmitReport(student, Some(TITLE), Some(file), REPORT_ID, now);
    assert status == CREATED && StatusOf(store.reports[REPORT_ID]) == Pending;
    assert store.reports[REPORT_ID].studentName == NAME;

    status := store.ApproveReport(REPORT_ID);
    assert status == OK && StatusOf(store.reports[REPORT_ID]) == Approved;
    var approved := store.reports[REPORT_ID];
    status := store.ApproveReport(REPORT_ID);
    assert store.reports[REPORT_ID] == approved;
  }

  /** An approved report gets a certificate naming the student and the title; once rejected it gets none. */
  method CertificateGate(r: Report)
    requires Required(r) && r.user == STUDENT_ID && r.studentName == NAME && r.projectTitle == TITLE
  {
    IdsAreObjectIds();
    var store := new Store(map[REPORT_ID := Approve(r)], map[STUDENT_ID := Some(EMAIL)]);
    var status, document, mailedTo := store.IssueCertificate(REPORT_ID, "14/10/2026", true);
    assert status == OK && store.reports[REPORT_ID].certificateGenerated;
    assert NAME in document.value && "\"" + TITLE + "\"" in document.value;

    status, mailedTo := store.RejectReport(REPORT_ID, None, true);
    assert status == OK && mailedTo == Some(EMAIL);
    assert store.reports[REPORT_ID].rejectionReason == NO_REASON;

    status, document, mailedTo := store.IssueCertificate(REPORT_ID, "14/10/2026", true);
    assert status == BAD_REQUEST && document.None?;
  }

  /** A stranger cannot delete a report, and an unknown id serves no bytes. */
  method StrangerAndUnknownId(r: Report)
    requires r.user == STUDENT_ID
  {
    IdsAreObjectIds();
    var store := new Store(map[REPORT_ID := r], map[]);
    var stranger := Identity(OTHER_ID, "Someone", "someone@example.org", "student");
    var status := store.DeleteReport(REPORT_ID, stranger);
    assert status == FORBIDDEN && store.reports == map[REPORT_ID := r];

    var reply;
    status, reply := store.ServePdf(OTHER_ID);
    assert status == NOT_FOUND && reply.None?;
  }

  /** A title of white space only is answered with 500, not 400, and nothing is stored. */
  method BlankTitleSubmit(store: Store, caller: Identity, projectTitle: string, file: Upload, newId: string, now: int)
    returns (status: int)
    requires projectTitle != [] && forall k :: 0 <= k < |projectTitle| ==> IsSpace(projectTitle[k])
    modifies store
    ensures status == SERVER_ERROR && store.reports == old(store.reports)
  {
    BlankTitleSubmissionFails(caller, projectTitle, file, now);
    status := store.SubmitReport(caller, Some(projectTitle), Some(file), newId, now);
  }
}
