/**
 * The review state of a report and the record rewrites performed by the
 * approve, reject, certificate and evaluate handlers. The state is stored as
 * two independent booleans, `isApproved` and `rejected`, plus a reason; the
 * derived status below names the four combinations they can take.
 */
module Lifecycle {
  import opened Wrappers
  import opened ReportSchema

  datatype Status = Pending | Approved | Rejected | Conflicting

  /** The review status the two status booleans encode; `Conflicting` is "both approved and rejected". */
  function StatusOf(r: Report): Status {
    if r.isApproved && r.rejected then Conflicting
    else if r.isApproved then Approved
    else if r.rejected then Rejected
    else Pending
  }

  /** The intended record invariant: not both approved and rejected, and a reason exactly when rejected. */
  predicate Consistent(r: Report) {
    !(r.isApproved && r.rejected) && (r.rejected <==> r.rejectionReason != "")
  }

  /** Every record of a store is consistent. */
  ghost predicate AllConsistent(m: map<string, Report>) {
    forall id :: id in m ==> Consistent(m[id])
  }

  /** `a` and `b` are the same submission: they differ at most in the four review fields. */
  predicate SameSubmission(a: Report, b: Report) {
    && a.user == b.user && a.studentName == b.studentName && a.studentEmail == b.studentEmail
    && a.projectTitle == b.projectTitle && a.pdf == b.pdf && a.submissionDate == b.submissionDate
  }

  const NO_REASON: string := "No reason provided"

  /** `reason || 'No reason provided'`: an absent or empty reason is replaced by the fixed default. */
  function ReasonOrDefault(reason: Option<string>): (s: string)
    ensures s != ""
    ensures reason.Some? && reason.value != "" ==> s == reason.value
    ensures reason.None? || reason.value == "" ==> s == NO_REASON
  {
    if reason.Some? && reason.value != "" then reason.value else NO_REASON
  }

  /** Approve: approved, not rejected, no reason; the submission and the certificate flag are kept. */
  function Approve(r: Report): (a: Report)
    ensures StatusOf(a) == Approved && a.rejectionReason == "" && Consistent(a)
    ensures SameSubmission(r, a) && a.certificateGenerated == r.certificateGenerated
  {
    r.(isApproved := true, rejected := false, rejectionReason := "")
  }

  /**
   * Reject: not approved, rejected, with the reason or its default. The
   * certificate flag is kept, so a certified report that is rejected keeps it.
   */
  function Reject(r: Report, reason: Option<string>): (a: Report)
    ensures StatusOf(a) == Rejected && a.rejectionReason == ReasonOrDefault(reason) && Consistent(a)
    ensures SameSubmission(r, a) && a.certificateGenerated == r.certificateGenerated
  {
    r.(isApproved := false, rejected := true, rejectionReason := ReasonOrDefault(reason))
  }

  /** Issue a certificate: only the flag is set; the review fields are untouched. */
  function Certify(r: Report): (a: Report)
    ensures a.certificateGenerated && SameSubmission(r, a)
    ensures a.isApproved == r.isApproved && a.rejected == r.rejected
    ensures a.rejectionReason == r.rejectionReason
  {
    r.(certificateGenerated := true)
  }

  /**
   * The legacy evaluate handler: `isApproved` takes the supplied value and
   * nothing else changes, so `rejected` and the reason keep their old values.
   */
  function Evaluate(r: Report, approved: bool): (a: Report)
    ensures a.isApproved == approved && a.rejected == r.rejected
    ensures a.rejectionReason == r.rejectionReason && a.certificateGenerated == r.certificateGenerated
    ensures SameSubmission(r, a)
  {
    r.(isApproved := approved)
  }

  /** The review rewrites keep a record's validation outcome and its trimmed fields: they touch no required path. */
  lemma SameSubmissionKeepsRequired(a: Report, b: Report)
    requires SameSubmission(a, b)
    ensures Required(a) == Required(b) && HasTrimmedFields(a) == HasTrimmedFields(b)
  {
  }

  /** A freshly created report is pending and consistent. */
  lemma CreatedIsPending(r: Report)
    requires HasDefaults(r)
    ensures StatusOf(r) == Pending && Consistent(r)
  {
  }

  /** A consistent record has exactly one of the three statuses, and a reason exactly when rejected. */
  lemma ConsistentHasStatus(r: Report)
    requires Consistent(r)
    ensures StatusOf(r) != Conflicting
    ensures StatusOf(r) == Rejected <==> r.rejectionReason != ""
  {
  }

  /** Approving twice gives the record approving once gives. */
  lemma ApproveIdempotent(r: Report)
    ensures Approve(Approve(r)) == Approve(r)
  {
  }

  /** Approve applied to an approved, consistent record changes nothing. */
  lemma ApproveApprovedIsNoOp(r: Report)
    requires Consistent(r) && StatusOf(r) == Approved
    ensures Approve(r) == r
  {
  }

  /** Re-approval of a rejected report clears its reason. */
  lemma ReapprovalClearsReason(r: Report, reason: Option<string>)
    ensures Approve(Reject(r, reason)) == Approve(r)
  {
  }

  /** Rejecting a certified report does not revoke the certificate flag; the flag then sits on a rejected record. */
  lemma CertificateSurvivesRejection(r: Report, reason: Option<string>)
    requires r.certificateGenerated
    ensures Reject(r, reason).certificateGenerated && StatusOf(Reject(r, reason)) == Rejected
  {
  }

  /** Evaluating a rejected report as approved yields a record that is both approved and rejected. */
  lemma EvaluateBreaksConsistency(r: Report)
    requires r.rejected
    ensures StatusOf(Evaluate(r, true)) == Conflicting && !Consistent(Evaluate(r, true))
  {
  }

  /** Evaluating as not approved clears approval but leaves no reason: an approved report becomes pending. */
  lemma EvaluateFalseOnApproved(r: Report)
    requires Consistent(r) && StatusOf(r) == Approved
    ensures StatusOf(Evaluate(r, false)) == Pending && Consistent(Evaluate(r, false))
  {
  }

  /**
   * A concrete path to the conflicting state: a new report, rejected through
   * the report routes, then evaluated as approved through the project routes.
   */
  lemma RejectThenEvaluateConflicts(user: string, name: string, email: string, title: string, pdf: Pdf, now: int)
    ensures var r := Create(user, name, email, title, pdf, None, now);
      StatusOf(r) == Pending && StatusOf(Evaluate(Reject(r, None), true)) == Conflicting
  {
  }

  /** Approve, reject and certify each preserve consistency of every record in a store. */
  lemma TransitionsPreserveConsistency(m: map<string, Report>, id: string, reason: Option<string>)
    requires AllConsistent(m) && id in m
    ensures AllConsistent(m[id := Approve(m[id])])
    ensures AllConsistent(m[id := Reject(m[id], reason)])
    ensures AllConsistent(m[id := Certify(m[id])])
    ensures AllConsistent(m - {id})
  {
  }
}
