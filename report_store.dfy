/**
 * The report store and its HTTP handlers: the report routes (submit, list,
 * serve the PDF, approve, reject, issue a certificate, delete) and the legacy
 * project controller (submit, list, evaluate). Each handler returns the HTTP
 * status it answers with. The users collection is read only, to find an
 * owner's email; no handler writes it.
 *
 * External steps are parameters: the id the database assigns to a new record,
 * the clock, the date printed on a certificate, and whether the mail relay
 * accepted a message.
 */
module ReportStore {
  import opened Wrappers
  import opened ReportSchema
  import opened Lifecycle
  import opened Ordering
  import Certificate

  const OK: int := 200
  const CREATED: int := 201
  const BAD_REQUEST: int := 400
  const FORBIDDEN: int := 403
  const NOT_FOUND: int := 404
  const SERVER_ERROR: int := 500
  /** The handler ends without answering (an error thrown inside an event callback, outside its try block). */
  const NO_RESPONSE: int := 0

  /** The authenticated caller, as the auth middleware attaches it to the request. */
  datatype Identity = Identity(id: string, name: string, email: string, role: string)

  /** The uploaded file as the in-memory upload middleware delivers it. */
  datatype Upload = Upload(buffer: Bytes, mimetype: string, originalname: string)

  /** The reply of the PDF route: two headers and the body. */
  datatype PdfReply = PdfReply(contentType: string, disposition: string, data: Bytes)

  predicate IsHexDigit(c: char) {
    '0' <= c <= '9' || 'a' <= c <= 'f' || 'A' <= c <= 'F'
  }

  /** The validity test for object ids: 24 hexadecimal digits. */
  predicate IsObjectId(s: string) {
    |s| == 24 && forall i :: 0 <= i < |s| ==> IsHexDigit(s[i])
  }

  /** The owner may delete a report, and so may any admin or teacher. */
  predicate MayDelete(caller: Identity, r: Report) {
    r.user == caller.id || caller.role == "admin" || caller.role == "teacher"
  }

  /** The filter of a listing: all reports, or only those of one owner. */
  predicate Selected(owner: Option<string>, r: Report) {
    owner.None? || r.user == owner.value
  }

  /**
   * The record the submit route builds: owner, name and email from the caller,
   * pdf from the upload, dated now, with the schema's status defaults.
   */
  function Submission(caller: Identity, projectTitle: string, file: Upload, now: int): (r: Report)
    ensures r.user == caller.id && r.studentName == Trim(caller.name) && r.studentEmail == Trim(caller.email)
    ensures r.projectTitle == Trim(projectTitle)
    ensures r.pdf == Pdf(Some(file.buffer), file.mimetype, file.originalname)
    ensures r.submissionDate == now && HasDefaults(r) && Consistent(r) && StatusOf(r) == Pending
  {
    Create(caller.id, caller.name, caller.email, projectTitle,
           Pdf(Some(file.buffer), file.mimetype, file.originalname), None, now)
  }

  /**
   * The record the legacy project submit builds: owner and name from the
   * caller, explicitly not approved, dated now; it sets neither the email nor
   * the pdf, so it never passes validation.
   */
  function ProjectRecord(caller: Identity, projectTitle: Option<string>, now: int): (r: Report)
    ensures r.user == caller.id && r.studentName == Trim(caller.name) && !r.isApproved
    ensures r.submissionDate == now && HasDefaults(r)
    ensures !Required(r)
  {
    Create(caller.id, caller.name, "", projectTitle.GetOr(""), Pdf(None, "", ""), Some(now), now)
  }

  /** A title of white space only passes the route's emptiness test but makes the record fail validation. */
  lemma BlankTitleSubmissionFails(caller: Identity, projectTitle: string, file: Upload, now: int)
    requires projectTitle != [] && forall k :: 0 <= k < |projectTitle| ==> IsSpace(projectTitle[k])
    ensures !Required(Submission(caller, projectTitle, file, now))
  {
    BlankTitleFailsValidation(caller.id, caller.name, caller.email, projectTitle,
                              Pdf(Some(file.buffer), file.mimetype, file.originalname), None, now);
  }

  class Store {
    /** The reports collection, by id. */
    var reports: map<string, Report>
    /** The users collection, reduced to each account's email field (None when it has none). */
    var users: map<string, Option<string>>

    constructor (reports: map<string, Report>, users: map<string, Option<string>>)
      ensures this.reports == reports && this.users == users
    {
      this.reports := reports;
      this.users := users;
    }

    /** `(await User.findById(id))?.email`, when it is a non-empty string. */
    function OwnerEmail(user: string): Option<string>
      reads this
    {
      if user in users && users[user].Some? && users[user].value != "" then users[user] else None
    }

    /** `save()`: validates the required paths, then writes the record under `id`. */
    method Save(id: string, r: Report) returns (ok: bool)
      modifies this
      ensures ok == Required(r)
      ensures reports == if ok then old(reports)[id := r] else old(reports)
      ensures users == old(users)
    {
      ok := Required(r);
      if ok {
        reports := reports[id := r];
      }
    }

    /**
     * POST /submit-report. A missing or empty title, or no file: 400. Otherwise
     * the new record is validated and inserted under the id the database
     * assigns (`newId`); a validation failure or an id clash is a 500.
     */
    method SubmitReport(caller: Identity, projectTitle: Option<string>, file: Option<Upload>,
                        newId: string, now: int) returns (status: int)
      modifies this
      ensures users == old(users)
      ensures projectTitle.None? || projectTitle.value == "" || file.None? ==>
        status == BAD_REQUEST && reports == old(reports)
      ensures projectTitle.Some? && projectTitle.value != "" && file.Some? ==>
        var r := Submission(caller, projectTitle.value, file.value, now);
        && (status == CREATED <==> Required(r) && newId !in old(reports))
        && (status != CREATED ==> status == SERVER_ERROR)
        && reports == if status == CREATED then old(reports)[newId := r] else old(reports)
      ensures old(AllConsistent(reports)) ==> AllConsistent(reports)
    {
      if projectTitle.None? || projectTitle.value == "" || file.None? {
        return BAD_REQUEST;
      }
      var r := Submission(caller, projectTitle.value, file.value, now);
      if !Required(r) || newId in reports {
        return SERVER_ERROR;
      }
      var ok := Save(newId, r);
      status := CREATED;
    }

    /** `find(filter).sort({ submissionDate: -1 })`: every selected record once, newest first. */
    method Find(owner: Option<string>) returns (rs: seq<Entry>)
      ensures NewestFirst(rs) && DistinctIds(rs)
      ensures forall e :: e in rs ==> e.id in reports && e.report == reports[e.id] && Selected(owner, e.report)
      ensures forall id :: id in reports && Selected(owner, reports[id]) ==> Entry(id, reports[id]) in rs
    {
      rs := [];
      var todo := reports.Keys;
      while todo != {}
        invariant todo <= reports.Keys
        invariant NewestFirst(rs) && DistinctIds(rs)
        invariant forall e :: e in rs ==>
          e.id in reports && e.id !in todo && e.report == reports[e.id] && Selected(owner, e.report)
        invariant forall id :: id in reports && id !in todo && Selected(owner, reports[id]) ==>
          Entry(id, reports[id]) in rs
        decreases |todo|
      {
        var id :| id in todo;
        if Selected(owner, reports[id]) {
          InsertKeepsDistinct(rs, Entry(id, reports[id]));
          rs := InsertByDate(rs, Entry(id, reports[id]));
        }
        todo := todo - {id};
      }
    }

    /** GET /my-reports: exactly the caller's reports, newest first. */
    method MyReports(caller: Identity) returns (rs: seq<Entry>)
      ensures NewestFirst(rs) && DistinctIds(rs)
      ensures forall e :: e in rs ==> e.id in reports && e.report == reports[e.id] && e.report.user == caller.id
      ensures forall id :: id in reports && reports[id].user == caller.id ==> Entry(id, reports[id]) in rs
    {
      rs := Find(Some(caller.id));
    }

    /** GET /: every report, newest first. */
    method AllReports() returns (rs: seq<Entry>)
      ensures NewestFirst(rs) && DistinctIds(rs)
      ensures forall e :: e in rs ==> e.id in reports && e.report == reports[e.id]
      ensures forall id :: id in reports ==> Entry(id, reports[id]) in rs
    {
      rs := Find(None);
    }

    /**
     * GET /:id/pdf, with no authentication: 400 for a malformed id, 404 when the
     * report or its buffer is absent, else the stored bytes with their type and
     * an inline disposition naming the original file.
     */
    method ServePdf(id: string) returns (status: int, reply: Option<PdfReply>)
      ensures !IsObjectId(id) ==> status == BAD_REQUEST && reply.None?
      ensures IsObjectId(id) && (id !in reports || reports[id].pdf.data.None?) ==>
        status == NOT_FOUND && reply.None?
      ensures IsObjectId(id) && id in reports && reports[id].pdf.data.Some? ==>
        var p := reports[id].pdf;
        status == OK && reply == Some(PdfReply(p.contentType, "inline; filename=\"" + p.originalName + "\"", p.data.value))
    {
      if !IsObjectId(id) {
        return BAD_REQUEST, None;
      }
      if id !in reports || reports[id].pdf.data.None? {
        return NOT_FOUND, None;
      }
      var p := reports[id].pdf;
      status := OK;
      reply := Some(PdfReply(p.contentType, "inline; filename=\"" + p.originalName + "\"", p.data.value));
    }

    /**
     * PUT /:id/approve. A malformed id makes the lookup throw (500); an unknown
     * id is a 404. Otherwise the record is approved and saved.
     */
    method ApproveReport(id: string) returns (status: int)
      modifies this
      ensures users == old(users)
      ensures !IsObjectId(id) ==> status == SERVER_ERROR && reports == old(reports)
      ensures IsObjectId(id) && id !in old(reports) ==> status == NOT_FOUND && reports == old(reports)
      ensures IsObjectId(id) && id in old(reports) ==>
        && (status == OK <==> Required(old(reports)[id]))
        && (status != OK ==> status == SERVER_ERROR)
        && reports == if status == OK then old(reports)[id := Approve(old(reports)[id])] else old(reports)
      ensures old(AllConsistent(reports)) ==> AllConsistent(reports)
    {
      if !IsObjectId(id) {
        return SERVER_ERROR;
      }
      if id !in reports {
        return NOT_FOUND;
      }
      var ok := Save(id, Approve(reports[id]));
      status := if ok then OK else SERVER_ERROR;
    }

    /**
     * PUT /:id/reject. 500 for a malformed id, 404 for an unknown one, 400 when
     * the owner has no email; all before any write. Otherwise the record is
     * rejected and saved, and only then is the notice mailed to the owner; a
     * mail failure is a 500 with the rejection already stored. `mailedTo` is
     * the address a notice was sent to, if one was attempted.
     */
    method RejectReport(id: string, reason: Option<string>, mailSent: bool)
      returns (status: int, mailedTo: Option<string>)
      modifies this
      ensures users == old(users)
      ensures !IsObjectId(id) ==> status == SERVER_ERROR && reports == old(reports) && mailedTo.None?
      ensures IsObjectId(id) && id !in old(reports) ==>
        status == NOT_FOUND && reports == old(reports) && mailedTo.None?
      ensures IsObjectId(id) && id in old(reports) && OwnerEmail(old(reports)[id].user).None? ==>
        status == BAD_REQUEST && reports == old(reports) && mailedTo.None?
      ensures IsObjectId(id) && id in old(reports) && OwnerEmail(old(reports)[id].user).Some? ==>
        var r := old(reports)[id];
        if Required(r) then
          && reports == old(reports)[id := Reject(r, reason)]
          && mailedTo == OwnerEmail(r.user)
          && status == (if mailSent then OK else SERVER_ERROR)
        else
          status == SERVER_ERROR && reports == old(reports) && mailedTo.None?
      ensures old(AllConsistent(reports)) ==> AllConsistent(reports)
    {
      if !IsObjectId(id) {
        return SERVER_ERROR, None;
      }
      if id !in reports {
        return NOT_FOUND, None;
      }
      var r := reports[id];
      var email := OwnerEmail(r.user);
      if email.None? {
        return BAD_REQUEST, None;
      }
      var ok := Save(id, Reject(r, reason));
      if !ok {
        return SERVER_ERROR, None;
      }
      // The notice quotes the request's reason as given, not the defaulted one.
      mailedTo := email;
      status := if mailSent then OK else SERVER_ERROR;
    }

    /**
     * POST /:id/certificate. 500 for a malformed id, 404 for an unknown one, 400
     * for a report that is not approved and 400 when the owner has no email;
     * none of these writes. Otherwise the flag is set and saved, then the
     * certificate is rendered and mailed, and the same document is the reply.
     * A mail failure leaves the request unanswered, with the flag stored.
     */
    method IssueCertificate(id: string, today: string, mailSent: bool)
      returns (status: int, document: Option<seq<string>>, mailedTo: Option<string>)
      modifies this
      ensures users == old(users)
      ensures !IsObjectId(id) ==>
        status == SERVER_ERROR && reports == old(reports) && document.None? && mailedTo.None?
      ensures IsObjectId(id) && id !in old(reports) ==>
        status == NOT_FOUND && reports == old(reports) && document.None? && mailedTo.None?
      ensures IsObjectId(id) && id in old(reports) && (!old(reports)[id].isApproved || OwnerEmail(old(reports)[id].user).None?) ==>
        status == BAD_REQUEST && reports == old(reports) && document.None? && mailedTo.None?
      ensures IsObjectId(id) && id in old(reports) && old(reports)[id].isApproved && OwnerEmail(old(reports)[id].user).Some? ==>
        var r := old(reports)[id];
        if Required(r) then
          && reports == old(reports)[id := Certify(r)]
          && mailedTo == OwnerEmail(r.user)
          && status == (if mailSent then OK else NO_RESPONSE)
          && document == (if mailSent then Some(Certificate.Render(r.studentName, r.projectTitle, today)) else None)
        else
          status == SERVER_ERROR && reports == old(reports) && document.None? && mailedTo.None?
      ensures document.Some? ==> id in old(reports) && old(reports)[id].isApproved
      ensures old(AllConsistent(reports)) ==> AllConsistent(reports)
    {
      if !IsObjectId(id) {
        return SERVER_ERROR, None, None;
      }
      if id !in reports {
        return NOT_FOUND, None, None;
      }
      var r := reports[id];
      if !r.isApproved {
        return BAD_REQUEST, None, None;
      }
      var email := OwnerEmail(r.user);
      if email.None? {
        return BAD_REQUEST, None, None;
      }
      var ok := Save(id, Certify(r));
      if !ok {
        return SERVER_ERROR, None, None;
      }
      var pdf := Certificate.Render(r.studentName, r.projectTitle, today);
      mailedTo := email;
      if mailSent {
        status, document := OK, Some(pdf);
      } else {
        status, document := NO_RESPONSE, None;
      }
    }

    /**
     * DELETE /:id. 500 for a malformed id, 404 for an unknown one, 403 unless the
     * caller owns the report or is an admin or teacher; otherwise exactly that
     * record is removed.
     */
    method DeleteReport(id: string, caller: Identity) returns (status: int)
      modifies this
      ensures users == old(users)
      ensures !IsObjectId(id) ==> status == SERVER_ERROR && reports == old(reports)
      ensures IsObjectId(id) && id !in old(reports) ==> status == NOT_FOUND && reports == old(reports)
      ensures IsObjectId(id) && id in old(reports) && !MayDelete(caller, old(reports)[id]) ==>
        status == FORBIDDEN && reports == old(reports)
      ensures IsObjectId(id) && id in old(reports) && MayDelete(caller, old(reports)[id]) ==>
        status == OK && reports == old(reports) - {id}
      ensures old(AllConsistent(reports)) ==> AllConsistent(reports)
    {
      if !IsObjectId(id) {
        return SERVER_ERROR;
      }
      if id !in reports {
        return NOT_FOUND;
      }
      if !MayDelete(caller, reports[id]) {
        return FORBIDDEN;
      }
      reports := reports - {id};
      status := OK;
    }

    /**
     * The legacy project submit. The record it builds lacks the email and the
     * pdf the schema requires, so its save always fails validation: the answer
     * is always 500 and nothing is stored.
     */
    method SubmitProject(caller: Identity, projectTitle: Option<string>, newId: string, now: int)
      returns (status: int)
      modifies this
      ensures status == SERVER_ERROR && reports == old(reports) && users == old(users)
    {
      var ok := Save(newId, ProjectRecord(caller, projectTitle, now));
      status := if ok then CREATED else SERVER_ERROR;
    }

    /** The legacy project listing: the same query as the report routes' full listing. */
    method GetAllProjects() returns (rs: seq<Entry>)
      ensures NewestFirst(rs) && DistinctIds(rs)
      ensures forall e :: e in rs ==> e.id in reports && e.report == reports[e.id]
      ensures forall id :: id in reports ==> Entry(id, reports[id]) in rs
    {
      rs := AllReports();
    }

    /**
     * The legacy evaluate handler: 400 for a malformed id, 404 for an unknown
     * one; otherwise only `isApproved` is overwritten and the record saved.
     */
    method EvaluateProject(id: string, approved: bool) returns (status: int)
      modifies this
      ensures users == old(users)
      ensures !IsObjectId(id) ==> status == BAD_REQUEST && reports == old(reports)
      ensures IsObjectId(id) && id !in old(reports) ==> status == NOT_FOUND && reports == old(reports)
      ensures IsObjectId(id) && id in old(reports) ==>
        && (status == OK <==> Required(old(reports)[id]))
        && (status != OK ==> status == SERVER_ERROR)
        && reports == if status == OK then old(reports)[id := Evaluate(old(reports)[id], approved)] else old(reports)
    {
      if !IsObjectId(id) {
        return BAD_REQUEST;
      }
      if id !in reports {
        return NOT_FOUND;
      }
      var ok := Save(id, Evaluate(reports[id], approved));
      status := if ok then OK else SERVER_ERROR;
    }
  }
}
