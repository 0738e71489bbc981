/**
 * The Report document of models/Report.js: its fields, the `trim` setters
 * applied on construction, the defaults, and the `required` validation that
 * every `save()` runs.
 *
 * An absent string field and an empty one are the same to mongoose's required
 * check, so an absent string is modelled as "". The pdf buffer is an Option,
 * because an absent buffer and an empty buffer behave differently when a
 * report's PDF is served.
 */
module ReportSchema {
  import opened Wrappers

  type byte = b: int | 0 <= b < 256
  type Bytes = seq<byte>

  /** The `pdf` sub-document: the uploaded bytes and their metadata. */
  datatype Pdf = Pdf(data: Option<Bytes>, contentType: string, originalName: string)

  /** One stored report; `user` is the owner's account id. */
  datatype Report = Report(
    user: string,
    studentName: string,
    studentEmail: string,
    projectTitle: string,
    pdf: Pdf,
    submissionDate: int,
    isApproved: bool,
    rejected: bool,
    rejectionReason: string,
    certificateGenerated: bool)

  /** The characters JavaScript's String.prototype.trim removes (white space and line terminators). */
  predicate IsSpace(c: char) {
    || c == '\t' || c == '\n' || c == '\U{000B}' || c == '\U{000C}' || c == '\r' || c == ' '
    || c == '\U{00A0}' || c == '\U{1680}' || ('\U{2000}' <= c <= '\U{200A}')
    || c == '\U{2028}' || c == '\U{2029}' || c == '\U{202F}' || c == '\U{205F}'
    || c == '\U{3000}' || c == '\U{FEFF}'
  }

  /** Neither end of `s` is white space. */
  predicate IsTrimmed(s: string) {
    s == [] || (!IsSpace(s[0]) && !IsSpace(s[|s| - 1]))
  }

  /** Drops the leading white space. */
  function TrimStart(s: string): string {
    if s != [] && IsSpace(s[0]) then TrimStart(s[1..]) else s
  }

  /** Drops the trailing white space. */
  function TrimEnd(s: string): string {
    if s != [] && IsSpace(s[|s| - 1]) then TrimEnd(s[..|s| - 1]) else s
  }

  /** The `trim: true` setter: both ends' white space dropped. */
  function Trim(s: string): string {
    TrimEnd(TrimStart(s))
  }

  /** TrimStart keeps a suffix of `s`, drops only white space, and leaves no white space in front. */
  lemma {:induction false} TrimStartSpec(s: string)
    ensures var r := TrimStart(s);
      && |r| <= |s| && r == s[|s| - |r|..]
      && (forall k :: 0 <= k < |s| - |r| ==> IsSpace(s[k]))
      && (r != [] ==> !IsSpace(r[0]))
  {
    if s != [] && IsSpace(s[0]) {
      TrimStartSpec(s[1..]);
      var r := TrimStart(s);
      forall k | 0 < k < |s| - |r| ensures IsSpace(s[k]) {
        assert s[k] == s[1..][k - 1];
      }
    }
  }

  /** TrimEnd keeps a prefix of `s`, drops only white space, and leaves no white space at the end. */
  lemma {:induction false} TrimEndSpec(s: string)
    ensures var r := TrimEnd(s);
      && |r| <= |s| && r == s[..|r|]
      && (forall k :: |r| <= k < |s| ==> IsSpace(s[k]))
      && (r != [] ==> !IsSpace(r[|r| - 1]))
  {
    if s != [] && IsSpace(s[|s| - 1]) {
      TrimEndSpec(s[..|s| - 1]);
      var r := TrimEnd(s);
      forall k | |r| <= k < |s| - 1 ensures IsSpace(s[k]) {
        assert s[k] == s[..|s| - 1][k];
      }
    }
  }

  /**
   * The stored value is a slice of the input with no white space at either
   * end, and everything outside the slice is white space.
   */
  lemma TrimSpec(s: string)
    ensures var r := Trim(s);
      var i := |s| - |TrimStart(s)|;
      && IsTrimmed(r)
      && 0 <= i && i + |r| <= |s| && r == s[i..i + |r|]
      && (forall k :: 0 <= k < i ==> IsSpace(s[k]))
      && (forall k :: i + |r| <= k < |s| ==> IsSpace(s[k]))
  {
    var t := TrimStart(s);
    TrimStartSpec(s);
    TrimEndSpec(t);
    var r := TrimEnd(t);
    var i := |s| - |t|;
    assert r == s[i..][..|r|] == s[i..i + |r|];
    forall k | i + |r| <= k < |s| ensures IsSpace(s[k]) {
      assert s[k] == t[k - i];
    }
    if r != [] {
      assert r[0] == t[0];
    }
  }

  /** A string already trimmed is left as it is. */
  lemma TrimOfTrimmed(s: string)
    requires IsTrimmed(s)
    ensures Trim(s) == s
  {
  }

  /** Trimming twice is trimming once (the stored fields are a fixed point of the setter). */
  lemma TrimIdempotent(s: string)
    ensures Trim(Trim(s)) == Trim(s)
  {
    TrimSpec(s);
    TrimOfTrimmed(Trim(s));
  }

  /** The status fields take their schema defaults: not approved, not rejected, no reason, no certificate. */
  predicate HasDefaults(r: Report) {
    !r.isApproved && !r.rejected && r.rejectionReason == "" && !r.certificateGenerated
  }

  /** The three trimmed string fields are stored trimmed. */
  predicate HasTrimmedFields(r: Report) {
    IsTrimmed(r.studentName) && IsTrimmed(r.studentEmail) && IsTrimmed(r.projectTitle)
  }

  /** The pdf sub-document carries non-empty bytes, content type and file name. */
  predicate PdfComplete(p: Pdf) {
    p.data.Some? && |p.data.value| > 0 && p.contentType != "" && p.originalName != ""
  }

  /** The `required: true` paths are all present (mongoose rejects "" for strings and an empty buffer). */
  predicate Required(r: Report) {
    r.user != "" && r.studentName != "" && r.studentEmail != "" && r.projectTitle != "" && PdfComplete(r.pdf)
  }

  /**
   * `new Report({...})`: the setters trim the three string fields, `submissionDate`
   * defaults to the creation time `now`, and the status fields take their defaults.
   */
  function Create(user: string, studentName: string, studentEmail: string, projectTitle: string,
                  pdf: Pdf, submissionDate: Option<int>, now: int): (r: Report)
    ensures r.user == user && r.pdf == pdf
    ensures r.studentName == Trim(studentName) && r.studentEmail == Trim(studentEmail)
    ensures r.projectTitle == Trim(projectTitle)
    ensures submissionDate.None? ==> r.submissionDate == now
    ensures submissionDate.Some? ==> r.submissionDate == submissionDate.value
    ensures HasDefaults(r) && HasTrimmedFields(r)
  {
    TrimSpec(studentName);
    TrimSpec(studentEmail);
    TrimSpec(projectTitle);
    Report(user, Trim(studentName), Trim(studentEmail), Trim(projectTitle), pdf,
           submissionDate.GetOr(now), false, false, "", false)
  }

  /**
   * A new record passes validation exactly when it has an owner, its name, email
   * and title are not blank once trimmed, and its pdf is complete.
   */
  lemma CreateRequired(user: string, studentName: string, studentEmail: string, projectTitle: string,
                       pdf: Pdf, submissionDate: Option<int>, now: int)
    ensures Required(Create(user, studentName, studentEmail, projectTitle, pdf, submissionDate, now))
        <==> user != "" && Trim(studentName) != "" && Trim(studentEmail) != ""
             && Trim(projectTitle) != "" && PdfComplete(pdf)
  {
  }

  /** A non-empty string made only of white space trims to the empty string. */
  lemma BlankTrimsToEmpty(t: string)
    requires t != [] && forall k :: 0 <= k < |t| ==> IsSpace(t[k])
    ensures Trim(t) == ""
  {
    TrimSpec(t);
  }

  /** A title made only of white space is non-empty in the request but blank once stored. */
  lemma BlankTitleFailsValidation(user: string, name: string, email: string, title: string, pdf: Pdf,
                                  submissionDate: Option<int>, now: int)
    requires title != [] && forall k :: 0 <= k < |title| ==> IsSpace(title[k])
    ensures Create(user, name, email, title, pdf, submissionDate, now).projectTitle == ""
    ensures !Required(Create(user, name, email, title, pdf, submissionDate, now))
  {
    BlankTrimsToEmpty(title);
  }
}
