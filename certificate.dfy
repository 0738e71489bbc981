/**
 * The textual content of the completion certificate that the certificate
 * handler draws with pdfkit, line by line, in drawing order. Layout, fonts,
 * colours and the logo image are not modelled; the issuance date is a
 * parameter (the source reads the clock).
 */
module Certificate {

  const COLLEGE: string := "NANASAHEB MAHADIK COLLEGE OF ENGINEERING"
  const DEPARTMENT: string := "Department of Computer Science & Engineering"
  const ADDRESS: string :=
    "Gat No. 894 / 2665, Pune - Banglore (NH4) Highway,\nAt Post: Peth Naka, Tal: Walwa, Dist: Sangli. Pin - 415 407"
  const HEADING: string := "Certificate of Completion"
  const PRESENTED_TO: string := "This certificate is proudly presented to"
  const FOR_PROJECT: string := "for successfully completing the project titled"
  const SIGNATURE_LINE: string := "_______________________"
  const SIGNATURE_ROLES: seq<string> := ["HOD Signature", "Coordinator Signature", "Principal Signature"]

  /** The fixed institutional header that opens every certificate. */
  const HEADER: seq<string> := [COLLEGE, DEPARTMENT, ADDRESS, HEADING, PRESENTED_TO]

  /**
   * The certificate's text: the fixed header, the recipient, the quoted title,
   * the date, and three signature placeholders each under a blank line.
   */
  function Render(studentName: string, projectTitle: string, today: string): (lines: seq<string>)
    ensures |lines| == |HEADER| + 10 && lines[..|HEADER|] == HEADER
    ensures studentName in lines && "\"" + projectTitle + "\"" in lines && "Date: " + today in lines
    ensures forall role :: role in SIGNATURE_ROLES ==> role in lines
  {
    HEADER + [studentName, FOR_PROJECT, "\"" + projectTitle + "\"", "Date: " + today]
      + [SIGNATURE_LINE, SIGNATURE_ROLES[0], SIGNATURE_LINE, SIGNATURE_ROLES[1], SIGNATURE_LINE, SIGNATURE_ROLES[2]]
  }

  /** The name and the title can be read back from fixed positions of the text. */
  lemma RenderRecoversFields(studentName: string, projectTitle: string, today: string)
    ensures var lines := Render(studentName, projectTitle, today);
      |lines| == 15 && lines[5] == studentName && lines[7][1..|lines[7]| - 1] == projectTitle
  {
  }
}
