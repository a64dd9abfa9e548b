/**
 * RobustSmtpMailer::buildMessage: the header block, a blank line and the
 * body. Display name and subject are RFC 2047 "B" encoded-words (section 2
 * of RFC 2047) over UTF-8 text; a plain-text body is replaced by its
 * quoted-printable form, which the mailer takes as an opaque function.
 */
module SmtpMessage {
  import opened Wrappers
  import Php
  import Base64
  import Seqs

  const CRLF := "\r\n"

  /** The envelope fields of a RobustSmtpMailer. */
  datatype Envelope = Envelope(fromEmail: string, fromName: string, toEmail: string, toName: string,
                               subject: string, body: string, isHtml: bool)

  /** The message text, and what $this->body holds afterwards. */
  datatype Built = Built(text: string, body: string)

  /** "=?UTF-8?B?" + base64 + "?=". */
  function EncodedWord(text: string): (w: string)
    ensures '\r' !in w
  {
    var b := Base64.Encode(Base64.Octets(text));
    assert forall i :: 0 <= i < |b| ==> b[i] != '\r';
    "=?UTF-8?B?" + b + "?="
  }

  /** Reads an encoded-word back to the bytes of its text. */
  function DecodeEncodedWord(w: string): Option<seq<Base64.Byte>>
  {
    if |w| >= 12 && w[..10] == "=?UTF-8?B?" && w[|w| - 2..] == "?=" then Base64.Decode(w[10..|w| - 2])
    else None
  }

  lemma EncodedWordRoundTrip(text: string)
    ensures DecodeEncodedWord(EncodedWord(text)) == Some(Base64.Octets(text))
  {
    var b := Base64.Encode(Base64.Octets(text));
    var w := EncodedWord(text);
    assert w[10..|w| - 2] == b;
    Base64.DecodeEncode(Base64.Octets(text));
  }

  /** The From value: the bare address when the name is empty(), else the encoded name before it. */
  function Sender(e: Envelope): string
  {
    if Php.IsEmpty(e.fromName) then "<" + e.fromEmail + ">"
    else EncodedWord(e.fromName) + " <" + e.fromEmail + ">"
  }

  /**
   * buildMessage: the header lines, each ended by CRLF, a blank line, and
   * the body, which for plain text is first replaced by its quoted-printable form.
   */
  function BuildMessage(e: Envelope, qp: string -> string): Built
  {
    var body := if e.isHtml then e.body else qp(e.body);
    Built(JoinLines(HeaderLines(e)) + CRLF + body, body)
  }

  /** The six header lines of buildMessage, without their CRLF. */
  function HeaderLines(e: Envelope): seq<string>
  {
    ["From: " + Sender(e),
     "To:  <" + e.toEmail + ">",
     "Subject: " + EncodedWord(e.subject),
     MimeVersion,
     if e.isHtml then HtmlType else PlainType,
     if e.isHtml then HtmlEncoding else PlainEncoding]
  }

  const MimeVersion := "MIME-Version: 1.0"
  const HtmlType := "Content-Type: text/html; charset=UTF-8"
  const PlainType := "Content-Type: text/plain; charset=UTF-8"
  const HtmlEncoding := "Content-Transfer-Encoding: 8bit"
  const PlainEncoding := "Content-Transfer-Encoding: quoted-printable"

  // ---------------------------------------------------------------------
  // Reading a message back: header lines up to the first empty line
  // ---------------------------------------------------------------------

  /** The index of the first CRLF of s. */
  function FirstCrlf(s: string): (r: Option<nat>)
    ensures r.Some? ==> r.value + 2 <= |s| && s[r.value] == '\r' && s[r.value + 1] == '\n'
    ensures r.Some? ==> forall k :: 0 <= k < r.value ==> !(s[k] == '\r' && s[k + 1] == '\n')
    ensures r.None? ==> forall k :: 0 <= k < |s| - 1 ==> !(s[k] == '\r' && s[k + 1] == '\n')
  {
    if |s| < 2 then None
    else if s[0] == '\r' && s[1] == '\n' then Some(0)
    else match FirstCrlf(s[1..])
      case None => None
      case Some(i) => Some(i + 1)
  }

  /** Header lines up to the empty line, and the body after it. */
  function ParseMessage(s: string): Option<(seq<string>, string)>
    decreases |s|
  {
    match FirstCrlf(s)
    case None => None
    case Some(i) =>
      if i == 0 then Some(([], s[2..]))
      else
        match ParseMessage(s[i + 2..])
        case None => None
        case Some(parsed) => Some(([s[..i]] + parsed.0, parsed.1))
  }

  /** Each line followed by CRLF. */
  function JoinLines(lines: seq<string>): string
  {
    if lines == [] then "" else lines[0] + CRLF + JoinLines(lines[1..])
  }

  lemma {:induction false} FirstCrlfAfterLine(line: string, rest: string)
    requires '\r' !in line
    ensures FirstCrlf(line + CRLF + rest) == Some(|line|)
    decreases |line|
  {
    var s := line + CRLF + rest;
    if line != [] {
      assert s[1..] == line[1..] + CRLF + rest;
      FirstCrlfAfterLine(line[1..], rest);
    }
  }

  /** Non-empty header lines without CR, a blank line and a body parse back into those lines and that body. */
  lemma {:induction false} ParseJoined(lines: seq<string>, body: string)
    requires forall k :: 0 <= k < |lines| ==> lines[k] != "" && '\r' !in lines[k]
    ensures ParseMessage(JoinLines(lines) + CRLF + body) == Some((lines, body))
    decreases |lines|
  {
    if lines == [] {
      ParseBlankLine(body);
    } else {
      ParseJoined(lines[1..], body);
      ParseFirstLine(lines, body);
    }
  }

  /** The first line of a joined block is parsed off in front of the parse of the others. */
  lemma ParseFirstLine(lines: seq<string>, body: string)
    requires lines != [] && lines[0] != "" && '\r' !in lines[0]
    requires ParseMessage(JoinLines(lines[1..]) + CRLF + body) == Some((lines[1..], body))
    ensures ParseMessage(JoinLines(lines) + CRLF + body) == Some((lines, body))
  {
    JoinedCons(lines, body);
    ParseLine(lines[0], JoinLines(lines[1..]) + CRLF + body, (lines[1..], body));
    Seqs.HeadTail(lines);
  }

  lemma JoinedCons(lines: seq<string>, body: string)
    requires lines != []
    ensures JoinLines(lines) + CRLF + body == lines[0] + CRLF + (JoinLines(lines[1..]) + CRLF + body)
  {
  }

  /** A leading CRLF ends the header block at once. */
  lemma ParseBlankLine(body: string)
    ensures ParseMessage(CRLF + body) == Some(([], body))
  {
    FirstCrlfAfterLine("", body);
    assert "" + CRLF + body == CRLF + body;
  }

  /** One non-empty line without CR in front of a parsable rest becomes its first header line. */
  lemma ParseLine(line: string, rest: string, parsed: (seq<string>, string))
    requires line != "" && '\r' !in line
    requires ParseMessage(rest) == Some(parsed)
    ensures ParseMessage(line + CRLF + rest) == Some(([line] + parsed.0, parsed.1))
  {
    var s := line + CRLF + rest;
    FirstCrlfAfterLine(line, rest);
    assert s[|line| + 2..] == rest;
    assert s[..|line|] == line;
  }

  /**
   * When neither address holds a CR, the message reads back as exactly six
   * header lines (From, a To that ignores toName, an encoded Subject,
   * MIME-Version 1.0, and the content-type pair chosen by isHtml), then the
   * body: the raw body for HTML, its quoted-printable form otherwise, which
   * is also what $this->body holds afterwards.
   */
  lemma BuildMessageParses(e: Envelope, qp: string -> string)
    requires '\r' !in e.fromEmail && '\r' !in e.toEmail
    ensures ParseMessage(BuildMessage(e, qp).text)
         == Some((HeaderLines(e), if e.isHtml then e.body else qp(e.body)))
    ensures BuildMessage(e, qp).body == if e.isHtml then e.body else qp(e.body)
  {
    var body := if e.isHtml then e.body else qp(e.body);
    HeaderLinesWellFormed(e);
    ParseJoined(HeaderLines(e), body);
  }

  lemma HeaderLinesWellFormed(e: Envelope)
    requires '\r' !in e.fromEmail && '\r' !in e.toEmail
    ensures forall k :: 0 <= k < |HeaderLines(e)| ==> HeaderLines(e)[k] != "" && '\r' !in HeaderLines(e)[k]
  {
    AddressLinesNoCr(e);
    FixedLinesNoCr(e);
  }

  lemma AddressLinesNoCr(e: Envelope)
    requires '\r' !in e.fromEmail && '\r' !in e.toEmail
    ensures HeaderLines(e)[0] != "" && '\r' !in HeaderLines(e)[0]
    ensures HeaderLines(e)[1] != "" && '\r' !in HeaderLines(e)[1]
    ensures HeaderLines(e)[2] != "" && '\r' !in HeaderLines(e)[2]
  {
    SenderNoCr(e);
    NoCrJoin("From: ", Sender(e));
    NoCrJoin("To:  <", e.toEmail);
    NoCrJoin("To:  <" + e.toEmail, ">");
    NoCrJoin("Subject: ", EncodedWord(e.subject));
  }

  lemma FixedLinesNoCr(e: Envelope)
    ensures HeaderLines(e)[3] != "" && '\r' !in HeaderLines(e)[3]
    ensures HeaderLines(e)[4] != "" && '\r' !in HeaderLines(e)[4]
    ensures HeaderLines(e)[5] != "" && '\r' !in HeaderLines(e)[5]
  {
    MimeVersionNoCr();
    TypesNoCr();
    EncodingsNoCr();
  }

  lemma MimeVersionNoCr() ensures '\r' !in MimeVersion {}
  lemma TypesNoCr() ensures '\r' !in HtmlType && '\r' !in PlainType {}
  lemma EncodingsNoCr() ensures '\r' !in HtmlEncoding && '\r' !in PlainEncoding {}

  lemma SenderNoCr(e: Envelope)
    requires '\r' !in e.fromEmail
    ensures '\r' !in Sender(e)
  {
    if Php.IsEmpty(e.fromName) {
      NoCrJoin("<", e.fromEmail);
      NoCrJoin("<" + e.fromEmail, ">");
    } else {
      NoCrJoin(EncodedWord(e.fromName), " <");
      NoCrJoin(EncodedWord(e.fromName) + " <", e.fromEmail);
      NoCrJoin(EncodedWord(e.fromName) + " <" + e.fromEmail, ">");
    }
  }

  lemma NoCrJoin(a: string, b: string)
    requires '\r' !in a && '\r' !in b
    ensures '\r' !in a + b
  {
  }

  /** The From display name and the Subject decode back to the bytes of fromName and subject. */
  lemma HeadersDecode(e: Envelope)
    ensures !Php.IsEmpty(e.fromName) ==>
      Sender(e) == EncodedWord(e.fromName) + " <" + e.fromEmail + ">"
      && DecodeEncodedWord(EncodedWord(e.fromName)) == Some(Base64.Octets(e.fromName))
    ensures DecodeEncodedWord(HeaderLines(e)[2][9..]) == Some(Base64.Octets(e.subject))
  {
    EncodedWordRoundTrip(e.fromName);
    EncodedWordRoundTrip(e.subject);
    assert HeaderLines(e)[2][9..] == EncodedWord(e.subject);
  }
}
