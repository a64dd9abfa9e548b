/**
 * Reading one SMTP reply (RobustSmtpMailer::readResponse). A reply is a run
 * of lines; per section 4.2 of RFC 5321 every line but the last has '-'
 * after the three-digit code and the last has a space there.
 */
module SmtpReply {
  import opened Wrappers
  import Php

  /** The exceptions RobustSmtpMailer throws, one constructor per message. */
  datatype SmtpError =
    | NotReady                                                  // sender, recipient or body not set
    | ConnectFailed(address: string, port: int)                 // fsockopen failed
    | WriteFailed(command: string)                              // fwrite returned false
    | EmptyResponse                                             // nothing (or "0") was read
    | UnexpectedCode(code: int, expected: int, response: string) // the code did not match
    | TlsFailed                                                 // the TLS upgrade after STARTTLS failed

  /** A line ends the reply when its fourth character (index 3) is a space. */
  predicate IsFinalLine(line: string)
  {
    |line| > 3 && line[3] == ' '
  }

  /**
   * How many of the server's lines one reply consumes: up to and including
   * the first final line, or every line when the stream ends first.
   */
  function ReplyLength(lines: seq<string>): (n: nat)
    ensures n <= |lines|
    ensures lines != [] ==> n >= 1
  {
    if lines == [] then 0
    else if IsFinalLine(lines[0]) then 1
    else 1 + ReplyLength(lines[1..])
  }

  /**
   * No line before the reply's last is final, and the reply's last line is
   * final unless the stream ended first.
   */
  lemma {:induction false} ReplyStopsAtFirstFinal(lines: seq<string>)
    ensures forall j :: 0 <= j < ReplyLength(lines) - 1 ==> !IsFinalLine(lines[j])
    ensures 0 < ReplyLength(lines) < |lines| ==> IsFinalLine(lines[ReplyLength(lines) - 1])
    decreases |lines|
  {
    if lines != [] && !IsFinalLine(lines[0]) {
      ReplyStopsAtFirstFinal(lines[1..]);
      forall j | 1 <= j < ReplyLength(lines) - 1 ensures !IsFinalLine(lines[j]) {
        assert lines[j] == lines[1..][j - 1];
      }
    }
  }

  /**
   * Reading line k when none before it was final: the reply ends with it
   * exactly when it is final, and goes on past it otherwise.
   */
  lemma ReplyLengthStep(lines: seq<string>, k: nat)
    requires k < |lines| && k <= ReplyLength(lines)
    requires forall j :: 0 <= j < k ==> !IsFinalLine(lines[j])
    ensures IsFinalLine(lines[k]) ==> ReplyLength(lines) == k + 1
    ensures !IsFinalLine(lines[k]) ==> k + 1 <= ReplyLength(lines)
  {
    ReplyStopsAtFirstFinal(lines);
  }

  /** When any line is final, the reply stops at the first of them. */
  lemma {:induction false} ReplyEndsAtFinalLine(lines: seq<string>, j: nat)
    requires j < |lines| && IsFinalLine(lines[j])
    ensures 1 <= ReplyLength(lines) <= j + 1
    ensures IsFinalLine(lines[ReplyLength(lines) - 1])
  {
    ReplyStopsAtFirstFinal(lines);
  }

  /** The lines joined in order. */
  function Concat(ss: seq<string>): string
  {
    if ss == [] then "" else Concat(ss[..|ss| - 1]) + ss[|ss| - 1]
  }

  /** The text readResponse accumulates from the server's remaining lines. */
  function ReplyText(lines: seq<string>): string
  {
    Concat(lines[..ReplyLength(lines)])
  }

  /**
   * readResponse's check of the accumulated text: empty() text is an error,
   * otherwise (int) of its first three characters must equal the expected code.
   */
  function Verdict(text: string, expected: int): Result<string, SmtpError>
  {
    if Php.IsEmpty(text) then Failure(EmptyResponse)
    else
      var code := Php.ToInt(Php.Prefix3(text));
      if code != expected then Failure(UnexpectedCode(code, expected, text))
      else Success(text)
  }

  /**
   * A well-formed reply followed by anything: the reader takes exactly the
   * reply's lines, so whatever the server sends next is left for the next read.
   */
  lemma {:induction false} ReadsWholeReply(reply: seq<string>, rest: seq<string>)
    requires reply != []
    requires forall j :: 0 <= j < |reply| - 1 ==> !IsFinalLine(reply[j])
    requires IsFinalLine(reply[|reply| - 1])
    ensures ReplyLength(reply + rest) == |reply|
    ensures ReplyText(reply + rest) == Concat(reply)
  {
    var all := reply + rest;
    if |reply| == 1 {
      assert IsFinalLine(all[0]);
    } else {
      assert !IsFinalLine(all[0]);
      assert all[1..] == reply[1..] + rest;
      ReadsWholeReply(reply[1..], rest);
    }
    assert all[..|reply|] == reply;
  }

  /**
   * For a code that is not a multiple of 100, which covers every code the
   * mailer expects, the reply is accepted exactly when its text begins with
   * the code's three digits; the accepted value is the whole text.
   */
  lemma VerdictAcceptsCode(text: string, expected: int)
    requires 100 <= expected <= 999 && expected % 100 != 0
    ensures Verdict(text, expected).Success? <==> |text| >= 3 && text[..3] == Php.Digits3(expected)
    ensures Verdict(text, expected).Success? ==> Verdict(text, expected).value == text
  {
    var p := Php.Prefix3(text);
    if Verdict(text, expected).Success? {
      Php.ToIntIsDigits3(p, expected);
    }
    if |text| >= 3 && text[..3] == Php.Digits3(expected) {
      Php.ToIntDigits3(expected);
    }
  }
}
