/**
 * RobustSmtpMailer: one SMTP session per send(). The network is a scripted
 * peer (does it accept the connection, which lines does it send, how many
 * writes succeed, does the TLS upgrade succeed), and the mailer records what
 * it does to the connection as a trace of events.
 *
 * The session functions take the reply check as a parameter; the mailer
 * object passes readResponse's own check, SmtpReply.Verdict. Properties of
 * the traces and of the cleanup hold whatever the check decides.
 */
module SmtpMailer {
  import opened Wrappers
  import Php
  import Base64
  import opened SmtpReply
  import SmtpMessage

  /** $this->socket: null, the false of a failed fsockopen, or an open stream. */
  datatype Handle = Null | Refused | Open

  /** What the mailer does to the connection. */
  datatype Event =
    | Dial(address: string, port: int) // fsockopen
    | Sent(data: string)               // a successful fwrite
    | Handshake                        // stream_socket_enable_crypto
    | Close                            // fclose

  /**
   * The other end: whether fsockopen succeeds, the lines fgets returns, how
   * many more fwrite calls succeed, and whether the TLS upgrade succeeds.
   */
  datatype Peer = Peer(accepts: bool, lines: seq<string>, writeBudget: nat, tlsOk: bool)

  /** The peer as it now stands, and the events so far. */
  datatype Wire = Wire(peer: Peer, trace: seq<Event>)

  /** Where a session stands: the wire, and whether an exception has been thrown. */
  datatype Progress = Progress(wire: Wire, outcome: Outcome<SmtpError>)

  /** One exchange of the session. */
  datatype Step =
    | Greeting(expected: int)              // read the banner
    | Command(line: string, expected: int) // write a line, read the reply
    | StartTls                             // upgrade the stream to TLS

  /** What readResponse decides about the text it read, given the expected code. */
  type Check = (string, int) -> Result<string, SmtpError>

  /** The connection settings passed to the constructor, and $_SERVER['SERVER_NAME']. */
  datatype Account = Account(host: string, port: int, username: string, password: string,
                             serverName: Option<string>)

  const CRLF := SmtpMessage.CRLF
  const ImplicitTlsPort := 465
  const QuitLine := "QUIT\r\n"
  const StartTlsLine := "STARTTLS\r\n"
  const AuthLoginLine := "AUTH LOGIN\r\n"
  const DataLine := "DATA\r\n"

  // ---------------------------------------------------------------------
  // The command lines
  // ---------------------------------------------------------------------

  function Ehlo(domain: string): string { "EHLO " + domain + CRLF }
  function MailFrom(address: string): string { "MAIL FROM:<" + address + ">" + CRLF }
  function RcptTo(address: string): string { "RCPT TO:<" + address + ">" + CRLF }

  /** base64_encode of a credential, as sent after AUTH LOGIN. */
  function Credential(secret: string): string
  {
    Base64.Encode(Base64.Octets(secret)) + CRLF
  }

  /** The message followed by the end-of-data line. */
  function Payload(message: string): string
  {
    message + "\r\n.\r\n"
  }

  /** fsockopen's target: the ssl:// wrapper exactly for port 465. */
  function Address(host: string, port: int): (a: string)
    ensures port == ImplicitTlsPort ==> a == "ssl://" + host
    ensures port != ImplicitTlsPort ==> a == host
  {
    (if port == ImplicitTlsPort then "ssl://" else "") + host
  }

  // ---------------------------------------------------------------------
  // The EHLO domain: explode('@', fromEmail)[1] ?? SERVER_NAME ?? 'localhost'
  // ---------------------------------------------------------------------

  /** The first index of c in s. */
  function IndexOf(s: string, c: char): (r: Option<nat>)
    ensures r.None? <==> c !in s
    ensures r.Some? ==> r.value < |s| && s[r.value] == c && c !in s[..r.value]
  {
    if s == [] then None
    else if s[0] == c then Some(0)
    else
      match IndexOf(s[1..], c)
      case None => None
      case Some(i) =>
        assert s[..i + 1] == [s[0]] + s[1..][..i];
        Some(i + 1)
  }

  /** explode(sep, s)[1]: the piece after the first separator, up to the next one; absent when there is none. */
  function SecondPiece(s: string, sep: char): (r: Option<string>)
    ensures r.None? <==> sep !in s
    ensures r.Some? ==> sep !in r.value
  {
    match IndexOf(s, sep)
    case None => None
    case Some(i) =>
      var t := s[i + 1..];
      match IndexOf(t, sep)
      case None => Some(t)
      case Some(j) => Some(t[..j])
  }

  /** The domain authenticate() greets with. */
  function EhloDomain(fromEmail: string, serverName: Option<string>): string
  {
    match SecondPiece(fromEmail, '@')
    case Some(d) => d
    case None => if serverName.Some? then serverName.value else "localhost"
  }

  /**
   * For an address local@domain, possibly followed by more '@'-separated
   * text, the EHLO domain is the domain; without '@' it is the server name,
   * or localhost when that is not set.
   */
  lemma EhloDomainOfAddress(local: string, domain: string, more: string, serverName: Option<string>)
    requires '@' !in local && '@' !in domain
    ensures EhloDomain(local + "@" + domain, serverName) == domain
    ensures EhloDomain(local + "@" + domain + "@" + more, serverName) == domain
    ensures EhloDomain(local, serverName) == if serverName.Some? then serverName.value else "localhost"
  {
    assert local + "@" + domain == local + ['@'] + (domain + "");
    SecondPieceOf(local, domain, "", '@');
    assert local + "@" + domain + "@" + more == local + ['@'] + (domain + ("@" + more));
    SecondPieceOf(local, domain, "@" + more, '@');
  }

  /** The first separator in x, the separator, then y, is the one after x. */
  lemma {:induction false} IndexOfFirst(x: string, c: char, y: string)
    requires c !in x
    ensures IndexOf(x + [c] + y, c) == Some(|x|)
    decreases |x|
  {
    var s := x + [c] + y;
    if x != [] {
      assert s[0] == x[0] && s[1..] == x[1..] + [c] + y;
      IndexOfFirst(x[1..], c, y);
    }
  }

  /** The piece between the first and the second separator, or to the end when there is no second. */
  lemma SecondPieceOf(x: string, d: string, rest: string, c: char)
    requires c !in x && c !in d && (rest == [] || rest[0] == c)
    ensures SecondPiece(x + [c] + (d + rest), c) == Some(d)
  {
    var s := x + [c] + (d + rest);
    IndexOfFirst(x, c, d + rest);
    assert s[|x| + 1..] == d + rest;
    if rest == [] {
      assert d + rest == d;
    } else {
      assert d + [c] + rest[1..] == d + rest;
      IndexOfFirst(d, c, rest[1..]);
      assert (d + rest)[..|d|] == d;
    }
  }

  // ---------------------------------------------------------------------
  // Performing steps
  // ---------------------------------------------------------------------

  /** readResponse's reading: the text of one reply, and the peer with that reply consumed. */
  function Reply(p: Peer): (string, Peer)
  {
    (ReplyText(p.lines), p.(lines := p.lines[ReplyLength(p.lines)..]))
  }

  /** fwrite: when the peer still takes writes, the data goes out; otherwise nothing does. */
  function Write(w: Wire, data: string): Option<Wire>
  {
    if w.peer.writeBudget == 0 then None
    else Some(Wire(w.peer.(writeBudget := w.peer.writeBudget - 1), w.trace + [Sent(data)]))
  }

  function AsOutcome(r: Result<string, SmtpError>): Outcome<SmtpError>
  {
    if r.Success? then Pass else Fail(r.error)
  }

  /** One step: the banner read, executeCommand, or the TLS upgrade. */
  function Perform(s: Step, w: Wire, check: Check): Progress
  {
    match s
    case Greeting(code) =>
      var (text, p) := Reply(w.peer);
      Progress(w.(peer := p), AsOutcome(check(text, code)))
    case Command(line, code) =>
      (match Write(w, line)
       case None => Progress(w, Fail(WriteFailed(line)))
       case Some(w1) =>
         var (text, p) := Reply(w1.peer);
         Progress(w1.(peer := p), AsOutcome(check(text, code))))
    case StartTls =>
      Progress(w.(trace := w.trace + [Handshake]), if w.peer.tlsOk then Pass else Fail(TlsFailed))
  }

  /** The next step, unless an exception has already been thrown. */
  function Then(p: Progress, s: Step, check: Check): Progress
  {
    if p.outcome.Fail? then p else Perform(s, p.wire, check)
  }

  /** Steps in order from where a session stands, stopping at the first that fails. */
  function Run(steps: seq<Step>, p: Progress, check: Check): Progress
  {
    if steps == [] then p
    else Then(Run(steps[..|steps| - 1], p, check), steps[|steps| - 1], check)
  }

  /** How many steps of a run succeed. */
  function Completed(steps: seq<Step>, p: Progress, check: Check): (n: nat)
    ensures n <= |steps|
    ensures p.outcome.Pass? ==> (n == |steps| <==> Run(steps, p, check).outcome.Pass?)
  {
    if steps == [] then 0
    else
      var q := Run(steps[..|steps| - 1], p, check);
      if q.outcome.Fail? then Completed(steps[..|steps| - 1], p, check)
      else if Perform(steps[|steps| - 1], q.wire, check).outcome.Pass? then |steps|
      else |steps| - 1
  }

  /** The events a step produces when it succeeds. */
  function StepEvents(s: Step): seq<Event>
  {
    match s
    case Greeting(_) => []
    case Command(line, _) => [Sent(line)]
    case StartTls => [Handshake]
  }

  function ScriptEvents(steps: seq<Step>): seq<Event>
  {
    if steps == [] then [] else ScriptEvents(steps[..|steps| - 1]) + StepEvents(steps[|steps| - 1])
  }

  /** How many writes the steps make when they all succeed. */
  function Writes(steps: seq<Step>): nat
  {
    if steps == [] then 0
    else Writes(steps[..|steps| - 1]) + (if steps[|steps| - 1].Command? then 1 else 0)
  }

  // ---------------------------------------------------------------------
  // What send() does, as it is written
  // ---------------------------------------------------------------------

  /** authenticate(): EHLO, then STARTTLS, the upgrade and EHLO again unless on port 465, then AUTH LOGIN. */
  function Authenticated(a: Account, fromEmail: string, p: Progress, check: Check): Progress
  {
    var d := EhloDomain(fromEmail, a.serverName);
    var greeted := Then(p, Command(Ehlo(d), 250), check);
    var secured :=
      if a.port != ImplicitTlsPort then
        Then(Then(Then(greeted, Command(StartTlsLine, 220), check), StartTls, check), Command(Ehlo(d), 250), check)
      else greeted;
    Then(Then(Then(secured, Command(AuthLoginLine, 334), check),
              Command(Credential(a.username), 334), check),
         Command(Credential(a.password), 235), check)
  }

  /** QUIT is written when the peer still takes writes; its failure and its reply are ignored. */
  function Quit(w: Wire): Wire
  {
    match Write(w, QuitLine)
    case None => w
    case Some(w1) => w1
  }

  /** The socket, the wire, $this->body and the result after a send(). */
  datatype SendResult = SendResult(socket: Handle, wire: Wire, body: string, outcome: Outcome<SmtpError>)

  /**
   * The first steps of send()'s try block: connect (a refused connection
   * leaves the false of fsockopen), authenticate, MAIL FROM, RCPT TO, DATA.
   */
  function Opened(a: Account, e: SmtpMessage.Envelope, check: Check, w: Wire): (Handle, Progress)
  {
    var address := Address(a.host, a.port);
    var w0 := w.(trace := w.trace + [Dial(address, a.port)]);
    if !w.peer.accepts then (Refused, Progress(w0, Fail(ConnectFailed(address, a.port))))
    else
      (Open, Negotiated(a, e, Perform(Greeting(220), w0, check), check))
  }

  /** After the banner: authenticate, then MAIL FROM, RCPT TO and DATA, each only after the previous step succeeded. */
  function Negotiated(a: Account, e: SmtpMessage.Envelope, connected: Progress, check: Check): Progress
  {
    var authed := Authenticated(a, e.fromEmail, connected, check);
    Then(Then(Then(authed, Command(MailFrom(e.fromEmail), 250), check),
              Command(RcptTo(e.toEmail), 250), check),
         Command(DataLine, 354), check)
  }

  /** The wire after the last command: followed by QUIT when it succeeded. */
  function Finished(r: Progress): Wire
  {
    if r.outcome.Pass? then Quit(r.wire) else r.wire
  }

  /** The try block of send(): the steps up to DATA, then the message, then QUIT. */
  function TryBlock(a: Account, e: SmtpMessage.Envelope, qp: string -> string, check: Check, w: Wire): SendResult
  {
    var (socket, ready) := Opened(a, e, check, w);
    if ready.outcome.Fail? then SendResult(socket, ready.wire, e.body, ready.outcome)
    else
      var built := SmtpMessage.BuildMessage(e, qp);
      var sent := Perform(Command(Payload(built.text), 250), ready.wire, check);
      SendResult(Open, Finished(sent), built.body, sent.outcome)
  }

  /** The finally block: an open socket is closed and reset to null. */
  function Cleanup(r: SendResult): SendResult
  {
    if r.socket == Open then r.(socket := Null, wire := r.wire.(trace := r.wire.trace + [Close])) else r
  }

  /** send()'s empty() guard on sender, recipient and body. */
  predicate Ready(e: SmtpMessage.Envelope)
  {
    !Php.IsEmpty(e.fromEmail) && !Php.IsEmpty(e.toEmail) && !Php.IsEmpty(e.body)
  }

  /** send(): the guard, then the try block and its finally. */
  function Session(a: Account, e: SmtpMessage.Envelope, qp: string -> string, check: Check,
                   socket: Handle, w: Wire): SendResult
  {
    if !Ready(e) then SendResult(socket, w, e.body, Fail(NotReady))
    else Cleanup(TryBlock(a, e, qp, check, w))
  }

  /** Nothing is negotiated after a failure. */
  lemma NegotiatedFail(a: Account, e: SmtpMessage.Envelope, p: Progress, check: Check)
    requires p.outcome.Fail?
    ensures Negotiated(a, e, p, check) == p
  {
  }

  // ---------------------------------------------------------------------
  // The same session as a flat script of steps
  // ---------------------------------------------------------------------

  function AuthSteps(a: Account, fromEmail: string): seq<Step>
  {
    var d := EhloDomain(fromEmail, a.serverName);
    [Command(Ehlo(d), 250)]
    + (if a.port != ImplicitTlsPort then [Command(StartTlsLine, 220), StartTls, Command(Ehlo(d), 250)] else [])
    + [Command(AuthLoginLine, 334), Command(Credential(a.username), 334), Command(Credential(a.password), 235)]
  }

  /** Everything send() does on an open connection before it builds the message. */
  function Prelude(a: Account, e: SmtpMessage.Envelope): seq<Step>
  {
    [Greeting(220)] + AuthSteps(a, e.fromEmail)
    + [Command(MailFrom(e.fromEmail), 250), Command(RcptTo(e.toEmail), 250), Command(DataLine, 354)]
  }

  /** The whole exchange: the prelude, then the message and the end-of-data line. */
  function Script(a: Account, e: SmtpMessage.Envelope, message: string): seq<Step>
  {
    Prelude(a, e) + [Command(Payload(message), 250)]
  }

  // ---------------------------------------------------------------------
  // Properties of runs, whatever the reply check
  // ---------------------------------------------------------------------

  lemma RunSnoc(a: seq<Step>, s: Step, p: Progress, check: Check)
    ensures Run(a + [s], p, check) == Then(Run(a, p, check), s, check)
  {
    assert (a + [s])[..|a|] == a;
  }

  /** Running a + b is running a, then b from where a left off. */
  lemma {:induction false} RunAppend(a: seq<Step>, b: seq<Step>, p: Progress, check: Check)
    ensures Run(a + b, p, check) == Run(b, Run(a, p, check), check)
    decreases |b|
  {
    if b == [] {
      assert a + b == a;
    } else {
      var init := b[..|b| - 1];
      var last := b[|b| - 1];
      assert a + b == (a + init) + [last];
      assert b == init + [last];
      RunSnoc(a + init, last, p, check);
      RunAppend(a, init, p, check);
      RunSnoc(init, last, Run(a, p, check), check);
    }
  }

  /** Once an exception has been thrown, no further step does anything. */
  lemma {:induction false} RunAfterFailure(steps: seq<Step>, p: Progress, check: Check)
    requires p.outcome.Fail?
    ensures Run(steps, p, check) == p
    decreases |steps|
  {
    if steps != [] {
      RunAfterFailure(steps[..|steps| - 1], p, check);
    }
  }

  /** A step adds its events when it succeeds, and either nothing or its events when it fails. */
  lemma PerformTrace(s: Step, w: Wire, check: Check)
    ensures Perform(s, w, check).outcome.Pass? ==> Perform(s, w, check).wire.trace == w.trace + StepEvents(s)
    ensures Perform(s, w, check).outcome.Fail? ==>
      Perform(s, w, check).wire.trace in {w.trace, w.trace + StepEvents(s)}
  {
    match s
    case Greeting(_) =>
    case Command(line, _) =>
      if w.peer.writeBudget > 0 {
        assert Perform(s, w, check).wire.trace == w.trace + [Sent(line)];
      }
    case StartTls =>
  }

  /** A run that succeeds adds the events of all its steps. */
  lemma {:induction false} RunTracePass(steps: seq<Step>, p: Progress, check: Check)
    requires p.outcome.Pass? && Run(steps, p, check).outcome.Pass?
    ensures Run(steps, p, check).wire.trace == p.wire.trace + ScriptEvents(steps)
    decreases |steps|
  {
    if steps != [] {
      var init := steps[..|steps| - 1];
      var q := Run(init, p, check);
      assert q.outcome.Pass?;
      RunTracePass(init, p, check);
      PerformTrace(steps[|steps| - 1], q.wire, check);
    }
  }

  /** The trace of a failed run holds the events of the completed steps, or of one more. */
  predicate FailedWithin(steps: seq<Step>, p: Progress, check: Check)
  {
    var n := Completed(steps, p, check);
    var t := Run(steps, p, check).wire.trace;
    n < |steps| && t in {p.wire.trace + ScriptEvents(steps[..n]), p.wire.trace + ScriptEvents(steps[..n + 1])}
  }

  /**
   * A run that fails adds the events of the steps that completed and a
   * prefix of the events of the step that failed.
   */
  lemma {:induction false} RunTraceFail(steps: seq<Step>, p: Progress, check: Check)
    requires p.outcome.Pass? && Run(steps, p, check).outcome.Fail?
    ensures FailedWithin(steps, p, check)
    decreases |steps|, 1
  {
    if Run(steps[..|steps| - 1], p, check).outcome.Fail? {
      FailedBefore(steps, p, check);
    } else {
      FailedAtLast(steps, p, check);
    }
  }

  lemma {:induction false} FailedBefore(steps: seq<Step>, p: Progress, check: Check)
    requires p.outcome.Pass? && steps != [] && Run(steps[..|steps| - 1], p, check).outcome.Fail?
    ensures FailedWithin(steps, p, check)
    decreases |steps|, 0
  {
    var init := steps[..|steps| - 1];
    RunTraceFail(init, p, check);
    var n := Completed(init, p, check);
    assert steps[..n] == init[..n];
    assert steps[..n + 1] == init[..n + 1];
  }

  lemma FailedAtLast(steps: seq<Step>, p: Progress, check: Check)
    requires p.outcome.Pass? && steps != [] && Run(steps[..|steps| - 1], p, check).outcome.Pass?
    requires Run(steps, p, check).outcome.Fail?
    ensures FailedWithin(steps, p, check)
  {
    var init := steps[..|steps| - 1];
    var last := steps[|steps| - 1];
    var q := Run(init, p, check);
    var t := Run(steps, p, check).wire.trace;
    assert Completed(steps, p, check) == |init|;
    assert steps[..|init|] == init && steps[..|init| + 1] == steps;
    assert q.wire.trace == p.wire.trace + ScriptEvents(init) by {
      RunTracePass(init, p, check);
    }
    assert t in {q.wire.trace, q.wire.trace + StepEvents(last)} by {
      PerformTrace(last, q.wire, check);
    }
    assert p.wire.trace + ScriptEvents(steps) == q.wire.trace + StepEvents(last);
  }

  /**
   * The trace after a run is the trace before it and the events of the
   * steps that completed, and, when a step failed, possibly that step's
   * events too (a command whose reply was rejected has been written).
   */
  lemma RunTrace(steps: seq<Step>, p: Progress, check: Check)
    requires p.outcome.Pass?
    ensures Run(steps, p, check).outcome.Pass? ==>
      Run(steps, p, check).wire.trace == p.wire.trace + ScriptEvents(steps)
    ensures Run(steps, p, check).outcome.Fail? ==>
      var n := Completed(steps, p, check);
      n < |steps|
      && Run(steps, p, check).wire.trace
         in {p.wire.trace + ScriptEvents(steps[..n]), p.wire.trace + ScriptEvents(steps[..n + 1])}
  {
    if Run(steps, p, check).outcome.Pass? {
      RunTracePass(steps, p, check);
    } else {
      RunTraceFail(steps, p, check);
    }
  }

  lemma {:induction false} ScriptEventsAppend(a: seq<Step>, b: seq<Step>)
    ensures ScriptEvents(a + b) == ScriptEvents(a) + ScriptEvents(b)
    decreases |b|
  {
    if b == [] {
      assert a + b == a;
    } else {
      var init := b[..|b| - 1];
      assert (a + b)[..|a + b| - 1] == a + init;
      assert (a + b)[|a + b| - 1] == b[|b| - 1];
      ScriptEventsAppend(a, init);
    }
  }

  /** Steps never close the connection. */
  lemma {:induction false} ScriptNeverCloses(steps: seq<Step>)
    ensures Close !in ScriptEvents(steps)
    decreases |steps|
  {
    if steps != [] {
      ScriptNeverCloses(steps[..|steps| - 1]);
    }
  }

  /** Handshake events come exactly from StartTls steps. */
  lemma {:induction false} HandshakeFromStartTls(steps: seq<Step>)
    ensures Handshake in ScriptEvents(steps) <==> StartTls in steps
    decreases |steps|
  {
    if steps != [] {
      var init := steps[..|steps| - 1];
      HandshakeFromStartTls(init);
      assert steps == init + [steps[|steps| - 1]];
      assert StartTls in steps <==> StartTls in init || steps[|steps| - 1] == StartTls;
    }
  }

  // ---------------------------------------------------------------------
  // The code as written follows the script
  // ---------------------------------------------------------------------

  /** Three steps in a row are three Then steps. */
  lemma RunThree(s1: Step, s2: Step, s3: Step, p: Progress, check: Check)
    ensures Run([s1, s2, s3], p, check) == Then(Then(Then(p, s1, check), s2, check), s3, check)
  {
    RunSnoc([], s1, p, check);
    assert [] + [s1] == [s1];
    RunSnoc([s1], s2, p, check);
    assert [s1] + [s2] == [s1, s2];
    RunSnoc([s1, s2], s3, p, check);
    assert [s1, s2] + [s3] == [s1, s2, s3];
  }

  /** authenticate() performs exactly the authentication steps. */
  lemma AuthenticatedRunsSteps(a: Account, fromEmail: string, p: Progress, check: Check)
    ensures Authenticated(a, fromEmail, p, check) == Run(AuthSteps(a, fromEmail), p, check)
  {
    var d := EhloDomain(fromEmail, a.serverName);
    var first := [Command(Ehlo(d), 250)];
    var tls := if a.port != ImplicitTlsPort then [Command(StartTlsLine, 220), StartTls, Command(Ehlo(d), 250)] else [];
    var auth := [Command(AuthLoginLine, 334), Command(Credential(a.username), 334), Command(Credential(a.password), 235)];
    assert AuthSteps(a, fromEmail) == first + tls + auth;
    RunAppend(first + tls, auth, p, check);
    RunAppend(first, tls, p, check);
    RunSnoc([], Command(Ehlo(d), 250), p, check);
    assert [] + first == first;
    var greeted := Run(first, p, check);
    if a.port != ImplicitTlsPort {
      RunThree(Command(StartTlsLine, 220), StartTls, Command(Ehlo(d), 250), greeted, check);
    }
    RunThree(Command(AuthLoginLine, 334), Command(Credential(a.username), 334), Command(Credential(a.password), 235),
             Run(tls, greeted, check), check);
  }

  /**
   * On an accepted connection the try block runs the script: its outcome
   * is the script's, its wire the script's followed by QUIT when that
   * succeeded, and the body is replaced exactly when the prelude, up to
   * DATA, succeeded.
   */
  lemma TryBlockRunsScript(a: Account, e: SmtpMessage.Envelope, qp: string -> string, check: Check, w: Wire)
    requires w.peer.accepts
    ensures var w0 := w.(trace := w.trace + [Dial(Address(a.host, a.port), a.port)]);
      var built := SmtpMessage.BuildMessage(e, qp);
      var steps := Script(a, e, built.text);
      var r := Run(steps, Progress(w0, Pass), check);
      var t := TryBlock(a, e, qp, check, w);
      t.socket == Open
      && t.outcome == r.outcome
      && t.wire == Finished(r)
      && t.body == (if Completed(steps, Progress(w0, Pass), check) >= |Prelude(a, e)| then built.body else e.body)
  {
    var w0 := w.(trace := w.trace + [Dial(Address(a.host, a.port), a.port)]);
    var built := SmtpMessage.BuildMessage(e, qp);
    OpenedRunsPrelude(a, e, check, w);
    RunLastStep(Prelude(a, e), Command(Payload(built.text), 250), Progress(w0, Pass), check);
  }

  /** On an accepted connection, the steps up to DATA are the prelude's. */
  lemma OpenedRunsPrelude(a: Account, e: SmtpMessage.Envelope, check: Check, w: Wire)
    requires w.peer.accepts
    ensures var w0 := w.(trace := w.trace + [Dial(Address(a.host, a.port), a.port)]);
      Opened(a, e, check, w) == (Open, Run(Prelude(a, e), Progress(w0, Pass), check))
  {
    var w0 := w.(trace := w.trace + [Dial(Address(a.host, a.port), a.port)]);
    var start := Progress(w0, Pass);
    var pre := Prelude(a, e);
    var auth := AuthSteps(a, e.fromEmail);
    var mail := [Command(MailFrom(e.fromEmail), 250), Command(RcptTo(e.toEmail), 250), Command(DataLine, 354)];
    assert pre == [Greeting(220)] + auth + mail;
    RunAppend([Greeting(220)] + auth, mail, start, check);
    RunAppend([Greeting(220)], auth, start, check);
    RunSnoc([], Greeting(220), start, check);
    assert [] + [Greeting(220)] == [Greeting(220)];
    var connected := Run([Greeting(220)], start, check);
    AuthenticatedRunsSteps(a, e.fromEmail, connected, check);
    RunThree(mail[0], mail[1], mail[2], Run(auth, connected, check), check);
  }

  /** One step after a run: it runs only when the run succeeded, and the count of completed steps says which. */
  lemma RunLastStep(steps: seq<Step>, s: Step, p: Progress, check: Check)
    requires p.outcome.Pass?
    ensures Run(steps + [s], p, check) == Then(Run(steps, p, check), s, check)
    ensures Completed(steps + [s], p, check) >= |steps| <==> Run(steps, p, check).outcome.Pass?
  {
    RunSnoc(steps, s, p, check);
    assert (steps + [s])[..|steps|] == steps;
  }

  /** A run and its QUIT only extend the trace, and never with a Close. */
  lemma FinishedTrace(steps: seq<Step>, p: Progress, check: Check)
    requires p.outcome.Pass?
    ensures var f := Finished(Run(steps, p, check));
      p.wire.trace <= f.trace && forall k :: |p.wire.trace| <= k < |f.trace| ==> f.trace[k] != Close
  {
    RunTrace(steps, p, check);
    var run := Run(steps, p, check);
    var t := Finished(run).trace;
    if run.outcome.Pass? {
      ScriptNeverCloses(steps);
      var tail := ScriptEvents(steps) + (if run.wire.peer.writeBudget > 0 then [Sent(QuitLine)] else []);
      assert t == p.wire.trace + tail;
      NoCloseAfter(p.wire.trace, tail, t);
    } else {
      var n := Completed(steps, p, check);
      var tail := if t == p.wire.trace + ScriptEvents(steps[..n]) then ScriptEvents(steps[..n]) else ScriptEvents(steps[..n + 1]);
      ScriptNeverCloses(steps[..n]);
      ScriptNeverCloses(steps[..n + 1]);
      assert t == p.wire.trace + tail;
      NoCloseAfter(p.wire.trace, tail, t);
    }
  }

  // ---------------------------------------------------------------------
  // Properties of send()
  // ---------------------------------------------------------------------

  /**
   * No I/O and no change without sender, recipient and body; with them, the
   * connection is dialled, at the ssl:// address exactly for port 465, and
   * that is the first event.
   */
  lemma SendDials(a: Account, e: SmtpMessage.Envelope, qp: string -> string, check: Check, socket: Handle, w: Wire)
    ensures var r := Session(a, e, qp, check, socket, w);
      (!Ready(e) <==> r == SendResult(socket, w, e.body, Fail(NotReady)))
      && (Ready(e) ==> |r.wire.trace| > |w.trace| && r.wire.trace[|w.trace|] == Dial(Address(a.host, a.port), a.port))
  {
    if Ready(e) {
      var d := Dial(Address(a.host, a.port), a.port);
      var w0 := w.(trace := w.trace + [d]);
      if w.peer.accepts {
        TryBlockRunsScript(a, e, qp, check, w);
        FinishedTrace(Script(a, e, SmtpMessage.BuildMessage(e, qp).text), Progress(w0, Pass), check);
      }
      assert Session(a, e, qp, check, socket, w).wire.trace[|w.trace|] == d;
    }
  }

  /**
   * The finally block: once the peer accepted the connection, the session
   * ends with exactly one Close, as its last event, and the socket is null;
   * a refused connection is never closed and leaves false behind.
   */
  lemma SendCloses(a: Account, e: SmtpMessage.Envelope, qp: string -> string, check: Check, socket: Handle, w: Wire)
    requires Ready(e)
    ensures var r := Session(a, e, qp, check, socket, w);
      |w.trace| < |r.wire.trace|
      && (w.peer.accepts ==>
            r.socket == Null && r.wire.trace[|r.wire.trace| - 1] == Close
            && forall k :: |w.trace| <= k < |r.wire.trace| - 1 ==> r.wire.trace[k] != Close)
      && (!w.peer.accepts ==> r.socket == Refused && r.wire.trace == w.trace + [Dial(Address(a.host, a.port), a.port)])
  {
    if w.peer.accepts {
      var w0 := w.(trace := w.trace + [Dial(Address(a.host, a.port), a.port)]);
      var steps := Script(a, e, SmtpMessage.BuildMessage(e, qp).text);
      TryBlockRunsScript(a, e, qp, check, w);
      FinishedTrace(steps, Progress(w0, Pass), check);
      var f := Finished(Run(steps, Progress(w0, Pass), check));
      assert Session(a, e, qp, check, socket, w).wire.trace == f.trace + [Close];
      assert f.trace[|w.trace|] != Close;
    }
  }

  /** prefix + tail has no Close past prefix when tail has none. */
  lemma NoCloseAfter(prefix: seq<Event>, tail: seq<Event>, t: seq<Event>)
    requires t == prefix + tail && Close !in tail
    ensures prefix <= t
    ensures forall k :: |prefix| <= k < |t| ==> t[k] != Close
  {
    forall k | |prefix| <= k < |t| ensures t[k] != Close {
      assert t[k] == tail[k - |prefix|];
    }
  }

  /**
   * send() succeeds exactly when the connection is accepted and every step
   * of the script succeeds; the session then produced exactly the dial,
   * the script's events, QUIT when the peer still took it, and the close.
   */
  lemma SendSucceeds(a: Account, e: SmtpMessage.Envelope, qp: string -> string, check: Check, socket: Handle, w: Wire)
    ensures var r := Session(a, e, qp, check, socket, w);
      var w0 := w.(trace := w.trace + [Dial(Address(a.host, a.port), a.port)]);
      var run := Run(Script(a, e, SmtpMessage.BuildMessage(e, qp).text), Progress(w0, Pass), check);
      (r.outcome.Pass? <==> Ready(e) && w.peer.accepts && run.outcome.Pass?)
      && (r.outcome.Pass? ==>
            r.wire.trace == w0.trace + ScriptEvents(Script(a, e, SmtpMessage.BuildMessage(e, qp).text))
                            + (if run.wire.peer.writeBudget > 0 then [Sent(QuitLine)] else []) + [Close])
  {
    if Ready(e) && w.peer.accepts {
      var w0 := w.(trace := w.trace + [Dial(Address(a.host, a.port), a.port)]);
      var steps := Script(a, e, SmtpMessage.BuildMessage(e, qp).text);
      TryBlockRunsScript(a, e, qp, check, w);
      RunTrace(steps, Progress(w0, Pass), check);
    }
  }

  /**
   * $this->body is replaced by its quoted-printable form exactly when the
   * message is plain text and the server accepted DATA, whether or not the
   * data itself is then accepted.
   */
  lemma SendBody(a: Account, e: SmtpMessage.Envelope, qp: string -> string, check: Check, socket: Handle, w: Wire)
    ensures var r := Session(a, e, qp, check, socket, w);
      var w0 := w.(trace := w.trace + [Dial(Address(a.host, a.port), a.port)]);
      var steps := Script(a, e, SmtpMessage.BuildMessage(e, qp).text);
      var dataAccepted := Ready(e) && w.peer.accepts && Completed(steps, Progress(w0, Pass), check) >= |Prelude(a, e)|;
      r.body == if dataAccepted && !e.isHtml then qp(e.body) else e.body
  {
    if Ready(e) && w.peer.accepts {
      TryBlockRunsScript(a, e, qp, check, w);
    }
  }

  /** STARTTLS and the TLS upgrade are in the script exactly when not on port 465. */
  lemma StartTlsUnlessImplicit(a: Account, e: SmtpMessage.Envelope, message: string)
    ensures StartTls in Script(a, e, message) <==> a.port != ImplicitTlsPort
    ensures Command(StartTlsLine, 220) in Script(a, e, message) <==> a.port != ImplicitTlsPort
    ensures Handshake in ScriptEvents(Script(a, e, message)) <==> a.port != ImplicitTlsPort
  {
    var d := EhloDomain(e.fromEmail, a.serverName);
    var tls := if a.port != ImplicitTlsPort then [Command(StartTlsLine, 220), StartTls, Command(Ehlo(d), 250)] else [];
    var others := [Greeting(220), Command(Ehlo(d), 250),
                   Command(AuthLoginLine, 334), Command(Credential(a.username), 334), Command(Credential(a.password), 235),
                   Command(MailFrom(e.fromEmail), 250), Command(RcptTo(e.toEmail), 250), Command(DataLine, 354),
                   Command(Payload(message), 250)];
    var steps := Script(a, e, message);
    assert forall s :: s in steps <==> s in tls || s in others;
    assert StartTls !in others;
    assert Command(StartTlsLine, 220) !in others;
    HandshakeFromStartTls(steps);
  }

  /** The two lines after AUTH LOGIN carry the username and the password in base64. */
  lemma CredentialsDecode(a: Account)
    ensures Base64.Decode(Credential(a.username)[..|Credential(a.username)| - 2]) == Some(Base64.Octets(a.username))
    ensures Base64.Decode(Credential(a.password)[..|Credential(a.password)| - 2]) == Some(Base64.Octets(a.password))
  {
    var u := Credential(a.username);
    assert u[..|u| - 2] == Base64.Encode(Base64.Octets(a.username));
    Base64.DecodeEncode(Base64.Octets(a.username));
    var p := Credential(a.password);
    assert p[..|p| - 2] == Base64.Encode(Base64.Octets(a.password));
    Base64.DecodeEncode(Base64.Octets(a.password));
  }

  // ---------------------------------------------------------------------
  // A server that answers every step as expected
  // ---------------------------------------------------------------------

  /** Every expected code is a three-digit code that is not a multiple of 100. */
  predicate UsualCodes(steps: seq<Step>)
  {
    forall k :: 0 <= k < |steps| && !steps[k].StartTls? ==>
      100 <= steps[k].expected <= 999 && steps[k].expected % 100 != 0
  }

  /** The one-line reply "<code> OK". */
  function Answer(code: int): string
    requires 100 <= code <= 999
  {
    Php.Digits3(code) + " OK\r\n"
  }

  /** A one-line reply with the expected code for every step that reads one. */
  function Answers(steps: seq<Step>): seq<string>
    requires UsualCodes(steps)
  {
    if steps == [] then []
    else
      var init := steps[..|steps| - 1];
      var last := steps[|steps| - 1];
      assert UsualCodes(init) by {
        forall k | 0 <= k < |init| && !init[k].StartTls?
          ensures 100 <= init[k].expected <= 999 && init[k].expected % 100 != 0
        {
          assert init[k] == steps[k];
        }
      }
      Answers(init) + (if last.StartTls? then [] else [Answer(last.expected)])
  }

  /** A check that accepts the one-line reply with the expected code. */
  predicate AcceptsAnswers(check: Check)
  {
    forall code :: 100 <= code <= 999 && code % 100 != 0 ==> check(Answer(code), code).Success?
  }

  /** readResponse's check accepts a reply line that starts with the expected code. */
  lemma VerdictAcceptsAnswers()
    ensures AcceptsAnswers(Verdict)
  {
    forall code | 100 <= code <= 999 && code % 100 != 0 ensures Verdict(Answer(code), code).Success? {
      var line := Answer(code);
      assert line[..3] == Php.Digits3(code);
      VerdictAcceptsCode(line, code);
    }
  }

  /** A one-line reply is read alone, whatever follows it. */
  lemma AnswerReadAlone(code: int, rest: seq<string>)
    requires 100 <= code <= 999
    ensures ReplyLength([Answer(code)] + rest) == 1 && ReplyText([Answer(code)] + rest) == Answer(code)
  {
    var line := Answer(code);
    assert IsFinalLine(line);
    ReadsWholeReply([line], rest);
    var one: seq<string> := [line];
    assert Concat(one) == line by {
      assert one[..0] == [];
    }
  }

  /**
   * A peer that takes every write, upgrades to TLS, and answers each step
   * with its expected code lets the whole run succeed under a check that
   * accepts those answers, consuming exactly the answers and one write per
   * command.
   */
  lemma {:induction false} CooperativeRun(steps: seq<Step>, w: Wire, rest: seq<string>, check: Check)
    requires UsualCodes(steps) && AcceptsAnswers(check)
    requires w.peer.lines == Answers(steps) + rest
    requires w.peer.writeBudget >= Writes(steps)
    requires w.peer.tlsOk
    ensures Run(steps, Progress(w, Pass), check).outcome == Pass
    ensures Run(steps, Progress(w, Pass), check).wire.peer.lines == rest
    ensures Run(steps, Progress(w, Pass), check).wire.peer.writeBudget == w.peer.writeBudget - Writes(steps)
    ensures Run(steps, Progress(w, Pass), check).wire.peer.tlsOk
    decreases |steps|
  {
    if steps != [] {
      var init := steps[..|steps| - 1];
      var last := steps[|steps| - 1];
      assert UsualCodes(init) by {
        forall k | 0 <= k < |init| && !init[k].StartTls?
          ensures 100 <= init[k].expected <= 999 && init[k].expected % 100 != 0
        {
          assert init[k] == steps[k];
        }
      }
      var tail := if last.StartTls? then [] else [Answer(last.expected)];
      assert w.peer.lines == Answers(init) + (tail + rest);
      CooperativeRun(init, w, tail + rest, check);
      if !last.StartTls? {
        AnswerReadAlone(last.expected, rest);
      }
    }
  }

  /** Every code the session expects is a usual one. */
  lemma ScriptCodes(a: Account, e: SmtpMessage.Envelope, message: string)
    ensures UsualCodes(Script(a, e, message))
  {
    var pay: seq<Step> := [Command(Payload(message), 250)];
    PreludeCodes(a, e);
    assert UsualCodes(pay);
    UsualCodesAppend(Prelude(a, e), pay);
  }

  lemma PreludeCodes(a: Account, e: SmtpMessage.Envelope)
    ensures UsualCodes(Prelude(a, e))
  {
    var greet: seq<Step> := [Greeting(220)];
    var envelope: seq<Step> := [Command(MailFrom(e.fromEmail), 250), Command(RcptTo(e.toEmail), 250), Command(DataLine, 354)];
    AuthCodes(a, e.fromEmail);
    assert UsualCodes(greet) && UsualCodes(envelope);
    UsualCodesAppend(greet, AuthSteps(a, e.fromEmail));
    UsualCodesAppend(greet + AuthSteps(a, e.fromEmail), envelope);
  }

  lemma AuthCodes(a: Account, fromEmail: string)
    ensures UsualCodes(AuthSteps(a, fromEmail))
  {
    var d := EhloDomain(fromEmail, a.serverName);
    var hello: seq<Step> := [Command(Ehlo(d), 250)];
    var tls: seq<Step> := if a.port != ImplicitTlsPort then [Command(StartTlsLine, 220), StartTls, Command(Ehlo(d), 250)] else [];
    var login: seq<Step> := [Command(AuthLoginLine, 334), Command(Credential(a.username), 334), Command(Credential(a.password), 235)];
    assert UsualCodes(hello) && UsualCodes(tls) && UsualCodes(login);
    UsualCodesAppend(hello, tls);
    UsualCodesAppend(hello + tls, login);
  }

  lemma UsualCodesAppend(a: seq<Step>, b: seq<Step>)
    requires UsualCodes(a) && UsualCodes(b)
    ensures UsualCodes(a + b)
  {
    forall k | 0 <= k < |a + b| && !(a + b)[k].StartTls?
      ensures 100 <= (a + b)[k].expected <= 999 && (a + b)[k].expected % 100 != 0
    {
      if k < |a| {
        assert (a + b)[k] == a[k];
      } else {
        assert (a + b)[k] == b[k - |a|];
      }
    }
  }

  /**
   * Against a peer that accepts the connection and answers every step of
   * the script as expected, send() succeeds, the message goes out, the
   * socket is closed, and the body is replaced exactly for plain text.
   */
  lemma SendDelivers(a: Account, e: SmtpMessage.Envelope, qp: string -> string, socket: Handle, w: Wire, rest: seq<string>)
    requires Ready(e) && w.peer.accepts && w.peer.tlsOk
    requires var steps := Script(a, e, SmtpMessage.BuildMessage(e, qp).text);
      UsualCodes(steps) && w.peer.lines == Answers(steps) + rest && w.peer.writeBudget >= Writes(steps)
    ensures var r := Session(a, e, qp, Verdict, socket, w);
      r.outcome == Pass && r.socket == Null
      && Sent(Payload(SmtpMessage.BuildMessage(e, qp).text)) in r.wire.trace
      && r.body == SmtpMessage.BuildMessage(e, qp).body
  {
    var w0 := w.(trace := w.trace + [Dial(Address(a.host, a.port), a.port)]);
    var steps := Script(a, e, SmtpMessage.BuildMessage(e, qp).text);
    VerdictAcceptsAnswers();
    CooperativeRun(steps, w0, rest, Verdict);
    TryBlockRunsScript(a, e, qp, Verdict, w);
    SendSucceeds(a, e, qp, Verdict, socket, w);
    var pay := Command(Payload(SmtpMessage.BuildMessage(e, qp).text), 250);
    ScriptEventsAppend(Prelude(a, e), [pay]);
    assert ScriptEvents([pay]) == [Sent(pay.line)] by {
      var one: seq<Step> := [pay];
      assert one[..0] == [];
    }
  }

  // ---------------------------------------------------------------------
  // Building the header block line by line
  // ---------------------------------------------------------------------

  /** Joining one more line appends it and its CRLF. */
  lemma {:induction false} JoinLinesSnoc(lines: seq<string>, line: string)
    ensures SmtpMessage.JoinLines(lines + [line]) == SmtpMessage.JoinLines(lines) + line + CRLF
    decreases |lines|
  {
    if lines == [] {
      assert [] + [line] == [line];
      assert [line][1..] == [];
    } else {
      assert (lines + [line])[0] == lines[0];
      assert (lines + [line])[1..] == lines[1..] + [line];
      JoinLinesSnoc(lines[1..], line);
    }
  }

  // ---------------------------------------------------------------------
  // The mailer object
  // ---------------------------------------------------------------------

  class RobustSmtpMailer {
    const host: string
    const port: int
    const username: string
    const password: string
    /** $_SERVER['SERVER_NAME'], when set. */
    const serverName: Option<string>
    /** quoted_printable_encode. */
    const qp: string -> string

    var fromEmail: string
    var fromName: string
    var toEmail: string
    var toName: string
    var subject: string
    var body: string
    var isHtml: bool

    var socket: Handle
    /** The connection's other end. */
    var peer: Peer
    /** What the mailer has done to its connections. */
    var trace: seq<Event>

    function Settings(): Account
    {
      Account(host, port, username, password, serverName)
    }

    function Envelope(): SmtpMessage.Envelope
      reads this
    {
      SmtpMessage.Envelope(fromEmail, fromName, toEmail, toName, subject, body, isHtml)
    }

    function Connection(): Wire
      reads this
    {
      Wire(peer, trace)
    }

    /**
     * The class invariant: no socket is left open between calls. The
     * constructor sets it up, the setters do not touch the socket, and Send
     * keeps it.
     */
    predicate Valid()
      reads this
    {
      socket != Open
    }

    constructor (host: string, port: int, username: string, password: string,
                 serverName: Option<string>, qp: string -> string, network: Peer)
      ensures Settings() == Account(host, port, username, password, serverName) && this.qp == qp
      ensures Envelope() == SmtpMessage.Envelope("", "", "", "", "", "", false)
      ensures socket == Null && peer == network && trace == []
      ensures Valid()
    {
      this.host := host;
      this.port := port;
      this.username := username;
      this.password := password;
      this.serverName := serverName;
      this.qp := qp;
      fromEmail, fromName, toEmail, toName, subject, body, isHtml := "", "", "", "", "", "", false;
      socket := Null;
      peer := network;
      trace := [];
    }

    method SetFrom(email: string, name: string := "")
      modifies this`fromEmail, this`fromName
      ensures fromEmail == email && fromName == name
    {
      fromEmail, fromName := email, name;
    }

    method SetTo(email: string, name: string := "")
      modifies this`toEmail, this`toName
      ensures toEmail == email && toName == name
    {
      toEmail, toName := email, name;
    }

    method SetSubject(subject: string)
      modifies this`subject
      ensures this.subject == subject
    {
      this.subject := subject;
    }

    method SetBody(body: string, isHtml: bool := false)
      modifies this`body, this`isHtml
      ensures this.body == body && this.isHtml == isHtml
    {
      this.body, this.isHtml := body, isHtml;
    }

    /** readResponse: read lines until one ends the reply or the stream ends, then check the text. */
    method ReadResponse(expected: int) returns (r: Result<string, SmtpError>)
      modifies this`peer
      ensures r == Verdict(Reply(old(peer)).0, expected) && peer == Reply(old(peer)).1
    {
      ghost var lines := peer.lines;
      ghost var k := 0;
      var response := "";
      while peer.lines != []
        invariant k <= ReplyLength(lines)
        invariant peer == old(peer).(lines := lines[k..])
        invariant response == Concat(lines[..k])
        invariant forall j :: 0 <= j < k ==> !IsFinalLine(lines[j])
        decreases |peer.lines|
      {
        var line := peer.lines[0];
        assert line == lines[k];
        ReplyLengthStep(lines, k);
        peer := peer.(lines := peer.lines[1..]);
        assert lines[..k + 1][..k] == lines[..k];
        response := response + line;
        k := k + 1;
        if IsFinalLine(line) {
          break;
        }
      }
      assert k == ReplyLength(lines);
      assert response == ReplyText(lines);
      r := Verdict(response, expected);
    }

    /** fwrite: false when the peer refuses the write. */
    method Fwrite(data: string) returns (ok: bool)
      modifies this`peer, this`trace
      ensures ok == Write(old(Connection()), data).Some?
      ensures Connection() == if ok then Write(old(Connection()), data).value else old(Connection())
    {
      ok := peer.writeBudget > 0;
      if ok {
        peer := peer.(writeBudget := peer.writeBudget - 1);
        trace := trace + [Sent(data)];
      }
    }

    method ExecuteCommand(command: string, expected: int) returns (o: Outcome<SmtpError>)
      modifies this`peer, this`trace
      ensures Progress(Connection(), o) == Perform(Command(command, expected), old(Connection()), Verdict)
    {
      var ok := Fwrite(command);
      if !ok {
        return Fail(WriteFailed(command));
      }
      var r := ReadResponse(expected);
      o := AsOutcome(r);
    }

    /** stream_socket_enable_crypto after STARTTLS. */
    method EnableCrypto() returns (o: Outcome<SmtpError>)
      modifies this`trace
      ensures Progress(Connection(), o) == Perform(StartTls, old(Connection()), Verdict)
    {
      trace := trace + [Handshake];
      o := if peer.tlsOk then Pass else Fail(TlsFailed);
    }

    /** connect: fsockopen (ssl:// for port 465), then the 220 banner. */
    method Connect() returns (o: Outcome<SmtpError>)
      modifies this`socket, this`peer, this`trace
      ensures var address := Address(host, port);
        var w0 := old(Connection()).(trace := old(trace) + [Dial(address, port)]);
        if !old(peer).accepts then socket == Refused && Connection() == w0 && o == Fail(ConnectFailed(address, port))
        else socket == Open && Progress(Connection(), o) == Perform(Greeting(220), w0, Verdict)
    {
      var address := (if port == ImplicitTlsPort then "ssl://" else "") + host;
      trace := trace + [Dial(address, port)];
      if !peer.accepts {
        socket := Refused;
        return Fail(ConnectFailed(address, port));
      }
      socket := Open;
      var r := ReadResponse(220);
      o := AsOutcome(r);
    }

    /** authenticate: EHLO, STARTTLS with the upgrade and a second EHLO unless on port 465, AUTH LOGIN. */
    method Authenticate() returns (o: Outcome<SmtpError>)
      modifies this`peer, this`trace
      ensures Progress(Connection(), o) == Authenticated(Settings(), fromEmail, Progress(old(Connection()), Pass), Verdict)
    {
      var hostDomain := EhloDomain(fromEmail, serverName);
      o := ExecuteCommand(Ehlo(hostDomain), 250);
      if o.Fail? {
        return;
      }
      if port != ImplicitTlsPort {
        o := ExecuteCommand(StartTlsLine, 220);
        if o.Fail? {
          return;
        }
        o := EnableCrypto();
        if o.Fail? {
          return;
        }
        o := ExecuteCommand(Ehlo(hostDomain), 250);
        if o.Fail? {
          return;
        }
      }
      o := ExecuteCommand(AuthLoginLine, 334);
      if o.Fail? {
        return;
      }
      o := ExecuteCommand(Credential(username), 334);
      if o.Fail? {
        return;
      }
      o := ExecuteCommand(Credential(password), 235);
    }

    /** buildMessage, which also replaces a plain-text body by its quoted-printable form. */
    method BuildMessage() returns (message: string)
      modifies this`body
      ensures var built := SmtpMessage.BuildMessage(old(Envelope()), qp);
        message == built.text && body == built.body
    {
      ghost var e := Envelope();
      var fromLine := "From: " + SmtpMessage.Sender(Envelope());
      var toLine := "To:  <" + toEmail + ">";
      var subjectLine := "Subject: " + SmtpMessage.EncodedWord(subject);
      var headers := fromLine + CRLF;
      ghost var lines := [fromLine];
      assert headers == SmtpMessage.JoinLines(lines) by {
        JoinLinesSnoc([], fromLine);
        assert [] + [fromLine] == lines;
      }
      JoinLinesSnoc(lines, toLine);
      headers, lines := headers + toLine + CRLF, lines + [toLine];
      JoinLinesSnoc(lines, subjectLine);
      headers, lines := headers + subjectLine + CRLF, lines + [subjectLine];
      JoinLinesSnoc(lines, SmtpMessage.MimeVersion);
      headers, lines := headers + SmtpMessage.MimeVersion + CRLF, lines + [SmtpMessage.MimeVersion];
      var typeLine, encodingLine;
      if isHtml {
        typeLine, encodingLine := SmtpMessage.HtmlType, SmtpMessage.HtmlEncoding;
      } else {
        typeLine, encodingLine := SmtpMessage.PlainType, SmtpMessage.PlainEncoding;
        body := qp(body);
      }
      JoinLinesSnoc(lines, typeLine);
      headers, lines := headers + typeLine + CRLF, lines + [typeLine];
      JoinLinesSnoc(lines, encodingLine);
      headers, lines := headers + encodingLine + CRLF, lines + [encodingLine];
      assert lines == SmtpMessage.HeaderLines(e);
      message := headers + CRLF + body;
    }

    /** The first steps of send()'s try block, up to the DATA command. */
    method Prepare() returns (o: Outcome<SmtpError>)
      modifies this`socket, this`peer, this`trace
      ensures (socket, Progress(Connection(), o)) == Opened(Settings(), Envelope(), Verdict, old(Connection()))
    {
      o := Connect();
      if o.Fail? {
        if old(peer).accepts {
          NegotiatedFail(Settings(), Envelope(), Progress(Connection(), o), Verdict);
        }
        return;
      }
      o := Negotiate();
    }

    /** The steps of send()'s try block between the banner and the message. */
    method Negotiate() returns (o: Outcome<SmtpError>)
      modifies this`peer, this`trace
      ensures Progress(Connection(), o) == Negotiated(Settings(), Envelope(), Progress(old(Connection()), Pass), Verdict)
    {
      o := Authenticate();
      if o.Fail? {
        return;
      }
      o := ExecuteCommand(MailFrom(fromEmail), 250);
      if o.Fail? {
        return;
      }
      o := ExecuteCommand(RcptTo(toEmail), 250);
      if o.Fail? {
        return;
      }
      o := ExecuteCommand(DataLine, 354);
    }

    /** The rest of send()'s try block once DATA has been accepted: the message, then QUIT when it went through. */
    method Deliver() returns (o: Outcome<SmtpError>)
      modifies this`peer, this`trace, this`body
      ensures var built := SmtpMessage.BuildMessage(old(Envelope()), qp);
        var sent := Perform(Command(Payload(built.text), 250), old(Connection()), Verdict);
        Connection() == Finished(sent) && body == built.body && o == sent.outcome
    {
      var message := BuildMessage();
      o := ExecuteCommand(Payload(message), 250);
      if o.Pass? {
        var _ := Fwrite(QuitLine);
      }
    }

    /** The try block of send(). */
    method Attempt() returns (o: Outcome<SmtpError>)
      modifies this`socket, this`peer, this`trace, this`body
      ensures var r := TryBlock(Settings(), old(Envelope()), qp, Verdict, old(Connection()));
        socket == r.socket && Connection() == r.wire && body == r.body && o == r.outcome
    {
      o := Prepare();
      if o.Fail? {
        return;
      }
      o := Deliver();
    }

    /** send(): the guard, the try block, and the finally block that closes the socket. */
    method Send() returns (o: Outcome<SmtpError>)
      modifies this`socket, this`peer, this`trace, this`body
      ensures var r := Session(Settings(), old(Envelope()), qp, Verdict, old(socket), old(Connection()));
        socket == r.socket && Connection() == r.wire && body == r.body && o == r.outcome
      requires Valid()
      ensures Valid()
    {
      if Php.IsEmpty(fromEmail) || Php.IsEmpty(toEmail) || Php.IsEmpty(body) {
        return Fail(NotReady);
      }
      o := Attempt();
      if socket == Open {
        trace := trace + [Close];
        socket := Null;
      }
    }
  }
}
