# RobustSmtpMailer and the PDF table heuristic, in Dafny

This project models two PHP scripts and proves properties of the models.

**smtpMailer.php: the `RobustSmtpMailer` class.** The class keeps its fields:
- the connection settings;
- the envelope (sender, recipient, subject, body, HTML flag);
- `$this->socket`.

Its setters and its private methods are methods over those fields: `readResponse`, `executeCommand`, `connect`, `authenticate`, `buildMessage`, and `send` with its `finally`.

The network is a scripted peer with four parts:
- whether `fsockopen` succeeds;
- the lines `fgets` returns;
- how many more `fwrite` calls succeed;
- whether the TLS upgrade succeeds.

Everything the mailer does to the connection is recorded as a trace of events: dial, sent data, TLS handshake, close.

Beside the class, pure functions describe:
- one SMTP reply (section 4.2 of RFC 5321);
- the session as a flat script of steps;
- the message that `buildMessage` assembles (section 2 of RFC 2047 encoded-words over base64 per section 4 of RFC 4648);
- PHP's `(int)` cast of the reply code.

Each method's `ensures` ties the new state to these functions. Lemmas then state:
- the order of the commands;
- STARTTLS exactly when the port is not 465;
- the first failure stopping the session;
- the socket closed exactly once on every path where the connection opened, and never written to when it was refused;
- the message round trip.

**PDF_to_CSV.php: `cleanCell`, the page loop and the empty-result check.** The page texts are the input. `cleanCell` and the regular expressions are stated on characters:
- PCRE's `\s` without the `u` modifier: space, tab, LF, VT, FF, CR;
- PHP's `trim` set: space, tab, LF, CR, NUL, VT.

The page loop is a method. It does all of this per page:
- collects the candidate rows in a loop;
- sorts them;
- takes the header;
- pads the other rows in place in an `array`;
- grows the gathered rows.

Its `ensures` equals a fold over the pages, and lemmas about that fold give the header choice, the padding, stability, and the row count.

Files:
- `wrappers.dfy`: `Option`, `Result`, `Outcome`.
- `php.dfy`:
  - `empty()`;
  - `trim`/`ltrim`/`rtrim`;
  - the `(int)` cast of a numeric-string prefix (whitespace, sign, digits, a fraction, an exponent).
- `base64.dfy`: `base64_encode` and a decoder.
- `smtp_reply.dfy`: the reply reader's cut and its check.
- `smtp_message.dfy`: `buildMessage` as a value.
- `smtp_mailer.dfy`: the session functions and the class.
- `pdf_text.dfy`: `cleanCell`, the line split, the blank filter, tab expansion, and the split on runs of two or more spaces.
- `pdf_table.dfy`: candidate rows, the sort, the header, the padding, the page fold, and the methods of the page loop.

Where the mailer's code and its intent differ, the model follows the code:
- The body is not dot-stuffed.
- Addresses are not validated.
- There is no HELO fallback.
- The QUIT reply is never read.
- A stream that ends after continuation lines only is not an error.
- Line 156 interpolates the undefined local `$toName`, so the To header is always `To:  <address>` and the stored name is unused.
- `buildMessage` overwrites `$this->body` with its quoted-printable form (line 167), so it changes the object's state.

## Model

| member | source | states |
|---|---|---|
| SmtpMailer.Address | smtpMailer.php:73-77 | the `ssl://` wrapper is put before the host exactly when the port is 465 |
| SmtpMailer.EhloDomainOfAddress | smtpMailer.php:181-182 | the EHLO domain is the piece between the first and second `@` of the sender; with no `@` it is the server name, else `localhost` |
| SmtpMailer.SecondPiece | smtpMailer.php:182 | `explode('@', …)[1]` exists exactly when `@` occurs, and holds no `@` |
| SmtpMailer.SecondPieceOf | smtpMailer.php:182 | `explode('@', …)[1]` of `x@d…` is `d` when neither `x` nor `d` holds `@` |
| SmtpMailer.IndexOfFirst | smtpMailer.php:182 | the first `@` of `x@…` is at the length of `x` when `x` holds none |
| SmtpMailer.RobustSmtpMailer.constructor | smtpMailer.php:30-36 | stores the settings; the envelope starts empty and no socket is open |
| SmtpMailer.RobustSmtpMailer.SetFrom | smtpMailer.php:41-45 | sets the sender address and name, nothing else |
| SmtpMailer.RobustSmtpMailer.SetTo | smtpMailer.php:47-51 | sets the recipient address and name, nothing else |
| SmtpMailer.RobustSmtpMailer.SetSubject | smtpMailer.php:53-56 | sets the subject, nothing else |
| SmtpMailer.RobustSmtpMailer.SetBody | smtpMailer.php:61-65 | sets the body and the HTML flag, nothing else |
| SmtpMailer.RobustSmtpMailer.ReadResponse | smtpMailer.php:112-144 | the loop consumes exactly one reply's lines and returns readResponse's verdict on their concatenation |
| SmtpReply.ReplyLength | smtpMailer.php:117-128 | a reply takes at most the lines there are, and at least one when any is left |
| SmtpReply.ReplyStopsAtFirstFinal | smtpMailer.php:117-128 | no line before the reply's last has a space at index 3; the last one does unless the stream ended |
| SmtpReply.ReplyLengthStep | smtpMailer.php:117-128 | one more line read while none was final: the reply ends there exactly when that line is final |
| SmtpReply.ReplyEndsAtFinalLine | smtpMailer.php:117-128 | when some line is final, the reply ends at the first final line |
| SmtpReply.ReadsWholeReply | smtpMailer.php:117-128 | a well-formed reply followed by anything is read exactly, and the rest is left for the next read |
| SmtpReply.VerdictAcceptsCode | smtpMailer.php:130-143 | for the expected codes, a reply is accepted exactly when its text starts with the code's three digits, and the whole text is returned |
| Php.ToIntDigits3 | smtpMailer.php:135 | `(int)` of a code's three digits is that code |
| Php.ToIntIsDigits3 | smtpMailer.php:135 | a prefix of at most three characters whose `(int)` is a code not ending in `00` is exactly that code's digits |
| Php.ExponentMagnitude | smtpMailer.php:135 | a prefix of at most three characters with an exponent gives a value below 100 or a multiple of 100, so never an expected code |
| SmtpMailer.RobustSmtpMailer.Fwrite | smtpMailer.php:100 | a write succeeds while the peer takes writes, and records the data |
| SmtpMailer.RobustSmtpMailer.ExecuteCommand | smtpMailer.php:98-104 | write, then read only if the write succeeded; a failed write is WriteFailed |
| SmtpMailer.RobustSmtpMailer.EnableCrypto | smtpMailer.php:192-194 | the TLS upgrade is recorded, and its failure is TlsFailed |
| SmtpMailer.RobustSmtpMailer.Connect | smtpMailer.php:71-90 | dials the (wrapped) host; a refusal is ConnectFailed with the socket left false; otherwise reads the 220 greeting |
| SmtpMailer.RobustSmtpMailer.Authenticate | smtpMailer.php:179-208 | EHLO, then STARTTLS, the upgrade and EHLO again unless on port 465, then AUTH LOGIN and both credentials, stopping at the first failure |
| SmtpMailer.RobustSmtpMailer.BuildMessage | smtpMailer.php:149-172 | returns the message text and leaves the body replaced as buildMessage does |
| SmtpMailer.RobustSmtpMailer.Prepare | smtpMailer.php:223-233 | connect, then the negotiation only when the banner was accepted; the socket and the wire end as the session's opening steps say |
| SmtpMailer.RobustSmtpMailer.Negotiate | smtpMailer.php:224-233 | authenticate, MAIL FROM, RCPT TO and DATA, each sent only after the one before succeeded |
| SmtpMailer.NegotiatedFail | smtpMailer.php:224-233 | once a step has failed, the negotiation neither writes nor reads anything more |
| SmtpMailer.RobustSmtpMailer.Deliver | smtpMailer.php:236-243 | builds the message, leaves the body replaced, sends the message with the end-of-data line and expects 250 |
| SmtpMailer.RobustSmtpMailer.Attempt | smtpMailer.php:221-246 | the try block: the message is built and sent only once DATA got 354, then QUIT is written without a read |
| SmtpMailer.RobustSmtpMailer.Send | smtpMailer.php:215-254 | the guard, the try block and the finally; needs and keeps the invariant that no socket is left open between calls |
| SmtpMailer.SendDials | smtpMailer.php:217-223 | send fails with NotReady and touches nothing exactly when sender, recipient or body is empty(); otherwise the first event is the dial |
| SmtpMailer.SendCloses | smtpMailer.php:247-253 | past the guard, an opened socket is closed exactly once, as the last event, and reset to null; a refused one is never written to |
| SmtpMailer.SendSucceeds | smtpMailer.php:215-254 | send succeeds exactly when the guard passes, the connection opens and every step succeeds; then the trace is the whole script, QUIT when writable, and the close |
| SmtpMailer.SendBody | smtpMailer.php:160-168 | the body is left replaced by its quoted-printable form exactly when a plain-text message was built, which happens once DATA got 354 |
| SmtpMailer.SendDelivers | smtpMailer.php:221-245 | against a server that answers every step with the code expected, send succeeds, writes the message and closes the socket |
| SmtpMailer.TryBlockRunsScript | smtpMailer.php:221-246 | the try block performs the flat script of steps, in order, from the dial |
| SmtpMailer.OpenedRunsPrelude | smtpMailer.php:223-233 | the steps before the message are the script's prelude |
| SmtpMailer.StartTlsUnlessImplicit | smtpMailer.php:188-198 | STARTTLS is sent, the upgrade made, exactly when the port is not 465 |
| SmtpMailer.RunTrace | smtpMailer.php:221-240 | a run that succeeds writes every command in order; one that fails stops at its first failing step, with no later command written |
| SmtpMailer.RunAfterFailure | smtpMailer.php:221-240 | once an exception is thrown, no further step runs |
| SmtpMailer.Completed | smtpMailer.php:221-240 | the count of successful steps reaches the end exactly when the run succeeds |
| SmtpMailer.CooperativeRun | smtpMailer.php:185-240 | when each step gets its expected code, the whole run succeeds, consuming exactly one reply and one write per command |
| SmtpMailer.ScriptCodes | smtpMailer.php:185-240 | every code the script expects is a three-digit code not ending in `00` |
| SmtpMailer.HandshakeFromStartTls | smtpMailer.php:192 | a TLS handshake happens only through the STARTTLS step |
| SmtpMailer.CredentialsDecode | smtpMailer.php:204-207 | the two AUTH LOGIN lines decode back to the username and the password |
| SmtpMessage.BuildMessageParses | smtpMailer.php:149-171 | the message is the six header lines each ended by CRLF, a blank line and the body; it parses back into those parts |
| SmtpMessage.HeaderLinesWellFormed | smtpMailer.php:155-165 | no header line is empty or holds a CR, so the header block ends at the blank line |
| SmtpMessage.HeadersDecode | smtpMailer.php:151-157 | the From display name and the Subject are encoded-words that decode to the original text |
| SmtpMessage.EncodedWordRoundTrip | smtpMailer.php:153-157 | an RFC 2047 "B" encoded-word decodes to the original bytes |
| Base64.DecodeEncode | smtpMailer.php:153 | `base64_encode` is inverted by the decoder |
| Base64.Encode | smtpMailer.php:153 | the encoding is four alphabet or pad characters per started group of three bytes |
| PdfText.CollapseShape | PDF_to_CSV.php:26 | after `preg_replace('/\s+/', ' ', …)`, whitespace is only single spaces; an empty or whitespace start is kept |
| PdfText.CleanCellShape | PDF_to_CSV.php:25-27 | cleanCell's result has no whitespace at its ends, no other whitespace than single spaces, and all non-whitespace characters of the cell in order |
| PdfText.CleanCellIdempotent | PDF_to_CSV.php:25-27 | cleaning a cleaned cell changes nothing |
| PdfText.CollapseKeepsContent | PDF_to_CSV.php:26 | the collapse keeps every non-whitespace character in order |
| PdfText.SkipSpaceAppend | PDF_to_CSV.php:26 | skipping a run of `\s` at the front of `a + b` stops inside `a` unless `a` is all `\s`, then at the first other character of `b` |
| PdfText.CollapseAppend | PDF_to_CSV.php:26 | the collapse of `a + b` is the collapse of `a`, then of `b`, when the cut is not inside a run of `\s` |
| PdfText.CollapseGap | PDF_to_CSV.php:26 | one maximal run of `\s` becomes exactly one space with each side collapsed on its own; text without `\s` is unchanged |
| PdfText.CollapseLast | PDF_to_CSV.php:26 | a last character other than `\s` stays last |
| Php.TrimLeftAppend | PDF_to_CSV.php:26 | `ltrim` of `x + z` is `ltrim(x) + z` when `x` ends in a character it keeps |
| Php.TrimRightPrepend | PDF_to_CSV.php:26 | `rtrim` of `z + y` is `z + rtrim(y)` when `y` starts with a character it keeps |
| PdfText.CleanCellGap | PDF_to_CSV.php:25-27 | cleanCell turns a run of `\s` between two kept characters into one space and cleans each side on its own, so it never joins or cuts words |
| PdfText.TrimKeepsContent | PDF_to_CSV.php:26 | trim keeps every character that is neither whitespace nor NUL |
| Php.TrimShape | PDF_to_CSV.php:26 | trim returns a contiguous piece, with only trim characters cut, and no trim character at either end |
| Php.TrimEmptyIff | PDF_to_CSV.php:37 | trim is empty exactly when every character is a trim character |
| PdfText.SplitLines | PDF_to_CSV.php:36 | preg_split always returns at least one piece |
| PdfText.SplitLinesShape | PDF_to_CSV.php:36 | no line holds a CR or LF |
| PdfText.SplitLinesJoin | PDF_to_CSV.php:36 | joining the lines with LF gives the text with every CRLF or lone CR written as LF; text without CR comes back whole |
| PdfText.EolNoCr | PDF_to_CSV.php:36 | the line-end normal form of text without CR is that text |
| PdfText.BlankIff | PDF_to_CSV.php:37 | the blank test is exactly `trim($l) === ''` |
| PdfText.NonBlankKeeps | PDF_to_CSV.php:37 | a line survives the filter exactly when it is one of the lines and its trim is not empty |
| PdfText.NonBlankAppend | PDF_to_CSV.php:37 | the filter keeps order: the kept lines of `a + b` are those of `a`, then those of `b` |
| PdfText.NonBlankOne | PDF_to_CSV.php:37 | one line is kept exactly when its trim is not empty |
| PdfText.ExpandTabsShape | PDF_to_CSV.php:44 | no tab is left, and each tab adds three characters |
| PdfText.ExpandTabsKeeps | PDF_to_CSV.php:44 | non-whitespace characters are kept in order; a line without tabs is unchanged |
| PdfText.ExpandTabsAppend | PDF_to_CSV.php:44 | the expansion of `a + b` is that of `a`, then that of `b` |
| PdfText.ExpandTabsChar | PDF_to_CSV.php:44 | a tab becomes four spaces, any other character stays |
| PdfText.PiecesShape | PDF_to_CSV.php:47 | no piece is empty (PREG_SPLIT_NO_EMPTY), and none holds two spaces side by side |
| PdfText.PiecesKeepChars | PDF_to_CSV.php:47 | the pieces hold all the line's non-space characters in order |
| PdfText.PiecesJoin | PDF_to_CSV.php:47 | the pieces of the rest of a line, joined with two spaces, give it back with every run of two or more spaces narrowed to two and a trailing one dropped |
| PdfText.SplitWideJoin | PDF_to_CSV.php:47 | the pieces joined with two spaces are the line with every inner run of two or more spaces narrowed to two and such runs at the ends dropped: the cuts are exactly at those runs |
| PdfText.SplitWideWhole | PDF_to_CSV.php:47 | a non-empty line without two spaces side by side is one piece |
| PdfText.CleanAllAt | PDF_to_CSV.php:48 | array_map gives the cleaned piece in each place |
| PdfText.RowCellsShape | PDF_to_CSV.php:44-48 | a line's cells are its cleaned wide-gap pieces, one per piece, each collapsed and keeping the piece's characters; the pieces joined with two spaces are the tab-expanded line with its wide gaps narrowed |
| PdfTable.Candidates | PDF_to_CSV.php:42-53 | no more rows than lines, each with at least two cells |
| PdfTable.CandidatesAre | PDF_to_CSV.php:42-53 | a row is a candidate exactly when it is some line's cells and has at least two |
| PdfTable.CandidatesAppend | PDF_to_CSV.php:42-53 | the loop keeps order: the candidates of `a + b` are those of `a`, then those of `b` |
| PdfTable.CandidatesSnoc | PDF_to_CSV.php:42-53 | one more line adds its row, if any, at the end |
| PdfTable.CandidatesOne | PDF_to_CSV.php:50-52 | one line gives a candidate exactly when it has at least two cells, and the candidate is its cells |
| PdfTable.CandidateOfLine | PDF_to_CSV.php:50-52 | every line of at least two cells gives a candidate row |
| PdfTable.PageCandidates | PDF_to_CSV.php:41-53 | the inner loop collects the candidate rows of the lines, in order |
| PdfTable.SortByWidth | PDF_to_CSV.php:57 | the sort keeps the number of rows |
| PdfTable.SortPermutes | PDF_to_CSV.php:57 | the sort is a permutation |
| PdfTable.SortSorted | PDF_to_CSV.php:57 | the sort orders rows by descending cell count |
| PdfTable.SortStable | PDF_to_CSV.php:57 | the sort is stable: rows of each width keep their order |
| PdfTable.HeaderIsFirstWidest | PDF_to_CSV.php:57-58 | the header is a widest row, and the first of the widest rows in page order |
| PdfTable.Pad | PDF_to_CSV.php:63 | array_pad keeps the row as a prefix, fills with `''` up to the count, and never truncates |
| PdfTable.PadRows | PDF_to_CSV.php:62-64 | the by-reference loop pads every row in place |
| PdfTable.BodyLength | PDF_to_CSV.php:58-64 | the padded rows below a header are one fewer than the candidates |
| PdfTable.TableOfNone | PDF_to_CSV.php:56 | there is no table exactly when there are no candidates |
| PdfTable.TableShape | PDF_to_CSV.php:56-64 | header widest and first among the widest; header and remaining rows are a permutation of the candidates, the rest in descending width order, each padded to the header's width with its own cells as a prefix |
| PdfTable.PageTableHeader | PDF_to_CSV.php:56-59 | a page has a table exactly when it has candidate rows, and then the header has at least two cells |
| PdfTable.StorePage | PDF_to_CSV.php:56-71 | one page: nothing when there are no candidates, else the header only while nothing was gathered, then the padded rows; `$row` is left referencing the last stored row when there were rows to pad, else keeps what it had |
| PdfTable.ExtractTable | PDF_to_CSV.php:32-72 | the page loop's rows are the fold over the pages' tables, and the slot `$row` references afterwards is the one the tables give |
| PdfTable.TablesSnoc | PDF_to_CSV.php:32-72 | one more page adds its own table at the end |
| PdfTable.StoreStep | PDF_to_CSV.php:32-72 | one page keeps the gathered rows and the referenced slot in step with the fold |
| PdfTable.AliasSnoc | PDF_to_CSV.php:62-70 | after a page with rows below its header, `$row` references the last gathered row; after any other page it is unchanged |
| PdfTable.FirstHeaderHas | PDF_to_CSV.php:66-69 | when some page has rows below its header, there is a first header |
| PdfTable.TablesAt | PDF_to_CSV.php:32-72 | the k-th table is the k-th page's |
| PdfTable.FirstHeaderNoneIff | PDF_to_CSV.php:66-69 | there is no first header exactly when no page has a table |
| PdfTable.GatherSplit | PDF_to_CSV.php:66-70 | the gathered rows are the first table page's header, then every table page's other rows in page order; later headers are dropped |
| PdfTable.BodiesCount | PDF_to_CSV.php:70 | the rows below the headers number the candidates less one per table page |
| PdfTable.RowCount | PDF_to_CSV.php:66-79 | the gathered rows are one plus the candidates below the headers, and none exactly when no page has a candidate row |
| PdfTable.NoTablesIff | PDF_to_CSV.php:77-79 | no page has a table exactly when no page has a candidate row |
| PdfTable.TableNoneAt | PDF_to_CSV.php:56 | a page has no table exactly when it has no candidate row |
| PdfTable.WriteRows | PDF_to_CSV.php:82-84 | the by-value loop over `$allRows` hands fputcsv each row after assigning it through the reference `$row` |
| PdfTable.AliasWrites | PDF_to_CSV.php:62-84 | as written, the rows fputcsv receives are the gathered rows when no page has rows below its header, and otherwise the gathered rows with the last replaced by the second-last |
| PdfTable.ConvertAsWritten | PDF_to_CSV.php:32-84 | as written: the message exactly when no page has a candidate row, otherwise the rows written through the leftover reference, one plus the candidates below the headers |
| PdfTable.Convert | PDF_to_CSV.php:32-84 | with the reference released after padding: the message exactly when no page has a candidate row; otherwise every gathered row as it is, starting with the first header and numbering one plus the candidates below the headers |

## Left out

- Socket I/O: `fsockopen`'s error number and text, `stream_set_timeout`, `feof` and the 515-byte limit of `fgets`. The peer's lines are taken as whole `fgets` results.
- `fwrite` writing only part of the data. A write either succeeds or fails.
- The TLS handshake itself. It is a yes/no outcome of the peer.
- `quoted_printable_encode`, a PHP built-in. It is a function passed to the constructor and never opened.
- `$_SERVER['SERVER_NAME']`, which is ambient request state. It is a constructor parameter.
- The exception classes' message text. Errors are constructors carrying their data.
- The unused `$command` local built from the reply at line 139.
- The `sendMail` wrapper (lines 262-290): it holds hard-coded credentials, calls `error_log`, and turns exceptions into return values.
- The commented-out example at lines 294-308.
- SmtpMailer.CooperativeRun and SmtpMailer.SendDelivers: the server they describe answers every step with a single reply line. Multi-line replies are covered by SmtpReply.ReadsWholeReply.
- Php.ToInt: does not model PHP's clamp of integers beyond 64 bits or the float route of a very long exponent. A three-character prefix never reaches either.
- PDF parsing (Smalot PdfParser, lines 17-21 and 33), `file_exists`, `fopen`, `fputcsv` quoting, `fclose` and the echoed lines 87-88. The pages' texts are the input. `ConvertAsWritten` returns the rows the loop at lines 82-84 hands to `fputcsv`, or the message `die` prints; `Convert` returns the rows `$allRows` holds at line 77, which is what that loop would write had `$row` been released after the padding loop.
- PdfTable.SortByWidth: `usort` sorts `$potentialRows` in place, with PHP 8's stable algorithm. The model sorts a sequence by stable insertion, so only its result is modelled: a stable descending sort, the one ordering with the proved properties.
- `array_filter` keeps the original array keys. Only the order of the lines matters to the loop, and that is kept (PdfText.NonBlankAppend; PdfTable.CandidatesAppend for the inner loop).

## Findings

| source | as written | input that shows it | evidently intended | confidence | as-written member | corrected member |
|---|---|---|---|---|---|---|
| PDF_to_CSV.php:62-64 | `foreach ($potentialRows as &$row)` leaves `$row` a reference to the last padded row, `array_merge` keeps it one, and `foreach ($allRows as $row)` at lines 82-84 then assigns every row through it, so the last CSV row is a copy of the one before it | one page with the lines `H1  H2  H3`, `a  b`, `c  d`: the rows written are `H1,H2,H3`, `a,b,`, `a,b,` where the gathered rows end with `c,d,` | `unset($row)` after the padding loop, so every gathered row is written as it is | not executed | PdfTable.ConvertAsWritten (with PdfTable.AliasWrites) | PdfTable.Convert |
