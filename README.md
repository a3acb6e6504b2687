# TinyWebServer connection engine, modelled in Dafny

This project models `http_conn`, the per-connection HTTP/1.1 engine of a small
event-driven web server written in C++. One `http_conn` object owns the
following:

- a 2048-byte read buffer, with a line splitter (`parse_line`) that finds
  CRLF-terminated lines in it;
- a three-stage request state machine (`process_read`). Its stages are the
  request line, the headers and the body.
- a resolver (`do_request`). It maps the request target onto a file under
  the document root and handles the login/registration forms against a
  shared account table.
- a 1024-byte write buffer that `process_write` fills with the status line,
  the headers and an inline body;
- a two-segment gather write (`write`). It sends the write buffer followed by
  the memory-mapped file, across several non-blocking attempts.

The model has one module per part of the engine.

- **CStrings** holds the C library functions the code relies on, written as
  functions on `seq<char>`:
  - `strpbrk`/`strspn`, as `FirstBlank` and `SpanBlanks`;
  - `strchr`/`strrchr`, as `IndexOf` and `LastIndexOf`;
  - `strcpy`/`strncpy`/`vsnprintf`, acting on a memory image of a
    fixed-size buffer;
  - `atol` and `%d`;
  - C-string reading up to the first NUL.
- **LineSplitter** models `parse_line`: `Scan` says where the next line ends
  and with which status.
- **Request** describes the parsing state as a value (`Parser`). It gives
  the transitions for:
  - the request line, the headers and the body;
  - one pass of the `process_read` loop;
  - the whole loop, `ReadLoop`.
- **Resolver** models `do_request` as a function (`Resolve`) of the target,
  the body memory, the file name buffer, the account table, the database's
  answer and the file system's metadata. It also covers the form scan and
  the `stat` checks.
- **Response** covers `add_response` and its wrappers (`Emit`, `Headers`)
  and `process_write` (`Respond`). Its lemmas give the exact text of every
  canonical reply.
- **Scheduler** models the gather-write bookkeeping of `write`:
  - the two vectors and the byte counters, as a `Transfer` value;
  - one `writev` result (`Advance`);
  - a sequence of attempts (`Flush`).
- **HttpConn** contains `class Conn`. Its fields are those of `http_conn`,
  with the buffers as `array<char>`. Its methods change them in place. Each
  method is proved against the function of the same part above:
  - `Holds(s)` ties the fields to a `Request.Parser` value;
  - `Content()` is the text in the write buffer;
  - `Transfer()` is the gather-write state.

  `Credentials` is the process-wide account table (`users`).

## Model

| member | source | states |
|---|---|---|
| CStrings.CString | http/http_conn.cpp:307-309 | a C string is the longest NUL-free prefix of the memory, followed by a NUL when shorter than the memory |
| CStrings.CStringOfNoNul | http/http_conn.cpp:380-381 | reading a C string across a NUL-free prefix keeps that prefix |
| CStrings.FirstBlank | http/http_conn.cpp:214 | `strpbrk(s, " \t")` finds the first space or tab, with none before it |
| CStrings.SpanBlanks | http/http_conn.cpp:230 | `strspn(s, " \t")` counts exactly the leading spaces and tabs |
| CStrings.IndexOf | http/http_conn.cpp:244 | `strchr` finds the first occurrence, with none before it |
| CStrings.LastIndexOf | http/http_conn.cpp:384 | `strrchr` finds the last occurrence, with none after it |
| CStrings.StrCpy | http/http_conn.cpp:380 | `strcpy` writes the string and a NUL at the offset and leaves the rest of the buffer alone |
| CStrings.StrNCpy | http/http_conn.cpp:396 | `strncpy` leaves the memory before the offset alone and keeps the buffer's size |
| CStrings.Vsnprintf | http/http_conn.cpp:594 | `vsnprintf` keeps the memory before the offset and writes the text when it fits the room |
| CStrings.DigitsValueDecimal | http/http_conn.cpp:289 | the decimal digits of `n` read back as `n` |
| CStrings.AtolFormatInt | http/http_conn.cpp:289 | `atol` reads back any integer `%d` wrote, negative ones included |
| CStrings.FormatInt | http/http_conn.cpp:618-621 | `%d` writes a minus sign exactly for a negative value, then only decimal digits |
| CStrings.Atol | http/http_conn.cpp:289 | `atol` reads a string with no digit as zero and one with no minus sign as a value that is not negative (CStrings.AtolFormatInt: it reads back what `%d` wrote) |
| CStrings.LeadingDigitsPrefix | http/http_conn.cpp:289 | the digits `atol` reads from a run of digits followed by anything else are exactly that run |
| CStrings.DecimalThenSpace | http/http_conn.cpp:610-612 | `atol` stops at the blank that follows a number `%d` wrote and reads that number |
| LineSplitter.Scan | http/http_conn.cpp:147-180 | the scan ends at CRLF with OK, at the buffer's end or at a final CR with OPEN, or at a stray CR/LF with BAD, with no delimiter skipped before |
| LineSplitter.ScanSkipsPlain | http/http_conn.cpp:151-177 | bytes without CR or LF do not affect where the scan stops |
| LineSplitter.Terminate | http/http_conn.cpp:158-173 | on an OK line the two bytes before the cursor become NULs and every other byte is kept; on any other status the buffer is returned unchanged |
| LineSplitter.ScanResumes | http/http_conn.cpp:155-157 | after OPEN, scanning the grown buffer from the start or from where the scan stopped gives the same result |
| LineSplitter.ScanStable | http/http_conn.cpp:147-180 | a scan that did not find a line finds the same answer when run again from where it stopped |
| Request.Split | http/http_conn.cpp:147-180 | `parse_line` answers the status and cursor of `LineSplitter.Scan`, moves only the cursor and the buffer, and on an OK line the CR LF just before the cursor become two NULs while every other byte is kept |
| Request.FromSlash | http/http_conn.cpp:252-256 | an accepted target starts with '/' and holds no NUL |
| Request.StripScheme | http/http_conn.cpp:242-250 | removing `http://` or `https://` and the host keeps the target NUL-free |
| Request.MethodOf | http/http_conn.cpp:220-226 | the method is GET exactly when the token is `GET` in any case, POST exactly when it is `POST` in any case, and unrecognised otherwise |
| Request.ParseRequestLine | http/http_conn.cpp:211-260 | an accepted request line yields a well-formed target |
| Request.ParseTargetAndVersion | http/http_conn.cpp:228-260 | after the method, acceptance keeps the method and yields a target, and refusal records the method |
| Request.TargetOf | http/http_conn.cpp:240-256 | target normalisation keeps the method and yields a target starting with '/' |
| Request.FirstBlankAfter | http/http_conn.cpp:214 | the first blank of `a + b` is where `b` starts when `a` has none |
| Request.SkipGap | http/http_conn.cpp:230 | skipping the blanks of a gap lands on the next token |
| Request.TargetAndVersionTokens | http/http_conn.cpp:228-256 | target and version tokens separated by blanks parse to the normalised target exactly when the version is HTTP/1.1 |
| Request.MethodToken | http/http_conn.cpp:214-227 | a method token and a gap parse as the method applied to the rest, and an unknown method is refused |
| Request.RequestLineTokens | http/http_conn.cpp:211-260 | the whole request line from its five tokens: unknown method, wrong version, missing path and "/" rewritten to "/judge.html", each case stated |
| Request.NullTargetRefused | http/http_conn.cpp:242-253 | a target for which the source would pass NULL to the second prefix test is refused by the corrected parser |
| Request.SchemeWithoutPath | http/http_conn.cpp:242-250 | `http://host` passes NULL to the `https://` test, and the corrected parser refuses it |
| Request.SchemeWithPath | http/http_conn.cpp:242-245 | `http://host/a.html` is accepted as `/a.html` |
| Request.Http10Refused | http/http_conn.cpp:237-239 | `GET / HTTP/1.0` is refused |
| Request.ContentLengthValue | http/http_conn.cpp:286-290 | a `Content-length:` header stores `atol` of its value after the blanks |
| Request.ClassifyHeader | http/http_conn.cpp:263-301 | an empty line is the end of the headers; a line is a Connection, Content-length or Host header exactly when it starts with that name in any case, whatever the order of the tests; the keep-alive choice, the `atol` value and the host are read after the blanks that follow the name |
| Request.HeaderNamesDiffer | http/http_conn.cpp:263-301 | no line starts with two of the three recognised header names |
| Request.ContentLengthReadsBack | http/http_conn.cpp:286-290 | a `Content-Length:` header written with `%d` reads back as the same length |
| Request.ConnectionHeader | http/http_conn.cpp:276-284 | a `Connection:` header sets keep-alive exactly when its value is `keep-alive`, in any case |
| Request.OnRequestLine | http/http_conn.cpp:211-260 | the request-line stage changes only method, cgi flag, target and stage; an accepted line stores its target and method, sets the cgi flag on POST and moves to the header stage; a refused line keeps the target and the stage |
| Request.TakeRequestLine | http/http_conn.cpp:252-259 | an accepted line stores target, method and cgi flag and moves to the header stage; a line refused after its method was recognised still stores the method (and the cgi flag on POST) but keeps target and stage; a line refused earlier changes nothing |
| Request.OnHeader | http/http_conn.cpp:263-301 | a header line completes the request exactly when it is blank and no length was announced; a blank line with a length moves to the body stage and any other line stays in the header stage; `Connection`, `Content-length` and `Host` set their field and nothing else changes |
| Request.TerminatorOverrunReachable | http/http_conn.cpp:306-307 | a well-formed state whose body ends at the end of the read buffer makes `parse_content` write its NUL at index 2048 |
| Request.OnContent | http/http_conn.cpp:304-313 | the body stage completes exactly when `contentLength + checked` bytes are in, records where the body starts and writes only the terminator, inside the buffer |
| Request.ReadPass | http/http_conn.cpp:326-370 | one pass of the `process_read` loop keeps the state well formed and the read index, and always moves the cursor forward or ends the body shortcut |
| Request.Dispatch | http/http_conn.cpp:333-369 | the stage switch keeps the cursors, and reports a complete request only after the request line |
| Request.ReadLoop | http/http_conn.cpp:315-372 | the loop ends in a well-formed state with the read index unchanged |
| Request.PassOutcome | http/http_conn.cpp:326-370 | a pass never moves the stage backwards. A malformed result is a refused request line, "need more" means no complete line is left, and a complete request is a header stage with no body or a body stage with the whole body in |
| Request.ReadLoopOutcome | http/http_conn.cpp:315-372 | the same three verdicts hold for the whole `process_read` loop |
| Resolver.Classify | http/http_conn.cpp:494-511 | each answer holds exactly in its own case: NO_RESOURCE for a missing file, FORBIDDEN_REQUEST for one others may not read, BAD_REQUEST for a readable directory, FILE_REQUEST for a readable file that is not a directory |
| Resolver.Ampersand | http/http_conn.cpp:403-404 | the name scan starts at index 5 and stays inside the memory |
| Resolver.FormScanOverrunReachable | http/http_conn.cpp:403-404 | a body without '&' makes the name scan run past the read buffer |
| Resolver.ScratchOverrunReachable | http/http_conn.cpp:393-395 | a POST line with a 201-character login target is accepted and its rewritten target does not fit the 200-byte block |
| Resolver.PlainPostAccepted | http/http_conn.cpp:211-260 | a POST line whose target begins with '/' and has no other '/', blank or NUL is accepted with that target, and the page selector is its second character |
| Resolver.ExtractForm | http/http_conn.cpp:399-410 | a form is read exactly when the scans stay inside the memory, and name and password are then NUL-free and shorter than the 100-byte arrays |
| Resolver.ExtractFormReadsBack | http/http_conn.cpp:399-410 | a body laid out as five bytes, name, '&', nine bytes, password and NUL reads back as that name and password |
| Resolver.FormOfBounds | http/http_conn.cpp:403-410 | the form is the bytes between index 5 and '&', and the bytes from ten after '&' to the NUL |
| Resolver.NameReadBack | http/http_conn.cpp:403-405 | the name scan stops at the first '&' and copies the name |
| Resolver.PasswordReadBack | http/http_conn.cpp:407-410 | the password scan stops at the NUL and copies the password |
| Resolver.LoginFormReadsBack | http/http_conn.cpp:399-410 | `user=<name>&password=<password>` reads back as that name and password |
| Resolver.Authenticate | http/http_conn.cpp:412-444 | login and registration rewrite the target to one of the verdict pages, never remove an account and add at most the form's name |
| Resolver.Page | http/http_conn.cpp:446-484 | a fixed page exists exactly for the selectors 0, 1, 5, 6 and 7, and each is a target ending in `.html` |
| Resolver.Selector | http/http_conn.cpp:384 | the selector is never '/', is NUL exactly when the target ends with '/', and is the character after the last '/' otherwise |
| Resolver.CharAfterRewrite | http/http_conn.cpp:419-441 | after `strcpy` writes a page name no longer than the target over it, the byte read at the old selector position is that of the memory `strcpy` leaves |
| Resolver.PageShape | http/http_conn.cpp:447-484 | every fixed page is a target no longer than `/register.html` |
| Resolver.VerdictShape | http/http_conn.cpp:423-444 | every verdict page is a target none of whose characters selects a fixed page |
| Resolver.FileName | http/http_conn.cpp:446-486 | building the file name keeps the buffer's size and the root before it |
| Resolver.Route | http/http_conn.cpp:446-511 | after the form check, the file name is built and `stat`-checked. The code is `Classify` of that name, and the metadata is kept exactly when the file exists |
| Resolver.Prepare | http/http_conn.cpp:378-445 | the root is copied into the file name buffer, and a prepared request keeps a well-formed target and only adds accounts |
| Resolver.FormCheck | http/http_conn.cpp:388-445 | the login/registration branch keeps the root in the buffer and a well-formed target, and only adds accounts |
| Resolver.FormCheckOutcome | http/http_conn.cpp:388-445 | a body that is not a form refuses the request, and a form is authenticated and routed by the character after the rewritten target's '/' |
| Resolver.Resolve | http/http_conn.cpp:378-512 | `do_request` returns BAD_REQUEST, NO_RESOURCE, FORBIDDEN_REQUEST or FILE_REQUEST. FILE_REQUEST names a readable non-directory whose metadata is kept, NO_RESOURCE a missing file, and accounts are only added |
| Resolver.RouteIgnoresUsers | http/http_conn.cpp:446-511 | routing does not depend on the account table |
| Resolver.RootedPath | http/http_conn.cpp:380-486 | the root copied into a cleared buffer, then a path copied with room `n`, reads as the root followed by the path cut to `n` |
| Resolver.RootedPage | http/http_conn.cpp:447-484 | a fixed page copied after the root reads as the root followed by the page |
| Resolver.RoutesFixedPage | http/http_conn.cpp:446-484 | targets ending in '0', '1', '5', '6' or '7' outside the form branch serve the fixed page under the root, unchanged accounts and target |
| Resolver.FixedPageName | http/http_conn.cpp:447-484 | the file name of a fixed page is the root followed by the page |
| Resolver.ResolveOutsideForms | http/http_conn.cpp:384-486 | outside the form branch, `do_request` is the routing of the untouched target |
| Resolver.RoutesDefault | http/http_conn.cpp:485-486 | any other target is served as the root followed by the target, cut to the room left |
| Resolver.DefaultName | http/http_conn.cpp:485-486 | the default file name is the root followed by the target, cut to the room left |
| Resolver.VerdictSelectsNoPage | http/http_conn.cpp:447-486 | the character re-read after a form rewrite never selects a fixed page |
| Resolver.PaddedCopy | http/http_conn.cpp:396 | a `strncpy` of a shorter string after the root reads as the root followed by the string |
| Resolver.PaddedName | http/http_conn.cpp:485-486 | a short target after the root reads as the root followed by the target |
| Resolver.FormVerdictServed | http/http_conn.cpp:388-486 | a well-formed login or registration serves the verdict page under the root, with the accounts as authentication left them |
| Resolver.ResolveForm | http/http_conn.cpp:388-486 | a form request is authenticated and then routed with the rewritten target |
| Resolver.LoginOutcome | http/http_conn.cpp:439-444 | login serves `/welcome.html` exactly when the name exists with that password, and `/logError.html` otherwise, leaving the accounts alone |
| Resolver.RegisterOutcome | http/http_conn.cpp:412-436 | registering a new name adds it and serves `/log.html` exactly when the database accepted it, and a known name serves `/registerError.html` |
| Resolver.MalformedFormRefused | http/http_conn.cpp:399-410 | a login or registration without a readable form is BAD_REQUEST, with the accounts and target unchanged and no `stat` |
| Response.Emit | http/http_conn.cpp:585-607 | `add_response` appends exactly when the buffer is not full and the text fits below `WRITE_BUFFER_SIZE - 1`, and otherwise leaves the text as it was |
| Response.StatusLine | http/http_conn.cpp:610-612 | the status line is at least 12 bytes beyond the title, starts with `HTTP/1.1` and a blank, and ends with the title and CR LF |
| Response.StatusLineReadsBack | http/http_conn.cpp:610-612 | the status code after `HTTP/1.1 ` in a status line reads back as the code |
| Response.ContentLengthLine | http/http_conn.cpp:618-621 | the Content-Length line ends with CR LF |
| Response.ContentLengthLineReadsBack | http/http_conn.cpp:618-621 | the Content-Length line, read by the server's own header rule, announces exactly the length written |
| Response.LingerLine | http/http_conn.cpp:627-629 | the Connection line ends with CR LF |
| Response.LingerLineReadsBack | http/http_conn.cpp:627-629 | the Connection line, read by the server's own header rule, carries exactly the keep-alive choice written |
| Response.ContentTypeLine | http/http_conn.cpp:623-625 | the Content-Type line ends with CR LF and is a header the request parser does not recognise |
| Response.AsInt32 | http/http_conn.cpp:678 | the size passed as `int` lies in the 32-bit signed range, is the size itself below 2^31 and the size minus 2^32 (negative) from 2^31 up to 2^32 |
| Response.Headers | http/http_conn.cpp:614-616 | the headers extend the text, and on success are the length, connection and blank lines in that order |
| Response.ErrorPage | http/http_conn.cpp:644-671 | an error reply keeps the text already in the buffer as its prefix; when the body fitted it ends with the form and is sent as one segment of the whole text, and when nothing is sent the form did not fit in the room left |
| Response.Respond | http/http_conn.cpp:640-707 | `process_write`: two segments exactly for a non-empty file, one otherwise. The count to send is the text plus the file, and any other code prepares nothing |
| Response.FilePage | http/http_conn.cpp:673-697 | a file reply is planned exactly when the file is not empty, as the head followed by the whole file |
| Response.HeadLength | http/http_conn.cpp:610-629 | a status line and headers take at most 76 bytes beyond the title |
| Response.HeadWritten | http/http_conn.cpp:610-629 | into an empty buffer, the status line and headers always fit and are written in full |
| Response.ErrorPageWritten | http/http_conn.cpp:644-662 | an error page is its head followed by its form, sent as one segment, and its `Content-Length` reads back as the form's length |
| Response.InternalErrorReply | http/http_conn.cpp:644-653 | INTERNAL_ERROR is answered with status 500 and its fixed form |
| Response.BadRequestReply | http/http_conn.cpp:655-662 | BAD_REQUEST is answered with status 404 "Not Found" and the not-found form |
| Response.ForbiddenReply | http/http_conn.cpp:664-671 | FORBIDDEN_REQUEST is answered with status 403 and its fixed form |
| Response.FileReply | http/http_conn.cpp:673-689 | a non-empty file is answered with a 200 head and two segments totalling the head plus the file |
| Response.EmptyFileNotSent | http/http_conn.cpp:690-699 | an empty file writes the empty HTML page but falls through to `return false`, so nothing is sent |
| Scheduler.Start | http/http_conn.cpp:680-705 | the initial vectors describe the whole head followed by the whole file, with nothing sent |
| Scheduler.OfferedIsRest | http/http_conn.cpp:687 | the vectors offer exactly the bytes still to send |
| Scheduler.Advance | http/http_conn.cpp:553-566 | corrected: after `n` more bytes the counters move by `n`; while the head is unfinished the first vector covers its unsent rest and the second is untouched; once it is done the first is empty and the second starts `have - head` bytes into the file and covers what is left |
| Scheduler.AdvanceAsWritten | http/http_conn.cpp:553-566 | as written: the counters move by `n`, and the cumulative count is compared with, and subtracted from, the first vector's current length rather than the head's |
| Scheduler.Flush | http/http_conn.cpp:531-583 | the `writev` loop keeps the vector count and the sum of sent and unsent bytes, never decreases what was sent, and reports everything sent only when nothing is left |
| Scheduler.AdvanceKeepsExact | http/http_conn.cpp:553-566 | corrected bookkeeping after any `writev` result keeps the vectors exactly on the unsent rest and counts the bytes sent |
| Scheduler.AsWrittenAgreesOutsideHead | http/http_conn.cpp:553-566 | the source's bookkeeping agrees with the correction, except after a second partial write of the head |
| Scheduler.AsWrittenLosesPlace | http/http_conn.cpp:556-566 | as written, a 100-byte head and a 50-byte file sent 60 then 10 bytes drop 30 head bytes and point the file vector 30 bytes before the file |
| Scheduler.CorrectedKeepsPlace | http/http_conn.cpp:556-566 | corrected, the same writes leave 30 head bytes and the whole file offered |
| Scheduler.AsWrittenStalls | http/http_conn.cpp:563-566 | as written, a one-segment reply sent 60 then 10 bytes offers nothing while 30 bytes remain |
| Scheduler.GatherIsRest | http/http_conn.cpp:539 | what the vectors offer is the unsent suffix of head followed by file |
| Scheduler.FlushSendsStream | http/http_conn.cpp:531-583 | a run of `writev` results sends a contiguous stretch of head followed by file, "sent" means all of it, and a stop before the end leaves bytes to send |
| HttpConn.Credentials.constructor | http/http_conn.cpp:18 | the account table starts with the given accounts |
| HttpConn.Zero | http/http_conn.cpp:140-142 | `memset` clears every byte |
| HttpConn.AfterRead | http/http_conn.cpp:315-372 | `process_read` reports one of five codes, keeps the file name buffer's size and only adds accounts |
| HttpConn.Conn.constructor | http/http_conn.cpp:100-116 | a new connection is valid and reset, with its root and no mapping |
| HttpConn.Conn.Init | http/http_conn.cpp:120-143 | `init` resets every cursor and request field and clears the three buffers |
| HttpConn.Conn.ClearCursors | http/http_conn.cpp:122-134 | the buffer cursors and byte counters become zero |
| HttpConn.Conn.ClearRequest | http/http_conn.cpp:124-130 | the stage, method, cgi flag, target, keep-alive flag, length and host get their defaults |
| HttpConn.Conn.Receive | http/http_conn.cpp:184-204 | a full buffer refuses to read. Otherwise the data lands after the read index, and the result is true exactly when the drain loop ended on a `recv` that would block, a buffer just filled to its last byte included |
| HttpConn.Conn.FindLineEnd | http/http_conn.cpp:151-177 | the scan over the buffer agrees with `LineSplitter.Scan` |
| HttpConn.Conn.ParseLine | http/http_conn.cpp:147-180 | `parse_line` on the fields does what `Request.Split` does on the state |
| HttpConn.Conn.TakeRequestLine | http/http_conn.cpp:252-259 | storing a parsed request line does what `Request.TakeRequestLine` does |
| HttpConn.Conn.ParseRequestLine | http/http_conn.cpp:211-260 | `parse_request_line` does what `Request.OnRequestLine` does and answers BAD_REQUEST exactly when it refuses |
| HttpConn.Conn.ParseHeaders | http/http_conn.cpp:263-301 | `parse_headers` does what `Request.OnHeader` does and answers GET_REQUEST exactly when the request is complete |
| HttpConn.Conn.ParseContent | http/http_conn.cpp:304-313 | `parse_content` does what `Request.OnContent` does, and never writes outside the read buffer |
| HttpConn.Conn.ReadStep | http/http_conn.cpp:326-370 | one turn of the loop does what `Request.ReadPass` does |
| HttpConn.Conn.Dispatch | http/http_conn.cpp:333-369 | the stage switch does what `Request.Dispatch` does |
| HttpConn.Conn.ReadRequest | http/http_conn.cpp:315-372 | the loop ends in the state `Request.ReadLoop` gives and reports its verdict; the write buffer, its head and the vectors are untouched |
| HttpConn.Conn.CheckForm | http/http_conn.cpp:412-444 | login/registration updates the shared table and the target as `Resolver.Authenticate` says, and nothing else of the parsing state |
| HttpConn.Conn.Serve | http/http_conn.cpp:446-511 | building the file name, the `stat` checks and the mapping do what `Resolver.Route` says, and map a file exactly on FILE_REQUEST |
| HttpConn.Conn.StatFile | http/http_conn.cpp:494-511 | the `stat` checks answer `Resolver.Classify` of the name, keep the metadata exactly when the file exists, map a file exactly on FILE_REQUEST and leave the parsing state alone |
| HttpConn.Conn.PrepareRequest | http/http_conn.cpp:378-445 | the start of `do_request` does what `Resolver.Prepare` says, changing only target, file name and table |
| HttpConn.Conn.FormRequest | http/http_conn.cpp:388-445 | the form branch does what `Resolver.FormCheck` says |
| HttpConn.Conn.DoRequest | http/http_conn.cpp:378-512 | `do_request` on the fields does what `Resolver.Resolve` says, to the code, target, table, file name, metadata and mapping |
| HttpConn.Conn.Complete | http/http_conn.cpp:350-362 | on a complete request, `do_request` runs on the parsed target and body and leaves the parsing state alone apart from the rewritten target; the write buffer, its head and the vectors are untouched |
| HttpConn.Conn.ProcessRead | http/http_conn.cpp:315-372 | `process_read` leaves exactly what `AfterRead` gives (code, parsing state, user table, file name, stat) and maps a file exactly on FILE_REQUEST; the write buffer, its head and the vectors are untouched |
| HttpConn.Conn.Process | http/http_conn.cpp:710-726 | after `process` the code, parsing state, user table, file name and stat are `AfterRead`'s (the stat only when a file was looked up) and a file is mapped exactly when one was before or the code is FILE_REQUEST. An incomplete request re-arms for reading and leaves text and vectors as they were. Any other code appends `Respond`'s text, re-arms for writing, closes when nothing could be prepared and then leaves the vectors as they were, and otherwise sets them to `Scheduler.Start`'s plan over the whole text with the sent count kept |
| HttpConn.Conn.Answer | http/http_conn.cpp:713-725 | the step after `process_read` is `Answered` for the code: on NO_REQUEST nothing is written and the vectors are kept; otherwise the text is `Respond`'s, the connection closes exactly when no plan was made, and a plan sets the vectors as `Scheduler.Start` does. Parsing state, file name, stat and mapping are untouched |
| HttpConn.Conn.Unmap | http/http_conn.cpp:513-518 | the mapping is released once, only when there is one |
| HttpConn.Conn.AddResponse | http/http_conn.cpp:585-607 | the write buffer's text changes as `Response.Emit` says, and the buffer is the `vsnprintf` image of the call |
| HttpConn.Conn.AddStatusLine | http/http_conn.cpp:610-612 | appends `HTTP/1.1 <status> <title>\r\n` as `Emit` says |
| HttpConn.Conn.AddContentLength | http/http_conn.cpp:618-621 | appends `Content-Length:<n>\r\n` as `Emit` says |
| HttpConn.Conn.AddContentType | http/http_conn.cpp:623-625 | appends `Content-Type:text/html\r\n` as `Emit` says |
| HttpConn.Conn.AddLinger | http/http_conn.cpp:627-629 | appends `Connection:keep-alive` or `Connection:close` according to the request as `Emit` says |
| HttpConn.Conn.AddBlankLine | http/http_conn.cpp:631-633 | appends CRLF as `Emit` says |
| HttpConn.Conn.AddContent | http/http_conn.cpp:635-637 | appends the body text as `Emit` says |
| HttpConn.Conn.AddHeaders | http/http_conn.cpp:614-616 | the three header lines, stopping at the first failure, as `Response.Headers` says |
| HttpConn.Conn.AddErrorPage | http/http_conn.cpp:644-671 | an error reply as `Response.ErrorPage` says |
| HttpConn.Conn.AddFilePage | http/http_conn.cpp:673-697 | a file reply as `Response.FilePage` says |
| HttpConn.Conn.AddReply | http/http_conn.cpp:640-700 | the text of the reply to a code as `Response.Respond` says |
| HttpConn.Conn.ProcessWrite | http/http_conn.cpp:640-707 | `process_write` writes `Respond`'s text. On success the vectors are `Scheduler.Start` of its plan, and on failure the vectors and counts are untouched |
| HttpConn.Conn.SetVectors | http/http_conn.cpp:680-705 | the vectors describe the write buffer, then the file when there is one |
| HttpConn.Conn.Write | http/http_conn.cpp:522-583 | `write` with nothing to send re-arms for reading and resets, keeping the vectors, the mapping and the release count. Otherwise it follows `Scheduler.Flush`: it keeps the connection while blocked or after a keep-alive reply, re-arms for writing when blocked and for reading when done, and releases the mapping once it stops. When blocked, broken or closing after the reply, the transfer state is `Flush`'s, and the text, its head, the parsing state (keep-alive flag included) and the file name are those of before |
| HttpConn.Conn.Drain | http/http_conn.cpp:531-566 | the `writev` loop ends in the state and status `Scheduler.Flush` gives |
| HttpConn.Conn.Sent | http/http_conn.cpp:553-566 | the bookkeeping after one `writev` is the corrected `Scheduler.Advance` |
| HttpConn.Conn.Done | http/http_conn.cpp:568-581 | a finished reply releases the mapping, and resets the connection exactly when keep-alive was asked for; without keep-alive the text, its head, the vectors, the parsing state and the file name stay as they were |

## Where the code does less than one might expect

In each of these places the server behaves in a way a reader of HTTP might
not expect, and the model keeps the behaviour of the code:

- A stray CR or LF (`LINE_BAD`) ends the `process_read` loop with
  NO_REQUEST. It is not a bad request.
- A `Content-length` larger than the buffer can hold is not refused by the
  parser. `parse_content` keeps answering NO_REQUEST while data arrives;
  once the read buffer is full, `read_once` refuses to read
  (http/http_conn.cpp:185-187) and the caller closes the connection. The
  request is never answered.
- The status line and headers of a reply may fail to fit without failing
  the reply. Only a failed body, an empty file or an unknown code makes
  `process_write` return false.
- NO_RESOURCE (a missing file) has no case in `process_write`. It falls to
  `default` and the connection is closed without a reply.
- A zero-length file falls through from the FILE_REQUEST case into
  `default` and is never sent (`Response.EmptyFileNotSent`).
- The form body is read as five bytes, then a name up to '&', then a
  password starting ten bytes after the '&'. The field names are not
  checked.
- `process` re-arms the socket for writing even after it asked for the
  connection to be closed.

## Left out

- The poller (`epoll_ctl`/`modfd`) is not called. Methods return the
  re-arming they would request (`Rearm`).
- `close_conn`, the user count and the socket descriptor are not modelled.
  `process` and `write` return whether the connection stays open.
- The database is left out. `initmysql_result`, the `mysql_query` of a
  registration, the `sql_*` names and the lock around the table are not
  modelled. The query's outcome is the parameter `sqlOk`, and the table is a
  shared `Credentials` object updated atomically.
- Logging (`spdlog`) is not modelled.
- `stat`, `open` and `mmap` are not called. The file system is a map from
  path to metadata (mode and size). The mapping is a flag and a release
  count, because the file's bytes are never read by this code.
- `recv` is not called. `Receive` takes the bytes the drain loop would
  read, together with how the loop ended. Signals and partial-read timing
  are not modelled.
- `writev` is not called. `Write` takes the sequence of answers the socket
  gives: a byte count, would-block or an error. A count larger than what was
  offered is clamped.
- `vsnprintf` with a variable argument list is not modelled. Each `add_*`
  passes the already-formatted text.
- `http_conn.h` is not part of this model. `READ_BUFFER_SIZE` = 2048,
  `WRITE_BUFFER_SIZE` = 1024 and `FILENAME_LEN` = 200 are the values that
  header defines for this server.
- HttpConn.Conn.ParseRequestLine: the target `m_url` is its own string
  rather than an alias into the read buffer. The NULs that
  `parse_request_line` writes between the tokens are not written into the
  buffer, and `strcat(m_url, "judge.html")` does not overwrite the bytes
  that follow.
- HttpConn.Conn.DoRequest: a login or registration that reaches
  `do_request` with no body (`m_string` never set) is modelled as
  BAD_REQUEST. The source dereferences an unset address there.
- HttpConn.Conn.Sent: `bytes_to_send`/`bytes_have_send` are unbounded
  integers, without the `int` wrap-around for files above 2 GiB.
- HttpConn.Conn.Write uses the corrected bookkeeping (`Scheduler.Advance`)
  rather than the code as written. The code as written is
  `Scheduler.AdvanceAsWritten`.
- Resolver.Resolve assumes the document root fits in the file name buffer
  with room for the longest fixed page (`RootFits`). A longer root
  overflows `m_real_file` in the source.
- HttpConn.Conn.Init, like `init`, leaves `m_string`, `m_file_stat`, the
  mapping and the vectors as they were. It does not model the resets of
  `mysql`, `m_state`, `timer_flag` and `improv` (lines 121 and 136-138),
  which belong to the thread-pool and database plumbing, nor of
  `m_version` (line 128), a token that is only compared and never kept.
- CStrings.Atol returns an unbounded integer. The C `atol` returns a
  `long`, whose value is out of range for a number too large for it, and
  the result is stored in `m_content_length`, whose declared width (in
  http/http_conn.h, which is not part of this model) is not modelled either.
- Request.OnContent compares `m_read_idx` with `m_content_length +
  m_checked_idx` (http/http_conn.cpp:306) as unbounded integers. In C the
  sum can overflow for a huge announced length. A negative length passes
  the test at once: its terminator lands before the body, and when it
  reaches before the read buffer the source writes outside it, which the
  model does not do (it writes only inside the buffer).
- Resolver.FormCheck and HttpConn.Conn.FormRequest build the rewritten
  target `"/" + url[2..]` at any length and cut it only where line 396
  does. The source first copies it into a 200-byte block (lines 393-395),
  which overflows for a target longer than 200 characters; see Findings.
- `setnonblocking`, `addfd`, `removefd` and the socket address are not
  modelled. They are socket plumbing around the connection.

## Findings

| source | as written | input that shows it | evidently intended | confidence | as-written member | corrected member |
|---|---|---|---|---|---|---|
| http/http_conn.cpp:556-566 | after a partial write of the head, `m_iv[0].iov_len` is reduced by the cumulative `bytes_have_send`, and the test compares that cumulative count with the remaining length | a 100-byte head and a 50-byte file; `writev` sends 60 bytes, then 10 | the first vector covers the unsent rest of the head, and the file vector starts at file offset `bytes_have_send - m_write_idx` only once the head is sent | not executed | Scheduler.AdvanceAsWritten (Scheduler.AsWrittenLosesPlace, Scheduler.AsWrittenStalls) | Scheduler.Advance (Scheduler.AdvanceKeepsExact, Scheduler.FlushSendsStream, HttpConn.Conn.Sent) |
| http/http_conn.cpp:242-250 | after `http://`, `strchr(m_url, '/')` may return NULL, which is then passed to `strncasecmp` | request line `GET http://host HTTP/1.1` | a scheme with no path is refused as a bad request | not executed | Request.NullReachesHttpsCheck (Request.SchemeWithoutPath) | Request.StripScheme (Request.NullTargetRefused, Request.SchemeWithoutPath) |
| http/http_conn.cpp:403-410 | the name scan runs until '&' with no bound, and both fields are copied into 100-byte arrays unchecked | a POST to `/2` whose body is `user=abc` and no '&' | a body without '&', or with fields too long for the arrays, is refused | not executed | Resolver.FormScanOverruns (Resolver.FormScanOverrunReachable) | Resolver.ExtractForm (Resolver.ExtractFormReadsBack, Resolver.MalformedFormRefused) |
| http/http_conn.cpp:393-395 | '/' and the target from its third character are copied with `strcpy`/`strcat` into a 200-byte block, whatever the target's length | a request line `POST /2aaa…a HTTP/1.1` with 199 `a`s | the rewritten target reaches the file name only up to the room left after the root, as line 396 cuts it, with no smaller intermediate block | not executed | Resolver.ScratchOverruns (Resolver.ScratchOverrunReachable) | Resolver.FormCheck (Resolver.FormCheckOutcome) |
| http/http_conn.cpp:306-307 | `text[m_content_length] = '\0'` is written even when the body ends exactly at the end of the read buffer | a body of 10 bytes whose last byte is the buffer's last (`m_read_idx` = 2048) | the terminator is written only inside the buffer | not executed | Request.TerminatorOverruns (Request.TerminatorOverrunReachable) | Request.OnContent (HttpConn.Conn.ParseContent) |
