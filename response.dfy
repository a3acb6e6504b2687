/** The response writer: `add_response` and the `add_*` helpers that
    format one piece each into the write buffer, and `process_write`, which
    picks the status, headers and body for a result code and plans the
    gather write (`writev`) that sends them. Stated over the text written so
    far (the write buffer up to `m_write_idx`). */
module Response {
  import opened Wrappers
  import opened Buffers
  import opened CStrings
  import Request

  const OK_200_TITLE: seq<char> := "OK"
  const ERROR_403_TITLE: seq<char> := "Forbidden"
  const ERROR_403_FORM: seq<char> := "You do not have permission to get file form this server.\n"
  const ERROR_404_TITLE: seq<char> := "Not Found"
  const ERROR_404_FORM: seq<char> := "The requested file was not found on this server.\n"
  const ERROR_500_TITLE: seq<char> := "Internal Error"
  const ERROR_500_FORM: seq<char> := "There was an unusual problem serving the request file.\n"
  /** The body sent for an empty file. */
  const EMPTY_PAGE: seq<char> := "<html><body></body></html>"
  const BLANK_LINE: seq<char> := "\r\n"

  /** `add_response`: a piece is appended when the text so far leaves the
      buffer room for it and a terminator; otherwise the text is left as
      it was and the call reports failure. */
  function Emit(text: seq<char>, piece: seq<char>): (r: (seq<char>, bool))
    ensures r.1 <==> |text| < WRITE_BUFFER_SIZE && |text| + |piece| < WRITE_BUFFER_SIZE - 1
    ensures r.0 == if r.1 then text + piece else text
    ensures |text| <= |r.0| && r.0[..|text|] == text
  {
    if |text| < WRITE_BUFFER_SIZE && |piece| < WRITE_BUFFER_SIZE - 1 - |text| then (text + piece, true)
    else (text, false)
  }

  /** `add_status_line`: the version, the status code, the title, and
      CR LF (StatusLineReadsBack: `atol` reads the code back). */
  function StatusLine(status: nat, title: seq<char>): (r: seq<char>)
    ensures |r| >= 12 + |title| && r[..9] == "HTTP/1.1 " && r[|r| - 2..] == "\r\n"
    ensures r[|r| - 2 - |title|..|r| - 2] == title
  {
    "HTTP/1.1" + " " + Decimal(status) + " " + title + "\r\n"
  }

  /** The status code after the version in a status line is read back by
      `atol`. */
  lemma StatusLineReadsBack(status: nat, title: seq<char>)
    ensures Atol(StatusLine(status, title)[9..]) == status
  {
    var d := Decimal(status);
    var rest := title + "\r\n";
    DecimalThenSpace(status, rest);
    assert StatusLine(status, title)[9..] == d + " " + rest by {
      assert StatusLine(status, title) == "HTTP/1.1 " + (d + " " + rest);
    }
  }

  /** `add_content_length`: the field name, the value as `%d` writes it,
      and CR LF (ContentLengthLineReadsBack: the header parser reads the
      same length back). */
  function ContentLengthLine(n: int): (r: seq<char>)
    ensures |r| >= 2 && r[|r| - 2..] == "\r\n"
  {
    "Content-Length:" + FormatInt(n) + "\r\n"
  }

  /** The Content-Length line, without its CR LF, is read back by the
      header parser as the same length. */
  lemma ContentLengthLineReadsBack(n: int)
    ensures var r := ContentLengthLine(n);
            Request.ClassifyHeader(r[..|r| - 2]) == Request.ContentLength(n)
  {
    var r := ContentLengthLine(n);
    assert r[..|r| - 2] == "Content-Length:" + FormatInt(n);
    Request.ContentLengthReadsBack(n);
  }

  /** `add_linger`: the field name, `keep-alive` or `close`, and CR LF
      (LingerLineReadsBack: the header parser reads the same choice back). */
  function LingerLine(linger: bool): (r: seq<char>)
    ensures |r| >= 2 && r[|r| - 2..] == "\r\n"
  {
    "Connection:" + (if linger then "keep-alive" else "close") + "\r\n"
  }

  /** The Connection line, without its CR LF, is read back by the header
      parser as the same keep-alive choice. */
  lemma LingerLineReadsBack(linger: bool)
    ensures var r := LingerLine(linger);
            Request.ClassifyHeader(r[..|r| - 2]) == Request.Connection(linger)
  {
    var value := if linger then "keep-alive" else "close";
    Request.ConnectionHeader([], value);
    assert "Connection:" + [] + value == "Connection:" + value;
    var r := LingerLine(linger);
    assert r[..|r| - 2] == "Connection:" + value;
  }

  /** `add_content_type`: a line the header parser does not recognise. */
  function ContentTypeLine(): (r: seq<char>)
    ensures |r| >= 2 && r[|r| - 2..] == "\r\n"
    ensures Request.ClassifyHeader(r[..|r| - 2]) == Request.Unrecognised
  {
    var line := "Content-Type:" + "text/html";
    assert (line + "\r\n")[..|line|] == line;
    assert !StartsWithIgnoreCase(line, "Connection:") by {
      assert Lower(line[3]) != Lower("Connection:"[3]);
    }
    assert !StartsWithIgnoreCase(line, "Content-length:") by {
      assert Lower(line[8]) != Lower("Content-length:"[8]);
    }
    assert !StartsWithIgnoreCase(line, "Host:") by {
      assert Lower(line[0]) != Lower("Host:"[0]);
    }
    "Content-Type:" + "text/html" + "\r\n"
  }

  /** `add_headers`: the length, the connection and the blank line, each
      only if the one before it was written. */
  function Headers(text: seq<char>, n: int, linger: bool): (r: (seq<char>, bool))
    ensures |text| <= |r.0| && r.0[..|text|] == text
    ensures |r.0| < WRITE_BUFFER_SIZE - 1 || r.0 == text
    ensures |text| <= WRITE_BUFFER_SIZE ==> |r.0| <= WRITE_BUFFER_SIZE
    ensures r.1 ==> r.0 == text + ContentLengthLine(n) + LingerLine(linger) + BLANK_LINE
  {
    var (t1, a) := Emit(text, ContentLengthLine(n));
    if !a then (t1, false)
    else
      var (t2, b) := Emit(t1, LingerLine(linger));
      if !b then (t2, false) else Emit(t2, BLANK_LINE)
  }

  /** `(int) st_size`: the length passed to `add_headers` is truncated to a
      32-bit signed integer: a size below 2^31 passes unchanged, one from
      2^31 up to 2^32 becomes negative. */
  function AsInt32(n: nat): (r: int)
    ensures -0x8000_0000 <= r < 0x8000_0000
    ensures n < 0x8000_0000 ==> r == n
    ensures 0x8000_0000 <= n < 0x1_0000_0000 ==> r == n - 0x1_0000_0000 < 0
  {
    var w := n % 0x1_0000_0000;
    if w < 0x8000_0000 then w else w - 0x1_0000_0000
  }

  /** How the response is to be sent: one segment (the write buffer) or two
      (the write buffer, then `fileLen` bytes of the mapped file). */
  datatype Plan = Plan(count: nat, fileLen: nat, toSend: nat)

  /** The text in the write buffer afterwards and, when `process_write`
      returns true, the plan. */
  datatype Reply = Reply(text: seq<char>, plan: Option<Plan>)

  /** An error page: status line and headers whose failures are ignored,
      then the body, whose failure fails the response. */
  function ErrorPage(status: nat, title: seq<char>, form: seq<char>, linger: bool, text: seq<char>): (r: Reply)
    requires |text| <= WRITE_BUFFER_SIZE
    ensures |r.text| <= WRITE_BUFFER_SIZE
    ensures |text| <= |r.text| && r.text[..|text|] == text
    ensures r.plan.Some? ==> r.plan.value == Plan(1, 0, |r.text|) && |r.text| < WRITE_BUFFER_SIZE - 1
    ensures r.plan.Some? ==> |r.text| >= |form| && r.text[|r.text| - |form|..] == form
    ensures r.plan.None? ==> |r.text| + |form| >= WRITE_BUFFER_SIZE - 1
  {
    var t1 := Emit(text, StatusLine(status, title)).0;
    var t2 := Headers(t1, |form|, linger).0;
    var (t3, ok) := Emit(t2, form);
    if ok then Reply(t3, Some(Plan(1, 0, |t3|))) else Reply(t3, None)
  }

  /** `process_write` for result `code`, with `size` the size `stat`
      reported for the file. A bad request is answered 404. An empty
      file gets the empty page written into the buffer, but the branch
      falls through to the default case, so the call still reports
      failure. A missing file, and every code not listed, reports failure
      with nothing written. */
  function Respond(code: HttpCode, linger: bool, size: nat, text: seq<char>): (r: Reply)
    requires |text| <= WRITE_BUFFER_SIZE
    ensures |r.text| <= WRITE_BUFFER_SIZE
    ensures r.plan.Some? ==> r.plan.value.count in {1, 2}
    ensures r.plan.Some? ==> r.plan.value.toSend == |r.text| + r.plan.value.fileLen
    ensures r.plan.Some? && r.plan.value.count == 1 ==> r.plan.value.fileLen == 0
    ensures r.plan.Some? ==> (r.plan.value.count == 2 <==> code == FILE_REQUEST)
    ensures r.plan.Some? && r.plan.value.count == 2 ==> r.plan.value.fileLen == size > 0
    ensures code !in {INTERNAL_ERROR, BAD_REQUEST, FORBIDDEN_REQUEST, FILE_REQUEST} ==> r == Reply(text, None)
  {
    match code
    case INTERNAL_ERROR => ErrorPage(500, ERROR_500_TITLE, ERROR_500_FORM, linger, text)
    case BAD_REQUEST => ErrorPage(404, ERROR_404_TITLE, ERROR_404_FORM, linger, text)
    case FORBIDDEN_REQUEST => ErrorPage(403, ERROR_403_TITLE, ERROR_403_FORM, linger, text)
    case FILE_REQUEST => FilePage(linger, size, text)
    case _ => Reply(text, None)
  }

  /** The page for a file of `size` bytes: the status line and headers,
      whose failures are ignored, then either the file as a second segment
      or, for an empty file, the empty page and a failure report. */
  function FilePage(linger: bool, size: nat, text: seq<char>): (r: Reply)
    requires |text| <= WRITE_BUFFER_SIZE
    ensures |r.text| <= WRITE_BUFFER_SIZE
    ensures r.plan.Some? <==> size != 0
    ensures r.plan.Some? ==> r.plan.value == Plan(2, size, |r.text| + size)
  {
    var t1 := Emit(text, StatusLine(200, OK_200_TITLE)).0;
    if size != 0 then
      var t2 := Headers(t1, AsInt32(size), linger).0;
      Reply(t2, Some(Plan(2, size, |t2| + size)))
    else
      var t2 := Headers(t1, |EMPTY_PAGE|, linger).0;
      Reply(Emit(t2, EMPTY_PAGE).0, None)
  }

  // ---------------------------------------------------------------- properties

  lemma Pow10Values()
    ensures Pow10(2) == 100 && Pow10(3) == 1000 && Pow10(10) == 10_000_000_000
  {
    assert Pow10(1) == 10;
    assert Pow10(2) == 100;
    assert Pow10(3) == 1000;
    assert Pow10(4) == 10_000;
    assert Pow10(5) == 100_000;
    assert Pow10(6) == 1_000_000;
    assert Pow10(7) == 10_000_000;
    assert Pow10(8) == 100_000_000;
    assert Pow10(9) == 1_000_000_000;
  }

  /** The headers of a response: status line, length, connection, blank line. */
  function Head(status: nat, title: seq<char>, n: int, linger: bool): seq<char> {
    StatusLine(status, title) + ContentLengthLine(n) + LingerLine(linger) + BLANK_LINE
  }

  lemma {:induction false} HeadLength(status: nat, title: seq<char>, n: int, linger: bool)
    requires status < 1000 && -0x8000_0000 <= n < 0x8000_0000
    ensures |Head(status, title, n, linger)| <= 76 + |title|
  {
    Pow10Values();
    DecimalLength(status, 3);
    if n < 0 { DecimalLength(-n, 10); } else { DecimalLength(n, 10); }
    assert |FormatInt(n)| <= 11;
    assert |LingerLine(linger)| <= 23;
  }

  /** Written into an empty buffer, a head that fits is written whole. */
  lemma {:induction false} HeadWritten(status: nat, title: seq<char>, n: int, linger: bool)
    requires status < 1000 && -0x8000_0000 <= n < 0x8000_0000 && |title| < 100
    ensures var t1 := Emit([], StatusLine(status, title)).0;
            var (t2, ok) := Headers(t1, n, linger);
            ok && t2 == Head(status, title, n, linger)
  {
    HeadLength(status, title, n, linger);
    var t1 := Emit([], StatusLine(status, title)).0;
    assert t1 == StatusLine(status, title);
    var h := Headers(t1, n, linger);
    assert h.1;
  }

  /** An error page in an empty buffer is written whole and sent as one
      segment, and the length its header announces, read back by the
      request parser's header rule, is the length of its body. */
  lemma {:induction false} ErrorPageWritten(status: nat, title: seq<char>, form: seq<char>, linger: bool)
    requires status < 1000 && |title| < 100 && |form| < 100
    ensures var text := Head(status, title, |form|, linger) + form;
            && ErrorPage(status, title, form, linger, []) == Reply(text, Some(Plan(1, 0, |text|)))
            && Request.ClassifyHeader("Content-Length:" + FormatInt(|form|)) == Request.ContentLength(|form|)
  {
    HeadWritten(status, title, |form|, linger);
    HeadLength(status, title, |form|, linger);
    Request.ContentLengthReadsBack(|form|);
  }

  /** An internal error, on a fresh connection: the 500 page, sent as one
      segment. */
  lemma InternalErrorReply(linger: bool, size: nat)
    ensures var text := Head(500, ERROR_500_TITLE, |ERROR_500_FORM|, linger) + ERROR_500_FORM;
            Respond(INTERNAL_ERROR, linger, size, []) == Reply(text, Some(Plan(1, 0, |text|)))
  {
    assert Respond(INTERNAL_ERROR, linger, size, []) == ErrorPage(500, ERROR_500_TITLE, ERROR_500_FORM, linger, []);
    ErrorPageWritten(500, ERROR_500_TITLE, ERROR_500_FORM, linger);
  }

  /** A bad request, on a fresh connection: the 404 page, sent as one
      segment. */
  lemma BadRequestReply(linger: bool, size: nat)
    ensures var text := Head(404, ERROR_404_TITLE, |ERROR_404_FORM|, linger) + ERROR_404_FORM;
            Respond(BAD_REQUEST, linger, size, []) == Reply(text, Some(Plan(1, 0, |text|)))
  {
    assert Respond(BAD_REQUEST, linger, size, []) == ErrorPage(404, ERROR_404_TITLE, ERROR_404_FORM, linger, []);
    ErrorPageWritten(404, ERROR_404_TITLE, ERROR_404_FORM, linger);
  }

  /** A forbidden file, on a fresh connection: the 403 page, sent as one
      segment. */
  lemma ForbiddenReply(linger: bool, size: nat)
    ensures var text := Head(403, ERROR_403_TITLE, |ERROR_403_FORM|, linger) + ERROR_403_FORM;
            Respond(FORBIDDEN_REQUEST, linger, size, []) == Reply(text, Some(Plan(1, 0, |text|)))
  {
    assert Respond(FORBIDDEN_REQUEST, linger, size, []) == ErrorPage(403, ERROR_403_TITLE, ERROR_403_FORM, linger, []);
    ErrorPageWritten(403, ERROR_403_TITLE, ERROR_403_FORM, linger);
  }

  /** A non-empty file gets its head written whole and is planned as two
      segments: the head, then the whole file. The announced length is the
      size truncated to 32 bits, which is the size itself below 2 GiB. */
  lemma FileReply(linger: bool, size: nat)
    requires size > 0
    ensures var head := Head(200, OK_200_TITLE, AsInt32(size), linger);
            Respond(FILE_REQUEST, linger, size, []) == Reply(head, Some(Plan(2, size, |head| + size)))
    ensures size < 0x8000_0000 ==> AsInt32(size) == size
  {
    HeadWritten(200, OK_200_TITLE, AsInt32(size), linger);
  }

  /** An empty file: the empty page is written into the buffer after the
      head, but `process_write` still reports failure. */
  lemma EmptyFileNotSent(linger: bool)
    ensures Respond(FILE_REQUEST, linger, 0, [])
         == Reply(Head(200, OK_200_TITLE, |EMPTY_PAGE|, linger) + EMPTY_PAGE, None)
  {
    HeadWritten(200, OK_200_TITLE, |EMPTY_PAGE|, linger);
    HeadLength(200, OK_200_TITLE, |EMPTY_PAGE|, linger);
  }
}
