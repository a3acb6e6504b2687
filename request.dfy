/** The main request state machine (`parse_request_line`, `parse_headers`,
    `parse_content` and the loop of `process_read`) stated over a snapshot of
    the connection's parsing state. The class in HttpConn runs the same steps
    on its fields and is proved against these functions. */
module Request {
  import opened Wrappers
  import opened Buffers
  import opened CStrings
  import opened LineSplitter

  datatype Method = GET | POST
  datatype CheckState = RequestLineState | HeaderState | ContentState

  /** The fields of a connection that request parsing reads and writes:
      the read buffer and its cursors, the stage of the state machine and
      the request fields gathered so far. `body` is the offset of the form
      body (`m_string`) in the read buffer, `None` before one was seen. */
  datatype Parser = Parser(
    buf: seq<char>, readIdx: nat, checked: nat, start: nat,
    state: CheckState, httpMethod: Method, cgi: bool, url: seq<char>,
    linger: bool, contentLength: int, host: seq<char>, body: Option<nat>)

  /** A request target as the parser leaves it: begins with '/'. */
  predicate IsTarget(url: seq<char>) {
    |url| > 0 && url[0] == '/' && NoNul(url)
  }

  predicate WellFormed(p: Parser) {
    && |p.buf| == READ_BUFFER_SIZE
    && p.start <= p.checked <= p.readIdx <= |p.buf|
    && (p.state != RequestLineState ==> IsTarget(p.url))
  }

  /** The line handed to the parsers: the C string at `from` (`get_line`). */
  function Line(buf: seq<char>, from: nat): seq<char>
    requires from <= |buf|
  {
    CString(buf[from..])
  }

  /** One call of the line splitter on the snapshot. */
  function Split(p: Parser): (r: (LineStatus, Parser))
    requires WellFormed(p)
    ensures WellFormed(r.1)
    ensures r.1 == p.(buf := r.1.buf, checked := r.1.checked)
    ensures (r.0, r.1.checked) == Scan(p.buf, p.checked, p.readIdx)
    ensures r.0 == LineOk ==> r.1.checked > p.checked
    ensures r.0 == LineOk ==>
      var k := r.1.checked;
      && p.buf[k - 2] == CR && p.buf[k - 1] == LF
      && r.1.buf[k - 2] == NUL && r.1.buf[k - 1] == NUL
      && forall i :: 0 <= i < |p.buf| && i != k - 2 && i != k - 1 ==> r.1.buf[i] == p.buf[i]
    ensures r.0 != LineOk ==> r.1.buf == p.buf
  {
    var (status, k) := Scan(p.buf, p.checked, p.readIdx);
    (status, p.(buf := Terminate(p.buf, status, k), checked := k))
  }

  // ---------------------------------------------------------------- request line

  datatype RequestLine =
    | Accepted(httpMethod: Method, url: seq<char>)
    /** `recognised` is the method when it was accepted before a later check failed. */
    | Rejected(recognised: Option<Method>)

  function MethodOf(token: seq<char>): (r: Option<Method>)
    ensures r == Some(GET) <==> EqualsIgnoreCase(token, "GET")
    ensures r == Some(POST) <==> EqualsIgnoreCase(token, "POST")
    ensures r == None <==> !EqualsIgnoreCase(token, "GET") && !EqualsIgnoreCase(token, "POST")
  {
    if EqualsIgnoreCase(token, "GET") then Some(GET)
    else if EqualsIgnoreCase(token, "POST") then Some(POST)
    else None
  }

  /** `strchr(s, '/')`, `None` for NULL. */
  function FromSlash(s: seq<char>): (r: Option<seq<char>>)
    ensures r.Some? ==> |r.value| > 0 && r.value[0] == '/' && (NoNul(s) ==> NoNul(r.value))
  {
    var k := IndexOf(s, '/');
    if k == |s| then None else Some(s[k..])
  }

  /** The `http://` and `https://` prefixes dropped down to the first '/'
      after them; `None` when no '/' follows (see Findings: the source
      passes that NULL on to the next comparison). */
  function StripScheme(target: seq<char>): (r: Option<seq<char>>)
    ensures r.Some? && NoNul(target) ==> NoNul(r.value)
  {
    var afterHttp := if StartsWithIgnoreCase(target, "http://") then FromSlash(target[7..]) else Some(target);
    match afterHttp
    case None => None
    case Some(u) => if StartsWithIgnoreCase(u, "https://") then FromSlash(u[8..]) else Some(u)
  }

  /** The source as written at lines 242-247: after `http://` with no '/'
      behind it, `m_url` is NULL when it reaches `strncasecmp` at 247. */
  predicate NullReachesHttpsCheck(target: seq<char>) {
    StartsWithIgnoreCase(target, "http://") && FromSlash(target[7..]).None?
  }

  /** `parse_request_line` on its text. */
  function ParseRequestLine(text: seq<char>): (r: RequestLine)
    requires NoNul(text)
    ensures r.Accepted? ==> IsTarget(r.url)
  {
    var m := FirstBlank(text);
    if m == |text| then Rejected(None)
    else match MethodOf(text[..m])
      case None => Rejected(None)
      case Some(meth) => ParseTargetAndVersion(meth, SkipBlanks(text[m + 1..]))
  }

  /** The part of `parse_request_line` after the method was accepted. */
  function ParseTargetAndVersion(meth: Method, rest: seq<char>): (r: RequestLine)
    requires NoNul(rest)
    ensures r.Accepted? ==> IsTarget(r.url) && r.httpMethod == meth
    ensures r.Rejected? ==> r.recognised == Some(meth)
  {
    var v := FirstBlank(rest);
    if v == |rest| then Rejected(Some(meth))
    else if !EqualsIgnoreCase(SkipBlanks(rest[v + 1..]), "HTTP/1.1") then Rejected(Some(meth))
    else TargetOf(meth, rest[..v])
  }

  /** Lines 242-256: the target after the scheme is dropped, or a refusal. */
  function TargetOf(meth: Method, target: seq<char>): (r: RequestLine)
    requires NoNul(target)
    ensures r.Accepted? ==> IsTarget(r.url) && r.httpMethod == meth
    ensures r.Rejected? ==> r.recognised == Some(meth)
  {
    match StripScheme(target)
    case None => Rejected(Some(meth))
    case Some(u) =>
      if |u| == 0 || u[0] != '/' then Rejected(Some(meth))
      else Accepted(meth, if |u| == 1 then "/judge.html" else u)
  }

  predicate NoBlank(s: seq<char>) { forall i :: 0 <= i < |s| ==> !IsBlank(s[i]) }
  predicate AllBlank(s: seq<char>) { forall i :: 0 <= i < |s| ==> IsBlank(s[i]) }

  lemma FirstBlankAfter(a: seq<char>, b: seq<char>)
    requires NoBlank(a)
    requires b != [] && IsBlank(b[0])
    ensures FirstBlank(a + b) == |a|
  {
    if a != [] {
      assert (a + b)[1..] == a[1..] + b;
      FirstBlankAfter(a[1..], b);
    }
  }

  lemma FirstBlankNone(a: seq<char>)
    requires NoBlank(a)
    ensures FirstBlank(a) == |a|
  { }

  lemma {:induction false} SkipGap(gap: seq<char>, b: seq<char>)
    requires AllBlank(gap)
    requires b == [] || !IsBlank(b[0])
    ensures SkipBlanks(gap + b) == b
  {
    if gap != [] {
      assert (gap + b)[1..] == gap[1..] + b;
      SkipGap(gap[1..], b);
    } else {
      assert gap + b == b;
    }
  }

  /** After the method token and its blanks, the rest is split at the next run
      of blanks into target and version. */
  lemma {:induction false} TargetAndVersionTokens(meth: Method, target: seq<char>, gap2: seq<char>, version: seq<char>)
    requires target != [] && NoBlank(target) && NoBlank(version)
    requires gap2 != [] && AllBlank(gap2)
    requires NoNul(target) && NoNul(version)
    ensures NoNul(target + gap2 + version)
    ensures ParseTargetAndVersion(meth, target + gap2 + version)
         == if EqualsIgnoreCase(version, "HTTP/1.1") then TargetOf(meth, target) else Rejected(Some(meth))
  {
    var rest := target + (gap2 + version);
    assert target + gap2 + version == rest;
    AllBlankNoNul(gap2);
    NoNulAppend(gap2, version);
    NoNulAppend(target, gap2 + version);
    FirstBlankAfter(target, gap2 + version);
    assert FirstBlank(rest) == |target|;
    assert rest[..|target|] == target;
    assert rest[|target| + 1..] == gap2[1..] + version;
    if version != [] {
      assert !IsBlank(version[0]);
    }
    SkipGap(gap2[1..], version);
    assert SkipBlanks(rest[|target| + 1..]) == version;
    assert ParseTargetAndVersion(meth, rest)
        == if !EqualsIgnoreCase(version, "HTTP/1.1") then Rejected(Some(meth)) else TargetOf(meth, target);
  }

  lemma AllBlankNoNul(s: seq<char>)
    requires AllBlank(s)
    ensures NoNul(s)
  {
    forall i | 0 <= i < |s| ensures s[i] != NUL { assert IsBlank(s[i]); }
  }

  /** A line made of a method token, a target and a version, separated by
      runs of blanks, is accepted exactly when the method is GET or POST, the
      version is HTTP/1.1 and the target, after dropping a scheme and host,
      begins with '/'; a lone '/' becomes the landing page. */
  lemma {:induction false} RequestLineTokens(
    token: seq<char>, gap1: seq<char>, target: seq<char>, gap2: seq<char>, version: seq<char>)
    requires token != [] && target != []
    requires NoBlank(token) && NoBlank(target) && NoBlank(version)
    requires gap1 != [] && gap2 != [] && AllBlank(gap1) && AllBlank(gap2)
    requires NoNul(token) && NoNul(target) && NoNul(version)
    ensures NoNul(token + gap1 + target + gap2 + version)
    ensures var r := ParseRequestLine(token + gap1 + target + gap2 + version);
      && (MethodOf(token).None? ==> r == Rejected(None))
      && (MethodOf(token).Some? && !EqualsIgnoreCase(version, "HTTP/1.1") ==>
            r == Rejected(MethodOf(token)))
      && (MethodOf(token).Some? && EqualsIgnoreCase(version, "HTTP/1.1") ==>
            match StripScheme(target)
            case Some(u) =>
              if u != [] && u[0] == '/' then
                r == Accepted(MethodOf(token).value, if |u| == 1 then "/judge.html" else u)
              else r == Rejected(MethodOf(token))
            case None => r == Rejected(MethodOf(token)))
  {
    var rest := target + gap2 + version;
    TargetAndVersionTokens(GET, target, gap2, version);
    assert token + gap1 + target + gap2 + version == token + gap1 + rest;
    MethodToken(token, gap1, rest);
    if MethodOf(token).Some? {
      TargetAndVersionTokens(MethodOf(token).value, target, gap2, version);
    }
  }

  /** The method token and the blanks after it: the rest of the line goes
      to the target and version stage once the method is recognised. */
  lemma {:induction false} MethodToken(token: seq<char>, gap1: seq<char>, rest: seq<char>)
    requires token != [] && NoBlank(token) && NoNul(token)
    requires gap1 != [] && AllBlank(gap1)
    requires rest != [] && !IsBlank(rest[0]) && NoNul(rest)
    ensures NoNul(token + gap1 + rest)
    ensures ParseRequestLine(token + gap1 + rest)
         == match MethodOf(token)
            case None => Rejected(None)
            case Some(meth) => ParseTargetAndVersion(meth, rest)
  {
    var text := token + gap1 + rest;
    assert text == token + (gap1 + rest);
    FirstBlankAfter(token, gap1 + rest);
    assert text[..|token|] == token;
    assert text[|token| + 1..] == gap1[1..] + rest;
    SkipGap(gap1[1..], rest);
    AllBlankNoNul(gap1);
    NoNulAppend(gap1, rest);
    NoNulAppend(token, gap1 + rest);
  }

  /** Every target on which the source carries a NULL `m_url` into the
      `https://` comparison is refused by the corrected parser. */
  lemma NullTargetRefused(meth: Method, target: seq<char>)
    requires NoNul(target) && NullReachesHttpsCheck(target)
    ensures StripScheme(target).None?
    ensures TargetOf(meth, target) == Rejected(Some(meth))
  { }

  /** `http://host` with no path: the source's `strchr` finds no '/', so
      `strncasecmp` at line 247 dereferences NULL; the corrected
      parser refuses the line. */
  lemma SchemeWithoutPath()
    ensures NullReachesHttpsCheck("http://host")
    ensures TargetOf(GET, "http://host") == Rejected(Some(GET))
  {
    var t := "http://host";
    assert t[..7] == "http://";
    assert IndexOf(t[7..], '/') == 4 by {
      assert t[7..] == "host";
    }
    NullTargetRefused(GET, t);
  }

  /** With a path after the host, scheme and host are dropped. */
  lemma SchemeWithPath()
    ensures TargetOf(GET, "http://host/a.html") == Accepted(GET, "/a.html")
  {
    var t := "http://host/a.html";
    assert t[..7] == "http://";
    var u := t[7..];
    assert u == "host/a.html";
    assert IndexOf(u, '/') == 4 by {
      assert u[0] == 'h' && u[1] == 'o' && u[2] == 's' && u[3] == 't' && u[4] == '/';
    }
    assert u[4..] == "/a.html";
    assert !StartsWithIgnoreCase("/a.html", "https://") by {
      assert Lower("/a.html"[0]) != Lower("https://"[0]);
    }
  }

  /** A request of the older protocol version is refused. */
  lemma Http10Refused()
    ensures ParseRequestLine("GET / HTTP/1.0") == Rejected(Some(GET))
  {
    assert "GET / HTTP/1.0" == "GET" + " " + "/" + " " + "HTTP/1.0";
    RequestLineTokens("GET", " ", "/", " ", "HTTP/1.0");
    assert Lower("HTTP/1.0"[7]) != Lower("HTTP/1.1"[7]);
  }

  // ---------------------------------------------------------------- headers

  datatype Header =
    | EndOfHeaders
    | Connection(keepAlive: bool)
    | ContentLength(value: int)
    | Host(name: seq<char>)
    | Unrecognised

  /** Which header line `parse_headers` sees. The three names differ
      early enough that each header is recognised by its own name alone,
      whatever the order of the tests. */
  function ClassifyHeader(text: seq<char>): (r: Header)
    ensures r == EndOfHeaders <==> text == []
    ensures r.Connection? <==> StartsWithIgnoreCase(text, "Connection:")
    ensures r.ContentLength? <==> StartsWithIgnoreCase(text, "Content-length:")
    ensures r.Host? <==> StartsWithIgnoreCase(text, "Host:")
    ensures r.Connection? ==> (r.keepAlive <==> EqualsIgnoreCase(SkipBlanks(text[11..]), "keep-alive"))
    ensures r.ContentLength? ==> r.value == Atol(SkipBlanks(text[15..]))
    ensures r.Host? ==> r.name == SkipBlanks(text[5..])
  {
    HeaderNamesDiffer(text);
    if text == [] then EndOfHeaders
    else if StartsWithIgnoreCase(text, "Connection:") then
      Connection(EqualsIgnoreCase(SkipBlanks(text[11..]), "keep-alive"))
    else if StartsWithIgnoreCase(text, "Content-length:") then
      ContentLength(Atol(SkipBlanks(text[15..])))
    else if StartsWithIgnoreCase(text, "Host:") then
      Host(SkipBlanks(text[5..]))
    else Unrecognised
  }

  /** No line starts with two of the recognised header names. */
  lemma HeaderNamesDiffer(text: seq<char>)
    ensures StartsWithIgnoreCase(text, "Connection:") ==>
              !StartsWithIgnoreCase(text, "Content-length:") && !StartsWithIgnoreCase(text, "Host:")
    ensures StartsWithIgnoreCase(text, "Content-length:") ==> !StartsWithIgnoreCase(text, "Host:")
  {
    if StartsWithIgnoreCase(text, "Connection:") {
      assert Lower(text[..11][3]) == Lower("Connection:"[3]);
      assert Lower(text[..11][0]) == Lower("Connection:"[0]);
    }
    if StartsWithIgnoreCase(text, "Content-length:") {
      assert Lower(text[..15][0]) == Lower("Content-length:"[0]);
    }
  }

  /** The Content-Length line the response builder writes is read back by
      the header parser as the same length. */
  lemma ContentLengthReadsBack(n: int)
    ensures ClassifyHeader("Content-Length:" + FormatInt(n)) == ContentLength(n)
  {
    var f := FormatInt(n);
    assert f[0] == '-' || IsDigit(f[0]);
    assert SkipBlanks(f) == f;
    ContentLengthValue(f);
    AtolFormatInt(n);
  }

  /** Whatever follows `Content-Length:` is the value the parser reads. */
  lemma ContentLengthValue(f: seq<char>)
    ensures ClassifyHeader("Content-Length:" + f) == ContentLength(Atol(SkipBlanks(f)))
  {
    var text := "Content-Length:" + f;
    assert text[..15] == "Content-Length:";
    assert !StartsWithIgnoreCase(text, "Connection:") by {
      assert Lower(text[3]) != Lower("Connection:"[3]);
    }
    assert StartsWithIgnoreCase(text, "Content-length:");
    assert text[15..] == f;
  }

  /** `Connection:` followed by blanks and `keep-alive` in any case sets the
      keep-alive flag; any other value leaves it as it was. */
  lemma ConnectionHeader(gap: seq<char>, value: seq<char>)
    requires AllBlank(gap)
    requires value == [] || !IsBlank(value[0])
    ensures ClassifyHeader("Connection:" + gap + value) == Connection(EqualsIgnoreCase(value, "keep-alive"))
  {
    var text := "Connection:" + gap + value;
    assert text[..11] == "Connection:";
    assert text[11..] == gap + value;
    SkipGap(gap, value);
  }

  // ---------------------------------------------------------------- transitions

  /** `parse_request_line` on the snapshot: the result says whether parsing goes on. */
  function OnRequestLine(p: Parser, text: seq<char>): (r: (Parser, bool))
    requires NoNul(text) && p.state == RequestLineState
    ensures r.0 == p.(httpMethod := r.0.httpMethod, cgi := r.0.cgi, url := r.0.url, state := r.0.state)
    ensures r.0.state != RequestLineState ==> r.1 && IsTarget(r.0.url)
    ensures r.1 ==> r.0.state == HeaderState
    ensures r.1 <==> ParseRequestLine(text).Accepted?
    ensures var line := ParseRequestLine(text);
      line.Accepted? ==>
        && r.0.url == line.url && r.0.httpMethod == line.httpMethod
        && r.0.cgi == (p.cgi || line.httpMethod == POST)
    ensures !r.1 ==> r.0.url == p.url && r.0.state == RequestLineState
  {
    TakeRequestLine(p, ParseRequestLine(text))
  }

  /** What the outcome of the request line does to the snapshot. */
  function TakeRequestLine(p: Parser, line: RequestLine): (r: (Parser, bool))
    requires line.Accepted? ==> IsTarget(line.url)
    ensures r.1 <==> line.Accepted?
    ensures r.0 == p.(httpMethod := r.0.httpMethod, cgi := r.0.cgi, url := r.0.url, state := r.0.state)
    ensures line.Accepted? ==>
      && r.0.url == line.url && r.0.httpMethod == line.httpMethod
      && r.0.cgi == (p.cgi || line.httpMethod == POST) && r.0.state == HeaderState
    ensures line.Rejected? && line.recognised.Some? ==>
      && r.0.httpMethod == line.recognised.value
      && r.0.cgi == (p.cgi || line.recognised.value == POST)
      && r.0.url == p.url && r.0.state == p.state
    ensures line == Rejected(None) ==> r.0 == p
  {
    match line
    case Accepted(m, u) =>
      (p.(httpMethod := m, cgi := p.cgi || m == POST, url := u, state := HeaderState), true)
    case Rejected(Some(m)) => (p.(httpMethod := m, cgi := p.cgi || m == POST), false)
    case Rejected(None) => (p, false)
  }

  /** `parse_headers` on the snapshot: the result says whether the request is complete. */
  function OnHeader(p: Parser, text: seq<char>): (r: (Parser, bool))
    requires p.state == HeaderState
    ensures r.0 == p.(linger := r.0.linger, contentLength := r.0.contentLength, host := r.0.host, state := r.0.state)
    ensures r.0.state != RequestLineState
    ensures r.1 ==> r.0.state == HeaderState && r.0.contentLength == 0
    ensures r.1 <==> text == [] && p.contentLength == 0
    ensures text == [] && p.contentLength != 0 ==> r.0.state == ContentState
    ensures text != [] ==> r.0.state == HeaderState
    ensures match ClassifyHeader(text)
      case Connection(keepAlive) => r.0.linger == (p.linger || keepAlive)
      case ContentLength(n) => r.0.contentLength == n
      case Host(h) => r.0.host == h
      case _ => r.0.linger == p.linger && r.0.contentLength == p.contentLength && r.0.host == p.host
  {
    match ClassifyHeader(text)
    case EndOfHeaders =>
      if p.contentLength != 0 then (p.(state := ContentState), false) else (p, true)
    case Connection(k) => (if k then p.(linger := true) else p, false)
    case ContentLength(n) => (p.(contentLength := n), false)
    case Host(h) => (p.(host := h), false)
    case Unrecognised => (p, false)
  }

  /** Where `parse_content` puts the body's terminator. */
  function TerminatorIndex(p: Parser, textStart: nat): int {
    textStart + p.contentLength
  }

  /** The source as written at line 307: the guard at 306 lets a body that
      ends exactly at the end of the read buffer through, and the
      terminator then lands one past the buffer's last byte. */
  predicate TerminatorOverruns(p: Parser, textStart: nat) {
    p.readIdx >= p.contentLength + p.checked && TerminatorIndex(p, textStart) >= |p.buf|
  }

  lemma TerminatorOverrunReachable()
    ensures var p := Parser(seq(READ_BUFFER_SIZE, _ => 'a'), READ_BUFFER_SIZE, READ_BUFFER_SIZE - 10,
                             READ_BUFFER_SIZE - 10, ContentState, POST, true, "/3", false, 10, [], None);
            WellFormed(p) && TerminatorOverruns(p, p.start) && TerminatorIndex(p, p.start) == READ_BUFFER_SIZE
  { }

  /** `parse_content` on the snapshot. The terminator is written only when it
      falls inside the read buffer; nothing else of the buffer changes. */
  function OnContent(p: Parser, textStart: nat): (r: (Parser, bool))
    ensures |r.0.buf| == |p.buf|
    ensures forall i :: 0 <= i < |p.buf| && i != TerminatorIndex(p, textStart) ==> r.0.buf[i] == p.buf[i]
    ensures r.1 <==> p.readIdx >= p.contentLength + p.checked
    ensures r.1 ==> r.0.body == Some(textStart)
    ensures r.1 && 0 <= TerminatorIndex(p, textStart) < |p.buf| ==> r.0.buf[TerminatorIndex(p, textStart)] == NUL
    ensures r.0 == p.(buf := r.0.buf, body := r.0.body)
  {
    if p.readIdx >= p.contentLength + p.checked then
      var at := TerminatorIndex(p, textStart);
      (p.(buf := if 0 <= at < |p.buf| then p.buf[at := NUL] else p.buf, body := Some(textStart)), true)
    else (p, false)
  }

  // ---------------------------------------------------------------- the loop

  datatype ReadOutcome = NeedMore | Malformed(line: seq<char>) | Complete

  /** One pass of the loop of `process_read`: either the loop stops with an
      outcome, or it goes round again with the line status it has set. */
  datatype Pass = Stop(last: Parser, outcome: ReadOutcome) | Again(next: Parser, lastOk: bool)

  /** One pass of the loop body, the loop condition included: unless the
      content stage is retried without splitting, the splitter runs and
      anything but a complete line ends the loop. */
  function ReadPass(p: Parser, lastOk: bool): (r: Pass)
    requires WellFormed(p)
    ensures r.Stop? ==> WellFormed(r.last) && r.last.readIdx == p.readIdx
    ensures r.Again? ==> WellFormed(r.next) && r.next.readIdx == p.readIdx
    ensures r.Again? ==> r.next.checked > p.checked || (r.next.checked == p.checked && lastOk && !r.lastOk)
    ensures r.Stop? && r.outcome == Complete ==> r.last.state != RequestLineState
  {
    var (status, p1) := if p.state == ContentState && lastOk then (LineOk, p) else Split(p);
    if status != LineOk then Stop(p1, NeedMore) else Dispatch(p1)
  }

  /** The rest of the pass once a line is there: the line that starts at
      `start` is handed to the current stage, and `start` moves up to
      `checked`. */
  function Dispatch(p1: Parser): (r: Pass)
    requires WellFormed(p1)
    ensures r.Stop? ==> WellFormed(r.last) && r.last.readIdx == p1.readIdx && r.last.checked == p1.checked
    ensures r.Again? ==> WellFormed(r.next) && r.next.readIdx == p1.readIdx && r.next.checked == p1.checked
    ensures r.Again? ==> r.lastOk == (p1.state != ContentState)
    ensures r.Stop? && r.outcome == Complete ==> r.last.state != RequestLineState
  {
    var textStart := p1.start;
    var p2 := p1.(start := p1.checked);
    match p2.state
    case RequestLineState =>
      var text := Line(p1.buf, textStart);
      var (p3, ok) := OnRequestLine(p2, text);
      if ok then Again(p3, true) else Stop(p3, Malformed(text))
    case HeaderState =>
      var (p3, done) := OnHeader(p2, Line(p1.buf, textStart));
      if done then Stop(p3, Complete) else Again(p3, true)
    case ContentState =>
      var (p3, done) := OnContent(p2, textStart);
      if done then Stop(p3, Complete) else Again(p3, false)
  }

  /** The loop of `process_read` up to the point where it hands over to
      `do_request`: passes are made until one stops. */
  function ReadLoop(p: Parser, lastOk: bool): (r: (Parser, ReadOutcome))
    requires WellFormed(p)
    decreases p.readIdx - p.checked, if lastOk then 1 else 0
    ensures WellFormed(r.0) && r.0.readIdx == p.readIdx
    ensures r.1 == Complete ==> r.0.state != RequestLineState
  {
    match ReadPass(p, lastOk)
    case Stop(q, out) => (q, out)
    case Again(q, b) => ReadLoop(q, b)
  }

  function Rank(s: CheckState): nat {
    match s
    case RequestLineState => 0
    case HeaderState => 1
    case ContentState => 2
  }

  /** What one pass establishes; see ReadLoopOutcome. */
  lemma PassOutcome(p: Parser, lastOk: bool)
    requires WellFormed(p)
    ensures match ReadPass(p, lastOk)
      case Again(q, _) => Rank(q.state) >= Rank(p.state) && q.start == q.checked
      case Stop(q, out) =>
        && Rank(q.state) >= Rank(p.state)
        && (out.Malformed? ==>
              && p.state == RequestLineState && q.state == RequestLineState
              && NoNul(out.line) && ParseRequestLine(out.line).Rejected?)
        && (out == NeedMore ==> Scan(q.buf, q.checked, q.readIdx).0 != LineOk)
        && (out == Complete ==>
              && q.start == q.checked
              && (|| (q.state == HeaderState && q.contentLength == 0)
                  || (q.state == ContentState && q.readIdx >= q.contentLength + q.checked && q.body.Some?)))
  {
    var (status, p1) := if p.state == ContentState && lastOk then (LineOk, p) else Split(p);
    if status != LineOk {
      ScanStable(p.buf, p.checked, p.readIdx);
      assert ReadPass(p, lastOk) == Stop(p1, NeedMore);
    } else {
      assert ReadPass(p, lastOk) == Dispatch(p1);
      var p2 := p1.(start := p1.checked);
      assert p2.state == p.state;
      match p2.state
      case RequestLineState =>
        var text := Line(p1.buf, p1.start);
        var (p3, ok) := OnRequestLine(p2, text);
        assert Dispatch(p1) == if ok then Again(p3, true) else Stop(p3, Malformed(text));
      case HeaderState =>
        var (p3, done) := OnHeader(p2, Line(p1.buf, p1.start));
        assert Dispatch(p1) == if done then Stop(p3, Complete) else Again(p3, true);
      case ContentState =>
        var (p3, done) := OnContent(p2, p1.start);
        assert Dispatch(p1) == if done then Stop(p3, Complete) else Again(p3, false);
    }
  }

  /** What `process_read` has established when its loop stops:
      the stage never moves backwards; a refusal comes only from the request
      line stage, on a line that `parse_request_line` refuses; "need more
      data" means the splitter has no further complete line to give; and a
      complete request has its headers ended with no body expected, or its
      body fully in the buffer, with the line start caught up with the
      checked index. */
  lemma {:induction false} ReadLoopOutcome(p: Parser, lastOk: bool)
    requires WellFormed(p)
    decreases p.readIdx - p.checked, if lastOk then 1 else 0
    ensures var (q, out) := ReadLoop(p, lastOk);
      && Rank(q.state) >= Rank(p.state)
      && (out.Malformed? ==>
            && p.state == RequestLineState && q.state == RequestLineState
            && NoNul(out.line) && ParseRequestLine(out.line).Rejected?)
      && (out == NeedMore ==> Scan(q.buf, q.checked, q.readIdx).0 != LineOk)
      && (out == Complete ==>
            && q.start == q.checked
            && (|| (q.state == HeaderState && q.contentLength == 0)
                || (q.state == ContentState && q.readIdx >= q.contentLength + q.checked && q.body.Some?)))
  {
    PassOutcome(p, lastOk);
    match ReadPass(p, lastOk)
    case Stop(q, out) =>
    case Again(q, b) => ReadLoopOutcome(q, b);
  }
}
