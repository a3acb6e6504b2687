/** One HTTP connection (`http_conn`): its read buffer and parsing cursors,
    the request fields, the file name buffer, the write buffer and the
    gather-write state. Each method does what the function of the same part
    in Request, Resolver, Response or Scheduler says, on the fields in place. */
module HttpConn {
  import opened Wrappers
  import opened Buffers
  import opened CStrings
  import opened LineSplitter
  import Request
  import Resolver
  import Response
  import Scheduler

  /** The process-wide account table (`users`), shared by every connection. */
  class Credentials {
    var users: Resolver.Users

    constructor(initial: Resolver.Users)
      ensures users == initial
    {
      users := initial;
    }
  }

  /** What an operation asks of the poller: nothing, or to re-arm the
      socket (`modfd`) for reading (`EPOLLIN`) or for writing (`EPOLLOUT`). */
  datatype Rearm = Untouched | EpollIn | EpollOut

  /** How `read_once`'s drain loop ended: `recv` would block, the peer
      closed (a zero-byte read), or another error. */
  datatype RecvEnd = Drained | PeerClosed | RecvFailed

  /** Writes the memory image `s` into `a` (the effect of one of the string
      copies on a fixed-size buffer). */
  method Fill(a: array<char>, s: seq<char>)
    requires |s| == a.Length
    modifies a
    ensures a[..] == s
  {
    forall i | 0 <= i < a.Length { a[i] := s[i]; }
  }

  /** `memset(a, '\0', n)` over the whole array. */
  method Zero(a: array<char>)
    modifies a
    ensures forall i :: 0 <= i < a.Length ==> a[i] == NUL
  {
    forall i | 0 <= i < a.Length { a[i] := NUL; }
  }

  /** The code the loop of `process_read` reports for how it stopped,
      before `do_request` is consulted on a complete request. */
  function Verdict(out: Request.ReadOutcome): HttpCode {
    match out
    case NeedMore => NO_REQUEST
    case Malformed(_) => BAD_REQUEST
    case Complete => GET_REQUEST
  }

  /** What `process_read` leaves behind: the code it reports, the parsing
      state, the credential table, the file name buffer and the metadata
      `stat` reported, if it was asked. */
  datatype ReadReport = ReadReport(
    code: HttpCode, parser: Request.Parser, users: Resolver.Users, realFile: seq<char>,
    stat: Option<Resolver.FileMeta>)

  /** `process_read` from the parsing state `s`, the file name buffer
      `realFile` and the table `users`: the loop, then, for a complete
      request, `do_request`, which may rewrite the target. */
  ghost function AfterRead(docRoot: seq<char>, s: Request.Parser, realFile: seq<char>, users: Resolver.Users,
                           sqlOk: bool, fs: Resolver.FileSystem): (a: ReadReport)
    requires Request.WellFormed(s) && Resolver.RootFits(docRoot) && |realFile| == FILENAME_LEN
    ensures a.code == NO_REQUEST || a.code == BAD_REQUEST || a.code == NO_RESOURCE
         || a.code == FORBIDDEN_REQUEST || a.code == FILE_REQUEST
    ensures |a.realFile| == FILENAME_LEN && Resolver.Extends(users, a.users)
  {
    var (q, out) := Request.ReadLoop(s, true);
    if out == Request.Complete then
      var r := Resolver.Resolve(docRoot, q.url, q.cgi, BodyOf(q), realFile, users, sqlOk, fs);
      ReadReport(r.code, q.(url := r.url), r.users, r.realFile, r.stat)
    else ReadReport(Verdict(out), q, users, realFile, None)
  }

  /** What `process` does once `process_read` reported `code`, with the
      response text going from `before` to `after` and the transfer state
      from `t0` to `t`: an incomplete request re-arms the socket for
      reading and leaves the vectors alone; anything else is answered, the
      connection is closed when the answer could not be prepared, and the
      socket is re-armed for writing. A prepared answer leaves the
      gather-write plan of Scheduler.Start over the whole text, with what
      was sent before kept; one that could not be prepared leaves the
      vectors as they were. */
  ghost predicate Answered(code: HttpCode, linger: bool, size: nat, before: seq<char>, after: seq<char>,
                          t0: Scheduler.Transfer, t: Scheduler.Transfer, rearm: Rearm, close: bool)
    requires |before| <= WRITE_BUFFER_SIZE
  {
    if code == NO_REQUEST then rearm == EpollIn && !close && after == before && t == t0
    else
      var r := Response.Respond(code, linger, size, before);
      && rearm == EpollOut && after == r.text && close == r.plan.None?
      && t == (if r.plan.Some? then Scheduler.Start(|after|, r.plan.value.fileLen, r.plan.value.count, t0.iv1).(have := t0.have)
               else t0)
  }

  /** The memory `m_string` points at in the parsing state `p`: the read
      buffer from the start of the body to its end. */
  ghost function BodyOf(p: Request.Parser): Option<seq<char>> {
    if p.body.Some? && p.body.value <= |p.buf| then Some(p.buf[p.body.value..]) else None
  }

  class Conn {
    const docRoot: seq<char>
    const readBuf: array<char>
    const writeBuf: array<char>
    const realFile: array<char>

    var readIdx: nat
    var checkedIdx: nat
    var startLine: nat
    var checkState: Request.CheckState
    var httpMethod: Request.Method
    var cgi: bool
    var url: seq<char>
    var linger: bool
    var contentLength: int
    var host: seq<char>
    /** `m_string`: where the body starts in the read buffer. `init` leaves it. */
    var body: Option<nat>
    /** `m_file_stat`, which `init` leaves as it was. */
    var fileStat: Resolver.FileMeta
    /** Whether `m_file_address` holds a mapping. */
    var mapped: bool
    var writeIdx: nat
    var iv0: Scheduler.Iovec
    var iv1: Scheduler.Iovec
    var ivCount: nat
    var bytesToSend: int
    var bytesHaveSend: int
    /** How many times a mapping has been released (`munmap`). */
    ghost var releases: nat

    ghost predicate Valid()
      reads this
    {
      && readBuf.Length == READ_BUFFER_SIZE
      && writeBuf.Length == WRITE_BUFFER_SIZE
      && realFile.Length == FILENAME_LEN
      && readBuf != writeBuf && readBuf != realFile && writeBuf != realFile
      && startLine <= checkedIdx <= readIdx <= READ_BUFFER_SIZE
      && (checkState != Request.RequestLineState ==> Request.IsTarget(url))
      && (body.Some? ==> body.value <= READ_BUFFER_SIZE)
      && writeIdx <= WRITE_BUFFER_SIZE
      && Resolver.RootFits(docRoot)
    }

    /** The parsing state as the functions of Request see it. */
    ghost function Snapshot(): Request.Parser
      reads this`readIdx, this`checkedIdx, this`startLine, this`checkState, this`httpMethod, this`cgi,
            this`url, this`linger, this`contentLength, this`host, this`body, readBuf
    {
      Request.Parser(readBuf[..], readIdx, checkedIdx, startLine, checkState, httpMethod, cgi,
                     url, linger, contentLength, host, body)
    }

    /** The fields hold the parsing state `s`. */
    ghost predicate Holds(s: Request.Parser)
      reads this, readBuf
    {
      Snapshot() == s
    }

    /** The text written so far. */
    ghost function Content(): seq<char>
      reads this`writeIdx, writeBuf
      requires writeIdx <= writeBuf.Length
    {
      writeBuf[..writeIdx]
    }

    ghost function Transfer(): Scheduler.Transfer
      reads this`iv0, this`iv1, this`ivCount, this`bytesHaveSend, this`bytesToSend
    {
      Scheduler.Transfer(iv0, iv1, ivCount, bytesHaveSend, bytesToSend)
    }

    /** The state `init` leaves: every cursor zero, the request line
        expected, no request fields, all three buffers cleared. */
    ghost predicate Reset()
      reads this, readBuf, writeBuf, realFile
    {
      && readIdx == 0 && checkedIdx == 0 && startLine == 0
      && checkState == Request.RequestLineState && httpMethod == Request.GET && !cgi
      && url == [] && !linger && contentLength == 0 && host == []
      && writeIdx == 0 && bytesToSend == 0 && bytesHaveSend == 0
      && (forall i :: 0 <= i < readBuf.Length ==> readBuf[i] == NUL)
      && (forall i :: 0 <= i < writeBuf.Length ==> writeBuf[i] == NUL)
      && (forall i :: 0 <= i < realFile.Length ==> realFile[i] == NUL)
    }

    /** `init(sockfd, addr, root, ...)`: a connection serving `root`. */
    constructor(root: seq<char>)
      requires Resolver.RootFits(root)
      ensures Valid() && Reset() && docRoot == root
      ensures !mapped
      ensures fresh(readBuf) && fresh(writeBuf) && fresh(realFile)
    {
      docRoot := root;
      readBuf := new char[READ_BUFFER_SIZE](_ => NUL);
      writeBuf := new char[WRITE_BUFFER_SIZE](_ => NUL);
      realFile := new char[FILENAME_LEN](_ => NUL);
      readIdx, checkedIdx, startLine := 0, 0, 0;
      checkState, httpMethod, cgi := Request.RequestLineState, Request.GET, false;
      url, linger, contentLength, host := [], false, 0, [];
      body, fileStat, mapped := None, Resolver.FileMeta(0, 0), false;
      writeIdx, iv0, iv1, ivCount := 0, Scheduler.Iovec(0, 0), Scheduler.Iovec(0, 0), 0;
      bytesToSend, bytesHaveSend := 0, 0;
      releases := 0;
    }

    /** `init()`: ready for the next request on the same connection. The
        body offset, the file metadata, the mapping and the vectors are
        left as they were. */
    method Init()
      requires Valid()
      modifies this`readIdx, this`checkedIdx, this`startLine, this`checkState, this`httpMethod,
               this`cgi, this`url, this`linger, this`contentLength, this`host, this`writeIdx,
               this`bytesToSend, this`bytesHaveSend, readBuf, writeBuf, realFile
      ensures Valid() && Reset()
    {
      Zero(readBuf);
      Zero(writeBuf);
      Zero(realFile);
      ClearCursors();
      ClearRequest();
    }

    /** The counters `init` zeroes. */
    method ClearCursors()
      modifies this`readIdx, this`checkedIdx, this`startLine, this`writeIdx, this`bytesToSend, this`bytesHaveSend
      ensures readIdx == 0 && checkedIdx == 0 && startLine == 0 && writeIdx == 0 && bytesToSend == 0 && bytesHaveSend == 0
    {
      bytesToSend, bytesHaveSend := 0, 0;
      startLine, checkedIdx, readIdx, writeIdx := 0, 0, 0, 0;
    }

    /** The request fields `init` clears. */
    method ClearRequest()
      modifies this`checkState, this`httpMethod, this`cgi, this`url, this`linger, this`contentLength, this`host
      ensures checkState == Request.RequestLineState && httpMethod == Request.GET && !cgi
      ensures url == [] && !linger && contentLength == 0 && host == []
    {
      checkState, linger, httpMethod := Request.RequestLineState, false, Request.GET;
      url, contentLength, host := [], 0, [];
      cgi := false;
    }

    /** `read_once`, with everything the drain loop received given as
        `data` and the way it ended as `end`. A full buffer refuses at
        once. Once the buffer is filled to the last byte the next `recv`
        asks for zero bytes; whether the kernel answers that with "would
        block" or with zero is part of `end` as well. */
    method Receive(data: seq<char>, end: RecvEnd) returns (ok: bool)
      requires Valid()
      requires readIdx < READ_BUFFER_SIZE ==> readIdx + |data| <= READ_BUFFER_SIZE
      modifies this`readIdx, readBuf
      ensures Valid()
      ensures old(readIdx) >= READ_BUFFER_SIZE ==> !ok && readIdx == old(readIdx) && readBuf[..] == old(readBuf[..])
      ensures old(readIdx) < READ_BUFFER_SIZE ==>
        && readIdx == old(readIdx) + |data|
        && readBuf[..] == old(readBuf[..readIdx]) + data + old(readBuf[readIdx + |data|..])
        && (ok <==> end == Drained)
    {
      if readIdx >= READ_BUFFER_SIZE {
        return false;
      }
      var at := readIdx;
      forall i | at <= i < at + |data| { readBuf[i] := data[i - at]; }
      readIdx := at + |data|;
      assert readBuf[..] == old(readBuf[..at]) + data + old(readBuf[at + |data|..]);
      ok := end == Drained;
    }

    // ------------------------------------------------------------ parse_line

    /** `parse_line` on the connection whose parsing state is `s`: scan for
        the end of the line, turning its CR LF into NULs. */
    method ParseLine(ghost s: Request.Parser) returns (status: LineStatus)
      requires Valid() && Holds(s)
      modifies this`checkedIdx, readBuf
      ensures Valid()
      ensures var (st, q) := Request.Split(s); status == st && Holds(q)
    {
      var k;
      status, k := FindLineEnd();
      if status == LineOk {
        readBuf[k - 2] := NUL;
        readBuf[k - 1] := NUL;
      }
      checkedIdx := k;
    }

    /** The loop of `parse_line`: where the next line ends, or why it does not. */
    method FindLineEnd() returns (status: LineStatus, k: nat)
      requires Valid()
      ensures (status, k) == Scan(readBuf[..], checkedIdx, readIdx)
    {
      ghost var buf := readBuf[..];
      var i := checkedIdx;
      status, k := LineOpen, readIdx;
      while i < readIdx
        invariant checkedIdx <= i <= readIdx
        invariant Plain(buf, checkedIdx, i)
        decreases readIdx - i
      {
        var temp := readBuf[i];
        if temp == CR {
          if i + 1 == readIdx {
            status, k := LineOpen, i;
          } else if readBuf[i + 1] == LF {
            status, k := LineOk, i + 2;
          } else {
            status, k := LineBad, i;
          }
          break;
        } else if temp == LF {
          if i > 1 && readBuf[i - 1] == CR {
            status, k := LineOk, i + 1;
          } else {
            status, k := LineBad, i;
          }
          break;
        }
        i := i + 1;
      }
      ScanSkipsPlain(buf, checkedIdx, i, readIdx);
    }

    // ---------------------------------------------------------------- the stages

    /** The fields `parse_request_line` sets for the outcome `line`: the
        method and, when the line is accepted, the target and the header stage. */
    method TakeRequestLine(line: Request.RequestLine, ghost s: Request.Parser) returns (code: HttpCode)
      requires Valid() && Holds(s) && checkState == Request.RequestLineState
      requires line.Accepted? ==> Request.IsTarget(line.url)
      modifies this`httpMethod, this`cgi, this`url, this`checkState
      ensures Valid()
      ensures code == NO_REQUEST || code == BAD_REQUEST
      ensures var (q, ok) := Request.TakeRequestLine(s, line); Holds(q) && (code == NO_REQUEST) == ok
    {
      match line
      case Accepted(m, u) =>
        httpMethod := m;
        if m == Request.POST { cgi := true; }
        url := u;
        checkState := Request.HeaderState;
        return NO_REQUEST;
      case Rejected(Some(m)) =>
        httpMethod := m;
        if m == Request.POST { cgi := true; }
        return BAD_REQUEST;
      case Rejected(None) =>
        return BAD_REQUEST;
    }

    /** `parse_request_line` on the line `text`. */
    method ParseRequestLine(text: seq<char>, ghost s: Request.Parser) returns (code: HttpCode)
      requires Valid() && Holds(s) && NoNul(text) && s.state == Request.RequestLineState
      modifies this`httpMethod, this`cgi, this`url, this`checkState
      ensures Valid()
      ensures code == NO_REQUEST || code == BAD_REQUEST
      ensures var (q, ok) := Request.OnRequestLine(s, text); Holds(q) && (code == NO_REQUEST) == ok
    {
      code := TakeRequestLine(Request.ParseRequestLine(text), s);
    }

    /** `parse_headers` on the line `text`: the end of the headers, or one header. */
    method ParseHeaders(text: seq<char>, ghost s: Request.Parser) returns (code: HttpCode)
      requires Valid() && Holds(s) && s.state == Request.HeaderState
      modifies this`linger, this`contentLength, this`host, this`checkState
      ensures Valid()
      ensures code == NO_REQUEST || code == GET_REQUEST
      ensures var (q, done) := Request.OnHeader(s, text); Holds(q) && (code == GET_REQUEST) == done
    {
      match Request.ClassifyHeader(text)
      case EndOfHeaders =>
        if contentLength != 0 {
          checkState := Request.ContentState;
          return NO_REQUEST;
        }
        return GET_REQUEST;
      case Connection(keepAlive) =>
        if keepAlive { linger := true; }
        return NO_REQUEST;
      case ContentLength(n) =>
        contentLength := n;
        return NO_REQUEST;
      case Host(h) =>
        host := h;
        return NO_REQUEST;
      case Unrecognised =>
        return NO_REQUEST;
    }

    /** `parse_content` for the body starting at `textStart`. The terminator
        is written only where it falls inside the read buffer. */
    method ParseContent(textStart: nat, ghost s: Request.Parser) returns (code: HttpCode)
      requires Valid() && Holds(s) && textStart <= READ_BUFFER_SIZE
      modifies this`body, readBuf
      ensures Valid()
      ensures code == NO_REQUEST || code == GET_REQUEST
      ensures var (q, done) := Request.OnContent(s, textStart); Holds(q) && (code == GET_REQUEST) == done
    {
      if readIdx >= contentLength + checkedIdx {
        var at := textStart + contentLength;
        if 0 <= at < readBuf.Length {
          readBuf[at] := NUL;
        }
        body := Some(textStart);
        return GET_REQUEST;
      }
      return NO_REQUEST;
    }

    // ---------------------------------------------------------------- process_read

    /** One round of the loop of `process_read` from parsing state `s`:
        unless the body stage is retried, split off the next line; hand the
        line that starts at `startLine` to the current stage. `again` says
        whether the loop goes round once more, with `nextOk` as the line
        status it then has; otherwise `code` is what the loop reports. */
    method ReadStep(lastOk: bool, ghost s: Request.Parser) returns (again: bool, nextOk: bool, code: HttpCode)
      requires Valid() && Holds(s)
      modifies this`checkedIdx, this`startLine, this`checkState, this`httpMethod, this`cgi, this`url,
               this`linger, this`contentLength, this`host, this`body, readBuf
      ensures Valid()
      ensures match Request.ReadPass(s, lastOk)
        case Again(q, b) => again && nextOk == b && Holds(q)
        case Stop(q, out) => !again && Holds(q) && code == Verdict(out)
    {
      ghost var p1 := s;
      if !(checkState == Request.ContentState && lastOk) {
        var status := ParseLine(s);
        p1 := Request.Split(s).1;
        if status != LineOk {
          assert Request.ReadPass(s, lastOk) == Request.Stop(p1, Request.NeedMore);
          return false, false, NO_REQUEST;
        }
      }
      assert Request.ReadPass(s, lastOk) == Request.Dispatch(p1);
      again, nextOk, code := Dispatch(p1);
    }

    /** The rest of one pass once a whole line is there: the line from
        `m_start_line` goes to the stage `m_check_state` names. */
    method Dispatch(ghost p1: Request.Parser) returns (again: bool, nextOk: bool, code: HttpCode)
      requires Valid() && Holds(p1)
      modifies this`startLine, this`checkState, this`httpMethod, this`cgi, this`url,
               this`linger, this`contentLength, this`host, this`body, readBuf
      ensures Valid()
      ensures match Request.Dispatch(p1)
        case Again(q, b) => again && nextOk == b && Holds(q)
        case Stop(q, out) => !again && Holds(q) && code == Verdict(out)
    {
      var textStart := startLine;
      startLine := checkedIdx;
      ghost var p2 := p1.(start := p1.checked);
      assert Holds(p2);
      match checkState
      case RequestLineState =>
        var text := CString(readBuf[textStart..]);
        var ret := ParseRequestLine(text, p2);
        ghost var (p3, ok) := Request.OnRequestLine(p2, text);
        assert Request.Dispatch(p1) == if ok then Request.Again(p3, true) else Request.Stop(p3, Request.Malformed(text));
        if ret == BAD_REQUEST {
          return false, false, BAD_REQUEST;
        }
        return true, true, NO_REQUEST;
      case HeaderState =>
        var text := CString(readBuf[textStart..]);
        var ret := ParseHeaders(text, p2);
        ghost var (p3, done) := Request.OnHeader(p2, text);
        assert Request.Dispatch(p1) == if done then Request.Stop(p3, Request.Complete) else Request.Again(p3, true);
        if ret == GET_REQUEST {
          return false, false, GET_REQUEST;
        }
        return true, true, NO_REQUEST;
      case ContentState =>
        var ret := ParseContent(textStart, p2);
        ghost var (p3, done) := Request.OnContent(p2, textStart);
        assert Request.Dispatch(p1) == if done then Request.Stop(p3, Request.Complete) else Request.Again(p3, false);
        if ret == GET_REQUEST {
          return false, false, GET_REQUEST;
        }
        return true, false, NO_REQUEST;
    }

    /** The loop of `process_read` up to the hand-over to `do_request`:
        rounds are made until one stops, starting with the line status OK. */
    method ReadRequest(ghost s: Request.Parser) returns (code: HttpCode)
      requires Valid() && Holds(s)
      modifies this`checkedIdx, this`startLine, this`checkState, this`httpMethod, this`cgi, this`url,
               this`linger, this`contentLength, this`host, this`body, readBuf
      ensures Valid()
      ensures var (q, out) := Request.ReadLoop(s, true); Holds(q) && code == Verdict(out)
      ensures writeIdx == old(writeIdx) && writeBuf[..] == old(writeBuf[..])
      ensures iv0 == old(iv0) && iv1 == old(iv1) && ivCount == old(ivCount) && bytesHaveSend == old(bytesHaveSend) && bytesToSend == old(bytesToSend)
    {
      var lastOk, again := true, true;
      ghost var cur := s;
      code := NO_REQUEST;
      while again
        invariant Valid()
        invariant again ==> Holds(cur) && Request.WellFormed(cur) && cur.readIdx == s.readIdx
        invariant again ==> Request.ReadLoop(cur, lastOk) == Request.ReadLoop(s, true)
        invariant !again ==> var (q, out) := Request.ReadLoop(s, true); Holds(q) && code == Verdict(out)
        decreases if again then 1 else 0, readIdx - checkedIdx, if lastOk then 1 else 0
      {
        assert Request.WellFormed(Snapshot());
        var more, nextOk, ret := ReadStep(lastOk, cur);
        if more {
          cur := Request.ReadPass(cur, lastOk).next;
        }
        lastOk, again, code := nextOk, more, ret;
      }
    }

    /** What `m_string` points at: the read buffer from the body on. */
    ghost function BodyText(): Option<seq<char>>
      reads this, readBuf
    {
      BodyOf(Snapshot())
    }

    // ---------------------------------------------------------------- do_request

    /** The login ('2') or registration ('3') check of `do_request` on the
        fields `form` read from the body: the table and the target
        afterwards are the ones Resolver.Authenticate gives. */
    method CheckForm(store: Credentials, flag: char, form: Resolver.Form, sqlOk: bool)
      requires Valid() && (flag == '2' || flag == '3') && checkState != Request.RequestLineState
      modifies this`url, store
      ensures Valid()
      ensures (store.users, url) == Resolver.Authenticate(flag, form, old(store.users), sqlOk)
      ensures Snapshot() == old(Snapshot()).(url := url)
    {
      Resolver.VerdictShape(Resolver.Authenticate(flag, form, store.users, sqlOk).1);
      var name, password := form.name, form.password;
      if flag == '3' {
        if name !in store.users {
          store.users := store.users[name := password];
          url := if sqlOk then "/log.html" else "/registerError.html";
        } else {
          url := "/registerError.html";
        }
      } else {
        url := if name in store.users && store.users[name] == password then "/welcome.html" else "/logError.html";
      }
    }

    /** The end of `do_request`: the name of the file after the root, from
        the fixed page `c` selects or from the target, then the checks on
        what `stat` reports of it. */
    method Serve(c: char, fs: Resolver.FileSystem) returns (code: HttpCode)
      requires Valid()
      modifies realFile, this`fileStat, this`mapped
      ensures Valid()
      ensures var r := Resolver.Route(docRoot, url, c, old(realFile[..]), map[], fs);
        && code == r.code && realFile[..] == r.realFile
        && fileStat == (if r.stat.Some? then r.stat.value else old(fileStat))
        && mapped == (old(mapped) || code == FILE_REQUEST)
      ensures Snapshot() == old(Snapshot())
    {
      ghost var r := Resolver.Route(docRoot, url, c, realFile[..], map[], fs);
      ghost var snap := Snapshot();
      var len := |docRoot|;
      Resolver.PageShape(c);
      match Resolver.Page(c) {
        case Some(page) => Fill(realFile, StrNCpy(realFile[..], len, page, |page|));
        case None => Fill(realFile, StrNCpy(realFile[..], len, url, FILENAME_LEN - len - 1));
      }
      assert realFile[..] == r.realFile && Snapshot() == snap;
      var path := CString(realFile[..]);
      assert path == CString(r.realFile) && r.code == Resolver.Classify(fs, path);
      code := StatFile(path, fs);
    }

    /** The checks that end `do_request` on the file name `path`: `stat`,
        then the permission and directory tests, then the mapping. */
    method StatFile(path: seq<char>, fs: Resolver.FileSystem) returns (code: HttpCode)
      requires Valid()
      modifies this`fileStat, this`mapped
      ensures Valid() && Snapshot() == old(Snapshot())
      ensures code == Resolver.Classify(fs, path)
      ensures fileStat == (if path in fs then fs[path] else old(fileStat))
      ensures mapped == (old(mapped) || code == FILE_REQUEST)
    {
      if path !in fs {
        return NO_RESOURCE;
      }
      fileStat := fs[path];
      if !Resolver.Readable(fileStat) {
        return FORBIDDEN_REQUEST;
      }
      if Resolver.IsDir(fileStat) {
        return BAD_REQUEST;
      }
      mapped := true;
      return FILE_REQUEST;
    }

    /** The first part of `do_request` (Resolver.Prepare): the root into
        the file name buffer and, on a login or registration target of a
        POST, the form read and checked. `refused` says the body could not
        be read; otherwise `c` is the character after the last '/' of the
        original target, read again from the target as it now is. */
    method PrepareRequest(store: Credentials, sqlOk: bool) returns (c: char, refused: bool)
      requires Valid() && checkState != Request.RequestLineState
      modifies realFile, this`url, store
      ensures Valid()
      ensures var r := Resolver.Prepare(docRoot, old(url), cgi, old(BodyText()), old(realFile[..]), old(store.users), sqlOk);
        && refused == r.Refused? && realFile[..] == r.realFile
        && (r.Ready? ==> c == r.c && url == r.url && store.users == r.users)
        && (r.Refused? ==> url == old(url) && store.users == old(store.users))
      ensures Snapshot() == old(Snapshot()).(url := url)
    {
      ghost var text, file0, users0 := BodyText(), realFile[..], store.users;
      ghost var r := Resolver.Prepare(docRoot, url, cgi, text, file0, users0, sqlOk);
      ghost var snap := Snapshot();
      var rooted := StrCpy(realFile[..], 0, docRoot);
      Fill(realFile, rooted);
      assert Snapshot() == snap;
      var p := LastIndexOf(url, '/');
      c := CharAt(url, p + 1);
      if cgi && (c == '2' || c == '3') {
        assert r == Resolver.FormCheck(docRoot, url, p, text, rooted, users0, sqlOk);
        c, refused := FormRequest(store, sqlOk, p);
      } else {
        assert r == Resolver.Ready(url, c, rooted, users0);
        refused := false;
      }
    }

    /** The login or registration branch of `do_request` (Resolver.FormCheck),
        with `p` the last '/' of the target and the root already in the
        file name buffer: the scratch name, then the form read from the
        body and checked. */
    method FormRequest(store: Credentials, sqlOk: bool, p: nat) returns (c: char, refused: bool)
      requires Valid() && checkState != Request.RequestLineState
      requires p + 1 < |url| && (url[p + 1] == '2' || url[p + 1] == '3') && realFile[..|docRoot|] == docRoot
      modifies realFile, this`url, store
      ensures Valid()
      ensures var r := Resolver.FormCheck(docRoot, old(url), p, old(BodyText()), old(realFile[..]), old(store.users), sqlOk);
        && refused == r.Refused? && realFile[..] == r.realFile
        && (r.Ready? ==> c == r.c && url == r.url && store.users == r.users)
        && (r.Refused? ==> url == old(url) && store.users == old(store.users))
      ensures Snapshot() == old(Snapshot()).(url := url)
    {
      ghost var text, users0 := BodyText(), store.users;
      var rooted := realFile[..];
      ghost var r := Resolver.FormCheck(docRoot, url, p, text, rooted, users0, sqlOk);
      ghost var snap := Snapshot();
      var len := |docRoot|;
      var scratch := StrNCpy(rooted, len, "/" + url[2..], FILENAME_LEN - len - 1);
      Fill(realFile, scratch);
      assert Snapshot() == snap;
      var form := if body.Some? && body.value <= readBuf.Length then Resolver.ExtractForm(readBuf[body.value..]) else None;
      assert form == if text.Some? then Resolver.ExtractForm(text.value) else None;
      var was := url;
      Resolver.FormCheckOutcome(docRoot, was, p, text, rooted, users0, sqlOk);
      assert r.realFile == scratch == realFile[..];
      if form.None? {
        return was[p + 1], true;
      }
      CheckForm(store, was[p + 1], form.value, sqlOk);
      assert realFile[..] == scratch;
      c := Resolver.CharAfterRewrite(was, url, p + 1);
      refused := false;
    }

    /** `do_request` against the account table `store`, with `sqlOk` the
        database's answer to a registration's insertion and `fs` what
        `stat` reports. Its effect is the one Resolver.Resolve describes:
        the file name buffer, the target, the table and the result code;
        `m_file_stat` is what `stat` reported when it succeeded, and a file
        to serve is mapped. */
    method DoRequest(store: Credentials, sqlOk: bool, fs: Resolver.FileSystem) returns (code: HttpCode)
      requires Valid() && checkState != Request.RequestLineState
      modifies realFile, this`url, this`fileStat, this`mapped, store
      ensures Valid()
      ensures var r := Resolver.Resolve(docRoot, old(url), cgi, old(BodyText()), old(realFile[..]), old(store.users), sqlOk, fs);
        && code == r.code && url == r.url && store.users == r.users && realFile[..] == r.realFile
        && fileStat == (if r.stat.Some? then r.stat.value else old(fileStat))
        && mapped == (old(mapped) || code == FILE_REQUEST)
      ensures Snapshot() == old(Snapshot()).(url := url)
    {
      ghost var res := Resolver.Resolve(docRoot, url, cgi, BodyText(), realFile[..], store.users, sqlOk, fs);
      var c, refused := PrepareRequest(store, sqlOk);
      if refused {
        return BAD_REQUEST;
      }
      ghost var url1, file1, users1 := url, realFile[..], store.users;
      assert res == Resolver.Route(docRoot, url1, c, file1, users1, fs);
      Resolver.RouteIgnoresUsers(docRoot, url1, c, file1, users1, fs);
      code := Serve(c, fs);
    }

    /** `process_read`: the loop, then `do_request` as soon as a request is
        complete. A refused request line gives BAD_REQUEST; a line the
        splitter finds malformed, like a missing end of line, gives
        NO_REQUEST. */
    method ProcessRead(store: Credentials, sqlOk: bool, fs: Resolver.FileSystem, ghost s: Request.Parser)
      returns (code: HttpCode)
      requires Valid() && Holds(s)
      modifies this`checkedIdx, this`startLine, this`checkState, this`httpMethod, this`cgi, this`url,
               this`linger, this`contentLength, this`host, this`body, readBuf,
               realFile, this`fileStat, this`mapped, store
      ensures Valid()
      ensures var a := AfterRead(docRoot, s, old(realFile[..]), old(store.users), sqlOk, fs);
        && code == a.code && Holds(a.parser) && store.users == a.users && realFile[..] == a.realFile
        && fileStat == (if a.stat.Some? then a.stat.value else old(fileStat))
        && mapped == (old(mapped) || code == FILE_REQUEST)
      ensures writeIdx == old(writeIdx) && writeBuf[..] == old(writeBuf[..])
      ensures iv0 == old(iv0) && iv1 == old(iv1) && ivCount == old(ivCount) && bytesHaveSend == old(bytesHaveSend) && bytesToSend == old(bytesToSend)
    {
      ghost var file0, users0 := realFile[..], store.users;
      ghost var (q, out) := Request.ReadLoop(s, true);
      ghost var a := AfterRead(docRoot, s, file0, users0, sqlOk, fs);
      code := ReadRequest(s);
      assert Holds(q) && code == Verdict(out);
      if code == GET_REQUEST {
        assert out == Request.Complete && q.state != Request.RequestLineState;
        ghost var r := Resolver.Resolve(docRoot, q.url, q.cgi, BodyOf(q), file0, users0, sqlOk, fs);
        assert a == ReadReport(r.code, q.(url := r.url), r.users, r.realFile, r.stat);
        code := Complete(store, sqlOk, fs, q);
      } else {
        assert out != Request.Complete;
        assert a == ReadReport(code, q, users0, file0, None);
      }
    }

    /** `do_request` on a complete request whose parsing state is `q`. */
    method Complete(store: Credentials, sqlOk: bool, fs: Resolver.FileSystem, ghost q: Request.Parser)
      returns (code: HttpCode)
      requires Valid() && Holds(q) && q.state != Request.RequestLineState
      modifies realFile, this`url, this`fileStat, this`mapped, store
      ensures Valid()
      ensures var r := Resolver.Resolve(docRoot, q.url, q.cgi, BodyOf(q), old(realFile[..]), old(store.users), sqlOk, fs);
        && code == r.code && Holds(q.(url := r.url)) && store.users == r.users && realFile[..] == r.realFile
        && fileStat == (if r.stat.Some? then r.stat.value else old(fileStat))
        && mapped == (old(mapped) || code == FILE_REQUEST)
      ensures writeIdx == old(writeIdx) && writeBuf[..] == old(writeBuf[..])
      ensures iv0 == old(iv0) && iv1 == old(iv1) && ivCount == old(ivCount) && bytesHaveSend == old(bytesHaveSend) && bytesToSend == old(bytesToSend)
    {
      assert BodyText() == BodyOf(q) by { assert Snapshot() == q; }
      code := DoRequest(store, sqlOk, fs);
      assert Snapshot() == q.(url := url);
    }

    /** `process`, returning what `process_read` reported, how the socket
        is re-armed and whether `close_conn` is called. */
    method Process(store: Credentials, sqlOk: bool, fs: Resolver.FileSystem, ghost s: Request.Parser)
      returns (code: HttpCode, rearm: Rearm, close: bool)
      requires Valid() && Holds(s)
      modifies this`checkedIdx, this`startLine, this`checkState, this`httpMethod, this`cgi, this`url,
               this`linger, this`contentLength, this`host, this`body, readBuf,
               realFile, this`fileStat, this`mapped, store,
               writeBuf, this`writeIdx, this`iv0, this`iv1, this`ivCount, this`bytesToSend
      ensures Valid()
      ensures var a := AfterRead(docRoot, s, old(realFile[..]), old(store.users), sqlOk, fs);
        && code == a.code && Holds(a.parser) && store.users == a.users && realFile[..] == a.realFile
        && fileStat == (if a.stat.Some? then a.stat.value else old(fileStat))
        && mapped == (old(mapped) || code == FILE_REQUEST)
      ensures Answered(code, linger, fileStat.size, old(Content()), Content(), old(Transfer()), Transfer(), rearm, close)
    {
      code := ProcessRead(store, sqlOk, fs, s);
      rearm, close := Answer(code);
    }

    /** The part of `process` after `process_read` reported `code`. */
    method Answer(code: HttpCode) returns (rearm: Rearm, close: bool)
      requires Valid()
      modifies writeBuf, this`writeIdx, this`iv0, this`iv1, this`ivCount, this`bytesToSend
      ensures Valid()
      ensures Answered(code, old(linger), old(fileStat.size), old(Content()), Content(), old(Transfer()), Transfer(), rearm, close)
      ensures Snapshot() == old(Snapshot()) && realFile[..] == old(realFile[..])
      ensures fileStat == old(fileStat) && mapped == old(mapped)
    {
      if code == NO_REQUEST {
        return EpollIn, false;
      }
      var ok := ProcessWrite(code);
      return EpollOut, !ok;
    }

    // ---------------------------------------------------------------- the response

    /** `unmap`: the mapping, if any, is released, once. */
    method Unmap()
      modifies this`mapped, this`releases
      ensures !mapped
      ensures releases == old(releases) + (if old(mapped) then 1 else 0)
    {
      if mapped {
        releases := releases + 1;
        mapped := false;
      }
    }

    /** `add_response`: `vsnprintf` formats `piece` into the room left
        before the last byte of the write buffer, and the text grows by the
        piece only if all of it fitted. */
    method AddResponse(piece: seq<char>) returns (ok: bool)
      requires Valid()
      modifies writeBuf, this`writeIdx
      ensures Valid()
      ensures (Content(), ok) == Response.Emit(old(Content()), piece)
      ensures writeBuf[..] == if old(writeIdx) < WRITE_BUFFER_SIZE
        then Vsnprintf(old(writeBuf[..]), old(writeIdx), WRITE_BUFFER_SIZE - 1 - old(writeIdx), piece)
        else old(writeBuf[..])
    {
      if writeIdx >= WRITE_BUFFER_SIZE {
        return false;
      }
      var room := WRITE_BUFFER_SIZE - 1 - writeIdx;
      ghost var text := Content();
      var image := Vsnprintf(writeBuf[..], writeIdx, room, piece);
      Fill(writeBuf, image);
      assert Content() == image[..writeIdx] == text;
      if |piece| >= room {
        return false;
      }
      assert image[..writeIdx + |piece|] == text + piece by {
        assert image[..writeIdx + |piece|][writeIdx..] == piece;
      }
      writeIdx := writeIdx + |piece|;
      return true;
    }

    /** `add_status_line`. */
    method AddStatusLine(status: nat, title: seq<char>) returns (ok: bool)
      requires Valid()
      modifies writeBuf, this`writeIdx
      ensures Valid()
      ensures (Content(), ok) == Response.Emit(old(Content()), Response.StatusLine(status, title))
    {
      ok := AddResponse(Response.StatusLine(status, title));
    }

    /** `add_content_length`. */
    method AddContentLength(n: int) returns (ok: bool)
      requires Valid()
      modifies writeBuf, this`writeIdx
      ensures Valid()
      ensures (Content(), ok) == Response.Emit(old(Content()), Response.ContentLengthLine(n))
    {
      ok := AddResponse(Response.ContentLengthLine(n));
    }

    /** `add_content_type`. */
    method AddContentType() returns (ok: bool)
      requires Valid()
      modifies writeBuf, this`writeIdx
      ensures Valid()
      ensures (Content(), ok) == Response.Emit(old(Content()), Response.ContentTypeLine())
    {
      ok := AddResponse(Response.ContentTypeLine());
    }

    /** `add_linger`: the connection header mirrors the request's keep-alive flag. */
    method AddLinger() returns (ok: bool)
      requires Valid()
      modifies writeBuf, this`writeIdx
      ensures Valid()
      ensures (Content(), ok) == Response.Emit(old(Content()), Response.LingerLine(old(linger)))
    {
      ok := AddResponse(Response.LingerLine(linger));
    }

    /** `add_blank_line`. */
    method AddBlankLine() returns (ok: bool)
      requires Valid()
      modifies writeBuf, this`writeIdx
      ensures Valid()
      ensures (Content(), ok) == Response.Emit(old(Content()), Response.BLANK_LINE)
    {
      ok := AddResponse(Response.BLANK_LINE);
    }

    /** `add_content`. */
    method AddContent(content: seq<char>) returns (ok: bool)
      requires Valid()
      modifies writeBuf, this`writeIdx
      ensures Valid()
      ensures (Content(), ok) == Response.Emit(old(Content()), content)
    {
      ok := AddResponse(content);
    }

    /** `add_headers`: each header only if the one before it was written. */
    method AddHeaders(n: int) returns (ok: bool)
      requires Valid()
      modifies writeBuf, this`writeIdx
      ensures Valid()
      ensures (Content(), ok) == Response.Headers(old(Content()), n, old(linger))
    {
      ok := AddContentLength(n);
      if ok {
        ok := AddLinger();
        if ok {
          ok := AddBlankLine();
        }
      }
    }

    /** An error page of `process_write`: the status line and the headers
        are written with their failures ignored; a body that does not fit
        fails the response. */
    method AddErrorPage(status: nat, title: seq<char>, form: seq<char>) returns (ok: bool)
      requires Valid()
      modifies writeBuf, this`writeIdx
      ensures Valid()
      ensures var r := Response.ErrorPage(status, title, form, old(linger), old(Content()));
        Content() == r.text && ok == r.plan.Some?
    {
      var _ := AddStatusLine(status, title);
      var _ := AddHeaders(|form|);
      ok := AddContent(form);
    }

    /** The file branch of `process_write`: the status line and headers;
        an empty file gets the empty page and reports failure. */
    method AddFilePage() returns (ok: bool)
      requires Valid()
      modifies writeBuf, this`writeIdx
      ensures Valid()
      ensures var r := Response.FilePage(old(linger), old(fileStat.size), old(Content()));
        Content() == r.text && ok == r.plan.Some?
    {
      var _ := AddStatusLine(200, Response.OK_200_TITLE);
      if fileStat.size != 0 {
        var _ := AddHeaders(Response.AsInt32(fileStat.size));
        return true;
      }
      // The empty page is written, then control falls into the default case.
      var _ := AddHeaders(|Response.EMPTY_PAGE|);
      var _ := AddContent(Response.EMPTY_PAGE);
      return false;
    }

    /** The text `process_write` writes for `code`, and whether it goes on
        to plan the gather write. */
    method AddReply(code: HttpCode) returns (ok: bool)
      requires Valid()
      modifies writeBuf, this`writeIdx
      ensures Valid()
      ensures var r := Response.Respond(code, old(linger), old(fileStat.size), old(Content()));
        Content() == r.text && ok == r.plan.Some?
    {
      match code {
        case INTERNAL_ERROR =>
          ok := AddErrorPage(500, Response.ERROR_500_TITLE, Response.ERROR_500_FORM);
        case BAD_REQUEST =>
          ok := AddErrorPage(404, Response.ERROR_404_TITLE, Response.ERROR_404_FORM);
        case FORBIDDEN_REQUEST =>
          ok := AddErrorPage(403, Response.ERROR_403_TITLE, Response.ERROR_403_FORM);
        case FILE_REQUEST =>
          ok := AddFilePage();
        case _ =>
          ok := false;
      }
    }

    /** `process_write` for the result `code`: the response text and, when
        it reports success, the gather-write plan: the write buffer, then
        for a file the whole mapping. */
    method ProcessWrite(code: HttpCode) returns (ok: bool)
      requires Valid()
      modifies writeBuf, this`writeIdx, this`iv0, this`iv1, this`ivCount, this`bytesToSend
      ensures Valid()
      ensures var r := Response.Respond(code, old(linger), old(fileStat.size), old(Content()));
        && Content() == r.text && ok == r.plan.Some?
        && (ok ==> Transfer() == Scheduler.Start(writeIdx, r.plan.value.fileLen, r.plan.value.count, old(iv1))
                                   .(have := bytesHaveSend))
        && (!ok ==> iv0 == old(iv0) && iv1 == old(iv1) && ivCount == old(ivCount) && bytesToSend == old(bytesToSend))
      ensures Snapshot() == old(Snapshot()) && realFile[..] == old(realFile[..])
    {
      ghost var r := Response.Respond(code, linger, fileStat.size, Content());
      ok := AddReply(code);
      if ok {
        var two := code == FILE_REQUEST;
        assert r.plan.value.count == (if two then 2 else 1);
        assert r.plan.value.fileLen == (if two then fileStat.size else 0);
        SetVectors(two);
      }
    }

    /** The vectors of a response: the whole write buffer and, for a file,
        the whole mapping. */
    method SetVectors(file: bool)
      requires Valid()
      modifies this`iv0, this`iv1, this`ivCount, this`bytesToSend
      ensures Valid() && Content() == old(Content())
      ensures Snapshot() == old(Snapshot()) && realFile[..] == old(realFile[..])
      ensures var size := if file then fileStat.size else 0;
        Transfer() == Scheduler.Start(writeIdx, size, if file then 2 else 1, old(iv1)).(have := bytesHaveSend)
    {
      iv0 := Scheduler.Iovec(0, writeIdx);
      if file {
        iv1 := Scheduler.Iovec(0, fileStat.size);
        ivCount := 2;
        bytesToSend := writeIdx + fileStat.size;
      } else {
        ivCount := 1;
        bytesToSend := writeIdx;
      }
    }

    /** `write`, with the answers of `writev` given as `script`, one per
        call; `keep` is what `write` returns and `rearm` how it re-armed
        the socket. An empty response re-arms for reading and resets at
        once. Otherwise the vectors are moved on after each write (see
        `Sent`). A full socket re-arms for writing; a failed write unmaps;
        once everything is sent the file is unmapped, the socket re-armed
        for reading, and a keep-alive connection starts over. */
    method Write(script: seq<Scheduler.Answer>) returns (keep: bool, rearm: Rearm)
      requires Valid() && Scheduler.Finite(script)
      modifies this`readIdx, this`checkedIdx, this`startLine, this`checkState, this`httpMethod,
               this`cgi, this`url, this`linger, this`contentLength, this`host, this`writeIdx,
               this`bytesToSend, this`bytesHaveSend, readBuf, writeBuf, realFile,
               this`iv0, this`iv1, this`mapped, this`releases
      ensures Valid()
      ensures old(bytesToSend) == 0 ==>
        && keep && rearm == EpollIn && Reset() && mapped == old(mapped)
        && iv0 == old(iv0) && iv1 == old(iv1) && releases == old(releases)
      ensures old(bytesToSend) != 0 ==>
        var (t, how) := Scheduler.Flush(old(Transfer()), old(writeIdx), script);
        && keep == (how == Scheduler.Blocked || (how == Scheduler.Sent && old(linger)))
        && rearm == (if how == Scheduler.Blocked then EpollOut else if how == Scheduler.Sent then EpollIn else Untouched)
        && mapped == (old(mapped) && how == Scheduler.Blocked)
        && releases == old(releases) + (if old(mapped) && how != Scheduler.Blocked then 1 else 0)
        && (if how == Scheduler.Sent && keep then Reset() && iv0 == t.iv0 && iv1 == t.iv1 else Transfer() == t)
        && (!(how == Scheduler.Sent && keep) ==>
              && writeIdx == old(writeIdx) && writeBuf[..] == old(writeBuf[..])
              && Snapshot() == old(Snapshot()) && realFile[..] == old(realFile[..]))
    {
      if bytesToSend == 0 {
        Init();
        return true, EpollIn;
      }
      var how := Drain(script);
      match how
      case Blocked =>
        return true, EpollOut;
      case Broken =>
        Unmap();
        return false, Untouched;
      case Sent =>
        keep := Done();
        return keep, EpollIn;
    }

    /** The loop of `write` up to the answer that ends it: `writev` is
        called until it reports a full socket or an error, or until nothing
        is left to send. */
    method Drain(script: seq<Scheduler.Answer>) returns (how: Scheduler.Flushed)
      requires Valid() && Scheduler.Finite(script)
      modifies this`iv0, this`iv1, this`bytesHaveSend, this`bytesToSend
      ensures Valid()
      ensures (Transfer(), how) == Scheduler.Flush(old(Transfer()), writeIdx, script)
    {
      ghost var goal := Scheduler.Flush(Transfer(), writeIdx, script);
      var i := 0;
      while true
        invariant 0 <= i < |script|
        invariant Valid()
        invariant Scheduler.Flush(Transfer(), writeIdx, script[i..]) == goal
        decreases |script| - i
      {
        match script[i]
        case WouldBlock =>
          return Scheduler.Blocked;
        case Failed =>
          return Scheduler.Broken;
        case Wrote(n) =>
          Sent(n);
          assert goal == if Transfer().toSend <= 0 then (Transfer(), Scheduler.Sent)
                         else Scheduler.Flush(Transfer(), writeIdx, script[i + 1..]) by {
            assert script[i..][0] == script[i] && script[i..][1..] == script[i + 1..];
          }
          if bytesToSend <= 0 {
            return Scheduler.Sent;
          }
          i := i + 1;
      }
    }

    /** The bookkeeping after `writev` sent `n` bytes (at most what it was
        offered), corrected: the head is finished once `m_write_idx` bytes
        have gone, where the source compares with the first vector's
        current length (see Findings). */
    method Sent(n: nat)
      requires Valid()
      modifies this`iv0, this`iv1, this`bytesHaveSend, this`bytesToSend
      ensures Valid()
      ensures Transfer() == Scheduler.Advance(old(Transfer()), writeIdx, Scheduler.Clamp(n, Scheduler.Offered(old(Transfer()))))
    {
      var temp := Scheduler.Clamp(n, iv0.len + (if ivCount == 2 then iv1.len else 0));
      bytesHaveSend := bytesHaveSend + temp;
      bytesToSend := bytesToSend - temp;
      if bytesHaveSend >= writeIdx {
        iv0 := iv0.(len := 0);
        iv1 := Scheduler.Iovec(bytesHaveSend - writeIdx, bytesToSend);
      } else {
        iv0 := Scheduler.Iovec(bytesHaveSend, writeIdx - bytesHaveSend);
      }
    }

    /** Everything sent: the file is unmapped and a keep-alive connection
        starts over. */
    method Done() returns (keep: bool)
      requires Valid()
      modifies this`readIdx, this`checkedIdx, this`startLine, this`checkState, this`httpMethod,
               this`cgi, this`url, this`linger, this`contentLength, this`host, this`writeIdx,
               this`bytesToSend, this`bytesHaveSend, readBuf, writeBuf, realFile,
               this`mapped, this`releases
      ensures Valid() && !mapped && releases == old(releases) + (if old(mapped) then 1 else 0)
      ensures keep == old(linger) && iv0 == old(iv0) && iv1 == old(iv1)
      ensures keep ==> Reset()
      ensures !keep ==> Transfer() == old(Transfer())
      ensures !keep ==>
        && writeIdx == old(writeIdx) && writeBuf[..] == old(writeBuf[..])
        && Snapshot() == old(Snapshot()) && realFile[..] == old(realFile[..])
    {
      Unmap();
      if linger {
        Init();
        return true;
      }
      return false;
    }
  }
}
