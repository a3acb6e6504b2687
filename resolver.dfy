/** `do_request`: turning a parsed request into the file to serve.
    The document root is copied into the file name buffer, the login and
    registration forms are checked against the user table, fixed pages
    are chosen by the character after the last '/' of the target, and the
    resulting path is classified by what `stat` reports. */
module Resolver {
  import opened Wrappers
  import opened Buffers
  import opened CStrings
  import Request

  /** What `stat` reports of a file: its mode bits and its size. */
  datatype FileMeta = FileMeta(mode: bv32, size: nat)

  /** The file system as `stat` sees it. */
  type FileSystem = map<seq<char>, FileMeta>

  /** The process-wide table of accounts: user name to password. */
  type Users = map<seq<char>, seq<char>>

  const S_IROTH: bv32 := 0x4
  const S_IFMT: bv32 := 0xF000
  const S_IFDIR: bv32 := 0x4000

  predicate Readable(m: FileMeta) { m.mode & S_IROTH != 0 }
  predicate IsDir(m: FileMeta) { m.mode & S_IFMT == S_IFDIR }

  /** The checks that end `do_request`: missing, not readable by others,
      a directory, or a file to map. */
  function Classify(fs: FileSystem, path: seq<char>): (r: HttpCode)
    ensures r == NO_RESOURCE <==> path !in fs
    ensures r == FORBIDDEN_REQUEST <==> path in fs && !Readable(fs[path])
    ensures r == BAD_REQUEST <==> path in fs && Readable(fs[path]) && IsDir(fs[path])
    ensures r == FILE_REQUEST <==> path in fs && Readable(fs[path]) && !IsDir(fs[path])
    ensures r == BAD_REQUEST || r == NO_RESOURCE || r == FORBIDDEN_REQUEST || r == FILE_REQUEST
  {
    if path !in fs then NO_RESOURCE
    else if !Readable(fs[path]) then FORBIDDEN_REQUEST
    else if IsDir(fs[path]) then BAD_REQUEST
    else FILE_REQUEST
  }

  // ---------------------------------------------------------------- the form

  /** Capacity of the `name` and `password` arrays. */
  const FIELD_LEN: nat := 100

  datatype Form = Form(name: seq<char>, password: seq<char>)

  /** The index of the first '&' at or after index 5 of `mem`, `|mem|` when there is none. */
  function Ampersand(mem: seq<char>): (k: nat)
    requires |mem| >= 5
    ensures 5 <= k <= |mem|
  {
    5 + IndexOf(mem[5..], '&')
  }

  /** The two scanning loops of the form extraction as written: the first
      reads from index 5 until a '&', writing the name; the second reads
      from ten past the '&' until a NUL, writing the password. They leave
      `mem` (the body up to the end of the read buffer) when the character
      they wait for is not there, and overflow the 100-byte arrays when a
      field, with its terminator, does not fit. */
  predicate FormScanOverruns(mem: seq<char>) {
    || |mem| < 5
    || Ampersand(mem) == |mem|
    || Ampersand(mem) - 5 >= FIELD_LEN
    || Ampersand(mem) + 10 > |mem|
    || Ampersand(mem) + 10 + IndexOf(mem[Ampersand(mem) + 10..], NUL) == |mem|
    || IndexOf(mem[Ampersand(mem) + 10..], NUL) >= FIELD_LEN
  }

  /** A body with no '&': `user=abc` followed by NULs to the end of the read buffer. */
  lemma FormScanOverrunReachable()
    ensures FormScanOverruns("user=abc" + seq(READ_BUFFER_SIZE - 8, _ => NUL))
  {
    var mem := "user=abc" + seq(READ_BUFFER_SIZE - 8, _ => NUL);
    assert forall j :: 5 <= j < |mem| ==> mem[j] != '&';
    assert Ampersand(mem) == |mem|;
  }

  /** The form extraction when both loops stay within the body and both
      fields fit their arrays: the name is the C string between index 5 and
      the first '&' after it, the password the C string ten past the '&'.
      The field names themselves are skipped, not checked. */
  function ExtractForm(mem: seq<char>): (r: Option<Form>)
    ensures r.Some? <==> !FormScanOverruns(mem)
    ensures r.Some? ==> && NoNul(r.value.name) && |r.value.name| < FIELD_LEN
                        && NoNul(r.value.password) && |r.value.password| < FIELD_LEN
  {
    if FormScanOverruns(mem) then None
    else
      var k := Ampersand(mem);
      var n := IndexOf(mem[k + 10..], NUL);
      Some(Form(CString(mem[5..k]), mem[k + 10..k + 10 + n]))
  }

  /** The form a browser posts is read back field for field, whatever the
      five characters before the name and the nine after the '&'. */
  lemma {:induction false} ExtractFormReadsBack(
    lead: seq<char>, name: seq<char>, tag: seq<char>, password: seq<char>, rest: seq<char>)
    requires |lead| == 5 && |tag| == 9
    requires NoNul(name) && '&' !in name && |name| < FIELD_LEN
    requires NoNul(password) && |password| < FIELD_LEN
    ensures ExtractForm(lead + name + "&" + tag + password + [NUL] + rest) == Some(Form(name, password))
  {
    var mem := lead + name + "&" + tag + password + [NUL] + rest;
    var k := 5 + |name|;
    var after := tag + password + [NUL] + rest;
    assert mem == lead + name + "&" + after;
    NameReadBack(lead, name, after);
    assert Ampersand(mem) == k && mem[5..k] == name;
    assert mem[k + 10..] == password + [NUL] + rest;
    PasswordReadBack(password, rest);
    var n := |password|;
    assert IndexOf(mem[k + 10..], NUL) == n;
    assert mem[k + 10..k + 10 + n] == mem[k + 10..][..n] == password;
    FormOfBounds(mem, k, n);
    assert CString(name) == name by {
      CStringOfNoNul(name, []);
      assert name + [] == name;
    }
  }

  /** Where both scans stop inside the body and within the arrays, the
      form is read from between the stops. */
  lemma FormOfBounds(mem: seq<char>, k: nat, n: nat)
    requires |mem| >= 5 && Ampersand(mem) == k && k + 10 + n < |mem|
    requires IndexOf(mem[k + 10..], NUL) == n && k - 5 < FIELD_LEN && n < FIELD_LEN
    ensures ExtractForm(mem) == Some(Form(CString(mem[5..k]), mem[k + 10..k + 10 + n]))
  {
    assert !FormScanOverruns(mem);
  }

  /** The name runs from index 5 to the first '&'. */
  lemma NameReadBack(lead: seq<char>, name: seq<char>, after: seq<char>)
    requires |lead| == 5 && '&' !in name
    ensures var mem := lead + name + "&" + after;
            Ampersand(mem) == 5 + |name| && mem[5..5 + |name|] == name
  {
    var mem := lead + name + "&" + after;
    assert mem[5..] == name + "&" + after;
    assert mem[5..][|name|] == '&';
    assert forall j :: 0 <= j < |name| ==> mem[5..][j] == name[j];
  }

  /** The password runs to the first NUL. */
  lemma PasswordReadBack(password: seq<char>, rest: seq<char>)
    requires NoNul(password)
    ensures var mem := password + [NUL] + rest;
            IndexOf(mem, NUL) == |password| && mem[..|password|] == password
  {
    var mem := password + [NUL] + rest;
    assert mem[|password|] == NUL;
    assert forall j :: 0 <= j < |password| ==> mem[j] == password[j];
  }

  lemma LoginFormReadsBack(name: seq<char>, password: seq<char>, rest: seq<char>)
    requires NoNul(name) && '&' !in name && |name| < FIELD_LEN
    requires NoNul(password) && |password| < FIELD_LEN
    ensures ExtractForm("user=" + name + "&password=" + password + [NUL] + rest) == Some(Form(name, password))
  {
    ExtractFormReadsBack("user=", name, "password=", password, rest);
    assert "&password=" == "&" + "password=";
    assert "user=" + name + "&password=" == "user=" + name + "&" + "password=";
  }

  // ---------------------------------------------------------------- accounts

  /** Every account of `users` is in `users'` with the same password. */
  predicate Extends(users: Users, users': Users) {
    users.Keys <= users'.Keys && forall u :: u in users ==> users'[u] == users[u]
  }

  /** The login ('2') and registration ('3') checks: the new target and
      the user table afterwards. A name already taken refuses the
      registration; otherwise the account is added whatever the database
      answered (`sqlOk`), and only the page shown depends on that answer. */
  function Authenticate(flag: char, form: Form, users: Users, sqlOk: bool): (r: (Users, seq<char>))
    requires flag == '2' || flag == '3'
    ensures r.1 in VERDICTS && Request.IsTarget(r.1)
    ensures Extends(users, r.0)
    ensures r.0.Keys <= users.Keys + {form.name}
  {
    if flag == '3' then
      if form.name !in users then
        (users[form.name := form.password], if sqlOk then "/log.html" else "/registerError.html")
      else (users, "/registerError.html")
    else
      (users, if form.name in users && users[form.name] == form.password then "/welcome.html" else "/logError.html")
  }

  // ---------------------------------------------------------------- routing

  /** The fixed pages selected by the character after the last '/'. */
  function Page(c: char): (r: Option<seq<char>>)
    ensures r.Some? <==> c in {'0', '1', '5', '6', '7'}
    ensures r.Some? ==> Request.IsTarget(r.value) && |r.value| > 5 && r.value[|r.value| - 5..] == ".html"
  {
    match c
    case '0' => Some("/register.html")
    case '1' => Some("/log.html")
    case '5' => Some("/picture.html")
    case '6' => Some("/video.html")
    case '7' => Some("/fans.html")
    case _ => None
  }

  /** The character after the last '/' of the target, NUL when the
      target ends with its last '/'. */
  function Selector(url: seq<char>): (r: char)
    requires Request.IsTarget(url)
    ensures r != '/'
    ensures r == NUL <==> url[|url| - 1] == '/'
    ensures forall k :: 0 <= k < |url| - 1 && url[k] == '/' && '/' !in url[k + 1..] ==> r == url[k + 1]
  {
    CharAt(url, LastIndexOf(url, '/') + 1)
  }

  /** The character at `m_url + i` once `strcpy` has written `now` over the
      memory that held `was`: `now`, its terminator, then what was there. */
  function CharAfterRewrite(was: seq<char>, now: seq<char>, i: nat): (r: char)
    requires i <= |was|
    ensures NoNul(now) && |now| <= |was| ==> r == StrCpy(was + [NUL], 0, now)[i]
  {
    if i < |now| then now[i] else if i == |now| then NUL else CharAt(was, i)
  }

  /** The pages a form check leads to. */
  const VERDICTS: set<seq<char>> := {"/welcome.html", "/logError.html", "/log.html", "/registerError.html"}

  lemma PageShape(c: char)
    ensures Page(c).Some? ==> Request.IsTarget(Page(c).value) && |Page(c).value| <= |"/register.html"|
  {
    match c
    case '0' => assert Request.IsTarget("/register.html");
    case '1' => assert Request.IsTarget("/log.html");
    case '5' => assert Request.IsTarget("/picture.html");
    case '6' => assert Request.IsTarget("/video.html");
    case '7' => assert Request.IsTarget("/fans.html");
    case _ =>
  }

  /** No verdict page holds a character that selects a fixed page. */
  lemma VerdictShape(v: seq<char>)
    requires v in VERDICTS
    ensures Request.IsTarget(v) && |v| <= |"/registerError.html"|
    ensures forall j :: 0 <= j < |v| ==> Page(v[j]).None?
  {
    if v == "/welcome.html" {
    } else if v == "/logError.html" {
    } else if v == "/log.html" {
    } else {
      assert v == "/registerError.html";
    }
  }

  /** A document root that leaves room for the longest fixed page. */
  predicate RootFits(docRoot: seq<char>) {
    NoNul(docRoot) && |docRoot| + |"/register.html"| <= FILENAME_LEN
  }

  datatype Resolution = Resolution(
    code: HttpCode, url: seq<char>, users: Users, realFile: seq<char>, stat: Option<FileMeta>)

  /** The file name buffer after the name is written behind the document
      root (`m_real_file + len`): a fixed page copied without its
      terminator, or the target cut to the space left. */
  function FileName(docRoot: seq<char>, url: seq<char>, c: char, realFile: seq<char>): (r: seq<char>)
    requires RootFits(docRoot) && |realFile| == FILENAME_LEN
    ensures |r| == FILENAME_LEN && r[..|docRoot|] == realFile[..|docRoot|]
  {
    var len := |docRoot|;
    match Page(c)
    case Some(page) => StrNCpy(realFile, len, page, |page|)
    case None => StrNCpy(realFile, len, url, FILENAME_LEN - len - 1)
  }

  /** The end of `do_request`: the file name, then the checks on what
      `stat` reports of it. */
  function Route(docRoot: seq<char>, url: seq<char>, c: char, realFile: seq<char>,
                 users: Users, fs: FileSystem): (r: Resolution)
    requires RootFits(docRoot) && |realFile| == FILENAME_LEN
    ensures r.realFile == FileName(docRoot, url, c, realFile) && r.url == url && r.users == users
    ensures r.code == Classify(fs, CString(r.realFile))
    ensures r.stat.Some? <==> CString(r.realFile) in fs
    ensures r.stat.Some? ==> r.stat.value == fs[CString(r.realFile)]
  {
    var file := FileName(docRoot, url, c, realFile);
    var path := CString(file);
    Resolution(Classify(fs, path), url, users, file, if path in fs then Some(fs[path]) else None)
  }

  /** How the first part of `do_request` leaves things: the form body
      could not be read, or the (possibly rewritten) target, the character
      that selects a fixed page, the file name buffer and the table. */
  datatype Prepared =
    | Refused(realFile: seq<char>)
    | Ready(url: seq<char>, c: char, realFile: seq<char>, users: Users)

  /** The first part of `do_request`: the root is copied into the file
      name buffer and `p` is fixed on the last '/' of the target. On a
      login or registration target of a POST, the name after "/" and the
      target from its third character is copied after the root, the form is
      read and checked, and the character after `p` is read again from the
      rewritten target. */
  function Prepare(docRoot: seq<char>, url: seq<char>, cgi: bool, body: Option<seq<char>>,
                   realFile: seq<char>, users: Users, sqlOk: bool): (r: Prepared)
    requires RootFits(docRoot) && Request.IsTarget(url) && |realFile| == FILENAME_LEN
    ensures |r.realFile| == FILENAME_LEN && r.realFile[..|docRoot|] == docRoot
    ensures r.Ready? ==> Request.IsTarget(r.url)
    ensures r.Ready? ==> Extends(users, r.users)
  {
    var rooted := StrCpy(realFile, 0, docRoot);
    var p := LastIndexOf(url, '/');
    var c := CharAt(url, p + 1);
    if cgi && (c == '2' || c == '3') then FormCheck(docRoot, url, p, body, rooted, users, sqlOk)
    else Ready(url, c, rooted, users)
  }

  /** The login or registration branch of Prepare, with `p` the last '/'
      of the target and `rooted` the buffer holding the root: the scratch
      name is written after the root, then the form is read and checked. */
  function FormCheck(docRoot: seq<char>, url: seq<char>, p: nat, body: Option<seq<char>>,
                     rooted: seq<char>, users: Users, sqlOk: bool): (r: Prepared)
    requires RootFits(docRoot) && |rooted| == FILENAME_LEN && rooted[..|docRoot|] == docRoot
    requires p + 1 < |url| && (url[p + 1] == '2' || url[p + 1] == '3')
    ensures |r.realFile| == FILENAME_LEN && r.realFile[..|docRoot|] == docRoot
    ensures r.Ready? ==> Request.IsTarget(r.url)
    ensures r.Ready? ==> Extends(users, r.users)
  {
    var len := |docRoot|;
    var scratch := StrNCpy(rooted, len, "/" + url[2..], FILENAME_LEN - len - 1);
    var form := if body.Some? then ExtractForm(body.value) else None;
    if form.None? then Refused(scratch)
    else
      var auth := Authenticate(url[p + 1], form.value, users, sqlOk);
      Ready(auth.1, CharAfterRewrite(url, auth.1, p + 1), scratch, auth.0)
  }

  /** The two outcomes of FormCheck, by whether the form could be read. */
  lemma FormCheckOutcome(docRoot: seq<char>, url: seq<char>, p: nat, body: Option<seq<char>>,
                         rooted: seq<char>, users: Users, sqlOk: bool)
    requires RootFits(docRoot) && |rooted| == FILENAME_LEN && rooted[..|docRoot|] == docRoot
    requires p + 1 < |url| && (url[p + 1] == '2' || url[p + 1] == '3')
    ensures var r := FormCheck(docRoot, url, p, body, rooted, users, sqlOk);
            var scratch := StrNCpy(rooted, |docRoot|, "/" + url[2..], FILENAME_LEN - |docRoot| - 1);
            var form := if body.Some? then ExtractForm(body.value) else None;
            && (form.None? ==> r == Refused(scratch))
            && (form.Some? ==>
                  var auth := Authenticate(url[p + 1], form.value, users, sqlOk);
                  r == Ready(auth.1, CharAfterRewrite(url, auth.1, p + 1), scratch, auth.0))
  { }

  /** The size of the block `do_request` allocates at line 393 to hold
      the rewritten target of a form request. */
  const SCRATCH_LEN := 200

  /** The source as written at lines 393-395: '/' and the target from its
      third character on, with the terminator, are copied into a block of
      SCRATCH_LEN bytes whatever the target's length. FormCheck keeps the
      whole rewritten target and cuts it only where line 396 does. */
  predicate ScratchOverruns(url: seq<char>)
    requires |url| >= 2
  {
    |"/" + url[2..]| + 1 > SCRATCH_LEN
  }

  /** A POST line whose 201-character target selects the login check is
      accepted by the request line parser and then overruns the scratch
      block. */
  lemma ScratchOverrunReachable()
    ensures var url := "/2" + seq(199, _ => 'a');
      && Request.ParseRequestLine("POST " + url + " HTTP/1.1") == Request.Accepted(Request.POST, url)
      && Selector(url) == '2'
      && ScratchOverruns(url)
  {
    var url := "/2" + seq(199, _ => 'a');
    assert forall i :: 2 <= i < |url| ==> url[i] == 'a';
    PlainPostAccepted(url);
  }

  /** A POST line for a target that begins with '/' and has no blank, NUL
      or further '/' in it is accepted with that target, whose selector is
      its second character. */
  lemma PlainPostAccepted(url: seq<char>)
    requires |url| > 1 && url[0] == '/'
    requires forall i :: 1 <= i < |url| ==> url[i] != '/' && url[i] != NUL && !IsBlank(url[i])
    ensures Request.ParseRequestLine("POST " + url + " HTTP/1.1") == Request.Accepted(Request.POST, url)
    ensures Request.IsTarget(url) && Selector(url) == url[1]
  {
    assert Request.NoBlank(url) && NoNul(url);
    assert "POST " + url + " HTTP/1.1" == "POST" + " " + url + " " + "HTTP/1.1";
    assert !StartsWithIgnoreCase(url, "http://") by {
      if |url| >= 7 {
        assert Lower(url[..7][0]) != Lower("http://"[0]);
      }
    }
    assert !StartsWithIgnoreCase(url, "https://") by {
      if |url| >= 8 {
        assert Lower(url[..8][0]) != Lower("https://"[0]);
      }
    }
    Request.RequestLineTokens("POST", " ", url, " ", "HTTP/1.1");
    assert LastIndexOf(url, '/') == 0;
  }

  /** `do_request`. `body` is the memory `m_string` points at (to the end
      of the read buffer), `None` when no body was seen; `realFile` is the
      file name buffer as the request found it; `sqlOk` is the database's
      answer to the insertion a registration makes. */
  function Resolve(docRoot: seq<char>, url: seq<char>, cgi: bool, body: Option<seq<char>>,
                   realFile: seq<char>, users: Users, sqlOk: bool, fs: FileSystem): (r: Resolution)
    requires RootFits(docRoot) && Request.IsTarget(url) && |realFile| == FILENAME_LEN
    ensures |r.realFile| == FILENAME_LEN && Request.IsTarget(r.url)
    ensures r.code == BAD_REQUEST || r.code == NO_RESOURCE || r.code == FORBIDDEN_REQUEST || r.code == FILE_REQUEST
    ensures r.code == FILE_REQUEST ==>
      && r.stat.Some? && CString(r.realFile) in fs && fs[CString(r.realFile)] == r.stat.value
      && Readable(r.stat.value) && !IsDir(r.stat.value)
    ensures r.code == NO_RESOURCE ==> r.stat == None && CString(r.realFile) !in fs
    ensures r.stat.Some? ==> CString(r.realFile) in fs && r.stat.value == fs[CString(r.realFile)]
    ensures Extends(users, r.users)
  {
    match Prepare(docRoot, url, cgi, body, realFile, users, sqlOk)
    case Refused(file) => Resolution(BAD_REQUEST, url, users, file, None)
    case Ready(url', c, file, users') => Route(docRoot, url', c, file, users', fs)
  }

  /** Routing does not look at the table; it only passes it on. */
  lemma RouteIgnoresUsers(docRoot: seq<char>, url: seq<char>, c: char, realFile: seq<char>,
                          users: Users, fs: FileSystem)
    requires RootFits(docRoot) && |realFile| == FILENAME_LEN
    ensures Route(docRoot, url, c, realFile, users, fs) == Route(docRoot, url, c, realFile, map[], fs).(users := users)
  { }

  // ---------------------------------------------------------------- properties

  predicate Zeroed(mem: seq<char>) { forall i :: 0 <= i < |mem| ==> mem[i] == NUL }

  /** `strcpy` of the root into a cleared buffer, then `strncpy` of `s`
      with room `n`: the path is the root followed by `s` cut to `n`. */
  lemma {:induction false} RootedPath(docRoot: seq<char>, realFile: seq<char>, s: seq<char>, n: nat)
    requires NoNul(docRoot) && NoNul(s) && |realFile| == FILENAME_LEN && Zeroed(realFile)
    requires |docRoot| + n < FILENAME_LEN
    ensures CString(StrNCpy(StrCpy(realFile, 0, docRoot), |docRoot|, s, n))
         == docRoot + (if |s| < n then s else s[..n])
  {
    var len := |docRoot|;
    var rooted := StrCpy(realFile, 0, docRoot);
    var m := if |s| < n then |s| else n;
    CStringOfNoNul(s, []);
    assert s + [] == s;
    var tail := seq(n - m, _ => NUL) + rooted[len + n..];
    assert rooted[len + n] == NUL;
    assert tail != [] && tail[0] == NUL;
    var file := StrNCpy(rooted, len, s, n);
    assert file == docRoot + s[..m] + tail by {
      assert rooted[..len] == docRoot;
    }
    assert NoNul(s[..m]) by { assert forall j :: 0 <= j < m ==> s[..m][j] == s[j]; }
    NoNulAppend(docRoot, s[..m]);
    CStringOfNoNul(docRoot + s[..m], tail);
    assert docRoot + s[..m] + tail == (docRoot + s[..m]) + tail;
    if m == |s| { assert s[..m] == s; }
  }

  /** A fixed page exactly fills the space it is copied into (no
      terminator), so in a cleared buffer the path is the root followed by
      the page. */
  lemma {:induction false} RootedPage(docRoot: seq<char>, realFile: seq<char>, page: seq<char>)
    requires NoNul(docRoot) && NoNul(page) && |realFile| == FILENAME_LEN && Zeroed(realFile)
    requires |docRoot| + |page| < FILENAME_LEN
    ensures CString(StrNCpy(StrCpy(realFile, 0, docRoot), |docRoot|, page, |page|)) == docRoot + page
  {
    var len := |docRoot|;
    var rooted := StrCpy(realFile, 0, docRoot);
    CStringOfNoNul(page, []);
    assert page + [] == page;
    var file := StrNCpy(rooted, len, page, |page|);
    var tail := rooted[len + |page|..];
    assert tail[0] == NUL;
    assert file == docRoot + page + tail by {
      assert rooted[..len] == docRoot;
      assert page[..|page|] == page;
      assert seq(0, _ => NUL) == [];
    }
    NoNulAppend(docRoot, page);
    CStringOfNoNul(docRoot + page, tail);
  }

  /** Outside the form checks, a request for one of the fixed pages serves
      that page from under the root; the table and the target are untouched. */
  lemma {:induction false} RoutesFixedPage(docRoot: seq<char>, url: seq<char>, cgi: bool, body: Option<seq<char>>,
                                           realFile: seq<char>, users: Users, sqlOk: bool, fs: FileSystem)
    requires RootFits(docRoot) && Request.IsTarget(url) && |realFile| == FILENAME_LEN && Zeroed(realFile)
    requires |docRoot| + |"/register.html"| < FILENAME_LEN
    requires !(cgi && (Selector(url) == '2' || Selector(url) == '3')) && Page(Selector(url)).Some?
    ensures var c := Selector(url);
            var r := Resolve(docRoot, url, cgi, body, realFile, users, sqlOk, fs);
            && r.users == users && r.url == url && r.code == Classify(fs, CString(r.realFile))
            && CString(r.realFile) == docRoot + Page(c).value
  {
    var c := Selector(url);
    var r := Resolve(docRoot, url, cgi, body, realFile, users, sqlOk, fs);
    ResolveOutsideForms(docRoot, url, cgi, body, realFile, users, sqlOk, fs);
    assert r.realFile == FileName(docRoot, url, c, StrCpy(realFile, 0, docRoot));
    FixedPageName(docRoot, url, c, realFile);
  }

  /** A fixed page is written after the root whole. */
  lemma FixedPageName(docRoot: seq<char>, url: seq<char>, c: char, realFile: seq<char>)
    requires RootFits(docRoot) && |realFile| == FILENAME_LEN && Zeroed(realFile)
    requires |docRoot| + |"/register.html"| < FILENAME_LEN && Page(c).Some?
    ensures CString(FileName(docRoot, url, c, StrCpy(realFile, 0, docRoot))) == docRoot + Page(c).value
  {
    var page := Page(c).value;
    PageShape(c);
    assert FileName(docRoot, url, c, StrCpy(realFile, 0, docRoot)) == StrNCpy(StrCpy(realFile, 0, docRoot), |docRoot|, page, |page|);
    RootedPage(docRoot, realFile, page);
  }

  /** Outside the form checks, the first part of `do_request` only copies
      the root, so the result is the routing of the target itself. */
  lemma ResolveOutsideForms(docRoot: seq<char>, url: seq<char>, cgi: bool, body: Option<seq<char>>,
                            realFile: seq<char>, users: Users, sqlOk: bool, fs: FileSystem)
    requires RootFits(docRoot) && Request.IsTarget(url) && |realFile| == FILENAME_LEN
    requires !(cgi && (Selector(url) == '2' || Selector(url) == '3'))
    ensures var c := Selector(url);
            Resolve(docRoot, url, cgi, body, realFile, users, sqlOk, fs)
            == Route(docRoot, url, c, StrCpy(realFile, 0, docRoot), users, fs)
  {
    var c := Selector(url);
    assert Prepare(docRoot, url, cgi, body, realFile, users, sqlOk) == Ready(url, c, StrCpy(realFile, 0, docRoot), users);
  }

  /** Outside the form checks, any other target is served from under the
      root, cut to the space the file name buffer leaves after it. */
  lemma {:induction false} RoutesDefault(docRoot: seq<char>, url: seq<char>, cgi: bool, body: Option<seq<char>>,
                                         realFile: seq<char>, users: Users, sqlOk: bool, fs: FileSystem)
    requires RootFits(docRoot) && Request.IsTarget(url) && |realFile| == FILENAME_LEN && Zeroed(realFile)
    requires !(cgi && (Selector(url) == '2' || Selector(url) == '3')) && Page(Selector(url)).None?
    ensures var r := Resolve(docRoot, url, cgi, body, realFile, users, sqlOk, fs);
            var room := FILENAME_LEN - |docRoot| - 1;
            && r.users == users && r.url == url && r.code == Classify(fs, CString(r.realFile))
            && CString(r.realFile) == docRoot + (if |url| < room then url else url[..room])
  {
    var c := Selector(url);
    var r := Resolve(docRoot, url, cgi, body, realFile, users, sqlOk, fs);
    ResolveOutsideForms(docRoot, url, cgi, body, realFile, users, sqlOk, fs);
    assert r.realFile == FileName(docRoot, url, c, StrCpy(realFile, 0, docRoot));
    DefaultName(docRoot, url, c, realFile);
  }

  /** A target that selects no fixed page is written after the root, cut
      to the room left. */
  lemma DefaultName(docRoot: seq<char>, url: seq<char>, c: char, realFile: seq<char>)
    requires RootFits(docRoot) && NoNul(url) && |realFile| == FILENAME_LEN && Zeroed(realFile)
    requires Page(c).None?
    ensures var room := FILENAME_LEN - |docRoot| - 1;
            CString(FileName(docRoot, url, c, StrCpy(realFile, 0, docRoot)))
            == docRoot + (if |url| < room then url else url[..room])
  {
    var room := FILENAME_LEN - |docRoot| - 1;
    assert FileName(docRoot, url, c, StrCpy(realFile, 0, docRoot)) == StrNCpy(StrCpy(realFile, 0, docRoot), |docRoot|, url, room);
    RootedPath(docRoot, realFile, url, room);
  }

  /** After a form check the target is one of the verdict pages; the
      character re-read after the last '/' of the old target then selects
      no fixed page. */
  lemma VerdictSelectsNoPage(url: seq<char>, url': seq<char>, i: nat)
    requires url' in VERDICTS && i <= |url|
    requires i < |url| ==> url[i] == '2' || url[i] == '3'
    ensures Page(CharAfterRewrite(url, url', i)).None?
  {
    VerdictShape(url');
  }

  /** `strncpy` of a string shorter than the room it is given pads with
      NUL, so the path is what precedes the copy followed by the string. */
  lemma {:induction false} PaddedCopy(docRoot: seq<char>, s: seq<char>, mem: seq<char>, n: nat)
    requires NoNul(docRoot) && NoNul(s) && |s| < n && |docRoot| + n <= |mem|
    requires mem[..|docRoot|] == docRoot
    ensures CString(StrNCpy(mem, |docRoot|, s, n)) == docRoot + s
  {
    var len := |docRoot|;
    CStringOfNoNul(s, []);
    assert s + [] == s;
    var tail := seq(n - |s|, _ => NUL) + mem[len + n..];
    assert tail[0] == NUL;
    assert StrNCpy(mem, len, s, n) == docRoot + s + tail by {
      assert s[..|s|] == s;
    }
    NoNulAppend(docRoot, s);
    CStringOfNoNul(docRoot + s, tail);
  }

  /** A name without a NUL that leaves room after the root is copied
      padded, so the path is the root followed by the name, whatever the
      buffer held. */
  lemma PaddedName(docRoot: seq<char>, name: seq<char>, c: char, scratch: seq<char>)
    requires RootFits(docRoot) && |scratch| == FILENAME_LEN && scratch[..|docRoot|] == docRoot
    requires NoNul(name) && |docRoot| + |name| < FILENAME_LEN - 1 && Page(c).None?
    ensures CString(FileName(docRoot, name, c, scratch)) == docRoot + name
  {
    var n := FILENAME_LEN - |docRoot| - 1;
    assert FileName(docRoot, name, c, scratch) == StrNCpy(scratch, |docRoot|, name, n);
    PaddedCopy(docRoot, name, scratch, n);
  }

  /** A readable form on a login or registration target ends with the
      verdict of the check served from under the root. */
  lemma {:induction false} FormVerdictServed(flag: char, docRoot: seq<char>, url: seq<char>, mem: seq<char>,
                                             realFile: seq<char>, users: Users, sqlOk: bool, fs: FileSystem)
    requires RootFits(docRoot) && Request.IsTarget(url) && |realFile| == FILENAME_LEN
    requires |docRoot| + |"/registerError.html"| < FILENAME_LEN - 1
    requires flag == '2' || flag == '3'
    requires Selector(url) == flag
    requires ExtractForm(mem).Some?
    ensures var r := Resolve(docRoot, url, true, Some(mem), realFile, users, sqlOk, fs);
            && (r.users, r.url) == Authenticate(flag, ExtractForm(mem).value, users, sqlOk)
            && CString(r.realFile) == docRoot + r.url
  {
    var p := LastIndexOf(url, '/');
    var (users', url') := Authenticate(flag, ExtractForm(mem).value, users, sqlOk);
    var scratch := FormCheck(docRoot, url, p, Some(mem), StrCpy(realFile, 0, docRoot), users, sqlOk).realFile;
    var c' := CharAfterRewrite(url, url', p + 1);
    ResolveForm(docRoot, url, mem, realFile, users, sqlOk, fs);
    VerdictSelectsNoPage(url, url', p + 1);
    assert NoNul(url') && |url'| <= |"/registerError.html"| by {
      VerdictShape(url');
    }
    PaddedName(docRoot, url', c', scratch);
  }

  /** On a login or registration target with a readable form, the result
      is the routing of the verdict page, with the character re-read after
      the old last '/', over the scratch file name. */
  lemma ResolveForm(docRoot: seq<char>, url: seq<char>, mem: seq<char>,
                    realFile: seq<char>, users: Users, sqlOk: bool, fs: FileSystem)
    requires RootFits(docRoot) && Request.IsTarget(url) && |realFile| == FILENAME_LEN
    requires Selector(url) == '2' || Selector(url) == '3'
    requires ExtractForm(mem).Some?
    ensures var p := LastIndexOf(url, '/');
            var auth := Authenticate(url[p + 1], ExtractForm(mem).value, users, sqlOk);
            var prepared := FormCheck(docRoot, url, p, Some(mem), StrCpy(realFile, 0, docRoot), users, sqlOk);
            && prepared == Ready(auth.1, CharAfterRewrite(url, auth.1, p + 1), prepared.realFile, auth.0)
            && Resolve(docRoot, url, true, Some(mem), realFile, users, sqlOk, fs)
               == Route(docRoot, auth.1, CharAfterRewrite(url, auth.1, p + 1), prepared.realFile, auth.0, fs)
  {
    var p := LastIndexOf(url, '/');
    var prepared := FormCheck(docRoot, url, p, Some(mem), StrCpy(realFile, 0, docRoot), users, sqlOk);
    assert Prepare(docRoot, url, true, Some(mem), realFile, users, sqlOk) == prepared;
  }

  /** Logging in ('2' after the last '/' of a form target): the table is
      untouched, the welcome page is served exactly when the name is
      registered with that password, and the error page otherwise. */
  lemma LoginOutcome(docRoot: seq<char>, url: seq<char>, mem: seq<char>, realFile: seq<char>,
                     users: Users, sqlOk: bool, fs: FileSystem)
    requires RootFits(docRoot) && Request.IsTarget(url) && |realFile| == FILENAME_LEN
    requires |docRoot| + |"/registerError.html"| < FILENAME_LEN - 1
    requires Selector(url) == '2'
    requires ExtractForm(mem).Some?
    ensures var form := ExtractForm(mem).value;
            var r := Resolve(docRoot, url, true, Some(mem), realFile, users, sqlOk, fs);
            && r.users == users
            && (r.url == "/welcome.html" <==> form.name in users && users[form.name] == form.password)
            && (r.url != "/welcome.html" ==> r.url == "/logError.html")
            && CString(r.realFile) == docRoot + r.url
  {
    FormVerdictServed('2', docRoot, url, mem, realFile, users, sqlOk, fs);
  }

  /** Registering ('3'): a new name is added with its password, whatever
      the database answers, and the login page is served exactly when the
      database accepted the insertion; a name already taken changes
      nothing and serves the registration error page. */
  lemma RegisterOutcome(docRoot: seq<char>, url: seq<char>, mem: seq<char>, realFile: seq<char>,
                        users: Users, sqlOk: bool, fs: FileSystem)
    requires RootFits(docRoot) && Request.IsTarget(url) && |realFile| == FILENAME_LEN
    requires |docRoot| + |"/registerError.html"| < FILENAME_LEN - 1
    requires Selector(url) == '3'
    requires ExtractForm(mem).Some?
    ensures var form := ExtractForm(mem).value;
            var r := Resolve(docRoot, url, true, Some(mem), realFile, users, sqlOk, fs);
            && (form.name !in users ==> r.users == users[form.name := form.password]
                                        && (r.url == "/log.html" <==> sqlOk))
            && (form.name in users ==> r.users == users && r.url == "/registerError.html")
            && CString(r.realFile) == docRoot + r.url
  {
    FormVerdictServed('3', docRoot, url, mem, realFile, users, sqlOk, fs);
  }

  /** A form target whose body cannot be scanned safely is refused before
      the table is consulted. */
  lemma MalformedFormRefused(docRoot: seq<char>, url: seq<char>, body: Option<seq<char>>,
                             realFile: seq<char>, users: Users, sqlOk: bool, fs: FileSystem)
    requires RootFits(docRoot) && Request.IsTarget(url) && |realFile| == FILENAME_LEN
    requires Selector(url) == '2' || Selector(url) == '3'
    requires body.None? || FormScanOverruns(body.value)
    ensures var r := Resolve(docRoot, url, true, body, realFile, users, sqlOk, fs);
            r.code == BAD_REQUEST && r.users == users && r.url == url && r.stat == None
  {
    var len := |docRoot|;
    var rooted := StrCpy(realFile, 0, docRoot);
    var scratch := StrNCpy(rooted, len, "/" + url[2..], FILENAME_LEN - len - 1);
    assert body.Some? ==> ExtractForm(body.value).None?;
    assert Prepare(docRoot, url, true, body, realFile, users, sqlOk) == Refused(scratch);
  }
}
