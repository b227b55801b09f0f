/** do_request of http/http_conn.cpp: the login and registration checks of
    the CGI targets, the page routes selected by the character after the
    last '/' of the target, and the classification of the file the target
    names. The user table is a map; the database insert, a function of the
    request the model cannot see, is the parameter `insertOk`; the file
    system that stat consults is a map from paths to file information. */
module Router {
  import opened Common
  import opened CString
  import opened HttpDefs

  /** doc_root: the site directory every file path starts with. */
  const DOC_ROOT: string := "/root/intrv/webservnote/root"

  /** What stat reports of a file: a directory or not, whether others may
      read it (S_IROTH), and st_size. */
  datatype FileInfo = FileInfo(isDir: bool, worldReadable: bool, size: nat)

  type FileSystem = map<string, FileInfo>

  /** The user table: user names to passwords. */
  type Users = map<string, string>

  /** The strncpy bound of the file part of m_real_file: FILENAME_LEN - len - 1. */
  const FILE_PART: nat := FILENAME_LEN - |DOC_ROOT| - 1

  /** The pages of the numbered targets. */
  const REGISTER_PAGE: string := "/register.html"
  const LOG_PAGE: string := "/log.html"
  const PICTURE_PAGE: string := "/picture.html"
  const VIDEO_PAGE: string := "/video.html"
  const FANS_PAGE: string := "/fans.html"
  const REGISTER_ERROR_PAGE: string := "/registerError.html"
  const WELCOME_PAGE: string := "/welcome.html"
  const LOG_ERROR_PAGE: string := "/logError.html"

  /** The page a route character selects; None for every other character. */
  function PageOf(c: char): (r: Option<string>)
    ensures r.Some? <==> c in {'0', '1', '5', '6', '7'}
    ensures r.Some? ==> 0 < |r.value| < FILE_PART && NUL !in r.value && r.value[0] == '/'
  {
    if c == '0' then Some(REGISTER_PAGE)
    else if c == '1' then Some(LOG_PAGE)
    else if c == '5' then Some(PICTURE_PAGE)
    else if c == '6' then Some(VIDEO_PAGE)
    else if c == '7' then Some(FANS_PAGE)
    else None
  }

  /** The first position at or after `i` holding `c`, or the end of `s`:
      the name loop of do_request looks for '&' without stopping at a NUL. */
  function ScanTo(s: seq<char>, i: nat, c: char): (j: nat)
    requires i <= |s|
    ensures i <= j <= |s|
    ensures forall k :: i <= k < j ==> s[k] != c
    ensures j < |s| ==> s[j] == c
    decreases |s| - i
  {
    if i == |s| || s[i] == c then i else ScanTo(s, i + 1, c)
  }

  /** The user name and password of a form body at m_string `s`: the name
      runs from s + 5 (past "user=") to the first '&', and is read as a
      C string; the password starts ten bytes after the '&' (past
      "&password=") and runs to the next NUL. */
  function Credentials(buf: seq<char>, body: Option<nat>): (r: (string, string))
    requires InBody(buf, body)
    ensures NUL !in r.0 && NUL !in r.1
  {
    if body.None? then ("", "")
    else
      var start := Min(body.value + 5, |buf|);
      var amp := ScanTo(buf, start, '&');
      (CStr(buf[start..amp], 0), if amp + 10 <= |buf| then CStr(buf, amp + 10) else "")
  }

  predicate InBody(buf: seq<char>, body: Option<nat>)
  {
    body.Some? ==> body.value <= |buf|
  }

  /** Registration: a name not yet in the table is inserted with its
      password, whatever the database answered; the page is the login page
      when the insert succeeded. A name already there changes nothing. */
  function Register(users: Users, name: string, password: string, insertOk: bool): (r: (Users, string))
    ensures name !in users ==> r.0 == users[name := password]
    ensures name in users ==> r.0 == users
    ensures r.1 == (if name !in users && insertOk then LOG_PAGE else REGISTER_ERROR_PAGE)
  {
    if name !in users then (users[name := password], if insertOk then LOG_PAGE else REGISTER_ERROR_PAGE)
    else (users, REGISTER_ERROR_PAGE)
  }

  /** Login: the welcome page exactly when the table holds the name with
      that password. */
  function Login(users: Users, name: string, password: string): (page: string)
    ensures page == WELCOME_PAGE <==> name in users && users[name] == password
    ensures page == WELCOME_PAGE || page == LOG_ERROR_PAGE
    ensures NUL !in page && |WELCOME_PAGE| <= |page| <= |LOG_ERROR_PAGE|
  {
    if name in users && users[name] == password then WELCOME_PAGE else LOG_ERROR_PAGE
  }

  /** The result of do_request and the state it leaves: the request buffer
      (m_url may have been overwritten), m_real_file, the user table, and
      m_file_stat once stat succeeded. */
  datatype Routed = Routed(code: HttpCode, buf: seq<char>, realFile: seq<char>, users: Users, stat: Option<FileInfo>)

  /** The character after the last '/' of the target; NUL when it has no
      '/'. `slash` is the position of that '/'. */
  function RouteChar(buf: seq<char>, slash: Option<nat>): (c: char)
    ensures slash.Some? && slash.value + 1 < |buf| ==> c == buf[slash.value + 1]
    ensures slash.None? || slash.value + 1 >= |buf| ==> c == NUL
  {
    if slash.None? then NUL else At(buf, slash.value + 1)
  }

  /** The file part of m_real_file for the CGI targets: "/" followed by the
      target from its third byte. */
  function CgiFilePart(buf: seq<char>, url: nat): (r: seq<char>)
    requires url <= |buf|
    ensures |r| == FILE_PART && r[0] == '/'
  {
    StrNCpyBytes("/" + CStr(buf, Min(url + 2, |buf|)), FILE_PART)
  }

  /** The CGI part of do_request, for route character '2' (login) or '3'
      (registration): m_real_file gets its file part, the credentials are
      checked, and the page chosen is copied over the target. */
  function CgiStep(buf: seq<char>, url: nat, c: char, body: Option<nat>, rf: seq<char>, users: Users, insertOk: bool):
    (r: (seq<char>, seq<char>, Users))
    requires url <= |buf| && InBody(buf, body) && |rf| == FILENAME_LEN
    ensures |r.0| == |buf| && |r.1| == FILENAME_LEN && r.1[..|DOC_ROOT|] == rf[..|DOC_ROOT|]
    ensures r.1[FILENAME_LEN - 1] == rf[FILENAME_LEN - 1]
    ensures var (name, password) := Credentials(buf, body);
            var page := if c == '3' then Register(users, name, password, insertOk).1 else Login(users, name, password);
            r.0 == Overwrite(buf, url, StrCpyBytes(page)) &&
            r.2 == (if c == '3' then Register(users, name, password, insertOk).0 else users)
  {
    var rf1 := Overwrite(rf, |DOC_ROOT|, CgiFilePart(buf, url));
    var (name, password) := Credentials(buf, body);
    var (users1, page) := if c == '3' then Register(users, name, password, insertOk) else (users, Login(users, name, password));
    (Overwrite(buf, url, StrCpyBytes(page)), rf1, users1)
  }

  /** The file part chosen after the CGI step, by the character now after
      the '/' found before it: a numbered page (copied without its NUL), or
      the target itself, at most FILE_PART bytes of it, padded with NULs. */
  function FilePart(buf: seq<char>, url: nat, c: char): (r: seq<char>)
    requires url <= |buf|
    ensures PageOf(c).Some? ==> r == PageOf(c).value
    ensures PageOf(c).None? ==> r == StrNCpyBytes(CStr(buf, url), FILE_PART)
  {
    if PageOf(c).Some? then PageOf(c).value else StrNCpyBytes(CStr(buf, url), FILE_PART)
  }

  /** The stat checks in their order: a missing file, then one others may
      not read, then a directory; anything else is served. */
  function Resolve(files: FileSystem, path: string): (r: (HttpCode, Option<FileInfo>))
    ensures IsResolution(r.0)
    ensures r.0 == NO_RESOURCE <==> path !in files
    ensures r.0 == FORBIDDEN_REQUEST <==> path in files && !files[path].worldReadable
    ensures r.0 == BAD_REQUEST <==> path in files && files[path].worldReadable && files[path].isDir
    ensures r.0 == FILE_REQUEST <==> path in files && files[path].worldReadable && !files[path].isDir
    ensures r.1 == (if path in files then Some(files[path]) else None)
  {
    if path !in files then (NO_RESOURCE, None)
    else if !files[path].worldReadable then (FORBIDDEN_REQUEST, Some(files[path]))
    else if files[path].isDir then (BAD_REQUEST, Some(files[path]))
    else (FILE_REQUEST, Some(files[path]))
  }

  /** m_real_file after strcpy of doc_root: the root and its NUL, the
      rest as it was. */
  function RootedFile(rf: seq<char>): (r: seq<char>)
    requires |rf| == FILENAME_LEN
    ensures |r| == FILENAME_LEN && CStr(r, 0) == DOC_ROOT
    ensures r[..|DOC_ROOT|] == DOC_ROOT && r[|DOC_ROOT|] == NUL && r[|DOC_ROOT| + 1..] == rf[|DOC_ROOT| + 1..]
  {
    CStrOfStored(rf, 0, DOC_ROOT);
    Overwrite(rf, 0, StrCpyBytes(DOC_ROOT))
  }

  /** do_request. `url` is m_url, `cgi` the flag set by a POST request line,
      `body` m_string, `rf` the current m_real_file. The '/' is found once;
      the route character is read at the same place before and after the
      CGI step, which may have replaced the target. */
  function DoRequest(buf: seq<char>, url: nat, cgi: int, body: Option<nat>, rf: seq<char>,
                     users: Users, insertOk: bool, files: FileSystem): (r: Routed)
    requires url <= |buf| && InBody(buf, body) && |rf| == FILENAME_LEN
    ensures |r.buf| == |buf| && |r.realFile| == FILENAME_LEN && IsResolution(r.code)
    ensures r.code == FILE_REQUEST ==> r.stat.Some? && !r.stat.value.isDir
    ensures !(cgi == 1 && RouteChar(buf, FindLast(buf, url, '/')) in {'2', '3'}) ==> r.buf == buf && r.users == users
  {
    var rf0 := RootedFile(rf);
    var slash := FindLast(buf, url, '/');
    var c := RouteChar(buf, slash);
    var (buf1, rf1, users1) :=
      if cgi == 1 && (c == '2' || c == '3') then CgiStep(buf, url, c, body, rf0, users, insertOk)
      else (buf, rf0, users);
    var (code, rf2, st) := Finish(buf1, url, slash, rf1, files);
    Routed(code, buf1, rf2, users1, st)
  }

  /** The end of do_request: the file part is stored after the root and the
      resulting path is looked up. */
  function Finish(buf: seq<char>, url: nat, slash: Option<nat>, rf: seq<char>, files: FileSystem):
    (r: (HttpCode, seq<char>, Option<FileInfo>))
    requires url <= |buf| && |rf| == FILENAME_LEN
    ensures |r.1| == FILENAME_LEN && IsResolution(r.0)
    ensures (r.0, r.2) == Resolve(files, CStr(r.1, 0))
  {
    var rf2 := Overwrite(rf, |DOC_ROOT|, FilePart(buf, url, RouteChar(buf, slash)));
    var (code, st) := Resolve(files, CStr(rf2, 0));
    (code, rf2, st)
  }

  // ---------------------------------------------------------------------
  // Properties

  /** m_real_file holding the root, with a file part stored after it whose
      first `e` bytes are no NUL and are followed by one, holds the path
      root + those bytes. */
  lemma RootedPath(rf: seq<char>, part: seq<char>, e: nat)
    requires |rf| == FILENAME_LEN && rf[..|DOC_ROOT|] == DOC_ROOT
    requires e <= |part| && |DOC_ROOT| + |part| <= FILENAME_LEN && NUL !in part[..e]
    requires |DOC_ROOT| + e < FILENAME_LEN && Overwrite(rf, |DOC_ROOT|, part)[|DOC_ROOT| + e] == NUL
    ensures CStr(Overwrite(rf, |DOC_ROOT|, part), 0) == DOC_ROOT + part[..e]
  {
    var r := Overwrite(rf, |DOC_ROOT|, part);
    var n := |DOC_ROOT|;
    assert r[..n] == DOC_ROOT;
    assert r[n..n + e] == part[..e];
    assert r[..n + e] == DOC_ROOT + part[..e];
    assert NUL !in DOC_ROOT;
    forall k | 0 <= k < n + e
      ensures r[k] != NUL
    {
      assert r[k] == r[..n + e][k];
    }
    CStrUpTo(r, 0, n + e);
  }

  /** The target itself as the file part: with m_real_file holding the root
      and ending in NUL, the path is the root followed by the target, cut to
      FILE_PART bytes. */
  lemma FinishPlain(buf: seq<char>, url: nat, slash: Option<nat>, rf: seq<char>, files: FileSystem)
    requires url <= |buf| && |rf| == FILENAME_LEN
    requires rf[..|DOC_ROOT|] == DOC_ROOT && rf[FILENAME_LEN - 1] == NUL
    requires PageOf(RouteChar(buf, slash)).None?
    ensures var t := CStr(buf, url);
            CStr(Finish(buf, url, slash, rf, files).1, 0) == DOC_ROOT + t[..Min(|t|, FILE_PART)]
  {
    var t := CStr(buf, url);
    var part := StrNCpyBytes(t, FILE_PART);
    var e := Min(|t|, FILE_PART);
    assert part[..e] == t[..e];
    RootedPath(rf, part, e);
  }

  /** The numbered page routes: with a fresh m_real_file, a target whose
      character after its last '/' is '0', '1', '5', '6' or '7' (and that
      is no CGI login or registration) names the page of that character
      under the root, whatever else the target says. */
  lemma PageRoutes(buf: seq<char>, url: nat, cgi: int, body: Option<nat>, users: Users, insertOk: bool, files: FileSystem, c: char)
    requires url <= |buf| && InBody(buf, body)
    requires c == RouteChar(buf, FindLast(buf, url, '/')) && PageOf(c).Some?
    ensures var r := DoRequest(buf, url, cgi, body, Nuls(FILENAME_LEN), users, insertOk, files);
            CStr(r.realFile, 0) == DOC_ROOT + PageOf(c).value &&
            r.code == Resolve(files, DOC_ROOT + PageOf(c).value).0 &&
            r.buf == buf && r.users == users
  {
    var page := PageOf(c).value;
    RootedPath(RootedFile(Nuls(FILENAME_LEN)), page, |page|);
    assert page[..|page|] == page;
  }

  /** Every other target that is no CGI login or registration names its own
      path under the root, cut to FILE_PART bytes. */
  lemma PlainRoute(buf: seq<char>, url: nat, cgi: int, body: Option<nat>, users: Users, insertOk: bool, files: FileSystem)
    requires url <= |buf| && InBody(buf, body)
    requires PageOf(RouteChar(buf, FindLast(buf, url, '/'))).None?
    requires !(cgi == 1 && RouteChar(buf, FindLast(buf, url, '/')) in {'2', '3'})
    ensures var r := DoRequest(buf, url, cgi, body, Nuls(FILENAME_LEN), users, insertOk, files);
            var t := CStr(buf, url);
            CStr(r.realFile, 0) == DOC_ROOT + t[..Min(|t|, FILE_PART)] &&
            r.code == Resolve(files, DOC_ROOT + t[..Min(|t|, FILE_PART)]).0
  {
    var rf0 := RootedFile(Nuls(FILENAME_LEN));
    assert rf0[FILENAME_LEN - 1] == rf0[|DOC_ROOT| + 1..][FILENAME_LEN - 1 - |DOC_ROOT| - 1];
    FinishPlain(buf, url, FindLast(buf, url, '/'), rf0, files);
  }

  /** The form body a browser sends for the login and registration pages,
      "user=<name>&password=<password>" ending in NUL, gives back that name
      and password. */
  lemma CredentialsOfForm(buf: seq<char>, s: nat, name: string, password: string)
    requires NUL !in name && '&' !in name && NUL !in password
    requires s + 16 + |name| + |password| <= |buf|
    requires buf[s..s + 5] == "user=" && buf[s + 5..s + 5 + |name|] == name
    requires buf[s + 5 + |name|..s + 15 + |name|] == "&password="
    requires buf[s + 15 + |name|..s + 15 + |name| + |password|] == password
    requires buf[s + 15 + |name| + |password|] == NUL
    ensures Credentials(buf, Some(s)) == (name, password)
  {
    var start := s + 5;
    var amp := start + |name|;
    assert buf[amp] == buf[amp..s + 15 + |name|][0];
    assert forall k :: start <= k < amp ==> buf[k] == name[k - start];
    ScanToAt(buf, start, amp, '&');
    CStrWhole(name);
    var e := amp + 10 + |password|;
    assert forall k :: amp + 10 <= k < e ==> buf[k] == password[k - amp - 10];
    CStrUpTo(buf, amp + 10, e);
  }

  /** ScanTo stops at the first occurrence. */
  lemma {:induction false} ScanToAt(s: seq<char>, i: nat, j: nat, c: char)
    requires i <= j < |s| && s[j] == c
    requires forall k :: i <= k < j ==> s[k] != c
    ensures ScanTo(s, i, c) == j
    decreases j - i
  {
    if i < j {
      ScanToAt(s, i + 1, j, c);
    }
  }

  /** A string without NUL read as a C string from its start is itself. */
  lemma CStrWhole(t: string)
    requires NUL !in t
    ensures CStr(t, 0) == t
  {
    StrEndPast(t, 0, |t|);
  }

  /** A user who has just registered can log in with the same password and
      not with any other. */
  lemma RegisterThenLogin(users: Users, name: string, password: string, insertOk: bool, other: string)
    requires name !in users && other != password
    ensures Login(Register(users, name, password, insertOk).0, name, password) == WELCOME_PAGE
    ensures Login(Register(users, name, password, insertOk).0, name, other) == LOG_ERROR_PAGE
  {
  }

  /** A second registration of a name leaves the table as the first left
      it, and is answered with the error page. */
  lemma RegisterTwice(users: Users, name: string, p1: string, p2: string, ok1: bool, ok2: bool)
    ensures var u1 := Register(users, name, p1, ok1).0;
            Register(u1, name, p2, ok2) == (u1, REGISTER_ERROR_PAGE)
  {
  }

  /** do_request on a CGI login or registration, step by step. */
  lemma DoRequestCgi(buf: seq<char>, url: nat, body: Option<nat>, rf: seq<char>, users: Users, insertOk: bool, files: FileSystem, slash: nat)
    requires url <= |buf| && InBody(buf, body) && |rf| == FILENAME_LEN
    requires FindLast(buf, url, '/') == Some(slash) && RouteChar(buf, Some(slash)) in {'2', '3'}
    ensures var s := CgiStep(buf, url, RouteChar(buf, Some(slash)), body, RootedFile(rf), users, insertOk);
            var f := Finish(s.0, url, Some(slash), s.1, files);
            DoRequest(buf, url, 1, body, rf, users, insertOk, files) == Routed(f.0, s.0, f.1, s.2, f.2)
  {
  }

  /** A page copied over the target by strcpy: the target reads as the page,
      and the route character, read at its old place, is a byte of it. */
  lemma StoredPage(buf: seq<char>, url: nat, page: string, slash: nat)
    requires NUL !in page && url + |page| < |buf| && url <= slash + 1 < url + |page|
    ensures CStr(Overwrite(buf, url, StrCpyBytes(page)), url) == page
    ensures RouteChar(Overwrite(buf, url, StrCpyBytes(page)), Some(slash)) == page[slash + 1 - url]
  {
    CStrOfStored(buf, url, page);
  }

  /** A CGI login or registration that stores `page` over the target: with
      a fresh m_real_file, unless a byte of the page at the old route
      position is itself a route character, the file served is that page
      under the root. */
  lemma CgiRoute(buf: seq<char>, url: nat, body: Option<nat>, users: Users, insertOk: bool, files: FileSystem,
                 slash: nat, page: string)
    requires url <= |buf| && InBody(buf, body)
    requires FindLast(buf, url, '/') == Some(slash) && RouteChar(buf, Some(slash)) in {'2', '3'}
    requires NUL !in page && |page| <= FILE_PART && url + |page| < |buf| && slash + 1 < url + |page|
    requires CgiStep(buf, url, RouteChar(buf, Some(slash)), body, RootedFile(Nuls(FILENAME_LEN)), users, insertOk).0
             == Overwrite(buf, url, StrCpyBytes(page))
    ensures var r := DoRequest(buf, url, 1, body, Nuls(FILENAME_LEN), users, insertOk, files);
            CStr(r.buf, url) == page &&
            (PageOf(page[slash + 1 - url]).None? ==> CStr(r.realFile, 0) == DOC_ROOT + page)
  {
    var rf0 := RootedFile(Nuls(FILENAME_LEN));
    DoRequestCgi(buf, url, body, Nuls(FILENAME_LEN), users, insertOk, files, slash);
    var s := CgiStep(buf, url, RouteChar(buf, Some(slash)), body, rf0, users, insertOk);
    StoredPage(buf, url, page, slash);
    assert rf0[FILENAME_LEN - 1] == rf0[|DOC_ROOT| + 1..][FILENAME_LEN - 1 - |DOC_ROOT| - 1];
    if PageOf(page[slash + 1 - url]).None? {
      FinishPlain(s.0, url, Some(slash), s.1, files);
      assert page[..Min(|page|, FILE_PART)] == page;
    }
  }

  /** The CGI login of "/2...": the target is replaced by the welcome page
      or the login error page, as the credentials match, the user table is
      unchanged, and m_real_file then names that page under the root. */
  lemma LoginRoute(buf: seq<char>, url: nat, body: Option<nat>, users: Users, insertOk: bool, files: FileSystem, slash: nat)
    requires url <= |buf| && InBody(buf, body)
    requires FindLast(buf, url, '/') == Some(slash) && RouteChar(buf, Some(slash)) == '2'
    requires slash + 1 < url + |WELCOME_PAGE| && url + |LOG_ERROR_PAGE| < |buf|
    ensures var page := Login(users, Credentials(buf, body).0, Credentials(buf, body).1);
            var r := DoRequest(buf, url, 1, body, Nuls(FILENAME_LEN), users, insertOk, files);
            CStr(r.buf, url) == page && r.users == users &&
            (PageOf(page[slash + 1 - url]).None? ==> CStr(r.realFile, 0) == DOC_ROOT + page)
  {
    var page := Login(users, Credentials(buf, body).0, Credentials(buf, body).1);
    CgiRoute(buf, url, body, users, insertOk, files, slash, page);
    DoRequestCgi(buf, url, body, Nuls(FILENAME_LEN), users, insertOk, files, slash);
  }

  /** The CGI registration of "/3...": the target is replaced by the login
      page when the name was new and the insert succeeded, by the
      registration error page otherwise; the table gains the name when it
      was new; m_real_file then names the page under the root. */
  lemma RegisterRoute(buf: seq<char>, url: nat, body: Option<nat>, users: Users, insertOk: bool, files: FileSystem, slash: nat)
    requires url <= |buf| && InBody(buf, body)
    requires FindLast(buf, url, '/') == Some(slash) && RouteChar(buf, Some(slash)) == '3'
    requires slash + 1 < url + |LOG_PAGE| && url + |REGISTER_ERROR_PAGE| < |buf|
    ensures var reg := Register(users, Credentials(buf, body).0, Credentials(buf, body).1, insertOk);
            var r := DoRequest(buf, url, 1, body, Nuls(FILENAME_LEN), users, insertOk, files);
            CStr(r.buf, url) == reg.1 && r.users == reg.0 &&
            (PageOf(reg.1[slash + 1 - url]).None? ==> CStr(r.realFile, 0) == DOC_ROOT + reg.1)
  {
    var page := Register(users, Credentials(buf, body).0, Credentials(buf, body).1, insertOk).1;
    assert NUL !in page && |LOG_PAGE| <= |page| <= |REGISTER_ERROR_PAGE|;
    CgiRoute(buf, url, body, users, insertOk, files, slash, page);
    DoRequestCgi(buf, url, body, Nuls(FILENAME_LEN), users, insertOk, files, slash);
  }
}
