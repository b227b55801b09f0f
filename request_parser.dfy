/** The request side of http_conn (http/http_conn.cpp): the line scanner
    parse_line, the three stage parsers and the loop of process_read that
    drives them, stated as functions on a snapshot of the parser's state.

    Pointers into m_read_buf (m_url, m_version, m_host, m_string and the
    `text` each stage parser is given) are offsets into the buffer `buf`. */
module RequestParser {
  import opened Common
  import opened CString
  import opened HttpDefs

  /** The fields of http_conn the request side reads and writes. */
  datatype Parse = Parse(
    buf: seq<char>,          // m_read_buf
    readIdx: nat,            // m_read_idx: bytes received so far
    checkedIdx: nat,         // m_checked_idx: bytes the line scanner has passed
    startLine: nat,          // m_start_line: where the next line begins
    state: CheckState,       // m_check_state
    meth: Method,            // m_method
    cgi: int,                // cgi: 1 once a POST request line was seen
    url: Option<nat>,        // m_url
    version: Option<nat>,    // m_version
    host: Option<nat>,       // m_host
    contentLength: int,      // m_content_length
    linger: bool,            // m_linger
    body: Option<nat>)       // m_string

  predicate InBuf(o: Option<nat>, n: nat)
  {
    o.Some? ==> o.value <= n
  }

  /** The bounds every state of the parser keeps: a full-size buffer, the
      line start behind the scanner, the scanner behind the received data,
      and every pointer within the buffer. */
  predicate Cursors(p: Parse)
  {
    |p.buf| == READ_BUFFER_SIZE &&
    p.startLine <= p.checkedIdx <= p.readIdx <= |p.buf| &&
    InBuf(p.url, |p.buf|) && InBuf(p.version, |p.buf|) &&
    InBuf(p.host, |p.buf|) && InBuf(p.body, |p.buf|)
  }

  /** m_url is set once the request line has been accepted. */
  predicate UrlSet(p: Parse)
  {
    p.state != CHECK_STATE_REQUESTLINE ==> p.url.Some?
  }

  predicate IsEol(c: char) { c == '\r' || c == '\n' }

  /** parse_line from m_checked_idx = `checked`: the outcome, the new
      m_checked_idx and the buffer after the CRLF of a complete line, if
      one is found, is overwritten with two NULs. */
  function ScanLine(buf: seq<char>, checked: nat, read: nat): (r: (LineStatus, nat, seq<char>))
    requires checked <= read <= |buf|
    ensures checked <= r.1 <= read && |r.2| == |buf|
    ensures r.0 != LINE_OK ==> r.2 == buf
    ensures r.0 == LINE_OPEN ==> r.1 == read || (r.1 + 1 == read && buf[r.1] == '\r')
    ensures r.0 == LINE_BAD ==>
              r.1 < read &&
              ((buf[r.1] == '\r' && r.1 + 1 < read && buf[r.1 + 1] != '\n') ||
               (buf[r.1] == '\n' && !(r.1 > 1 && buf[r.1 - 1] == '\r')))
    ensures r.0 == LINE_OK ==>
              checked < r.1 && 2 <= r.1 &&
              buf[r.1 - 2] == '\r' && buf[r.1 - 1] == '\n' &&
              r.2 == buf[r.1 - 2 := NUL][r.1 - 1 := NUL]
    ensures forall k :: checked <= k < (if r.0 == LINE_OK then r.1 - 2 else r.1) ==> !IsEol(buf[k])
    decreases read - checked
  {
    if checked == read then (LINE_OPEN, checked, buf)
    else if buf[checked] == '\r' then
      if checked + 1 == read then (LINE_OPEN, checked, buf)
      else if buf[checked + 1] == '\n' then (LINE_OK, checked + 2, buf[checked := NUL][checked + 1 := NUL])
      else (LINE_BAD, checked, buf)
    else if buf[checked] == '\n' then
      if checked > 1 && buf[checked - 1] == '\r' then (LINE_OK, checked + 1, buf[checked - 1 := NUL][checked := NUL])
      else (LINE_BAD, checked, buf)
    else ScanLine(buf, checked + 1, read)
  }

  /** A line is complete exactly when a CRLF lies ahead of the scanner:
      with no CR or LF in the unscanned bytes the scanner waits for more. */
  lemma ScanLineWaitsWithoutEol(buf: seq<char>, checked: nat, read: nat)
    requires checked <= read <= |buf|
    requires forall k :: checked <= k < read ==> !IsEol(buf[k])
    ensures ScanLine(buf, checked, read) == (LINE_OPEN, read, buf)
  {
    var r := ScanLine(buf, checked, read);
    if r.0 == LINE_BAD {
      assert IsEol(buf[r.1]);
    }
  }

  /** A CRLF ahead of the scanner, with no CR or LF before it, is found:
      the scanner stops just past it and both bytes become NUL. */
  lemma {:induction false} ScanLineFindsCrlf(buf: seq<char>, checked: nat, read: nat, e: nat)
    requires checked <= e && e + 1 < read <= |buf|
    requires buf[e] == '\r' && buf[e + 1] == '\n'
    requires forall k :: checked <= k < e ==> !IsEol(buf[k])
    ensures ScanLine(buf, checked, read) == (LINE_OK, e + 2, buf[e := NUL][e + 1 := NUL])
    decreases e - checked
  {
    if checked < e {
      ScanLineFindsCrlf(buf, checked + 1, read, e);
    }
  }

  /** A CR followed by another byte, or an LF without a CR before it, is
      malformed: the scanner stops on it and the buffer is left alone. */
  lemma {:induction false} ScanLineRejectsStrayEol(buf: seq<char>, checked: nat, read: nat, e: nat)
    requires checked <= e < read <= |buf|
    requires (buf[e] == '\r' && e + 1 < read && buf[e + 1] != '\n') ||
             (buf[e] == '\n' && !(e > 1 && buf[e - 1] == '\r'))
    requires forall k :: checked <= k < e ==> !IsEol(buf[k])
    ensures ScanLine(buf, checked, read) == (LINE_BAD, e, buf)
    decreases e - checked
  {
    if checked < e {
      ScanLineRejectsStrayEol(buf, checked + 1, read, e);
    }
  }

  /** The fields the request line leaves alone. */
  predicate KeepsOthers(p: Parse, q: Parse)
  {
    q.readIdx == p.readIdx && q.checkedIdx == p.checkedIdx && q.startLine == p.startLine &&
    q.host == p.host && q.contentLength == p.contentLength && q.linger == p.linger && q.body == p.body
  }

  /** What every outcome of parse_request_line satisfies: the bounds hold,
      only NO_REQUEST or BAD_REQUEST is answered, a rejected line leaves the
      state where it was, and an accepted one moves it to HEADER with m_url
      at a '/'. */
  predicate LineOutcome(p: Parse, r: (HttpCode, Parse))
  {
    Cursors(r.1) && KeepsOthers(p, r.1) &&
    (r.0 == NO_REQUEST || r.0 == BAD_REQUEST) &&
    (r.0 == BAD_REQUEST ==> r.1.state == p.state) &&
    (r.0 == NO_REQUEST ==>
       r.1.state == CHECK_STATE_HEADER && r.1.url.Some? && At(r.1.buf, r.1.url.value) == '/')
  }

  /** parse_request_line(text), with `text` the offset of the line. Each
      field the code assigns before it gives up keeps what it was given. */
  function RequestLine(p: Parse, text: nat): (r: (HttpCode, Parse))
    requires Cursors(p) && text <= |p.buf|
    ensures LineOutcome(p, r)
    ensures r.0 == NO_REQUEST ==>
              (r.1.meth == GET || r.1.meth == POST) &&
              r.1.cgi == (if r.1.meth == POST then 1 else p.cgi)
  {
    match FindBlank(p.buf, text)
    case None => (BAD_REQUEST, p.(url := None))
    case Some(u) => AfterMethod(p.(buf := p.buf[u := NUL]), text, u)
  }

  /** The method, ended by the NUL stored over the first blank at `u`:
      GET, or POST, which also sets cgi. */
  function AfterMethod(p: Parse, text: nat, u: nat): (r: (HttpCode, Parse))
    requires Cursors(p) && text <= u < |p.buf|
    ensures LineOutcome(p, r)
    ensures r.0 == NO_REQUEST ==>
              (r.1.meth == GET || r.1.meth == POST) &&
              r.1.cgi == (if r.1.meth == POST then 1 else p.cgi)
  {
    var isGet := CaseEq(p.buf, text, "GET");
    var isPost := CaseEq(p.buf, text, "POST");
    if !isGet && !isPost then (BAD_REQUEST, p.(url := Some(u + 1)))
    else
      AfterTarget(p.(meth := if isGet then GET else POST, cgi := if isGet then p.cgi else 1),
                  SkipBlanks(p.buf, u + 1))
  }

  /** The target at `u1`, ended by the NUL stored over the next blank. */
  function AfterTarget(p: Parse, u1: nat): (r: (HttpCode, Parse))
    requires Cursors(p) && u1 <= |p.buf|
    ensures LineOutcome(p, r)
    ensures r.1.meth == p.meth && r.1.cgi == p.cgi
  {
    match FindBlank(p.buf, u1)
    case None => (BAD_REQUEST, p.(url := Some(u1), version := None))
    case Some(v) => AfterVersion(p.(buf := p.buf[v := NUL], url := Some(u1)), u1, v)
  }

  /** The version after the blanks that follow `v`: only HTTP/1.1, in any
      case, is accepted. */
  function AfterVersion(p: Parse, u1: nat, v: nat): (r: (HttpCode, Parse))
    requires Cursors(p) && u1 <= |p.buf| && v < |p.buf|
    ensures LineOutcome(p, r)
    ensures r.1.meth == p.meth && r.1.cgi == p.cgi
  {
    var v1 := SkipBlanks(p.buf, v + 1);
    var p2 := p.(version := Some(v1));
    if !CaseEq(p.buf, v1, "HTTP/1.1") then (BAD_REQUEST, p2)
    else CheckTarget(p2, u1)
  }

  /** The target once a scheme prefix is stripped: it must start with '/',
      and a bare "/" is extended in place to "/judge.html" (strcat; bytes
      past the buffer end are dropped). */
  function CheckTarget(p: Parse, u1: nat): (r: (HttpCode, Parse))
    requires Cursors(p) && u1 <= |p.buf|
    ensures LineOutcome(p, r)
    ensures r.1.meth == p.meth && r.1.cgi == p.cgi
  {
    var u2 := StripScheme(p.buf, u1);
    if u2.None? || u2.value >= |p.buf| || p.buf[u2.value] != '/' then (BAD_REQUEST, p.(url := u2))
    else
      (NO_REQUEST, p.(buf := WelcomeTarget(p.buf, u2.value), url := u2, state := CHECK_STATE_HEADER))
  }

  /** strcat(m_url, "judge.html") when the target at `u` is just "/". */
  function WelcomeTarget(b: seq<char>, u: nat): (r: seq<char>)
    requires u <= |b|
    ensures |r| == |b|
    ensures StrEnd(b, u) - u != 1 ==> r == b
  {
    if StrEnd(b, u) - u == 1 then Overwrite(b, u + 1, "judge.html" + [NUL]) else b
  }

  /** A request line in origin form, as a client writes it and as
      parse_line leaves it (NUL-terminated): the method `m` up to `u`, a
      blank, the target `path` up to `v`, a blank and "HTTP/1.1". It is
      accepted: the method is recognised, m_url points at the target, and
      the target "/" is turned into "/judge.html". */
  lemma RequestLineOriginForm(p: Parse, text: nat, m: string, path: string, u: nat, v: nat)
    requires Cursors(p)
    requires m == "GET" || m == "POST"
    requires |path| >= 1 && path[0] == '/'
    requires forall k :: 0 <= k < |path| ==> !IsBlank(path[k]) && path[k] != NUL
    requires u == text + |m| && v == u + 1 + |path| && v + 10 < |p.buf|
    requires p.buf[text..u] == m && p.buf[u] == ' '
    requires p.buf[u + 1..v] == path && p.buf[v] == ' '
    requires p.buf[v + 1..v + 9] == "HTTP/1.1" && p.buf[v + 9] == NUL
    ensures RequestLine(p, text).0 == NO_REQUEST
    ensures RequestLine(p, text).1.url == Some(u + 1)
    ensures RequestLine(p, text).1.meth == (if m == "GET" then GET else POST)
    ensures CStr(RequestLine(p, text).1.buf, u + 1) == (if path == "/" then "/judge.html" else path)
  {
    var isGet := m == "GET";
    var p2 := p.(buf := p.buf[u := NUL], meth := if isGet then GET else POST, cgi := if isGet then p.cgi else 1);
    assert p.buf[u + 1] == path[0];
    MethodAccepted(p.buf, text, m);
    OriginFormMethod(p, text, isGet, u);
    SliceKeeps(p.buf, u, u + 1, v, NUL);
    SliceKeeps(p.buf, u, v + 1, v + 9, NUL);
    OriginFormTarget(p2, u + 1, path, v);
  }

  /** The first part of an origin-form line: the method, recognised, and
      the blank at `u` after it. */
  lemma OriginFormMethod(p: Parse, text: nat, isGet: bool, u: nat)
    requires Cursors(p) && text <= u && u + 1 < |p.buf|
    requires FindBlank(p.buf, text) == Some(u)
    requires CaseEq(p.buf[u := NUL], text, "GET") == isGet
    requires CaseEq(p.buf[u := NUL], text, "POST") == !isGet
    requires p.buf[u + 1] == '/'
    ensures RequestLine(p, text) ==
              AfterTarget(p.(buf := p.buf[u := NUL], meth := if isGet then GET else POST,
                             cgi := if isGet then p.cgi else 1), u + 1)
  {
    var p1 := p.(buf := p.buf[u := NUL]);
    assert SkipBlanks(p1.buf, u + 1) == u + 1;
  }

  /** The rest of an origin-form line: the target, its blank and the version. */
  lemma OriginFormTarget(p: Parse, u1: nat, path: string, v: nat)
    requires Cursors(p)
    requires |path| >= 1 && path[0] == '/'
    requires forall k :: 0 <= k < |path| ==> !IsBlank(path[k]) && path[k] != NUL
    requires v == u1 + |path| && v + 10 < |p.buf|
    requires p.buf[u1..v] == path && p.buf[v] == ' '
    requires p.buf[v + 1..v + 9] == "HTTP/1.1" && p.buf[v + 9] == NUL
    ensures AfterTarget(p, u1).0 == NO_REQUEST && AfterTarget(p, u1).1.url == Some(u1)
    ensures AfterTarget(p, u1).1.meth == p.meth
    ensures CStr(AfterTarget(p, u1).1.buf, u1) == (if path == "/" then "/judge.html" else path)
  {
    TargetFacts(p.buf, u1, v, path);
    var p3 := p.(buf := p.buf[v := NUL], url := Some(u1));
    SliceKeeps(p.buf, v, v + 1, v + 9, NUL);
    VersionAccepted(p3, u1, v);
    SliceKeeps(p.buf, v, u1, v, NUL);
    TargetAccepted(p3.(version := Some(v + 1)), u1, v, path);
  }

  /** Storing one byte outside a slice leaves the slice as it was. */
  lemma SliceKeeps(b: seq<char>, k: nat, i: nat, j: nat, x: char)
    requires k < |b| && i <= j <= |b| && (k < i || j <= k)
    ensures b[k := x][i..j] == b[i..j]
  {
    assert forall n :: i <= n < j ==> b[k := x][n] == b[n];
  }

  /** strpbrk stops at the blank after the method, and strcasecmp then
      tells GET from POST. */
  lemma MethodAccepted(b: seq<char>, text: nat, m: string)
    requires m == "GET" || m == "POST"
    requires text + |m| < |b| && b[text..text + |m|] == m && b[text + |m|] == ' '
    ensures FindBlank(b, text) == Some(text + |m|)
    ensures CaseEq(b[text + |m| := NUL], text, "GET") == (m == "GET")
    ensures CaseEq(b[text + |m| := NUL], text, "POST") == (m == "POST")
  {
    var u := text + |m|;
    assert forall k :: text <= k < u ==> b[k] == m[k - text];
    FindBlankAt(b, text, u);
    var b1 := b[u := NUL];
    assert b1[text..u] == m;
    CaseEqOfStored(b1, text, u, m);
    if m == "GET" {
      assert |LowerAll(m)| != |LowerAll("POST")|;
    } else {
      assert |LowerAll(m)| != |LowerAll("GET")|;
    }
  }

  /** The target: strpbrk stops at the blank after it, and a '/' first
      means no scheme is stripped. */
  lemma TargetFacts(b: seq<char>, u1: nat, v: nat, path: string)
    requires u1 + |path| == v < |b| && |path| >= 1 && path[0] == '/'
    requires forall k :: 0 <= k < |path| ==> !IsBlank(path[k]) && path[k] != NUL
    requires b[u1..v] == path && IsBlank(b[v])
    ensures FindBlank(b, u1) == Some(v)
  {
    assert forall k :: u1 <= k < v ==> b[k] == path[k - u1];
    FindBlankAt(b, u1, v);
  }

  /** The version "HTTP/1.1" after the blank at `v` leads on to the check
      of the target. */
  lemma VersionAccepted(p: Parse, u1: nat, v: nat)
    requires Cursors(p) && u1 <= |p.buf| && v + 10 < |p.buf|
    requires p.buf[v + 1..v + 9] == "HTTP/1.1" && p.buf[v + 9] == NUL
    ensures AfterVersion(p, u1, v) == CheckTarget(p.(version := Some(v + 1)), u1)
  {
    assert p.buf[v + 1] == 'H';
    CaseEqOfStored(p.buf, v + 1, v + 9, "HTTP/1.1");
  }

  /** A target that starts with '/' and is ended by a NUL at `v` is
      accepted as it is, or as "/judge.html" when it is "/". */
  lemma TargetAccepted(p: Parse, u1: nat, v: nat, path: string)
    requires Cursors(p) && u1 + |path| == v && v + 2 < |p.buf|
    requires |path| >= 1 && path[0] == '/' && NUL !in path
    requires p.buf[u1..v] == path && p.buf[v] == NUL
    requires |path| == 1 ==> u1 + 12 <= |p.buf|
    ensures CheckTarget(p, u1).0 == NO_REQUEST && CheckTarget(p, u1).1.url == Some(u1)
    ensures CStr(CheckTarget(p, u1).1.buf, u1) == (if path == "/" then "/judge.html" else path)
  {
    var b := p.buf;
    NoScheme(b, u1);
    PlainTarget(b, u1, v, path);
    if |path| == 1 {
      JudgeTarget(b, u1);
    }
  }

  /** A target that starts with '/' has no scheme to strip. */
  lemma NoScheme(b: seq<char>, u1: nat)
    requires u1 < |b| && b[u1] == '/'
    ensures StripScheme(b, u1) == Some(u1)
  {
    CasePrefixFirstDiffers(b, u1, "http://");
    CasePrefixFirstDiffers(b, u1, "https://");
  }

  lemma PlainTarget(b: seq<char>, u1: nat, v: nat, path: string)
    requires u1 + |path| == v < |b| && NUL !in path
    requires b[u1..v] == path && b[v] == NUL
    ensures StrEnd(b, u1) == v && CStr(b, u1) == path
  {
    assert forall k :: u1 <= k < v ==> b[k] == path[k - u1];
    CStrUpTo(b, u1, v);
  }

  /** strcat(m_url, "judge.html") on the string "/". */
  lemma JudgeTarget(b: seq<char>, u1: nat)
    requires u1 + 12 <= |b| && b[u1] == '/' && b[u1 + 1] == NUL
    ensures CStr(Overwrite(b, u1 + 1, "judge.html" + [NUL]), u1) == "/judge.html"
  {
    var t: string := "/judge.html";
    var b3 := Overwrite(b, u1 + 1, "judge.html" + [NUL]);
    assert forall k :: u1 <= k < u1 + 11 ==> b3[k] == t[k - u1] && b3[k] != NUL;
    assert b3[u1 + 11] == NUL;
    StrEndAt(b3, u1, u1 + 11);
    assert CStr(b3, u1) == b3[u1..u1 + 11];
    assert b3[u1..u1 + 11] == t;
  }

  /** A leading http:// is dropped up to the next '/', which then cannot
      start https://, so m_url ends up at that '/'. */
  lemma StripSchemeHttp(b: seq<char>, u: nat)
    requires u <= |b| && CasePrefix(b, u, "http://")
    ensures StripScheme(b, u) == FindChar(b, u + 7, '/')
  {
    var a := FindChar(b, u + 7, '/');
    if a.Some? {
      CasePrefixFirstDiffers(b, a.value, "https://");
    }
  }

  /** The absolute-form target of a request line: after a leading http://
      (then https://) the URL is moved to the next '/'. */
  function StripScheme(b: seq<char>, u: nat): (r: Option<nat>)
    requires u <= |b|
    ensures r.Some? ==> r.value <= |b|
    ensures !CasePrefix(b, u, "http://") && !CasePrefix(b, u, "https://") ==> r == Some(u)
  {
    var a := SkipScheme(b, u, "http://");
    if a.Some? then SkipScheme(b, a.value, "https://") else a
  }

  /** One scheme test: when the URL at `u` starts with `scheme` (ignoring
      case), the URL moves past it to the next '/' (strchr, none if there is
      none); otherwise it stays. */
  function SkipScheme(b: seq<char>, u: nat, scheme: string): (r: Option<nat>)
    requires u <= |b|
    ensures r.Some? ==> r.value <= |b|
    ensures !CasePrefix(b, u, scheme) ==> r == Some(u)
  {
    if CasePrefix(b, u, scheme) then FindChar(b, u + |scheme|, '/') else Some(u)
  }

  /** parse_headers(text). */
  function Headers(p: Parse, text: nat): (r: (HttpCode, Parse))
    requires Cursors(p) && text <= |p.buf|
    ensures Cursors(r.1)
    ensures r.0 == NO_REQUEST || r.0 == GET_REQUEST
    ensures r.1 == p.(state := r.1.state, linger := r.1.linger, contentLength := r.1.contentLength, host := r.1.host)
    ensures At(p.buf, text) == NUL ==> (r.0 == GET_REQUEST <==> p.contentLength == 0)
    ensures At(p.buf, text) == NUL && r.0 == NO_REQUEST ==> r.1 == p.(state := CHECK_STATE_CONTENT)
    ensures r.0 == GET_REQUEST ==> r.1 == p
    ensures At(p.buf, text) != NUL ==> r.0 == NO_REQUEST && r.1.state == p.state
    ensures r.1.linger != p.linger ==> CasePrefix(p.buf, text, "Connection:") && r.1.linger
    ensures r.1.host != p.host ==> CasePrefix(p.buf, text, "Host:")
    ensures INT32_MIN <= p.contentLength <= INT32_MAX ==> INT32_MIN <= r.1.contentLength <= INT32_MAX
  {
    if At(p.buf, text) == NUL then
      if p.contentLength != 0 then (NO_REQUEST, p.(state := CHECK_STATE_CONTENT)) else (GET_REQUEST, p)
    else if CasePrefix(p.buf, text, "Connection:") then
      var t := SkipBlanks(p.buf, text + 11);
      (NO_REQUEST, if CaseEq(p.buf, t, "keep-alive") then p.(linger := true) else p)
    else if CasePrefix(p.buf, text, "Content-length:") then
      var t := SkipBlanks(p.buf, text + 15);
      (NO_REQUEST, p.(contentLength := ToInt32(Atol(p.buf, t))))
    else if CasePrefix(p.buf, text, "Host:") then
      (NO_REQUEST, p.(host := Some(SkipBlanks(p.buf, text + 5))))
    else (NO_REQUEST, p)
  }

  /** The Content-Length header the response builder writes, "Content-Length:"
      and the decimal digits of `n`, is read back as `n`: the match ignores
      case, and a length that fits an int survives atol and the narrowing
      to m_content_length. */
  lemma ContentLengthReadsBack(p: Parse, text: nat, n: nat, e: nat)
    requires Cursors(p) && n <= INT32_MAX
    requires e == text + 15 + |NatDecimal(n)| && e < |p.buf|
    requires p.buf[text..text + 15] == "Content-Length:"
    requires p.buf[text + 15..e] == NatDecimal(n) && p.buf[e] == NUL
    ensures Headers(p, text) == (NO_REQUEST, p.(contentLength := n))
  {
    var d := NatDecimal(n);
    ContentLengthName(p.buf, text);
    assert p.buf[text + 15] == d[0] && IsDigit(d[0]);
    assert !IsDigit(p.buf[e]);
    AtolReadsDecimal(p.buf, text + 15, n);
    HeaderContentLength(p, text, n);
  }

  /** The name "Content-Length:" is not "Connection:" and is
      "Content-length:" ignoring case. */
  lemma ContentLengthName(b: seq<char>, text: nat)
    requires text + 15 <= |b| && b[text..text + 15] == "Content-Length:"
    ensures !CasePrefix(b, text, "Connection:") && CasePrefix(b, text, "Content-length:")
  {
    assert b[text + 3] == b[text..text + 15][3];
    CasePrefixDiffersAt(b, text, "Connection:", 3);
    assert LowerAll("Content-Length:") == LowerAll("Content-length:");
    CasePrefixOfStored(b, text, "Content-Length:", "Content-length:");
  }

  lemma HeaderContentLength(p: Parse, text: nat, n: int)
    requires Cursors(p) && text + 15 < |p.buf| && INT32_MIN <= n <= INT32_MAX
    requires !CasePrefix(p.buf, text, "Connection:") && CasePrefix(p.buf, text, "Content-length:")
    requires !IsBlank(p.buf[text + 15]) && Atol(p.buf, text + 15) == n
    ensures Headers(p, text) == (NO_REQUEST, p.(contentLength := n))
  {
    assert SkipBlanks(p.buf, text + 15) == text + 15;
  }

  /** "Connection: keep-alive", in any case, turns m_linger on. */
  lemma KeepAliveSetsLinger(p: Parse, text: nat)
    requires Cursors(p) && text + 22 < |p.buf|
    requires p.buf[text..text + 11] == "Connection:" && p.buf[text + 11] == ' '
    requires p.buf[text + 12..text + 22] == "keep-alive" && p.buf[text + 22] == NUL
    ensures Headers(p, text) == (NO_REQUEST, p.(linger := true))
  {
    var b := p.buf;
    assert b[text] == 'C';
    assert NUL !in "Connection:";
    CasePrefixOfStored(b, text, "Connection:", "Connection:");
    assert b[text + 12] == 'k';
    assert SkipBlanks(b, text + 11) == text + 12;
    CaseEqOfStored(b, text + 12, text + 22, "keep-alive");
    ConnectionHeader(p, text);
  }

  /** The Connection header sets m_linger exactly when its value is
      "keep-alive", in any case. */
  lemma ConnectionHeader(p: Parse, text: nat)
    requires Cursors(p) && text <= |p.buf| && CasePrefix(p.buf, text, "Connection:")
    ensures Headers(p, text) ==
            (NO_REQUEST, if CaseEq(p.buf, SkipBlanks(p.buf, text + 11), "keep-alive") then p.(linger := true) else p)
  {
    assert LowerAll(p.buf[text..text + 11])[0] == Lower(p.buf[text]) == 'c';
  }

  /** "Host:", in any case, records where the host name starts, past the
      blanks after the colon, and changes nothing else: no header the
      parser tests before it can match a line that starts with "Host:". */
  lemma HostRecorded(p: Parse, text: nat)
    requires Cursors(p) && text <= |p.buf| && CasePrefix(p.buf, text, "Host:")
    ensures Headers(p, text) == (NO_REQUEST, p.(host := Some(SkipBlanks(p.buf, text + 5))))
  {
    var b := p.buf;
    assert LowerAll(b[text..text + 5])[0] == Lower(b[text]) == 'h';
    CasePrefixDiffersAt(b, text, "Connection:", 0);
    CasePrefixDiffersAt(b, text, "Content-length:", 0);
  }

  /** A header the parser does not know changes nothing. */
  lemma UnknownHeaderIgnored(p: Parse, text: nat)
    requires Cursors(p) && text <= |p.buf| && At(p.buf, text) != NUL
    requires !CasePrefix(p.buf, text, "Connection:") && !CasePrefix(p.buf, text, "Content-length:")
    requires !CasePrefix(p.buf, text, "Host:")
    ensures Headers(p, text) == (NO_REQUEST, p)
  {
  }

  /** parse_content(text): the body is complete once m_read_idx reaches
      m_content_length past m_checked_idx; then the byte just past the
      body becomes NUL (a store outside the buffer is dropped) and m_string
      points at the body. */
  function Content(p: Parse, text: nat): (r: (HttpCode, Parse))
    requires Cursors(p) && text <= |p.buf|
    ensures Cursors(r.1)
    ensures r.0 == GET_REQUEST <==> p.readIdx >= p.contentLength + p.checkedIdx
    ensures r.0 == GET_REQUEST ==> r.1 == p.(buf := Overwrite(p.buf, text + p.contentLength, [NUL]), body := Some(text))
    ensures r.0 != GET_REQUEST ==> r == (NO_REQUEST, p)
  {
    if p.readIdx >= p.contentLength + p.checkedIdx then
      (GET_REQUEST, p.(buf := Overwrite(p.buf, text + p.contentLength, [NUL]), body := Some(text)))
    else (NO_REQUEST, p)
  }

  /** The loop of process_read from `status` (line_status), up to the point
      where it returns. GET_REQUEST is the point at which process_read hands
      over to do_request; the state is the one do_request is given. With
      `fixed` the loop ends once a body check fails, as the comment at the
      assignment of LINE_OPEN intends; as written, the loop condition calls
      parse_line, which walks m_checked_idx over the body. */
  function ReadLoop(fixed: bool, p: Parse, status: LineStatus): (r: (HttpCode, Parse))
    requires Cursors(p)
    ensures Cursors(r.1) && IsParseOutcome(r.0)
    ensures UrlSet(p) ==> UrlSet(r.1)
    ensures r.1.readIdx == p.readIdx && r.1.checkedIdx >= p.checkedIdx
    ensures r.0 != NO_REQUEST ==> r.1.startLine == r.1.checkedIdx
    ensures fixed && status == LINE_OK && r.1.state == CHECK_STATE_CONTENT ==> r.1.startLine == r.1.checkedIdx
    ensures p.state == CHECK_STATE_CONTENT ==> r.1.state == CHECK_STATE_CONTENT
    ensures r.0 == BAD_REQUEST ==> r.1.state == CHECK_STATE_REQUESTLINE
    ensures r.0 == GET_REQUEST ==> (r.1.state == CHECK_STATE_HEADER && r.1.contentLength == 0) ||
                                   (r.1.state == CHECK_STATE_CONTENT && r.1.body.Some?)
    decreases p.readIdx - p.checkedIdx, if p.state == CHECK_STATE_CONTENT && status == LINE_OK then 4 else 2
  {
    if p.state == CHECK_STATE_CONTENT && status == LINE_OK then
      LoopBody(fixed, p)
    else
      var (s, c, b) := ScanLine(p.buf, p.checkedIdx, p.readIdx);
      if s != LINE_OK then (NO_REQUEST, p.(checkedIdx := c, buf := b))
      else LoopBody(fixed, p.(checkedIdx := c, buf := b))
  }

  /** One round of the loop once a line is available: get_line gives the
      line at m_start_line, m_start_line moves to m_checked_idx, and the
      stage parser for the current state runs. Each scanned line moves the
      scanner forward; between two scans the state can only move on to
      CONTENT, whose body check runs once before the next scan, or, with
      `fixed`, ends the loop. */
  function LoopBody(fixed: bool, p: Parse): (r: (HttpCode, Parse))
    requires Cursors(p)
    ensures Cursors(r.1) && IsParseOutcome(r.0)
    ensures UrlSet(p) ==> UrlSet(r.1)
    ensures r.1.readIdx == p.readIdx && r.1.checkedIdx >= p.checkedIdx
    ensures r.0 != NO_REQUEST ==> r.1.startLine == r.1.checkedIdx
    ensures fixed && r.1.state == CHECK_STATE_CONTENT ==> r.1.startLine == r.1.checkedIdx
    ensures p.state == CHECK_STATE_CONTENT ==> r.1.state == CHECK_STATE_CONTENT
    ensures r.0 == BAD_REQUEST ==> r.1.state == CHECK_STATE_REQUESTLINE
    ensures r.0 == GET_REQUEST ==> (r.1.state == CHECK_STATE_HEADER && r.1.contentLength == 0) ||
                                   (r.1.state == CHECK_STATE_CONTENT && r.1.body.Some?)
    decreases p.readIdx - p.checkedIdx, if p.state == CHECK_STATE_CONTENT then 3 else 5
  {
    var text := p.startLine;
    var q := p.(startLine := p.checkedIdx);
    match q.state
    case CHECK_STATE_REQUESTLINE =>
      var (c, q1) := RequestLine(q, text);
      if c == BAD_REQUEST then (BAD_REQUEST, q1) else ReadLoop(fixed, q1, LINE_OK)
    case CHECK_STATE_HEADER =>
      var (c, q1) := Headers(q, text);
      if c == GET_REQUEST then (GET_REQUEST, q1) else ReadLoop(fixed, q1, LINE_OK)
    case CHECK_STATE_CONTENT =>
      var (c, q1) := Content(q, text);
      if c == GET_REQUEST || fixed then (c, q1) else ReadLoop(fixed, q1, LINE_OPEN)
  }

  /** The first look at a body that has only partly arrived, in the loop
      as written: the body check fails, and the scanner then walks over the
      body bytes received so far, since none of them is a CR or LF.
      m_start_line stays at the body start while m_checked_idx moves to
      m_read_idx. */
  lemma PartialBodyMovesScanner(p: Parse)
    requires Cursors(p) && p.state == CHECK_STATE_CONTENT
    requires p.startLine == p.checkedIdx && p.readIdx < p.contentLength + p.checkedIdx
    requires forall k :: p.checkedIdx <= k < p.readIdx ==> !IsEol(p.buf[k])
    ensures ReadLoop(false, p, LINE_OK) == (NO_REQUEST, p.(checkedIdx := p.readIdx))
  {
    assert p.(startLine := p.checkedIdx) == p;
    assert Content(p, p.startLine) == (NO_REQUEST, p);
    ScanLineWaitsWithoutEol(p.buf, p.checkedIdx, p.readIdx);
    assert ReadLoop(false, p, LINE_OPEN) == (NO_REQUEST, p.(checkedIdx := p.readIdx));
    assert LoopBody(false, p) == ReadLoop(false, p, LINE_OPEN);
  }

  /** A malformed line ends the loop of process_read with NO_REQUEST, as an
      incomplete one does, and not with BAD_REQUEST: the scanner stays on
      the offending byte and nothing else changes. */
  lemma MalformedLineIsNoRequest(fixed: bool, p: Parse, e: nat)
    requires Cursors(p) && p.state != CHECK_STATE_CONTENT
    requires p.checkedIdx <= e < p.readIdx
    requires (p.buf[e] == '\r' && e + 1 < p.readIdx && p.buf[e + 1] != '\n') ||
             (p.buf[e] == '\n' && !(e > 1 && p.buf[e - 1] == '\r'))
    requires forall k :: p.checkedIdx <= k < e ==> !IsEol(p.buf[k])
    ensures ReadLoop(fixed, p, LINE_OK) == (NO_REQUEST, p.(checkedIdx := e))
  {
    ScanLineRejectsStrayEol(p.buf, p.checkedIdx, p.readIdx, e);
  }

  /** The body check of process_read as written, once the scanner has moved
      past the body start: it asks for m_content_length bytes beyond
      m_checked_idx, so a body that is all there is not seen as complete. */
  lemma MovedScannerStallsBody(p: Parse)
    requires Cursors(p) && p.state == CHECK_STATE_CONTENT
    requires p.readIdx < p.contentLength + p.checkedIdx
    requires forall k :: p.checkedIdx <= k < p.readIdx ==> !IsEol(p.buf[k])
    ensures ReadLoop(false, p, LINE_OK) == (NO_REQUEST, p.(startLine := p.checkedIdx, checkedIdx := p.readIdx))
  {
    var q := p.(startLine := p.checkedIdx);
    assert Content(q, p.startLine) == (NO_REQUEST, q);
    ScanLineWaitsWithoutEol(q.buf, q.checkedIdx, q.readIdx);
    assert ReadLoop(false, q, LINE_OPEN) == (NO_REQUEST, q.(checkedIdx := q.readIdx));
    assert LoopBody(false, p) == ReadLoop(false, q, LINE_OPEN);
  }

  /** The state after more received bytes are stored at m_read_idx. */
  function Received(p: Parse, more: seq<char>): (q: Parse)
    requires Cursors(p) && p.readIdx + |more| <= |p.buf|
    ensures Cursors(q) && q.readIdx == p.readIdx + |more|
    ensures q.buf[..p.readIdx] == p.buf[..p.readIdx] && q.buf[p.readIdx..q.readIdx] == more
  {
    p.(buf := Overwrite(p.buf, p.readIdx, more), readIdx := p.readIdx + |more|)
  }

  /** A body without line breaks that arrives in two reads, some of it in
      the first: after the first read the body is incomplete, and after the
      second it is all in the buffer, yet process_read still answers
      NO_REQUEST, and the request is never handed to do_request. */
  lemma SplitBodyStalls(p: Parse, more: seq<char>)
    requires Cursors(p) && p.state == CHECK_STATE_CONTENT
    requires p.startLine == p.checkedIdx < p.readIdx < p.contentLength + p.checkedIdx
    requires forall k :: p.checkedIdx <= k < p.readIdx ==> !IsEol(p.buf[k])
    requires forall k :: 0 <= k < |more| ==> !IsEol(more[k])
    requires p.readIdx + |more| == p.checkedIdx + p.contentLength <= |p.buf|
    ensures ReadLoop(false, Received(ReadLoop(false, p, LINE_OK).1, more), LINE_OK).0 == NO_REQUEST
  {
    PartialBodyMovesScanner(p);
    var q := Received(ReadLoop(false, p, LINE_OK).1, more);
    assert q.checkedIdx == p.readIdx;
    assert forall k :: q.checkedIdx <= k < q.readIdx ==> q.buf[k] == more[k - q.checkedIdx];
    MovedScannerStallsBody(q);
  }
}
