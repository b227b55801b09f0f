/** The request side seen across reads (http/http_conn.cpp, read_once and
    process_read): process_read runs after every read that stores bytes at
    m_read_idx, and a request may arrive in any number of reads. The parser
    only looks at bytes it has received, up to the NUL that ends each line,
    so the way the bytes are split into reads does not change the outcome. */
module SplitReads {
  import opened Common
  import opened CString
  import opened HttpDefs
  import opened RequestParser

  /** `q` is `p` after more bytes have been received: every field but the
      buffer and m_read_idx is the same, and so is every byte before p's
      m_read_idx. */
  predicate Grown(p: Parse, q: Parse)
  {
    |q.buf| == |p.buf| && p.readIdx <= q.readIdx && p.readIdx <= |p.buf| &&
    (forall k :: 0 <= k < p.readIdx ==> q.buf[k] == p.buf[k]) &&
    q.(buf := p.buf, readIdx := p.readIdx) == p
  }

  /** No byte at or after offset `r` differs between the two buffers. */
  predicate TailKept(b0: seq<char>, b1: seq<char>, r: nat)
  {
    |b1| == |b0| && forall k :: r <= k < |b0| ==> b1[k] == b0[k]
  }

  /** A stage parser run on `p` and on a grown `q`: the same code, states
      that are still one the growth of the other, and no byte written at or
      after p's m_read_idx. */
  predicate Staged(p: Parse, q: Parse, rp: (HttpCode, Parse), rq: (HttpCode, Parse))
  {
    rq.0 == rp.0 && Grown(rp.1, rq.1) &&
    TailKept(p.buf, rp.1.buf, p.readIdx) && TailKept(q.buf, rq.1.buf, p.readIdx)
  }

  /** The state `p` with the bytes of `t` from its m_read_idx on, and
      m_read_idx moved to `n`. */
  function Extend(p: Parse, t: seq<char>, n: nat): (q: Parse)
    requires Cursors(p) && |t| == |p.buf| && p.readIdx <= n <= |t|
    ensures Cursors(q) && Grown(p, q) && q.readIdx == n
    ensures forall k :: p.readIdx <= k < |t| ==> q.buf[k] == t[k]
  {
    p.(buf := seq(|t|, k requires 0 <= k < |t| => if k < p.readIdx then p.buf[k] else t[k]), readIdx := n)
  }

  /** A grown state is its original extended by its own bytes. */
  lemma ExtendOfGrown(p: Parse, q: Parse)
    requires Cursors(p) && Cursors(q) && Grown(p, q)
    ensures Extend(p, q.buf, q.readIdx) == q
  {
    assert Extend(p, q.buf, q.readIdx).buf == q.buf;
  }

  /** Only the bytes from m_read_idx on matter to an extension. */
  lemma ExtendSameTail(p: Parse, t1: seq<char>, t2: seq<char>, n: nat)
    requires Cursors(p) && |t1| == |p.buf| && p.readIdx <= n <= |t1| && TailKept(t1, t2, p.readIdx)
    ensures Extend(p, t1, n) == Extend(p, t2, n)
  {
    assert Extend(p, t1, n).buf == Extend(p, t2, n).buf;
  }

  /** parse_line on a grown buffer: a complete or malformed line is found
      where it was found before, and a scan that ran out of bytes goes on
      from where it stopped. */
  lemma {:induction false} ScanLineGrown(b1: seq<char>, b2: seq<char>, ch: nat, r: nat, n: nat)
    requires ch <= r <= n <= |b2| && |b1| == |b2|
    requires forall k :: 0 <= k < r ==> b2[k] == b1[k]
    ensures var (s, c, b) := ScanLine(b1, ch, r);
            (s == LINE_OK ==> ScanLine(b2, ch, n) == (LINE_OK, c, b2[c - 2 := NUL][c - 1 := NUL])) &&
            (s == LINE_BAD ==> ScanLine(b2, ch, n) == (LINE_BAD, c, b2)) &&
            (s == LINE_OPEN ==> ScanLine(b2, ch, n) == ScanLine(b2, c, n))
    decreases r - ch
  {
    if ch < r {
      assert b2[ch] == b1[ch];
      if !IsEol(b1[ch]) {
        ScanLineGrown(b1, b2, ch + 1, r, n);
      } else if b1[ch] == '\r' {
        if ch + 1 < r {
          assert b2[ch + 1] == b1[ch + 1];
        }
      } else if ch > 1 {
        assert b2[ch - 1] == b1[ch - 1];
      }
    }
  }

  /** The scheme prefix of the target on a grown buffer: the same result,
      within the target's string. */
  lemma StripSchemeLocal(s: seq<char>, t: seq<char>, u: nat, e: nat)
    requires SameThrough(s, t, u, e)
    ensures StripScheme(t, u) == StripScheme(s, u)
    ensures StripScheme(s, u).Some? ==> u <= StripScheme(s, u).value <= StrEnd(s, u)
  {
    SkipSchemeLocal(s, t, u, e, "http://");
    var a := SkipScheme(s, u, "http://");
    if a.Some? {
      assert SameThrough(s, t, a.value, e);
      SkipSchemeLocal(s, t, a.value, e, "https://");
      StrEndLocal(s, t, u, e);
      StrEndFrom(s, u, a.value);
    }
  }

  /** One scheme test on a grown buffer: the same result, within the
      URL's string. */
  lemma SkipSchemeLocal(s: seq<char>, t: seq<char>, u: nat, e: nat, scheme: string)
    requires SameThrough(s, t, u, e)
    ensures SkipScheme(t, u, scheme) == SkipScheme(s, u, scheme)
    ensures SkipScheme(s, u, scheme).Some? ==> u <= SkipScheme(s, u, scheme).value <= StrEnd(s, u)
  {
    StrEndLocal(s, t, u, e);
    CasePrefixLocal(s, t, u, e, scheme);
    if CasePrefix(s, u, scheme) {
      var j := u + |scheme|;
      assert SameThrough(s, t, j, e);
      FindCharLocal(s, t, j, e, '/');
      StrEndFrom(s, u, j);
    }
  }

  /** The checks on the target, on a line that a NUL at `E` ends, with the
      version "HTTP/1.1" between the target and `E`: the bytes strcat
      appends stay before m_read_idx. */
  lemma CheckTargetGrown(p: Parse, q: Parse, u1: nat, e: nat)
    requires Cursors(p) && Cursors(q) && Grown(p, q)
    requires u1 <= e && e + 1 < p.readIdx && p.buf[e] == NUL && StrEnd(p.buf, u1) + 9 <= e
    ensures Staged(p, q, CheckTarget(p, u1), CheckTarget(q, u1))
  {
    assert SameThrough(p.buf, q.buf, u1, e);
    StripSchemeLocal(p.buf, q.buf, u1, e);
    var u2 := StripScheme(p.buf, u1);
    if u2.Some? && u2.value < |p.buf| && p.buf[u2.value] == '/' {
      StrEndLocal(p.buf, q.buf, u1, e);
      StrEndFrom(p.buf, u1, u2.value);
      assert SameThrough(p.buf, q.buf, u2.value, e);
      WelcomeGrown(p.buf, q.buf, u2.value, e, p.readIdx);
      var b3, t3 := WelcomeTarget(p.buf, u2.value), WelcomeTarget(q.buf, u2.value);
      assert CheckTarget(p, u1) == (NO_REQUEST, p.(buf := b3, url := u2, state := CHECK_STATE_HEADER));
      assert CheckTarget(q, u1) == (NO_REQUEST, q.(buf := t3, url := u2, state := CHECK_STATE_HEADER));
      TargetStaged(p, q, NO_REQUEST, b3, t3, u2, CHECK_STATE_HEADER);
    } else {
      assert CheckTarget(p, u1) == (BAD_REQUEST, p.(url := u2));
      assert CheckTarget(q, u1) == (BAD_REQUEST, q.(url := u2));
      TargetStaged(p, q, BAD_REQUEST, p.buf, q.buf, u2, p.state);
    }
  }

  /** The welcome page rewrite of a target inside a line that ends before
      m_read_idx `r`, on a buffer and on a grown one. */
  lemma WelcomeGrown(b: seq<char>, t: seq<char>, u: nat, e: nat, r: nat)
    requires SameThrough(b, t, u, e) && StrEnd(b, u) + 9 <= e && e + 1 < r <= |b|
    requires forall k :: 0 <= k < r ==> t[k] == b[k]
    ensures forall k :: 0 <= k < r ==> WelcomeTarget(t, u)[k] == WelcomeTarget(b, u)[k]
    ensures TailKept(b, WelcomeTarget(b, u), r) && TailKept(t, WelcomeTarget(t, u), r)
  {
    StrEndLocal(b, t, u, e);
    if StrEnd(b, u) - u == 1 {
      OverwriteGrown(b, t, u + 1, "judge.html" + [NUL], r);
    }
  }

  /** The outcome of the target checks on `p` and on the grown `q`. */
  lemma TargetStaged(p: Parse, q: Parse, c: HttpCode, b: seq<char>, t: seq<char>, u: Option<nat>, st: CheckState)
    requires Grown(p, q) && |b| == |p.buf| && |t| == |p.buf|
    requires forall k :: 0 <= k < p.readIdx ==> t[k] == b[k]
    requires TailKept(p.buf, b, p.readIdx) && TailKept(q.buf, t, p.readIdx)
    ensures Staged(p, q, (c, p.(buf := b, url := u, state := st)), (c, q.(buf := t, url := u, state := st)))
  {
  }

  /** Bytes written below m_read_idx on a buffer and on a grown one. */
  lemma OverwriteGrown(b: seq<char>, t: seq<char>, at: nat, w: seq<char>, r: nat)
    requires |t| == |b| && r <= |b| && at + |w| <= r
    requires forall k :: 0 <= k < r ==> t[k] == b[k]
    ensures forall k :: 0 <= k < r ==> Overwrite(t, at, w)[k] == Overwrite(b, at, w)[k]
    ensures TailKept(b, Overwrite(b, at, w), r) && TailKept(t, Overwrite(t, at, w), r)
  {
  }

  lemma AfterVersionGrown(p: Parse, q: Parse, u1: nat, v: nat, e: nat)
    requires Cursors(p) && Cursors(q) && Grown(p, q)
    requires u1 <= v < e && e + 1 < p.readIdx && p.buf[e] == NUL && p.buf[v] == NUL
    ensures Staged(p, q, AfterVersion(p, u1, v), AfterVersion(q, u1, v))
  {
    assert SameThrough(p.buf, q.buf, v + 1, e);
    SkipBlanksLocal(p.buf, q.buf, v + 1, e);
    var v1 := SkipBlanks(p.buf, v + 1);
    assert SameThrough(p.buf, q.buf, v1, e);
    CaseEqLocal(p.buf, q.buf, v1, e, "HTTP/1.1");
    if CaseEq(p.buf, v1, "HTTP/1.1") {
      StrEndLocal(p.buf, q.buf, v1, e);
      assert |CStr(p.buf, v1)| == 8;
      assert StrEnd(p.buf, u1) <= v;
      var p1, q1 := p.(version := Some(v1)), q.(version := Some(v1));
      assert AfterVersion(p, u1, v) == CheckTarget(p1, u1);
      assert AfterVersion(q, u1, v) == CheckTarget(q1, u1);
      CheckTargetGrown(p1, q1, u1, e);
    }
  }

  lemma AfterTargetGrown(p: Parse, q: Parse, u1: nat, e: nat)
    requires Cursors(p) && Cursors(q) && Grown(p, q)
    requires u1 <= e && e + 1 < p.readIdx && p.buf[e] == NUL
    ensures Staged(p, q, AfterTarget(p, u1), AfterTarget(q, u1))
  {
    assert SameThrough(p.buf, q.buf, u1, e);
    FindBlankLocal(p.buf, q.buf, u1, e);
    StrEndLocal(p.buf, q.buf, u1, e);
    match FindBlank(p.buf, u1)
    case None =>
    case Some(v) =>
      var p1, q1 := p.(buf := p.buf[v := NUL], url := Some(u1)), q.(buf := q.buf[v := NUL], url := Some(u1));
      NulGrown(p, q, v, p1, q1);
      assert AfterTarget(p, u1) == AfterVersion(p1, u1, v);
      assert AfterTarget(q, u1) == AfterVersion(q1, u1, v);
      AfterVersionGrown(p1, q1, u1, v, e);
      StagedBack(p, q, p1, q1, AfterVersion(p1, u1, v), AfterVersion(q1, u1, v));
  }

  /** A NUL stored over the same byte before m_read_idx, on `p` and on the
      grown `q`, with the same pointer fields set. */
  lemma NulGrown(p: Parse, q: Parse, v: nat, p1: Parse, q1: Parse)
    requires Cursors(p) && Cursors(q) && Grown(p, q) && v < p.readIdx
    requires p1 == p.(buf := p.buf[v := NUL], url := p1.url, version := p1.version)
    requires q1 == q.(buf := q.buf[v := NUL], url := p1.url, version := p1.version)
    requires InBuf(p1.url, |p.buf|) && InBuf(p1.version, |p.buf|)
    ensures Cursors(p1) && Cursors(q1) && Grown(p1, q1)
    ensures TailKept(p.buf, p1.buf, p.readIdx) && TailKept(q.buf, q1.buf, p.readIdx)
  {
  }

  /** What a stage does after its first write, seen from before that
      write. */
  lemma StagedBack(p: Parse, q: Parse, p1: Parse, q1: Parse, rp: (HttpCode, Parse), rq: (HttpCode, Parse))
    requires Staged(p1, q1, rp, rq) && p1.readIdx == p.readIdx
    requires TailKept(p.buf, p1.buf, p.readIdx) && TailKept(q.buf, q1.buf, p.readIdx)
    ensures Staged(p, q, rp, rq)
  {
  }

  lemma AfterMethodGrown(p: Parse, q: Parse, text: nat, u: nat, e: nat)
    requires Cursors(p) && Cursors(q) && Grown(p, q)
    requires text <= u < e && e + 1 < p.readIdx && p.buf[e] == NUL && p.buf[u] == NUL
    ensures Staged(p, q, AfterMethod(p, text, u), AfterMethod(q, text, u))
  {
    assert SameThrough(p.buf, q.buf, text, e);
    CaseEqLocal(p.buf, q.buf, text, e, "GET");
    CaseEqLocal(p.buf, q.buf, text, e, "POST");
    assert SameThrough(p.buf, q.buf, u + 1, e);
    SkipBlanksLocal(p.buf, q.buf, u + 1, e);
    var isGet := CaseEq(p.buf, text, "GET");
    if isGet || CaseEq(p.buf, text, "POST") {
      var m := if isGet then GET else POST;
      var cgi := if isGet then p.cgi else 1;
      var p1, q1 := p.(meth := m, cgi := cgi), q.(meth := m, cgi := cgi);
      var v := SkipBlanks(p.buf, u + 1);
      assert AfterMethod(p, text, u) == AfterTarget(p1, v);
      assert AfterMethod(q, text, u) == AfterTarget(q1, v);
      AfterTargetGrown(p1, q1, v, e);
    }
  }

  /** parse_request_line on a line that a NUL at `e` ends, before
      m_read_idx: the same outcome on a grown buffer, and no write at or
      after m_read_idx. */
  lemma RequestLineGrown(p: Parse, q: Parse, text: nat, e: nat)
    requires Cursors(p) && Cursors(q) && Grown(p, q)
    requires text <= e < p.readIdx && p.buf[e] == NUL && (p.buf[text] == NUL || e + 1 < p.readIdx)
    ensures Staged(p, q, RequestLine(p, text), RequestLine(q, text))
  {
    assert SameThrough(p.buf, q.buf, text, e);
    FindBlankLocal(p.buf, q.buf, text, e);
    StrEndLocal(p.buf, q.buf, text, e);
    match FindBlank(p.buf, text)
    case None =>
    case Some(u) =>
      assert p.buf[text] != NUL;
      var p1, q1 := p.(buf := p.buf[u := NUL]), q.(buf := q.buf[u := NUL]);
      assert RequestLine(p, text) == AfterMethod(p1, text, u);
      assert RequestLine(q, text) == AfterMethod(q1, text, u);
      AfterMethodGrown(p1, q1, text, u, e);
  }

  /** parse_headers on a line that a NUL at `e` ends, before m_read_idx:
      the same outcome on a grown buffer, which it does not write. */
  lemma HeadersGrown(p: Parse, q: Parse, text: nat, e: nat)
    requires Cursors(p) && Cursors(q) && Grown(p, q)
    requires text <= e < p.readIdx && p.buf[e] == NUL
    ensures Headers(q, text) == (Headers(p, text).0, Headers(p, text).1.(buf := q.buf, readIdx := q.readIdx))
  {
    var s, t := p.buf, q.buf;
    assert SameThrough(s, t, text, e);
    if At(s, text) == NUL {
      assert At(t, text) == NUL;
    } else {
      assert At(t, text) != NUL;
      CasePrefixLocal(s, t, text, e, "Connection:");
      CasePrefixLocal(s, t, text, e, "Content-length:");
      CasePrefixLocal(s, t, text, e, "Host:");
      if CasePrefix(s, text, "Connection:") {
        ConnectionGrown(p, q, text, e);
        var x := CaseEq(s, SkipBlanks(s, text + 11), "keep-alive");
        assert Headers(p, text) == (NO_REQUEST, if x then p.(linger := true) else p);
        assert Headers(q, text) == (NO_REQUEST, if x then q.(linger := true) else q);
      } else if CasePrefix(s, text, "Content-length:") {
        LengthGrown(p, q, text, e);
        var n := ToInt32(Atol(s, SkipBlanks(s, text + 15)));
        assert Headers(p, text) == (NO_REQUEST, p.(contentLength := n));
        assert Headers(q, text) == (NO_REQUEST, q.(contentLength := n));
      } else if CasePrefix(s, text, "Host:") {
        assert SameThrough(s, t, text + 5, e);
        SkipBlanksLocal(s, t, text + 5, e);
        var h := Some(SkipBlanks(s, text + 5));
        assert Headers(p, text) == (NO_REQUEST, p.(host := h));
        assert Headers(q, text) == (NO_REQUEST, q.(host := h));
      } else {
        assert Headers(p, text) == (NO_REQUEST, p);
        assert Headers(q, text) == (NO_REQUEST, q);
      }
    }
  }

  /** The Connection header on a grown buffer. */
  lemma ConnectionGrown(p: Parse, q: Parse, text: nat, e: nat)
    requires Cursors(p) && Cursors(q) && Grown(p, q)
    requires text <= e < p.readIdx && p.buf[e] == NUL && CasePrefix(p.buf, text, "Connection:")
    ensures var v := SkipBlanks(p.buf, text + 11);
            v == SkipBlanks(q.buf, text + 11) && CaseEq(q.buf, v, "keep-alive") == CaseEq(p.buf, v, "keep-alive")
  {
    assert SameThrough(p.buf, q.buf, text, e);
    CasePrefixLocal(p.buf, q.buf, text, e, "Connection:");
    assert SameThrough(p.buf, q.buf, text + 11, e);
    SkipBlanksLocal(p.buf, q.buf, text + 11, e);
    CaseEqLocal(p.buf, q.buf, SkipBlanks(p.buf, text + 11), e, "keep-alive");
  }

  /** The Content-length header on a grown buffer. */
  lemma LengthGrown(p: Parse, q: Parse, text: nat, e: nat)
    requires Cursors(p) && Cursors(q) && Grown(p, q)
    requires text <= e < p.readIdx && p.buf[e] == NUL && CasePrefix(p.buf, text, "Content-length:")
    ensures var v := SkipBlanks(p.buf, text + 15);
            v == SkipBlanks(q.buf, text + 15) && Atol(q.buf, v) == Atol(p.buf, v)
  {
    assert SameThrough(p.buf, q.buf, text, e);
    CasePrefixLocal(p.buf, q.buf, text, e, "Content-length:");
    assert SameThrough(p.buf, q.buf, text + 15, e);
    SkipBlanksLocal(p.buf, q.buf, text + 15, e);
    AtolLocal(p.buf, q.buf, SkipBlanks(p.buf, text + 15), e);
  }

  /** The loop of process_read on `p` and on a grown `q`. When the loop on
      `p` runs out of bytes, the loop on `q` ends as the loop on the state
      it stopped in, grown by the same bytes; otherwise both end with the
      same code in states one the growth of the other. Holds for the loop
      as written as long as it never reaches the body. */
  lemma {:induction false} LoopGrown(fixed: bool, p: Parse, q: Parse)
    requires Cursors(p) && Cursors(q) && Grown(p, q)
    requires p.state == CHECK_STATE_CONTENT ==> p.startLine == p.checkedIdx
    requires fixed || ReadLoop(fixed, q, LINE_OK).1.state != CHECK_STATE_CONTENT
    ensures var (c, p1) := ReadLoop(fixed, p, LINE_OK);
            c == NO_REQUEST ==>
              TailKept(p.buf, p1.buf, p.readIdx) &&
              ReadLoop(fixed, q, LINE_OK) == ReadLoop(fixed, Extend(p1, q.buf, q.readIdx), LINE_OK)
    ensures var (c, p1) := ReadLoop(fixed, p, LINE_OK);
            c != NO_REQUEST ==> ReadLoop(fixed, q, LINE_OK).0 == c && Grown(p1, ReadLoop(fixed, q, LINE_OK).1)
    decreases p.readIdx - p.checkedIdx, 3
  {
    if p.state == CHECK_STATE_CONTENT {
      if fixed {
        BodyCheckGrown(p, q);
      }
    } else {
      ScanGrown(fixed, p, q);
    }
  }

  /** The loop of LoopGrown outside the CONTENT state: the scan for a
      line. */
  lemma {:induction false} ScanGrown(fixed: bool, p: Parse, q: Parse)
    requires Cursors(p) && Cursors(q) && Grown(p, q) && p.state != CHECK_STATE_CONTENT
    requires fixed || ReadLoop(fixed, q, LINE_OK).1.state != CHECK_STATE_CONTENT
    ensures var (c, p1) := ReadLoop(fixed, p, LINE_OK);
            c == NO_REQUEST ==>
              TailKept(p.buf, p1.buf, p.readIdx) &&
              ReadLoop(fixed, q, LINE_OK) == ReadLoop(fixed, Extend(p1, q.buf, q.readIdx), LINE_OK)
    ensures var (c, p1) := ReadLoop(fixed, p, LINE_OK);
            c != NO_REQUEST ==> ReadLoop(fixed, q, LINE_OK).0 == c && Grown(p1, ReadLoop(fixed, q, LINE_OK).1)
    decreases p.readIdx - p.checkedIdx, 1
  {
    var (s, c, b) := ScanLine(p.buf, p.checkedIdx, p.readIdx);
    ScanLineGrown(p.buf, q.buf, p.checkedIdx, p.readIdx, q.readIdx);
    if s == LINE_OK {
      LineFoundGrown(fixed, p, q, c, b);
    } else {
      if s == LINE_BAD {
        ScanLineRejectsStrayEol(q.buf, c, q.readIdx, c);
      }
      ScanStops(fixed, p, q, c);
    }
  }

  /** The loop on `p` and on a grown `q` when the scan on `p` finds a line
      ending at `c`, before p's m_read_idx. */
  lemma {:induction false} LineFoundGrown(fixed: bool, p: Parse, q: Parse, c: nat, b: seq<char>)
    requires Cursors(p) && Cursors(q) && Grown(p, q) && p.state != CHECK_STATE_CONTENT
    requires ScanLine(p.buf, p.checkedIdx, p.readIdx) == (LINE_OK, c, b)
    requires ScanLine(q.buf, p.checkedIdx, q.readIdx) == (LINE_OK, c, q.buf[c - 2 := NUL][c - 1 := NUL])
    requires fixed || ReadLoop(fixed, q, LINE_OK).1.state != CHECK_STATE_CONTENT
    ensures var (c, p1) := ReadLoop(fixed, p, LINE_OK);
            c == NO_REQUEST ==>
              TailKept(p.buf, p1.buf, p.readIdx) &&
              ReadLoop(fixed, q, LINE_OK) == ReadLoop(fixed, Extend(p1, q.buf, q.readIdx), LINE_OK)
    ensures var (c, p1) := ReadLoop(fixed, p, LINE_OK);
            c != NO_REQUEST ==> ReadLoop(fixed, q, LINE_OK).0 == c && Grown(p1, ReadLoop(fixed, q, LINE_OK).1)
    decreases p.readIdx - p.checkedIdx, 0
  {
    var q1 := q.(checkedIdx := c, buf := q.buf[c - 2 := NUL][c - 1 := NUL]);
    ScanFindsLine(fixed, p, q, c, b, q1);
    LineFound(p, q, c, b, q1);
    LineGrown(fixed, p.(checkedIdx := c, buf := b), q1, q);
  }

  /** The states of LineGrown: a line ends before m_checked_idx, whose CRLF
      is two NULs, on `p` and on the grown `q`; `q0` is `q` before its line
      was scanned. */
  predicate LineReady(p: Parse, q: Parse, q0: Parse)
  {
    Cursors(p) && Cursors(q) && Cursors(q0) && Grown(p, q) &&
    p.state != CHECK_STATE_CONTENT && p.startLine < p.checkedIdx && 2 <= p.checkedIdx &&
    p.buf[p.checkedIdx - 2] == NUL && p.buf[p.checkedIdx - 1] == NUL &&
    TailKept(q0.buf, q.buf, p.readIdx) && q0.readIdx == q.readIdx
  }

  /** A line found at `c` on `p` and on the grown `q` gives the states of
      LineGrown. */
  lemma LineFound(p: Parse, q: Parse, c: nat, b: seq<char>, q1: Parse)
    requires Cursors(p) && Cursors(q) && Grown(p, q) && p.state != CHECK_STATE_CONTENT
    requires p.checkedIdx < c <= p.readIdx && 2 <= c
    requires b == p.buf[c - 2 := NUL][c - 1 := NUL]
    requires q1 == q.(checkedIdx := c, buf := q.buf[c - 2 := NUL][c - 1 := NUL])
    ensures LineReady(p.(checkedIdx := c, buf := b), q1, q)
  {
  }

  /** A scan that finds a line on `p` and on the grown `q`: the loop goes
      on with the round of the loop on that line. */
  lemma ScanFindsLine(fixed: bool, p: Parse, q: Parse, c: nat, b: seq<char>, q1: Parse)
    requires Cursors(p) && Cursors(q) && p.state != CHECK_STATE_CONTENT && q.state == p.state
    requires p.checkedIdx <= p.readIdx && q.checkedIdx <= q.readIdx
    requires ScanLine(p.buf, p.checkedIdx, p.readIdx) == (LINE_OK, c, b)
    requires ScanLine(q.buf, q.checkedIdx, q.readIdx) == (LINE_OK, c, q1.buf) && q1 == q.(checkedIdx := c, buf := q1.buf)
    ensures ReadLoop(fixed, p, LINE_OK) == LoopBody(fixed, p.(checkedIdx := c, buf := b))
    ensures ReadLoop(fixed, q, LINE_OK) == LoopBody(fixed, q1)
  {
  }

  /** The corrected loop in the CONTENT state: one body check, on `p` and
      on a grown `q`. */
  lemma BodyCheckGrown(p: Parse, q: Parse)
    requires Cursors(p) && Cursors(q) && Grown(p, q)
    requires p.state == CHECK_STATE_CONTENT && p.startLine == p.checkedIdx
    ensures var (c, p1) := ReadLoop(true, p, LINE_OK);
            c == NO_REQUEST ==>
              TailKept(p.buf, p1.buf, p.readIdx) &&
              ReadLoop(true, q, LINE_OK) == ReadLoop(true, Extend(p1, q.buf, q.readIdx), LINE_OK)
    ensures var (c, p1) := ReadLoop(true, p, LINE_OK);
            c != NO_REQUEST ==> ReadLoop(true, q, LINE_OK).0 == c && Grown(p1, ReadLoop(true, q, LINE_OK).1)
  {
    ExtendOfGrown(p, q);
    assert ReadLoop(true, p, LINE_OK) == Content(p, p.startLine);
    assert ReadLoop(true, q, LINE_OK) == Content(q, q.startLine);
  }

  /** A scan on `p` that stops at `c` without a line (the bytes ran out or
      the line is malformed) ends the loop; on the grown `q`, where the scan
      from `c` gives what the scan from m_checked_idx gives, the loop is the
      loop from `c`. */
  lemma ScanStops(fixed: bool, p: Parse, q: Parse, c: nat)
    requires Cursors(p) && Cursors(q) && Grown(p, q) && p.state != CHECK_STATE_CONTENT
    requires p.checkedIdx <= c <= p.readIdx
    requires ScanLine(p.buf, p.checkedIdx, p.readIdx).0 != LINE_OK
    requires ScanLine(p.buf, p.checkedIdx, p.readIdx).1 == c
    requires ScanLine(q.buf, p.checkedIdx, q.readIdx) == ScanLine(q.buf, c, q.readIdx)
    ensures ReadLoop(fixed, p, LINE_OK) == (NO_REQUEST, p.(checkedIdx := c))
    ensures ReadLoop(fixed, q, LINE_OK) == ReadLoop(fixed, Extend(p.(checkedIdx := c), q.buf, q.readIdx), LINE_OK)
  {
    ExtendOfGrown(p.(checkedIdx := c), q.(checkedIdx := c));
  }

  /** One round of the loop once a line ending before m_read_idx is there
      (the CRLF before m_checked_idx is two NULs), on `p` and on a grown `q`;
      `q0` is `q` before its line was scanned. */
  lemma {:induction false} LineGrown(fixed: bool, p: Parse, q: Parse, q0: Parse)
    requires LineReady(p, q, q0)
    requires fixed || LoopBody(fixed, q).1.state != CHECK_STATE_CONTENT
    ensures var (c, p1) := LoopBody(fixed, p);
            c == NO_REQUEST ==>
              TailKept(p.buf, p1.buf, p.readIdx) &&
              LoopBody(fixed, q) == ReadLoop(fixed, Extend(p1, q0.buf, q.readIdx), LINE_OK)
    ensures var (c, p1) := LoopBody(fixed, p);
            c != NO_REQUEST ==> LoopBody(fixed, q).0 == c && Grown(p1, LoopBody(fixed, q).1)
    decreases p.readIdx - p.checkedIdx, 6
  {
    var c := p.checkedIdx;
    var text := p.startLine;
    var e := StrEnd(p.buf, text);
    assert e <= c - 1;
    if text <= c - 2 {
      assert e <= c - 2;
    }
    if p.state == CHECK_STATE_REQUESTLINE {
      RequestLineRound(fixed, p, q, q0, e);
    } else {
      HeaderRound(fixed, p, q, q0, e);
    }
  }

  /** The round of LineGrown in the REQUESTLINE state; the line ends at the NUL at `e`. */
  lemma {:induction false} RequestLineRound(fixed: bool, p: Parse, q: Parse, q0: Parse, e: nat)
    requires Cursors(p) && Cursors(q) && Cursors(q0) && Grown(p, q)
    requires p.state == CHECK_STATE_REQUESTLINE && p.startLine < p.checkedIdx && 2 <= p.checkedIdx
    requires p.startLine <= e < p.readIdx && p.buf[e] == NUL && (p.buf[p.startLine] == NUL || e + 1 < p.readIdx)
    requires p.buf[p.checkedIdx - 2] == NUL && p.buf[p.checkedIdx - 1] == NUL
    requires TailKept(q0.buf, q.buf, p.readIdx) && q0.readIdx == q.readIdx
    requires fixed || LoopBody(fixed, q).1.state != CHECK_STATE_CONTENT
    ensures var (c, p1) := LoopBody(fixed, p);
            c == NO_REQUEST ==>
              TailKept(p.buf, p1.buf, p.readIdx) &&
              LoopBody(fixed, q) == ReadLoop(fixed, Extend(p1, q0.buf, q.readIdx), LINE_OK)
    ensures var (c, p1) := LoopBody(fixed, p);
            c != NO_REQUEST ==> LoopBody(fixed, q).0 == c && Grown(p1, LoopBody(fixed, q).1)
    decreases p.readIdx - p.checkedIdx, 5
  {
    var c := p.checkedIdx;
    var text := p.startLine;
    var p2 := p.(startLine := c);
    var q2 := q.(startLine := c);
    RequestLineGrown(p2, q2, text, e);
    var (c1, p3) := RequestLine(p2, text);
    var q3 := RequestLine(q2, text).1;
    if c1 != BAD_REQUEST {
      assert LoopBody(fixed, q) == ReadLoop(fixed, q3, LINE_OK);
      assert LoopBody(fixed, p) == ReadLoop(fixed, p3, LINE_OK);
      LoopGoesOn(fixed, p3, q3, q0);
    }
  }

  /** The round of LineGrown in the HEADER state; the line ends at the NUL at `e`. */
  lemma {:induction false} HeaderRound(fixed: bool, p: Parse, q: Parse, q0: Parse, e: nat)
    requires Cursors(p) && Cursors(q) && Cursors(q0) && Grown(p, q)
    requires p.state == CHECK_STATE_HEADER && p.startLine < p.checkedIdx && 2 <= p.checkedIdx
    requires p.startLine <= e < p.readIdx && p.buf[e] == NUL && (p.buf[p.startLine] == NUL || e + 1 < p.readIdx)
    requires p.buf[p.checkedIdx - 2] == NUL && p.buf[p.checkedIdx - 1] == NUL
    requires TailKept(q0.buf, q.buf, p.readIdx) && q0.readIdx == q.readIdx
    requires fixed || LoopBody(fixed, q).1.state != CHECK_STATE_CONTENT
    ensures var (c, p1) := LoopBody(fixed, p);
            c == NO_REQUEST ==>
              TailKept(p.buf, p1.buf, p.readIdx) &&
              LoopBody(fixed, q) == ReadLoop(fixed, Extend(p1, q0.buf, q.readIdx), LINE_OK)
    ensures var (c, p1) := LoopBody(fixed, p);
            c != NO_REQUEST ==> LoopBody(fixed, q).0 == c && Grown(p1, LoopBody(fixed, q).1)
    decreases p.readIdx - p.checkedIdx, 5
  {
    var c := p.checkedIdx;
    var text := p.startLine;
    var p2 := p.(startLine := c);
    var q2 := q.(startLine := c);
    HeadersGrown(p2, q2, text, e);
    var (c1, p3) := Headers(p2, text);
    var q3 := Headers(q2, text).1;
    if c1 != GET_REQUEST {
      assert LoopBody(fixed, q) == ReadLoop(fixed, q3, LINE_OK);
      assert LoopBody(fixed, p) == ReadLoop(fixed, p3, LINE_OK);
      LoopGoesOn(fixed, p3, q3, q0);
    }
  }

  /** The loop going on after a stage parser on `p` and on a grown `q`;
      `q0` holds the bytes of `q` from p's m_read_idx on. */
  lemma LoopGoesOn(fixed: bool, p: Parse, q: Parse, q0: Parse)
    requires Cursors(p) && Cursors(q) && Cursors(q0) && Grown(p, q)
    requires p.state == CHECK_STATE_CONTENT ==> p.startLine == p.checkedIdx
    requires TailKept(q0.buf, q.buf, p.readIdx) && q0.readIdx == q.readIdx
    requires fixed || ReadLoop(fixed, q, LINE_OK).1.state != CHECK_STATE_CONTENT
    ensures var (c, p1) := ReadLoop(fixed, p, LINE_OK);
            c == NO_REQUEST ==>
              TailKept(p.buf, p1.buf, p.readIdx) &&
              ReadLoop(fixed, q, LINE_OK) == ReadLoop(fixed, Extend(p1, q0.buf, q.readIdx), LINE_OK)
    ensures var (c, p1) := ReadLoop(fixed, p, LINE_OK);
            c != NO_REQUEST ==> ReadLoop(fixed, q, LINE_OK).0 == c && Grown(p1, ReadLoop(fixed, q, LINE_OK).1)
    decreases p.readIdx - p.checkedIdx, 4
  {
    LoopGrown(fixed, p, q);
    var (c, p1) := ReadLoop(fixed, p, LINE_OK);
    if c == NO_REQUEST {
      ExtendSameTail(p1, q.buf, q0.buf, q.readIdx);
    }
  }

  /** The bytes of a sequence of reads, in order. */
  function Flatten(chunks: seq<seq<char>>): (r: seq<char>)
    ensures chunks != [] ==> r == chunks[0] + Flatten(chunks[1..])
  {
    if chunks == [] then [] else chunks[0] + Flatten(chunks[1..])
  }

  /** The request arriving in reads: each read stores its bytes at
      m_read_idx and runs process_read; NO_REQUEST waits for the next read,
      any other code ends the request. */
  function Feed(fixed: bool, p: Parse, chunks: seq<seq<char>>): (r: (HttpCode, Parse))
    requires Cursors(p) && p.readIdx + |Flatten(chunks)| <= |p.buf|
    ensures Cursors(r.1)
    decreases |chunks|
  {
    if chunks == [] then (NO_REQUEST, p)
    else
      var (c, p1) := ReadLoop(fixed, Received(p, chunks[0]), LINE_OK);
      if c != NO_REQUEST || |chunks| == 1 then (c, p1) else Feed(fixed, p1, chunks[1..])
  }

  /** The reads `chunks` against one read of all their bytes, given as the
      buffer `t` from p's m_read_idx up to `n`: the same code, and the
      single read's state is the state the reads end in, grown by the bytes
      that were not read; equal when the request is still incomplete. */
  lemma {:induction false} FeedGrown(fixed: bool, p: Parse, chunks: seq<seq<char>>, t: seq<char>, n: nat)
    requires Cursors(p) && |chunks| >= 1 && n == p.readIdx + |Flatten(chunks)| <= |p.buf|
    requires |t| == |p.buf| && t[p.readIdx..n] == Flatten(chunks) && TailKept(p.buf, t, n)
    requires p.state == CHECK_STATE_CONTENT ==> p.startLine == p.checkedIdx
    requires fixed || ReadLoop(fixed, Extend(p, t, n), LINE_OK).1.state != CHECK_STATE_CONTENT
    ensures var single, split := ReadLoop(fixed, Extend(p, t, n), LINE_OK), Feed(fixed, p, chunks);
            single.0 == split.0 && Grown(split.1, single.1) && (split.0 == NO_REQUEST ==> single.1 == split.1)
    decreases |chunks|, 1
  {
    var e := Extend(p, t, n);
    var p0 := Received(p, chunks[0]);
    FirstChunk(p, chunks, t, n);
    LoopGrown(fixed, p0, e);
    if ReadLoop(fixed, p0, LINE_OK).0 == NO_REQUEST && |chunks| > 1 {
      FeedRest(fixed, p, chunks, t, n);
    }
  }

  /** FeedGrown when the first read leaves the request incomplete and more
      reads follow: the rest of the reads start from where it stopped. */
  lemma {:induction false} FeedRest(fixed: bool, p: Parse, chunks: seq<seq<char>>, t: seq<char>, n: nat)
    requires Cursors(p) && |chunks| > 1 && n == p.readIdx + |Flatten(chunks)| <= |p.buf|
    requires |t| == |p.buf| && t[p.readIdx..n] == Flatten(chunks) && TailKept(p.buf, t, n)
    requires p.state == CHECK_STATE_CONTENT ==> p.startLine == p.checkedIdx
    requires fixed || ReadLoop(fixed, Extend(p, t, n), LINE_OK).1.state != CHECK_STATE_CONTENT
    requires ReadLoop(fixed, Received(p, chunks[0]), LINE_OK).0 == NO_REQUEST
    ensures var single, split := ReadLoop(fixed, Extend(p, t, n), LINE_OK), Feed(fixed, p, chunks);
            single.0 == split.0 && Grown(split.1, single.1) && (split.0 == NO_REQUEST ==> single.1 == split.1)
    decreases |chunks|, 0
  {
    var e := Extend(p, t, n);
    var p0 := Received(p, chunks[0]);
    FirstChunk(p, chunks, t, n);
    LoopGrown(fixed, p0, e);
    var p1 := ReadLoop(fixed, p0, LINE_OK).1;
    assert Feed(fixed, p, chunks) == Feed(fixed, p1, chunks[1..]);
    ExtendSameTail(p1, e.buf, t, n);
    FeedGrown(fixed, p1, chunks[1..], t, n);
  }

  /** The first of the reads against the single read. */
  lemma FirstChunk(p: Parse, chunks: seq<seq<char>>, t: seq<char>, n: nat)
    requires Cursors(p) && |chunks| >= 1 && n == p.readIdx + |Flatten(chunks)| <= |p.buf|
    requires |t| == |p.buf| && t[p.readIdx..n] == Flatten(chunks) && TailKept(p.buf, t, n)
    ensures var r1 := p.readIdx + |chunks[0]|;
            t[r1..n] == Flatten(chunks[1..]) && Grown(Received(p, chunks[0]), Extend(p, t, n)) &&
            (|chunks| == 1 ==> Extend(p, t, n) == Received(p, chunks[0]))
  {
    var r1 := p.readIdx + |chunks[0]|;
    var f := t[p.readIdx..n];
    assert f == chunks[0] + Flatten(chunks[1..]);
    assert t[p.readIdx..r1] == f[..|chunks[0]|];
    assert t[r1..n] == f[|chunks[0]|..];
    if |chunks| == 1 {
      assert Extend(p, t, n).buf == Received(p, chunks[0]).buf;
    }
  }

  /** process_read over any split of the bytes into reads agrees with one
      read of all of them: the same code, and the single read's state is
      the state the reads end in, grown by the bytes of the reads after the
      one that ended the request; the very same state when the request is
      still incomplete. This holds for the corrected loop, and for the loop
      as written on requests whose single read never reaches the body. */
  lemma SplitReadsAgree(fixed: bool, p: Parse, chunks: seq<seq<char>>)
    requires Cursors(p) && |chunks| >= 1 && p.readIdx + |Flatten(chunks)| <= |p.buf|
    requires p.state == CHECK_STATE_CONTENT ==> p.startLine == p.checkedIdx
    requires fixed || ReadLoop(fixed, Received(p, Flatten(chunks)), LINE_OK).1.state != CHECK_STATE_CONTENT
    ensures var single, split := ReadLoop(fixed, Received(p, Flatten(chunks)), LINE_OK), Feed(fixed, p, chunks);
            single.0 == split.0 && Grown(split.1, single.1) && (split.0 == NO_REQUEST ==> single.1 == split.1)
  {
    var m := Received(p, Flatten(chunks));
    assert forall k :: 0 <= k < p.readIdx ==> m.buf[k] == p.buf[k];
    ExtendOfGrown(p, m);
    FeedGrown(fixed, p, chunks, m.buf, m.readIdx);
  }

  /** Two reads store what one read of their bytes stores. */
  lemma ReceivedTwice(p: Parse, a: seq<char>, b: seq<char>)
    requires Cursors(p) && p.readIdx + |a| + |b| <= |p.buf|
    ensures Received(Received(p, a), b) == Received(p, a + b)
  {
    assert Received(Received(p, a), b).buf == Received(p, a + b).buf;
  }

  /** A body that arrives over any number of non-empty reads, under the
      corrected loop: every read before the last one leaves the body check
      waiting, and the last one, which completes the m_content_length bytes
      after the body start, ends the request with m_string at the body
      start and a NUL stored just past the body. */
  lemma {:induction false} BodyArrivesInReads(p: Parse, chunks: seq<seq<char>>)
    requires Cursors(p) && p.state == CHECK_STATE_CONTENT && p.startLine == p.checkedIdx
    requires p.readIdx < p.checkedIdx + p.contentLength
    requires |chunks| >= 1 && forall i :: 0 <= i < |chunks| ==> chunks[i] != []
    requires p.readIdx + |Flatten(chunks)| == p.checkedIdx + p.contentLength <= |p.buf|
    ensures var m := Received(p, Flatten(chunks));
            Feed(true, p, chunks) ==
              (GET_REQUEST, m.(buf := Overwrite(m.buf, p.checkedIdx + p.contentLength, [NUL]), body := Some(p.checkedIdx)))
    decreases |chunks|
  {
    var p0 := Received(p, chunks[0]);
    assert ReadLoop(true, p0, LINE_OK) == Content(p0, p0.startLine);
    if |chunks| == 1 {
      assert Flatten(chunks) == chunks[0];
    } else {
      assert chunks[1..][0] == chunks[1];
      assert |Flatten(chunks[1..])| > 0;
      ReceivedTwice(p, chunks[0], Flatten(chunks[1..]));
      BodyArrivesInReads(p0, chunks[1..]);
    }
  }
}

