/** The connection object of http/http_conn.h and http/http_conn.cpp: its
    three buffers, its cursors and flags, and the member functions that
    update them in place. Each method is proved against the function that
    specifies it in RequestParser, Router, Response or Writer.

    The system calls become parameters and recorded effects: what recv
    hands over is `offered`, what writev accepts is a sequence of answers,
    stat sees the file table `files`, the MySQL insert result is
    `insertOk`, and the event last armed with epoll is the field `armed`.
    The corrected definitions of the three findings are the ones used
    here: the loop of process_read ending after a failed body check,
    process_write with a break after the empty-file case, and the
    corrected write() bookkeeping. */
module HttpConnection {
  import opened Common
  import opened CString
  import opened HttpDefs
  import RequestParser
  import Router
  import Response
  import Writer

  /** The events a connection is registered for with epoll (always one
      shot): none after removefd, EPOLLIN after addfd or modfd(EPOLLIN),
      EPOLLOUT after modfd(EPOLLOUT). */
  datatype Interest = Unwatched | WatchIn | WatchOut

  /** modfd(fd, ev): the socket is re-armed for `ev`; epoll_ctl on a
      closed socket (-1) fails and nothing changes. */
  function Armed(fd: int, was: Interest, ev: Interest): (r: Interest)
    ensures fd != -1 ==> r == ev
    ensures fd == -1 ==> r == was
  {
    if fd == -1 then was else ev
  }

  /** The socket side of a connection: m_sockfd (-1 once closed), the
      event armed with epoll, and the shared m_user_count. */
  datatype Socket = Socket(fd: int, armed: Interest, users: int)

  /** close_conn(real_close) on the socket side. */
  function Closed(s: Socket, realClose: bool): (t: Socket)
    ensures realClose && s.fd != -1 ==> t.fd == -1 && t.armed == Unwatched && t.users == s.users - 1
    ensures !realClose || s.fd == -1 ==> t == s
  {
    if realClose && s.fd != -1 then Socket(-1, Unwatched, s.users - 1) else s
  }

  /** modfd(fd, ev) on the socket side. */
  function Rearmed(s: Socket, ev: Interest): (t: Socket)
    ensures t.fd == s.fd && t.users == s.users
    ensures s.fd != -1 ==> t.armed == ev
    ensures s.fd == -1 ==> t == s
  {
    s.(armed := Armed(s.fd, s.armed, ev))
  }

  /** What process() does to the socket once process_write has answered
      `wrote`: a failed response closes the connection, and the socket is
      then armed for writing, which a closed socket ignores. */
  function Processed(s: Socket, wrote: bool): (t: Socket)
    ensures s.fd == -1 ==> t == s
    ensures s.fd != -1 && wrote ==> t == s.(armed := WatchOut)
    ensures s.fd != -1 && !wrote ==> t == Socket(-1, Unwatched, s.users - 1)
  {
    Rearmed(Closed(s, !wrote), WatchOut)
  }

  /** The rest of process() once process_read has returned `code`: an
      incomplete request re-arms the socket for reading and leaves the reply
      alone; otherwise process_write answers `wrote` and the socket is
      handled as Processed says. */
  function Answered(code: HttpCode, r: Response.Reply, s: Socket, linger: bool, fileSize: nat): (a: (bool, Response.Reply, Socket))
    requires |r.wbuf| == WRITE_BUFFER_SIZE
    ensures code == NO_REQUEST ==> a == (false, r, Rearmed(s, WatchIn))
    ensures code != NO_REQUEST ==> (a.0, a.1) == Response.ProcessWriteFixed(code, r, linger, fileSize) && a.2 == Processed(s, a.0)
  {
    if code == NO_REQUEST then (false, r, Rearmed(s, WatchIn))
    else
      var (wrote, r1) := Response.ProcessWriteFixed(code, r, linger, fileSize);
      (wrote, r1, Processed(s, wrote))
  }

  /** A second close_conn changes nothing: closing is idempotent, and the
      count of users drops once per live socket. */
  lemma CloseIsIdempotent(s: Socket, realClose: bool)
    ensures Closed(Closed(s, realClose), realClose) == Closed(s, realClose)
    ensures Closed(s, realClose).users == if realClose && s.fd != -1 then s.users - 1 else s.users
  {
  }

  /** What process_read leaves behind, from the parser's state p0, the
      file name file0, the user table users0, the file size size0 and the
      mapping flag mapped0 it starts from: the parsing loop's code and state
      while the request is incomplete or malformed; once it is complete,
      do_request's code, with the buffer, the file name, the user table, the
      file size and the mapping do_request leaves. */
  function ReadResult(p0: RequestParser.Parse, file0: seq<char>, users0: Router.Users, size0: nat, mapped0: bool,
                      insertOk: bool, files: Router.FileSystem): (r: (HttpCode, RequestParser.Parse, seq<char>, Router.Users, nat, bool))
    requires RequestParser.Cursors(p0) && RequestParser.UrlSet(p0) && |file0| == FILENAME_LEN
    ensures r.0 == NO_REQUEST <==> RequestParser.ReadLoop(true, p0, LINE_OK).0 == NO_REQUEST
    ensures r.0 == NO_REQUEST ==> r.1 == RequestParser.ReadLoop(true, p0, LINE_OK).1 && r.2 == file0 && r.3 == users0
    ensures RequestParser.ReadLoop(true, p0, LINE_OK).0 == GET_REQUEST ==> IsResolution(r.0)
    ensures RequestParser.ReadLoop(true, p0, LINE_OK).0 != GET_REQUEST ==>
              r == (RequestParser.ReadLoop(true, p0, LINE_OK).0, RequestParser.ReadLoop(true, p0, LINE_OK).1, file0, users0, size0, mapped0)
  {
    var (c, p) := RequestParser.ReadLoop(true, p0, LINE_OK);
    Handled(c, p, file0, users0, size0, mapped0, insertOk, files)
  }

  /** The end of process_read, from the loop's code c and the parser's
      state p: do_request's outcome when the request is complete; c and
      everything unchanged otherwise. */
  function Handled(c: HttpCode, p: RequestParser.Parse, file0: seq<char>, users0: Router.Users, size0: nat, mapped0: bool,
                   insertOk: bool, files: Router.FileSystem): (r: (HttpCode, RequestParser.Parse, seq<char>, Router.Users, nat, bool))
    requires RequestParser.Cursors(p) && (c == GET_REQUEST ==> p.url.Some?) && |file0| == FILENAME_LEN
    ensures c == GET_REQUEST ==> IsResolution(r.0) && |r.2| == FILENAME_LEN && r.1 == p.(buf := r.1.buf)
    ensures c != GET_REQUEST ==> r == (c, p, file0, users0, size0, mapped0)
  {
    if c != GET_REQUEST then (c, p, file0, users0, size0, mapped0)
    else
      var rt := Router.DoRequest(p.buf, p.url.value, p.cgi, p.body, file0, users0, insertOk, files);
      (rt.code, p.(buf := rt.buf), rt.realFile, rt.users,
       if rt.stat.Some? then rt.stat.value.size else size0, mapped0 || rt.code == FILE_REQUEST)
  }

  /** ReadResult is the loop followed by Handled. */
  lemma ReadThenHand(p0: RequestParser.Parse, c: HttpCode, p1: RequestParser.Parse, file0: seq<char>, users0: Router.Users,
                     size0: nat, mapped0: bool, insertOk: bool, files: Router.FileSystem)
    requires RequestParser.Cursors(p0) && RequestParser.UrlSet(p0) && |file0| == FILENAME_LEN
    requires (c, p1) == RequestParser.ReadLoop(true, p0, LINE_OK)
    ensures c == GET_REQUEST ==> p1.url.Some?
    ensures ReadResult(p0, file0, users0, size0, mapped0, insertOk, files) ==
            Handled(c, p1, file0, users0, size0, mapped0, insertOk, files)
  {
  }

  /** What all connections share: the static m_user_count and the global
      user table loaded from the database. */
  class Shared {
    var userCount: int
    var users: Router.Users

    constructor (users: Router.Users)
      ensures userCount == 0 && this.users == users
    {
      userCount := 0;
      this.users := users;
    }
  }

  /** What init() makes of the request side: an all-NUL buffer, every
      cursor at 0, the request line expected, GET, no pointers, no length,
      no linger, no POST flag. m_string is not reset. */
  function ResetParse(p: RequestParser.Parse): (q: RequestParser.Parse)
    requires RequestParser.InBuf(p.body, READ_BUFFER_SIZE)
    ensures RequestParser.Cursors(q) && RequestParser.UrlSet(q)
    ensures q.body == p.body && q.state == CHECK_STATE_REQUESTLINE && q.linger == false
    ensures q.readIdx == 0 && q.checkedIdx == 0 && q.startLine == 0 && q.contentLength == 0
    ensures q.buf == Nuls(READ_BUFFER_SIZE)
  {
    RequestParser.Parse(Nuls(READ_BUFFER_SIZE), 0, 0, 0, CHECK_STATE_REQUESTLINE, GET, 0,
                        None, None, None, 0, false, p.body)
  }

  /** What init() makes of the response side: an all-NUL write buffer, no
      bytes written and none to send. The iovecs and m_iv_count are left
      as they were. */
  function ResetReply(r: Response.Reply): (q: Response.Reply)
    ensures q.wbuf == Nuls(WRITE_BUFFER_SIZE) && q.writeIdx == 0 && q.toSend == 0
    ensures q.iv0 == r.iv0 && q.iv1 == r.iv1 && q.ivCount == r.ivCount
  {
    Response.Reply(Nuls(WRITE_BUFFER_SIZE), 0, r.iv0, r.iv1, r.ivCount, 0)
  }

  /** init() is idempotent. */
  lemma ResetIsIdempotent(p: RequestParser.Parse, r: Response.Reply)
    requires RequestParser.InBuf(p.body, READ_BUFFER_SIZE)
    ensures ResetParse(ResetParse(p)) == ResetParse(p)
    ensures ResetReply(ResetReply(r)) == ResetReply(r)
  {
  }

  /** Right after init() nothing has been received, and process_read asks
      for more, whichever body check it uses, leaving the state as it is. */
  lemma ResetWaitsForRequest(fixed: bool, p: RequestParser.Parse)
    requires RequestParser.InBuf(p.body, READ_BUFFER_SIZE)
    ensures RequestParser.ReadLoop(fixed, ResetParse(p), LINE_OK) == (NO_REQUEST, ResetParse(p))
  {
    var q := ResetParse(p);
    assert RequestParser.ScanLine(q.buf, 0, 0) == (LINE_OPEN, 0, q.buf);
  }

  /** Stores `s` into `a`. */
  method Fill(a: array<char>, s: seq<char>)
    requires a.Length == |s|
    modifies a
    ensures a[..] == s
  {
    forall k | 0 <= k < a.Length {
      a[k] := s[k];
    }
  }

  class HttpConn {
    const shared: Shared
    const readBuf: array<char>     // m_read_buf
    const writeBuf: array<char>    // m_write_buf
    const realFile: array<char>    // m_real_file

    var sockfd: int                // m_sockfd
    var armed: Interest

    // The request side; see RequestParser.Parse.
    var readIdx: nat
    var checkedIdx: nat
    var startLine: nat
    var state: CheckState
    var meth: Method
    var cgi: int
    var url: Option<nat>
    var version: Option<nat>
    var host: Option<nat>
    var contentLength: int
    var linger: bool
    var body: Option<nat>

    // The response side; see Response.Reply and Writer.Sending.
    var writeIdx: nat
    var iv0: Response.IoVec
    var iv1: Response.IoVec
    var ivCount: nat
    var toSend: int                // bytes_to_send
    var haveSend: int              // bytes_have_send

    var fileSize: nat              // m_file_stat.st_size
    var mapped: bool               // m_file_address is not NULL

    /** The three buffers have their sizes and are distinct. */
    predicate Buffers()
    {
      readBuf.Length == READ_BUFFER_SIZE && writeBuf.Length == WRITE_BUFFER_SIZE &&
      realFile.Length == FILENAME_LEN &&
      readBuf != writeBuf && readBuf != realFile && writeBuf != realFile
    }

    /** The buffers have their capacities and are three distinct arrays,
        and the parser's bounds hold (RequestParser.Cursors). */
    predicate Valid()
      reads this`readIdx, this`checkedIdx, this`startLine, this`state, this`url, this`version, this`host, this`body
    {
      Buffers() &&
      startLine <= checkedIdx <= readIdx <= READ_BUFFER_SIZE &&
      RequestParser.InBuf(url, READ_BUFFER_SIZE) && RequestParser.InBuf(version, READ_BUFFER_SIZE) &&
      RequestParser.InBuf(host, READ_BUFFER_SIZE) && RequestParser.InBuf(body, READ_BUFFER_SIZE) &&
      (state != CHECK_STATE_REQUESTLINE ==> url.Some?)
    }

    lemma ValidCursors()
      requires Valid()
      ensures RequestParser.Cursors(ParseState()) && RequestParser.UrlSet(ParseState())
    {
    }

    function ParseState(): (p: RequestParser.Parse)
      reads this`readIdx, this`checkedIdx, this`startLine, this`state, this`meth, this`cgi,
               this`url, this`version, this`host, this`contentLength, this`linger, this`body, readBuf
      ensures p.buf == readBuf[..] && p.readIdx == readIdx && p.checkedIdx == checkedIdx && p.startLine == startLine
    {
      RequestParser.Parse(readBuf[..], readIdx, checkedIdx, startLine, state, meth, cgi,
                          url, version, host, contentLength, linger, body)
    }

    function ReplyState(): (r: Response.Reply)
      reads this`writeIdx, this`iv0, this`iv1, this`ivCount, this`toSend, writeBuf
      ensures r.wbuf == writeBuf[..] && r.writeIdx == writeIdx
    {
      Response.Reply(writeBuf[..], writeIdx, iv0, iv1, ivCount, toSend)
    }

    function SendState(): (s: Writer.Sending)
      reads this
      ensures s.haveSend == haveSend && s.toSend == toSend
    {
      Writer.Sending(iv0, iv1, ivCount, toSend, haveSend, writeIdx)
    }

    function SocketState(): (s: Socket)
      reads this`sockfd, this`armed, shared`userCount
      ensures s.fd == sockfd && s.armed == armed && s.users == shared.userCount
    {
      Socket(sockfd, armed, shared.userCount)
    }

    /** get_line: the line that starts at m_start_line, up to the NUL that
        parse_line stored over its CR. */
    function GetLine(): (text: string)
      requires Valid()
      reads this`readIdx, this`checkedIdx, this`startLine, this`state, this`url, this`version, this`host, this`body, readBuf
      ensures NUL !in text && startLine + |text| <= readBuf.Length
      ensures text == readBuf[startLine..startLine + |text|]
      ensures startLine + |text| < readBuf.Length ==> readBuf[startLine + |text|] == NUL
    {
      CStr(readBuf[..], startLine)
    }

    /** A connection object as init() leaves it, not yet bound to a
        socket. */
    constructor (shared: Shared)
      ensures Valid() && fresh(readBuf) && fresh(writeBuf) && fresh(realFile)
      ensures this.shared == shared && sockfd == -1 && armed == Unwatched
      ensures ParseState() == ResetParse(ParseState()) && body == None
      ensures ReplyState() == ResetReply(ReplyState()) && haveSend == 0
      ensures realFile[..] == Nuls(FILENAME_LEN) && !mapped
    {
      this.shared := shared;
      readBuf := new char[READ_BUFFER_SIZE](_ => NUL);
      writeBuf := new char[WRITE_BUFFER_SIZE](_ => NUL);
      realFile := new char[FILENAME_LEN](_ => NUL);
      sockfd := -1;
      armed := Unwatched;
      readIdx, checkedIdx, startLine := 0, 0, 0;
      state, meth, cgi := CHECK_STATE_REQUESTLINE, GET, 0;
      url, version, host, body := None, None, None, None;
      contentLength, linger := 0, false;
      writeIdx, iv0, iv1, ivCount := 0, Response.IoVec(0, 0), Response.IoVec(0, 0), 0;
      toSend, haveSend := 0, 0;
      fileSize, mapped := 0, false;
      new;
      assert readBuf[..] == Nuls(READ_BUFFER_SIZE);
      assert writeBuf[..] == Nuls(WRITE_BUFFER_SIZE);
      assert realFile[..] == Nuls(FILENAME_LEN);
    }

    /** init(): the buffers are cleared and every cursor and flag goes back
        to its initial value; the socket, the iovecs, m_string and the
        file mapping are left alone. */
    method Init()
      requires Valid()
      modifies this, readBuf, writeBuf, realFile
      ensures Valid()
      ensures ParseState() == ResetParse(old(ParseState()))
      ensures ReplyState() == ResetReply(old(ReplyState())) && haveSend == 0
      ensures realFile[..] == Nuls(FILENAME_LEN)
      ensures sockfd == old(sockfd) && armed == old(armed) && fileSize == old(fileSize) && mapped == old(mapped)
    {
      ResetCursors();
      ClearBuffers();
    }

    /** The three memsets of init(). */
    method ClearBuffers()
      requires Valid()
      modifies readBuf, writeBuf, realFile
      ensures readBuf[..] == Nuls(READ_BUFFER_SIZE) && writeBuf[..] == Nuls(WRITE_BUFFER_SIZE)
      ensures realFile[..] == Nuls(FILENAME_LEN)
    {
      Fill(readBuf, Nuls(READ_BUFFER_SIZE));
      Fill(writeBuf, Nuls(WRITE_BUFFER_SIZE));
      Fill(realFile, Nuls(FILENAME_LEN));
    }

    /** The assignments of init(). */
    method ResetCursors()
      requires Valid()
      modifies this`toSend, this`haveSend, this`state, this`linger, this`meth, this`url, this`version,
               this`contentLength, this`host, this`startLine, this`checkedIdx, this`readIdx,
               this`writeIdx, this`cgi
      ensures Valid()
      ensures readIdx == 0 && checkedIdx == 0 && startLine == 0 && writeIdx == 0
      ensures state == CHECK_STATE_REQUESTLINE && meth == GET && cgi == 0 && !linger && contentLength == 0
      ensures url == None && version == None && host == None && toSend == 0 && haveSend == 0
    {
      toSend, haveSend, writeIdx := 0, 0, 0;
      ResetStage();
      ResetOffsets();
    }

    /** The assignments of init() that restart the parser's stage. */
    method ResetStage()
      requires Valid()
      modifies this`state, this`linger, this`meth, this`contentLength, this`cgi
      ensures Valid()
      ensures state == CHECK_STATE_REQUESTLINE && meth == GET && cgi == 0 && !linger && contentLength == 0
    {
      state, linger, meth := CHECK_STATE_REQUESTLINE, false, GET;
      contentLength, cgi := 0, 0;
    }

    /** The assignments of init() that clear the parser's positions. */
    method ResetOffsets()
      requires Valid() && state == CHECK_STATE_REQUESTLINE
      modifies this`url, this`version, this`host, this`startLine, this`checkedIdx, this`readIdx
      ensures Valid()
      ensures readIdx == 0 && checkedIdx == 0 && startLine == 0
      ensures url == None && version == None && host == None
    {
      url, version, host := None, None, None;
      startLine, checkedIdx, readIdx := 0, 0, 0;
    }

    /** init(sockfd, addr): the socket is recorded and registered for
        EPOLLIN, the shared count of users grows by one, and init() runs. */
    method InitConn(fd: int)
      requires Valid()
      modifies this, shared`userCount, readBuf, writeBuf, realFile
      ensures Valid()
      ensures sockfd == fd && armed == WatchIn && shared.userCount == old(shared.userCount) + 1
      ensures ParseState() == ResetParse(old(ParseState()))
      ensures ReplyState() == ResetReply(old(ReplyState())) && haveSend == 0
      ensures realFile[..] == Nuls(FILENAME_LEN)
    {
      sockfd := fd;
      armed := WatchIn;
      shared.userCount := shared.userCount + 1;
      Init();
    }

    /** close_conn(real_close): a live socket is deregistered and closed,
        marked closed, and the shared count of users drops by one. A closed
        socket, or real_close false, leaves everything as it is, so a second
        close changes nothing. */
    method CloseConn(realClose: bool)
      modifies this`sockfd, this`armed, shared`userCount
      ensures realClose ==> sockfd == -1
      ensures realClose && old(sockfd) != -1 ==> armed == Unwatched && shared.userCount == old(shared.userCount) - 1
      ensures !(realClose && old(sockfd) != -1) ==>
                sockfd == old(sockfd) && armed == old(armed) && shared.userCount == old(shared.userCount)
      ensures SocketState() == Closed(old(SocketState()), realClose)
    {
      if realClose && sockfd != -1 {
        armed := Unwatched;
        sockfd := -1;
        shared.userCount := shared.userCount - 1;
      }
    }

    /** read_once, level-triggered: nothing is read into a full buffer;
        otherwise recv stores what the socket offers, as much as fits, after
        what was received before. An empty offer is recv returning 0 (the
        peer closed) or -1 (an error). */
    method ReadOnce(offered: seq<char>) returns (ok: bool)
      requires Valid()
      modifies this`readIdx, readBuf
      ensures Valid()
      ensures ok <==> old(readIdx) < READ_BUFFER_SIZE && |offered| > 0
      ensures ok ==> ParseState() == RequestParser.Received(old(ParseState()), offered[..Min(|offered|, READ_BUFFER_SIZE - old(readIdx))])
      ensures !ok ==> ParseState() == old(ParseState())
    {
      if readIdx >= READ_BUFFER_SIZE {
        return false;
      }
      var n := Min(|offered|, READ_BUFFER_SIZE - readIdx);
      if n <= 0 {
        return false;
      }
      ghost var p := ParseState();
      forall k | readIdx <= k < readIdx + n {
        readBuf[k] := offered[k - readIdx];
      }
      assert readBuf[..] == Overwrite(p.buf, p.readIdx, offered[..n]);
      readIdx := readIdx + n;
      return true;
    }

    /** parse_line: m_checked_idx walks towards m_read_idx; a CRLF is
        overwritten with two NULs and the scanner stops past it. */
    method ParseLine() returns (status: LineStatus)
      requires Valid()
      modifies this`checkedIdx, readBuf
      ensures Valid()
      ensures var r := RequestParser.ScanLine(old(readBuf[..]), old(checkedIdx), readIdx);
              status == r.0 && checkedIdx == r.1 && readBuf[..] == r.2
      ensures ReplyState() == old(ReplyState()) && SocketState() == old(SocketState())
    {
      ghost var b0 := readBuf[..];
      ghost var r := RequestParser.ScanLine(b0, checkedIdx, readIdx);
      ghost var r0, s0 := ReplyState(), SocketState();
      while checkedIdx < readIdx
        invariant checkedIdx <= readIdx && readBuf[..] == b0
        invariant ReplyState() == r0 && SocketState() == s0
        invariant RequestParser.ScanLine(b0, checkedIdx, readIdx) == r
        decreases readIdx - checkedIdx
      {
        var temp := readBuf[checkedIdx];
        if temp == '\r' || temp == '\n' {
          status := Terminator();
          return;
        }
        checkedIdx := checkedIdx + 1;
      }
      return LINE_OPEN;
    }

    /** parse_line at a CR or LF: a CR as the last byte received leaves
        the line open, a CRLF (or an LF after a CR scanned before)
        completes it, anything else is malformed. */
    method Terminator() returns (status: LineStatus)
      requires Valid() && checkedIdx < readIdx && RequestParser.IsEol(readBuf[checkedIdx])
      modifies this`checkedIdx, readBuf
      ensures Valid()
      ensures var r := RequestParser.ScanLine(old(readBuf[..]), old(checkedIdx), readIdx);
              status == r.0 && checkedIdx == r.1 && readBuf[..] == r.2
      ensures ReplyState() == old(ReplyState()) && SocketState() == old(SocketState())
    {
      ghost var b0 := readBuf[..];
      ghost var i := checkedIdx;
      if readBuf[checkedIdx] == '\r' {
        if checkedIdx + 1 == readIdx {
          return LINE_OPEN;
        } else if readBuf[checkedIdx + 1] == '\n' {
          readBuf[checkedIdx] := NUL;
          checkedIdx := checkedIdx + 1;
          readBuf[checkedIdx] := NUL;
          checkedIdx := checkedIdx + 1;
          assert readBuf[..] == b0[i := NUL][i + 1 := NUL];
          return LINE_OK;
        }
        return LINE_BAD;
      }
      if checkedIdx > 1 && readBuf[checkedIdx - 1] == '\r' {
        readBuf[checkedIdx - 1] := NUL;
        readBuf[checkedIdx] := NUL;
        checkedIdx := checkedIdx + 1;
        assert readBuf[..] == b0[i - 1 := NUL][i := NUL];
        return LINE_OK;
      }
      return LINE_BAD;
    }

    /** Writes back the parser's fields after a stage parser ran on them. */
    method SetParse(q: RequestParser.Parse)
      requires Valid() && RequestParser.Cursors(q) && RequestParser.UrlSet(q)
      modifies this`readIdx, this`checkedIdx, this`startLine, this`state, this`meth, this`cgi,
               this`url, this`version, this`host, this`contentLength, this`linger, this`body, readBuf
      ensures Valid() && ParseState() == q
      ensures ReplyState() == old(ReplyState()) && SocketState() == old(SocketState())
    {
      ghost var r0, s0 := ReplyState(), SocketState();
      Fill(readBuf, q.buf);
      assert ReplyState() == r0 && SocketState() == s0;
      SetFlags(q);
      SetPointers(q);
      SetCursors(q);
    }

    /** The parser's fields that Valid() does not constrain. */
    method SetFlags(q: RequestParser.Parse)
      requires Valid()
      modifies this`meth, this`cgi, this`contentLength, this`linger
      ensures Valid() && meth == q.meth && cgi == q.cgi && contentLength == q.contentLength && linger == q.linger
      ensures ReplyState() == old(ReplyState()) && SocketState() == old(SocketState())
    {
      meth, cgi := q.meth, q.cgi;
      contentLength, linger := q.contentLength, q.linger;
    }

    /** Where the parser found the version, the host and the body. */
    method SetPointers(q: RequestParser.Parse)
      requires Valid() && RequestParser.Cursors(q)
      modifies this`version, this`host, this`body
      ensures Valid() && version == q.version && host == q.host && body == q.body
      ensures ReplyState() == old(ReplyState()) && SocketState() == old(SocketState())
    {
      version, host, body := q.version, q.host, q.body;
    }

    /** The parser's cursors, its state and where it found the target. */
    method SetCursors(q: RequestParser.Parse)
      requires Valid() && RequestParser.Cursors(q) && RequestParser.UrlSet(q)
      modifies this`readIdx, this`checkedIdx, this`startLine, this`state, this`url
      ensures Valid()
      ensures readIdx == q.readIdx && checkedIdx == q.checkedIdx && startLine == q.startLine && state == q.state && url == q.url
      ensures ReplyState() == old(ReplyState()) && SocketState() == old(SocketState())
    {
      readIdx, checkedIdx, startLine := q.readIdx, q.checkedIdx, q.startLine;
      state, url := q.state, q.url;
    }

    /** do_request: the route is chosen and the file looked up by
        Router.DoRequest; the target is rewritten in m_read_buf for the
        POST routes, the path is stored in m_real_file, a registration
        enters the user table, what stat reports is kept, and a file that
        can be served is mapped. */
    method DoRequest(insertOk: bool, files: Router.FileSystem) returns (code: HttpCode)
      requires Valid() && url.Some?
      modifies readBuf, realFile, shared`users, this`fileSize, this`mapped
      ensures Valid()
      ensures var p := old(ParseState());
              var rt := Router.DoRequest(p.buf, p.url.value, p.cgi, p.body, old(realFile[..]),
                                         old(shared.users), insertOk, files);
              code == rt.code && ParseState() == p.(buf := rt.buf) && realFile[..] == rt.realFile && shared.users == rt.users &&
              fileSize == (if rt.stat.Some? then rt.stat.value.size else old(fileSize)) &&
              mapped == (old(mapped) || rt.code == FILE_REQUEST)
      ensures ReplyState() == old(ReplyState()) && SocketState() == old(SocketState())
    {
      var rt := Router.DoRequest(readBuf[..], url.value, cgi, body, realFile[..], shared.users, insertOk, files);
      Store(rt);
      code := rt.code;
    }

    /** The effects of do_request once the route is known: the buffers and
        the user table take their new contents, the size stat reported is
        kept and a served file is mapped. */
    method Store(rt: Router.Routed)
      requires Valid() && |rt.buf| == READ_BUFFER_SIZE && |rt.realFile| == FILENAME_LEN
      modifies readBuf, realFile, shared`users, this`fileSize, this`mapped
      ensures Valid()
      ensures ParseState() == old(ParseState()).(buf := rt.buf) && realFile[..] == rt.realFile && shared.users == rt.users
      ensures fileSize == (if rt.stat.Some? then rt.stat.value.size else old(fileSize))
      ensures mapped == (old(mapped) || rt.code == FILE_REQUEST)
      ensures ReplyState() == old(ReplyState()) && SocketState() == old(SocketState())
    {
      ghost var r0, s0 := ReplyState(), SocketState();
      Fill(readBuf, rt.buf);
      Fill(realFile, rt.realFile);
      assert ReplyState() == r0 && SocketState() == s0;
      shared.users := rt.users;
      if rt.stat.Some? {
        fileSize := rt.stat.value.size;
      }
      if rt.code == FILE_REQUEST {
        mapped := true;
      }
    }

    /** One round of the loop of process_read at line status `status`:
        a line is scanned unless a body is awaited, and the stage parser of
        the current state runs on it. Either the loop returns, with the
        code and state ReadLoop ends with (GET_REQUEST standing for the
        call of do_request), or it goes on from a state and line status
        with the same outcome and a smaller measure. */
    method Round(status: LineStatus) returns (done: bool, c: HttpCode, next: LineStatus)
      requires Valid()
      modifies this`readIdx, this`checkedIdx, this`startLine, this`state, this`meth, this`cgi,
               this`url, this`version, this`host, this`contentLength, this`linger, this`body, readBuf
      ensures Valid()
      ensures done ==> (c, ParseState()) == RequestParser.ReadLoop(true, old(ParseState()), status)
      ensures !done ==> RequestParser.ReadLoop(true, ParseState(), next) == RequestParser.ReadLoop(true, old(ParseState()), status)
      ensures !done ==> readIdx - checkedIdx < old(readIdx - checkedIdx) && next == LINE_OK
      ensures ReplyState() == old(ReplyState()) && SocketState() == old(SocketState())
    {
      ValidCursors();
      ghost var p0 := ParseState();
      if !(state == CHECK_STATE_CONTENT && status == LINE_OK) {
        var scanned := ParseLine();
        if scanned != LINE_OK {
          return true, NO_REQUEST, scanned;
        }
      }
      ValidCursors();
      assert RequestParser.ReadLoop(true, p0, status) == RequestParser.LoopBody(true, ParseState());
      done, c, next := Stage();
    }

    /** The body of the loop once a line is there: get_line, m_start_line
        moved to m_checked_idx, and the stage parser of the current state. */
    method Stage() returns (done: bool, c: HttpCode, next: LineStatus)
      requires Valid()
      modifies this`readIdx, this`checkedIdx, this`startLine, this`state, this`meth, this`cgi,
               this`url, this`version, this`host, this`contentLength, this`linger, this`body, readBuf
      ensures Valid() && readIdx == old(readIdx) && checkedIdx == old(checkedIdx)
      ensures done ==> (c, ParseState()) == RequestParser.LoopBody(true, old(ParseState()))
      ensures !done ==> RequestParser.ReadLoop(true, ParseState(), next) == RequestParser.LoopBody(true, old(ParseState()))
      ensures !done ==> old(state) != CHECK_STATE_CONTENT && next == LINE_OK
      ensures ReplyState() == old(ReplyState()) && SocketState() == old(SocketState())
    {
      var text := startLine;
      startLine := checkedIdx;
      ValidCursors();
      if state == CHECK_STATE_REQUESTLINE {
        var r := RequestParser.RequestLine(ParseState(), text);
        SetParse(r.1);
        return r.0 == BAD_REQUEST, r.0, LINE_OK;
      } else if state == CHECK_STATE_HEADER {
        var r := RequestParser.Headers(ParseState(), text);
        SetParse(r.1);
        return r.0 == GET_REQUEST, r.0, LINE_OK;
      } else {
        var r := RequestParser.Content(ParseState(), text);
        SetParse(r.1);
        return true, r.0, LINE_OPEN;
      }
    }

    /** process_read, with the loop ending after a failed body check, and
        do_request once the request is complete. */
    method ProcessRead(insertOk: bool, files: Router.FileSystem) returns (code: HttpCode)
      requires Valid()
      modifies this`readIdx, this`checkedIdx, this`startLine, this`state, this`meth, this`cgi,
               this`url, this`version, this`host, this`contentLength, this`linger, this`body,
               this`fileSize, this`mapped, readBuf, realFile, shared`users
      ensures Valid()
      ensures (code, ParseState(), realFile[..], shared.users, fileSize, mapped) ==
              ReadResult(old(ParseState()), old(realFile[..]), old(shared.users), old(fileSize), old(mapped), insertOk, files)
      ensures code == NO_REQUEST || IsResolution(code)
      ensures ReplyState() == old(ReplyState()) && SocketState() == old(SocketState())
    {
      ghost var p0, f0, u0 := ParseState(), realFile[..], shared.users;
      var c := ReadRequest();
      ReadThenHand(p0, c, ParseState(), f0, u0, fileSize, mapped, insertOk, files);
      code := Hand(c, insertOk, files);
    }

    /** The loop of process_read: lines are pulled out and handed to the
        parser of the current stage until a stage settles the request or
        the bytes run out. */
    method ReadRequest() returns (c: HttpCode)
      requires Valid()
      modifies this`readIdx, this`checkedIdx, this`startLine, this`state, this`meth, this`cgi,
               this`url, this`version, this`host, this`contentLength, this`linger, this`body, readBuf
      ensures Valid()
      ensures (c, ParseState()) == RequestParser.ReadLoop(true, old(ParseState()), LINE_OK)
      ensures ReplyState() == old(ReplyState()) && SocketState() == old(SocketState())
    {
      ValidCursors();
      ghost var target := RequestParser.ReadLoop(true, ParseState(), LINE_OK);
      ghost var r0, s0 := ReplyState(), SocketState();
      var status := LINE_OK;
      while true
        invariant Valid()
        invariant RequestParser.ReadLoop(true, ParseState(), status) == target
        invariant ReplyState() == r0 && SocketState() == s0
        decreases readIdx - checkedIdx
      {
        var done;
        done, c, status := Round(status);
        if done {
          return;
        }
      }
    }

    /** What process_read returns once its loop has ended: the result of
        do_request for a complete request, the loop's code otherwise. */
    method Hand(c: HttpCode, insertOk: bool, files: Router.FileSystem) returns (code: HttpCode)
      requires Valid() && (c == GET_REQUEST ==> url.Some?)
      modifies readBuf, realFile, shared`users, this`fileSize, this`mapped
      ensures Valid()
      ensures (code, ParseState(), realFile[..], shared.users, fileSize, mapped) ==
              Handled(c, old(ParseState()), old(realFile[..]), old(shared.users), old(fileSize), old(mapped), insertOk, files)
      ensures ReplyState() == old(ReplyState()) && SocketState() == old(SocketState())
    {
      if c == GET_REQUEST {
        code := DoRequest(insertOk, files);
      } else {
        code := c;
      }
    }

    /** add_response with the text its format expands to: nothing is stored
        once m_write_idx has reached the end of the buffer; otherwise
        vsnprintf stores as much of the text as fits before the last byte,
        and its NUL, and m_write_idx moves past the text only when all of
        it fitted. */
    method AddResponse(t: string) returns (ok: bool)
      requires Valid()
      modifies this`writeIdx, writeBuf
      ensures Valid()
      ensures (ok, writeBuf[..], writeIdx) == Response.AddResponse(old(writeBuf[..]), old(writeIdx), t)
    {
      if writeIdx >= WRITE_BUFFER_SIZE {
        return false;
      }
      var size := WRITE_BUFFER_SIZE - 1 - writeIdx;
      var stored := SnprintfBytes(t, size);
      ghost var w0 := writeBuf[..];
      forall k | writeIdx <= k < writeIdx + |stored| {
        writeBuf[k] := stored[k - writeIdx];
      }
      assert writeBuf[..] == Overwrite(w0, writeIdx, stored);
      if |t| >= size {
        return false;
      }
      writeIdx := writeIdx + |t|;
      return true;
    }

    method AddStatusLine(status: int, title: string) returns (ok: bool)
      requires Valid()
      modifies this`writeIdx, writeBuf
      ensures Valid()
      ensures (ok, writeBuf[..], writeIdx) ==
              Response.AddResponse(old(writeBuf[..]), old(writeIdx), Response.StatusLine(status, title))
    {
      ok := AddResponse(Response.StatusLine(status, title));
    }

    method AddContentLength(n: int) returns (ok: bool)
      requires Valid()
      modifies this`writeIdx, writeBuf
      ensures Valid()
      ensures (ok, writeBuf[..], writeIdx) ==
              Response.AddResponse(old(writeBuf[..]), old(writeIdx), Response.ContentLengthLine(n))
    {
      ok := AddResponse(Response.ContentLengthLine(n));
    }

    method AddLinger() returns (ok: bool)
      requires Valid()
      modifies this`writeIdx, writeBuf
      ensures Valid()
      ensures (ok, writeBuf[..], writeIdx) ==
              Response.AddResponse(old(writeBuf[..]), old(writeIdx), Response.LingerLine(linger))
    {
      ok := AddResponse(Response.LingerLine(linger));
    }

    method AddBlankLine() returns (ok: bool)
      requires Valid()
      modifies this`writeIdx, writeBuf
      ensures Valid()
      ensures (ok, writeBuf[..], writeIdx) ==
              Response.AddResponse(old(writeBuf[..]), old(writeIdx), Response.BLANK_LINE)
    {
      ok := AddResponse(Response.BLANK_LINE);
    }

    method AddContent(content: string) returns (ok: bool)
      requires Valid()
      modifies this`writeIdx, writeBuf
      ensures Valid()
      ensures (ok, writeBuf[..], writeIdx) == Response.AddResponse(old(writeBuf[..]), old(writeIdx), content)
    {
      ok := AddResponse(content);
    }

    /** add_headers: the three header lines, whatever becomes of each. */
    method AddHeaders(contentLen: int)
      requires Valid()
      modifies this`writeIdx, writeBuf
      ensures Valid()
      ensures (writeBuf[..], writeIdx) == Response.AddHeaders(old(writeBuf[..]), old(writeIdx), contentLen, linger)
    {
      var _ := AddContentLength(contentLen);
      var _ := AddLinger();
      var _ := AddBlankLine();
    }

    /** A case of process_write that answers with a page: status line,
        headers and content, then the one iovec over the write buffer; a
        content that does not fit makes it return false. */
    method PageOut(status: int, title: string, form: string) returns (ok: bool)
      requires Valid()
      modifies this`writeIdx, writeBuf, this`iv0, this`ivCount, this`toSend
      ensures Valid()
      ensures (ok, ReplyState()) == Response.ErrorReply(old(ReplyState()), linger, status, title, form)
    {
      ghost var r0 := ReplyState();
      ok := Compose(Response.StatusLine(status, title), form);
      Response.ErrorReplyOf(r0, linger, status, title, form, ok, writeBuf[..], writeIdx);
      if !ok {
        return;
      }
      OneVector();
    }

    /** The end of process_write for a page: the one iovec covers the
        write buffer up to m_write_idx, and that is all there is to send. */
    method OneVector()
      requires Valid()
      modifies this`iv0, this`ivCount, this`toSend
      ensures Valid()
      ensures iv0 == Response.IoVec(0, writeIdx) && ivCount == 1 && toSend == writeIdx
    {
      iv0 := Response.IoVec(0, writeIdx);
      ivCount := 1;
      toSend := writeIdx;
    }

    /** The text of a page: its first line, the headers announcing the
        content's length, and the content, whose fit is the result. */
    method Compose(first: string, form: string) returns (ok: bool)
      requires Valid()
      modifies this`writeIdx, writeBuf
      ensures Valid()
      ensures var r1 := Response.AddResponse(old(writeBuf[..]), old(writeIdx), first);
              var h := Response.AddHeaders(r1.1, r1.2, |form|, linger);
              (ok, writeBuf[..], writeIdx) == Response.AddResponse(h.0, h.1, form)
    {
      ghost var r1 := Response.AddResponse(writeBuf[..], writeIdx, first);
      var _ := AddResponse(first);
      ghost var h := Response.AddHeaders(r1.1, r1.2, |form|, linger);
      AddHeaders(|form|);
      assert writeBuf[..] == h.0 && writeIdx == h.1;
      ok := AddContent(form);
    }

    /** process_write for FILE_REQUEST on a file that is not empty: status
        line and headers, and the two iovecs over the headers and the
        mapped file; bytes_to_send is narrowed to an int. */
    method FileOut() returns (ok: bool)
      requires Valid() && fileSize != 0
      modifies this`writeIdx, writeBuf, this`iv0, this`iv1, this`ivCount, this`toSend
      ensures Valid()
      ensures ok && ReplyState() == Response.FileReply(old(ReplyState()), linger, fileSize)
    {
      ghost var r0 := ReplyState();
      Head(ToInt32(fileSize));
      Response.FileReplyOf(r0, linger, fileSize, writeBuf[..], writeIdx);
      TwoVectors();
      return true;
    }

    /** The status line of a file response and the headers announcing the
        file size; what fits of them is stored. */
    method Head(contentLen: int)
      requires Valid()
      modifies this`writeIdx, writeBuf
      ensures Valid()
      ensures var r1 := Response.AddResponse(old(writeBuf[..]), old(writeIdx), Response.StatusLine(200, Response.OK_200_TITLE));
              (writeBuf[..], writeIdx) == Response.AddHeaders(r1.1, r1.2, contentLen, linger)
    {
      var _ := AddStatusLine(200, Response.OK_200_TITLE);
      AddHeaders(contentLen);
    }

    /** The end of process_write for a file: the first iovec covers the
        headers, the second the mapped file, and bytes_to_send, narrowed to
        an int, is their sum. */
    method TwoVectors()
      requires Valid()
      modifies this`iv0, this`iv1, this`ivCount, this`toSend
      ensures Valid()
      ensures iv0 == Response.IoVec(0, writeIdx) && iv1 == Response.IoVec(0, fileSize) && ivCount == 2
      ensures toSend == Response.FileTotal(writeIdx, fileSize)
    {
      iv0 := Response.IoVec(0, writeIdx);
      iv1 := Response.IoVec(0, fileSize);
      ivCount := 2;
      toSend := Response.FileTotal(writeIdx, fileSize);
    }

    /** process_write(ret), with a break after the empty-file case. */
    method ProcessWrite(ret: HttpCode) returns (ok: bool)
      requires Valid()
      modifies this`writeIdx, writeBuf, this`iv0, this`iv1, this`ivCount, this`toSend
      ensures Valid()
      ensures (ok, ReplyState()) == Response.ProcessWriteFixed(ret, old(ReplyState()), linger, fileSize)
      ensures realFile[..] == old(realFile[..])
    {
      if ret == FILE_REQUEST && fileSize != 0 {
        ok := FileOut();
      } else if Response.IsErrorCode(ret) || ret == FILE_REQUEST {
        // the error pages, and the empty page of an empty file
        var pg := if ret == FILE_REQUEST then Response.Page(200, Response.OK_200_TITLE, Response.OK_STRING)
                  else Response.ErrorPage(ret);
        ok := PageOut(pg.status, pg.title, pg.form);
      } else {
        ok := false;
      }
    }

    /** How many bytes writev would gather from the iovecs. */
    function VecLen(): (n: nat)
      reads this`iv0, this`iv1, this`ivCount
      ensures n == |Writer.Vector(SendState())|
    {
      (if iv0.len > 0 then iv0.len else 0) + (if ivCount >= 2 && iv1.len > 0 then iv1.len else 0)
    }

    /** The bookkeeping after writev sent `temp` bytes, measured from the
        start of the header block. */
    method Bookkeep(temp: nat)
      modifies this`iv0, this`iv1, this`toSend, this`haveSend
      ensures SendState() == Writer.StepFixed(old(SendState()), temp)
    {
      haveSend := haveSend + temp;
      toSend := toSend - temp;
      if haveSend >= writeIdx {
        iv0 := iv0.(len := 0);
        iv1 := Response.IoVec(haveSend - writeIdx, toSend);
      } else {
        iv0 := Response.IoVec(haveSend, writeIdx - haveSend);
      }
    }

    /** One round of the loop of write(): writev with the next answer of
        the socket (an empty vector makes writev return 0 without asking
        the socket), the bookkeeping, and the test for the end. Either the
        loop returns, as WriteLoop ends, or it goes on with the answers
        left and the same outcome. `chunk` is what this writev sent. */
    method SendRound(rest: seq<Writer.Answer>) returns (done: bool, end: Writer.WriteEnd,
                                                       left: seq<Writer.Answer>, ghost chunk: seq<Writer.Src>)
      modifies this`iv0, this`iv1, this`toSend, this`haveSend
      ensures done ==> (end, SendState(), chunk) == Writer.WriteLoop(Writer.Fixed, old(SendState()), rest)
      ensures !done ==> var r := Writer.WriteLoop(Writer.Fixed, SendState(), left);
                        Writer.WriteLoop(Writer.Fixed, old(SendState()), rest) == (r.0, r.1, chunk + r.2)
      ensures !done ==> |left| < |rest| || (left == rest && old(VecLen()) == 0 && VecLen() > 0)
    {
      ghost var s0 := SendState();
      var len := VecLen();
      var temp: nat;
      if len == 0 {
        temp, left := 0, rest;
      } else if rest == [] || rest[0] == Writer.WouldBlock {
        return true, Writer.Again, rest, [];
      } else if rest[0] == Writer.Failed {
        return true, Writer.Broken, rest, [];
      } else {
        temp, left := Min(rest[0].n, len), rest[1..];
      }
      chunk := Writer.Vector(s0)[..temp];
      if len > 0 {
        Writer.AcceptRound(Writer.Fixed, s0, rest);
      }
      Bookkeep(temp);
      if toSend <= 0 {
        return true, Writer.Finished, left, chunk;
      }
      if len == 0 && VecLen() == 0 {
        return true, Writer.Spins, left, chunk;
      }
      if len == 0 {
        assert chunk + Writer.WriteLoop(Writer.Fixed, SendState(), left).2 == Writer.WriteLoop(Writer.Fixed, SendState(), left).2;
      }
      done, end := false, Writer.Spins;
    }

    /** The loop of write(), until the socket would block or fails or the
        response is out. A loop that could only spin, every iovec empty
        while bytes remain, is stopped and reported as such. */
    method Send(answers: seq<Writer.Answer>) returns (end: Writer.WriteEnd, ghost sent: seq<Writer.Src>)
      modifies this`iv0, this`iv1, this`toSend, this`haveSend
      ensures (end, SendState(), sent) == Writer.WriteLoop(Writer.Fixed, old(SendState()), answers)
    {
      ghost var target := Writer.WriteLoop(Writer.Fixed, SendState(), answers);
      var rest := answers;
      sent := [];
      assert sent + target.2 == target.2;
      while true
        invariant var r := Writer.WriteLoop(Writer.Fixed, SendState(), rest); target == (r.0, r.1, sent + r.2)
        decreases |rest|, if VecLen() == 0 then 1 else 0
      {
        var done;
        ghost var chunk;
        ghost var before := sent;
        done, end, rest, chunk := SendRound(rest);
        sent := sent + chunk;
        if done {
          return;
        }
        assert before + (chunk + Writer.WriteLoop(Writer.Fixed, SendState(), rest).2) ==
               sent + Writer.WriteLoop(Writer.Fixed, SendState(), rest).2;
      }
    }

    /** unmap(): the mapping of the file is released. */
    method Unmap()
      modifies this`mapped
      ensures !mapped
    {
      mapped := false;
    }

    /** modfd(m_epollfd, m_sockfd, ev). */
    method ModFd(ev: Interest)
      modifies this`armed
      ensures armed == Armed(sockfd, old(armed), ev)
      ensures SocketState() == Rearmed(old(SocketState()), ev)
    {
      if sockfd != -1 {
        armed := ev;
      }
    }

    /** write(), with the corrected bookkeeping. With nothing to send the
        socket is armed for reading and the connection re-initialised.
        Otherwise the loop runs: when the socket would block it is armed
        for writing again; a failure unmaps the file and closes the
        connection; once everything is sent the file is unmapped, the
        socket armed for reading, and a keep-alive connection is
        re-initialised while any other closes. `sent` is what went out. */
    method Write(answers: seq<Writer.Answer>) returns (keep: bool, ghost sent: seq<Writer.Src>)
      requires Valid()
      modifies this, readBuf, writeBuf, realFile
      ensures Valid()
      ensures var r := Writer.Write(Writer.Fixed, old(SendState()), answers);
              sent == r.2 && keep == (r.0 == Writer.Idle || r.0 == Writer.Again || (r.0 == Writer.Finished && old(linger)))
      ensures var r := Writer.Write(Writer.Fixed, old(SendState()), answers);
              armed == (if r.0 == Writer.Idle || r.0 == Writer.Finished then Armed(old(sockfd), old(armed), WatchIn)
                        else if r.0 == Writer.Again then Armed(old(sockfd), old(armed), WatchOut)
                        else old(armed))
      ensures var r := Writer.Write(Writer.Fixed, old(SendState()), answers);
              mapped == (old(mapped) && (r.0 == Writer.Idle || r.0 == Writer.Again || r.0 == Writer.Spins))
      ensures sockfd == old(sockfd) && fileSize == old(fileSize)
      ensures var r := Writer.Write(Writer.Fixed, old(SendState()), answers);
              r.0 == Writer.Idle || (r.0 == Writer.Finished && old(linger)) ==>
                ParseState() == ResetParse(old(ParseState())) && realFile[..] == Nuls(FILENAME_LEN) &&
                ReplyState() == ResetReply(Response.Reply(old(writeBuf[..]), old(writeIdx), r.1.iv0, r.1.iv1, r.1.ivCount, r.1.toSend)) &&
                haveSend == 0
      ensures var r := Writer.Write(Writer.Fixed, old(SendState()), answers);
              !(r.0 == Writer.Idle || (r.0 == Writer.Finished && old(linger))) ==>
                ParseState() == old(ParseState()) && realFile[..] == old(realFile[..]) &&
                writeBuf[..] == old(writeBuf[..]) && SendState() == r.1
    {
      var end := Writer.Idle;
      sent := [];
      if toSend != 0 {
        end, sent := Send(answers);
      }
      keep := Conclude(end);
    }

    /** How write() returns once it knows how sending ended: with nothing
        to send it re-arms the socket for reading and runs init(); an
        EAGAIN re-arms it for writing; an error unmaps the file; a finished
        response unmaps the file, re-arms the socket for reading and, with
        keep-alive, runs init(). */
    method Conclude(end: Writer.WriteEnd) returns (keep: bool)
      requires Valid()
      modifies this, readBuf, writeBuf, realFile
      ensures Valid()
      ensures keep == (end == Writer.Idle || end == Writer.Again || (end == Writer.Finished && old(linger)))
      ensures armed == (if end == Writer.Idle || end == Writer.Finished then Armed(old(sockfd), old(armed), WatchIn)
                        else if end == Writer.Again then Armed(old(sockfd), old(armed), WatchOut)
                        else old(armed))
      ensures mapped == (old(mapped) && (end == Writer.Idle || end == Writer.Again || end == Writer.Spins))
      ensures sockfd == old(sockfd) && fileSize == old(fileSize)
      ensures end == Writer.Idle || (end == Writer.Finished && old(linger)) ==>
                ParseState() == ResetParse(old(ParseState())) && realFile[..] == Nuls(FILENAME_LEN) &&
                ReplyState() == ResetReply(old(ReplyState())) && haveSend == 0
      ensures !(end == Writer.Idle || (end == Writer.Finished && old(linger))) ==>
                ParseState() == old(ParseState()) && realFile[..] == old(realFile[..]) &&
                writeBuf[..] == old(writeBuf[..]) && SendState() == old(SendState())
    {
      if end == Writer.Idle {
        ModFd(WatchIn);
        Init();
        return true;
      } else if end == Writer.Again {
        ModFd(WatchOut);
        return true;
      } else if end == Writer.Broken {
        Unmap();
        return false;
      } else if end == Writer.Finished {
        Unmap();
        ModFd(WatchIn);
        if linger {
          Init();
          return true;
        }
        return false;
      }
      return false;
    }

    /** process(): the request is read; an incomplete one re-arms the
        socket for reading. Otherwise the response is composed; when that
        fails the connection is closed, and the socket is then armed for
        writing (which a closed socket ignores). `readRet` is what
        process_read returned and `wrote` what process_write returned. */
    method Process(insertOk: bool, files: Router.FileSystem) returns (ghost readRet: HttpCode, ghost wrote: bool)
      requires Valid()
      modifies this`readIdx, this`checkedIdx, this`startLine, this`state, this`meth, this`cgi,
               this`url, this`version, this`host, this`contentLength, this`linger, this`body,
               this`fileSize, this`mapped, readBuf, realFile, shared`users,
               this`writeIdx, writeBuf, this`iv0, this`iv1, this`ivCount, this`toSend,
               this`sockfd, this`armed, shared`userCount
      ensures Valid()
      ensures readRet == NO_REQUEST || IsResolution(readRet)
      ensures (wrote, ReplyState(), SocketState()) == Answered(readRet, old(ReplyState()), old(SocketState()), linger, fileSize)
      ensures (readRet, ParseState(), realFile[..], shared.users, fileSize, mapped) ==
              ReadResult(old(ParseState()), old(realFile[..]), old(shared.users), old(fileSize), old(mapped), insertOk, files)
    {
      var code := ProcessRead(insertOk, files);
      ghost var p1, f1, u1 := ParseState(), realFile[..], shared.users;
      readRet := code;
      wrote := Answer(code);
      assert ParseState() == p1 && realFile[..] == f1 && shared.users == u1;
    }

    /** The rest of process(): wait for more input while the request is
        incomplete, otherwise write the reply; the parser's state, the file
        and the user table stay as process_read left them. */
    method Answer(code: HttpCode) returns (ghost wrote: bool)
      requires Valid()
      modifies this`writeIdx, writeBuf, this`iv0, this`iv1, this`ivCount, this`toSend,
               this`sockfd, this`armed, shared`userCount
      ensures Valid()
      ensures ParseState() == old(ParseState()) && realFile[..] == old(realFile[..]) && shared.users == old(shared.users)
      ensures fileSize == old(fileSize) && mapped == old(mapped)
      ensures (wrote, ReplyState(), SocketState()) == Answered(code, old(ReplyState()), old(SocketState()), linger, fileSize)
    {
      if code == NO_REQUEST {
        ModFd(WatchIn);
        return false;
      }
      wrote := Respond(code);
    }

    /** The second half of process(): process_write, close_conn when it
        fails, and the socket armed for writing. */
    method Respond(code: HttpCode) returns (ghost ok: bool)
      requires Valid()
      modifies this`writeIdx, writeBuf, this`iv0, this`iv1, this`ivCount, this`toSend,
               this`sockfd, this`armed, shared`userCount
      ensures Valid()
      ensures (ok, ReplyState()) == Response.ProcessWriteFixed(code, old(ReplyState()), linger, fileSize)
      ensures SocketState() == Processed(old(SocketState()), ok)
      ensures ParseState() == old(ParseState()) && realFile[..] == old(realFile[..]) && shared.users == old(shared.users)
    {
      var wrote := ProcessWrite(code);
      Settle(wrote);
      ok := wrote;
    }

    /** What process() does once process_write answered `ok`. */
    method Settle(ok: bool)
      requires Valid()
      modifies this`sockfd, this`armed, shared`userCount
      ensures Valid()
      ensures SocketState() == Processed(old(SocketState()), ok)
      ensures ReplyState() == old(ReplyState()) && ParseState() == old(ParseState())
      ensures realFile[..] == old(realFile[..]) && shared.users == old(shared.users)
    {
      if !ok {
        CloseConn(true);
      }
      ModFd(WatchOut);
    }
  }
}
