/** The response side of http_conn (http/http_conn.cpp): add_response, which
    appends formatted text to m_write_buf with vsnprintf, the add_* wrappers
    built on it, and process_write, which composes the response for the
    code do_request returned and sets up the iovec pair that write() sends.

    m_iv[0] always points into m_write_buf and m_iv[1] into the mapped
    file, so an iovec is an offset into the one or the other, and a length. */
module Response {
  import opened Common
  import opened CString
  import opened HttpDefs

  const OK_200_TITLE: string := "OK"
  const ERROR_403_TITLE: string := "Forbidden"
  const ERROR_403_FORM: string := "You do not have permission to get file from this server.\n"
  const ERROR_404_TITLE: string := "Not Found"
  const ERROR_404_FORM: string := "The requested file was not found on this server.\n"
  const ERROR_500_TITLE: string := "Internal Error"
  const ERROR_500_FORM: string := "There was an unusual problem serving the request file.\n"
  /** The body of the response to an empty file. */
  const OK_STRING: string := "<html><body></body></html>"

  /** The error page of a code: the status, its title and the form sent as
      content. BAD_REQUEST is answered with the 404 page. */
  datatype Page = Page(status: nat, title: string, form: string)

  predicate IsErrorCode(c: HttpCode)
  {
    c == INTERNAL_ERROR || c == BAD_REQUEST || c == FORBIDDEN_REQUEST
  }

  function ErrorPage(c: HttpCode): (p: Page)
    requires IsErrorCode(c)
    ensures p.status < 1000 && |p.title| <= 20 && |p.form| < 100
    ensures c == BAD_REQUEST <==> p.status == 404
    ensures c == FORBIDDEN_REQUEST <==> p.status == 403
    ensures c == INTERNAL_ERROR <==> p.status == 500
  {
    if c == INTERNAL_ERROR then Page(500, ERROR_500_TITLE, ERROR_500_FORM)
    else if c == BAD_REQUEST then Page(404, ERROR_404_TITLE, ERROR_404_FORM)
    else Page(403, ERROR_403_TITLE, ERROR_403_FORM)
  }

  /** An iovec: iov_base as an offset (into m_write_buf for m_iv[0], into
      the mapped file for m_iv[1]) and iov_len. */
  datatype IoVec = IoVec(base: int, len: int)

  /** What process_write leaves for write(): m_write_buf, m_write_idx, the
      two iovecs, m_iv_count and bytes_to_send. */
  datatype Reply = Reply(wbuf: seq<char>, writeIdx: nat, iv0: IoVec, iv1: IoVec, ivCount: nat, toSend: int)

  /** add_response with the text the format expands to. It refuses when
      m_write_idx has reached WRITE_BUFFER_SIZE; otherwise vsnprintf stores
      the text, truncated to the space left before the last byte, with its
      NUL, and the text counts only when it fitted entirely. */
  function AddResponse(wbuf: seq<char>, idx: nat, t: string): (r: (bool, seq<char>, nat))
    requires |wbuf| == WRITE_BUFFER_SIZE
    ensures |r.1| == WRITE_BUFFER_SIZE
    ensures r.0 <==> idx < WRITE_BUFFER_SIZE && |t| < WRITE_BUFFER_SIZE - 1 - idx
    ensures r.0 ==> r.2 == idx + |t| && r.2 < WRITE_BUFFER_SIZE - 1 && r.1[idx..r.2] == t && r.1[r.2] == NUL
    ensures !r.0 ==> r.2 == idx
    ensures idx < WRITE_BUFFER_SIZE ==> r.2 < WRITE_BUFFER_SIZE
    ensures r.1[..Min(idx, WRITE_BUFFER_SIZE)] == wbuf[..Min(idx, WRITE_BUFFER_SIZE)]
  {
    if idx >= WRITE_BUFFER_SIZE then (false, wbuf, idx)
    else
      var size := WRITE_BUFFER_SIZE - 1 - idx;
      var w := Overwrite(wbuf, idx, SnprintfBytes(t, size));
      if |t| >= size then (false, w, idx) else (true, w, idx + |t|)
  }

  /** The texts the add_* wrappers format. */
  function StatusLine(status: int, title: string): (r: string)
    ensures |r| == 12 + |Decimal(status)| + |title|
  {
    "HTTP/1.1 " + Decimal(status) + " " + title + "\r\n"
  }

  function ContentLengthLine(n: int): (r: string)
    ensures |r| == 17 + |Decimal(n)|
  {
    "Content-Length:" + Decimal(n) + "\r\n"
  }

  /** add_linger spells the keep-alive value "keep-live". */
  function LingerLine(linger: bool): (r: string)
    ensures |r| <= 22
  {
    "Connection:" + (if linger then "keep-live" else "close") + "\r\n"
  }

  const CONTENT_TYPE_LINE: string := "Content-Type:text/html\r\n"
  const BLANK_LINE: string := "\r\n"

  /** The three lines add_headers appends, each through its own
      add_response; their results are not looked at. */
  function AddHeaders(wbuf: seq<char>, idx: nat, contentLen: int, linger: bool): (r: (seq<char>, nat))
    requires |wbuf| == WRITE_BUFFER_SIZE
    ensures |r.0| == WRITE_BUFFER_SIZE && r.1 >= idx
  {
    var (_, w1, i1) := AddResponse(wbuf, idx, ContentLengthLine(contentLen));
    var (_, w2, i2) := AddResponse(w1, i1, LingerLine(linger));
    var (_, w3, i3) := AddResponse(w2, i2, BLANK_LINE);
    (w3, i3)
  }

  /** process_write for an error code: status line, headers and the form as
      content; only a failure of the content counts. The response is then
      the one iovec over the write buffer. */
  function ErrorReply(r: Reply, linger: bool, status: int, title: string, form: string): (res: (bool, Reply))
    requires |r.wbuf| == WRITE_BUFFER_SIZE
    ensures |res.1.wbuf| == WRITE_BUFFER_SIZE
    ensures res.0 ==> res.1.ivCount == 1 && res.1.iv0 == IoVec(0, res.1.writeIdx) && res.1.toSend == res.1.writeIdx
    ensures res.0 ==> res.1.iv1 == r.iv1
    ensures !res.0 ==> res.1 == r.(wbuf := res.1.wbuf, writeIdx := res.1.writeIdx)
  {
    var (_, w1, i1) := AddResponse(r.wbuf, r.writeIdx, StatusLine(status, title));
    var (w2, i2) := AddHeaders(w1, i1, |form|, linger);
    var (ok, w3, i3) := AddResponse(w2, i2, form);
    if !ok then (false, r.(wbuf := w3, writeIdx := i3))
    else (true, Reply(w3, i3, IoVec(0, i3), r.iv1, 1, i3))
  }

  /** bytes_to_send of a file response: the length of the headers plus
      the size of the file, narrowed to an int. */
  function FileTotal(headerLen: nat, fileSize: nat): int
  {
    ToInt32(headerLen + fileSize)
  }

  /** process_write for FILE_REQUEST on a file that is not empty: status line
      and headers only, with the file size narrowed to an int for the
      Content-Length, and the two iovecs over the headers and the file.
      bytes_to_send is the sum narrowed to an int. */
  function FileReply(r: Reply, linger: bool, fileSize: nat): (res: Reply)
    requires |r.wbuf| == WRITE_BUFFER_SIZE
    ensures |res.wbuf| == WRITE_BUFFER_SIZE && res.writeIdx >= r.writeIdx
    ensures res.ivCount == 2 && res.iv0 == IoVec(0, res.writeIdx) && res.iv1 == IoVec(0, fileSize)
    ensures res.toSend == FileTotal(res.writeIdx, fileSize)
  {
    var (_, w1, i1) := AddResponse(r.wbuf, r.writeIdx, StatusLine(200, OK_200_TITLE));
    var (w2, i2) := AddHeaders(w1, i1, ToInt32(fileSize), linger);
    Reply(w2, i2, IoVec(0, i2), IoVec(0, fileSize), 2, FileTotal(i2, fileSize))
  }

  /** ErrorReply from the outcome of its last add_response, for the method
      that composes it in place. */
  lemma ErrorReplyOf(r: Reply, linger: bool, status: int, title: string, form: string,
                     ok: bool, w: seq<char>, i: nat)
    requires |r.wbuf| == WRITE_BUFFER_SIZE
    requires var r1 := AddResponse(r.wbuf, r.writeIdx, StatusLine(status, title));
             var h := AddHeaders(r1.1, r1.2, |form|, linger);
             (ok, w, i) == AddResponse(h.0, h.1, form)
    ensures ErrorReply(r, linger, status, title, form) ==
              if !ok then (false, r.(wbuf := w, writeIdx := i)) else (true, Reply(w, i, IoVec(0, i), r.iv1, 1, i))
  {
  }

  /** FileReply from what the status line and the headers left, for the
      method that composes it in place. */
  lemma FileReplyOf(r: Reply, linger: bool, fileSize: nat, w: seq<char>, i: nat)
    requires |r.wbuf| == WRITE_BUFFER_SIZE
    requires var r1 := AddResponse(r.wbuf, r.writeIdx, StatusLine(200, OK_200_TITLE));
             (w, i) == AddHeaders(r1.1, r1.2, ToInt32(fileSize), linger)
    ensures FileReply(r, linger, fileSize) == Reply(w, i, IoVec(0, i), IoVec(0, fileSize), 2, FileTotal(i, fileSize))
  {
  }

  /** process_write for FILE_REQUEST on an empty file: the response with the
      empty page as content is composed, but the case falls through into
      the default one, which reports failure. */
  function EmptyFileReply(r: Reply, linger: bool): (res: (bool, Reply))
    requires |r.wbuf| == WRITE_BUFFER_SIZE
    ensures !res.0 && |res.1.wbuf| == WRITE_BUFFER_SIZE
    ensures res.1 == r.(wbuf := res.1.wbuf, writeIdx := res.1.writeIdx)
  {
    var (_, w1, i1) := AddResponse(r.wbuf, r.writeIdx, StatusLine(200, OK_200_TITLE));
    var (w2, i2) := AddHeaders(w1, i1, |OK_STRING|, linger);
    var (ok, w3, i3) := AddResponse(w2, i2, OK_STRING);
    (false, r.(wbuf := w3, writeIdx := i3))
  }

  /** process_write(ret). BAD_REQUEST is answered with the 404 page; the
      codes without a case (NO_RESOURCE among them) report failure and leave
      everything as it was. */
  function ProcessWrite(ret: HttpCode, r: Reply, linger: bool, fileSize: nat): (res: (bool, Reply))
    requires |r.wbuf| == WRITE_BUFFER_SIZE
    ensures |res.1.wbuf| == WRITE_BUFFER_SIZE
    ensures res.0 ==> IsErrorCode(ret) || ret == FILE_REQUEST
    ensures res.0 && ret == FILE_REQUEST ==> fileSize != 0 && res.1.ivCount == 2
    ensures ret == FILE_REQUEST && fileSize != 0 ==> res == (true, FileReply(r, linger, fileSize))
    ensures res.0 && ret != FILE_REQUEST ==> res.1.ivCount == 1
    ensures res.0 ==> res.1.iv0 == IoVec(0, res.1.writeIdx)
    ensures !IsErrorCode(ret) && ret != FILE_REQUEST ==> res == (false, r)
    ensures ret == FILE_REQUEST && fileSize == 0 ==> !res.0
  {
    if IsErrorCode(ret) then
      var pg := ErrorPage(ret);
      ErrorReply(r, linger, pg.status, pg.title, pg.form)
    else if ret == FILE_REQUEST then
      if fileSize != 0 then (true, FileReply(r, linger, fileSize)) else EmptyFileReply(r, linger)
    else (false, r)
  }

  /** process_write with a break after the empty-file case: the empty page
      is sent as an error page is. */
  function ProcessWriteFixed(ret: HttpCode, r: Reply, linger: bool, fileSize: nat): (res: (bool, Reply))
    requires |r.wbuf| == WRITE_BUFFER_SIZE
    ensures |res.1.wbuf| == WRITE_BUFFER_SIZE
    ensures ret != FILE_REQUEST || fileSize != 0 ==> res == ProcessWrite(ret, r, linger, fileSize)
  {
    if ret == FILE_REQUEST && fileSize == 0 then ErrorReply(r, linger, 200, OK_200_TITLE, OK_STRING)
    else ProcessWrite(ret, r, linger, fileSize)
  }

  // ---------------------------------------------------------------------
  // Properties

  /** The write buffer holds `acc` before m_write_idx. */
  predicate Holds(wbuf: seq<char>, idx: nat, acc: string)
  {
    idx <= |wbuf| && wbuf[..idx] == acc
  }

  /** add_response only ever extends what the buffer holds: by the text
      when it fits, by nothing when it does not. */
  lemma AddResponseExtends(wbuf: seq<char>, idx: nat, acc: string, t: string)
    requires |wbuf| == WRITE_BUFFER_SIZE && Holds(wbuf, idx, acc)
    ensures var (ok, w, i) := AddResponse(wbuf, idx, t);
            Holds(w, i, acc + (if ok then t else ""))
  {
    var (ok, w, i) := AddResponse(wbuf, idx, t);
    assert w[..idx] == acc;
    if ok {
      assert w[..i] == w[..idx] + w[idx..i];
    }
  }

  /** A text that fits is appended. */
  lemma AddResponseFits(wbuf: seq<char>, idx: nat, acc: string, t: string)
    requires |wbuf| == WRITE_BUFFER_SIZE && Holds(wbuf, idx, acc)
    requires idx + |t| < WRITE_BUFFER_SIZE - 1
    ensures AddResponse(wbuf, idx, t).0 && AddResponse(wbuf, idx, t).2 == idx + |t|
    ensures Holds(AddResponse(wbuf, idx, t).1, idx + |t|, acc + t)
  {
    AddResponseExtends(wbuf, idx, acc, t);
  }

  /** The header block as add_headers writes it. */
  function HeaderBlock(contentLen: int, linger: bool): (r: string)
    ensures |r| <= 41 + |Decimal(contentLen)|
  {
    ContentLengthLine(contentLen) + LingerLine(linger) + BLANK_LINE
  }

  /** add_headers appends the three header lines when they fit. */
  lemma AddHeadersText(wbuf: seq<char>, idx: nat, acc: string, contentLen: int, linger: bool)
    requires |wbuf| == WRITE_BUFFER_SIZE && Holds(wbuf, idx, acc)
    requires idx + |HeaderBlock(contentLen, linger)| < WRITE_BUFFER_SIZE - 1
    ensures AddHeaders(wbuf, idx, contentLen, linger).1 == idx + |HeaderBlock(contentLen, linger)|
    ensures Holds(AddHeaders(wbuf, idx, contentLen, linger).0, AddHeaders(wbuf, idx, contentLen, linger).1,
                  acc + HeaderBlock(contentLen, linger))
  {
    var l1 := ContentLengthLine(contentLen);
    var l2 := LingerLine(linger);
    assert |HeaderBlock(contentLen, linger)| == |l1| + |l2| + |BLANK_LINE|;
    var r1 := AddResponse(wbuf, idx, l1);
    AddResponseFits(wbuf, idx, acc, l1);
    var r2 := AddResponse(r1.1, r1.2, l2);
    AddResponseFits(r1.1, r1.2, acc + l1, l2);
    var r3 := AddResponse(r2.1, r2.2, BLANK_LINE);
    AddResponseFits(r2.1, r2.2, acc + l1 + l2, BLANK_LINE);
    assert AddHeaders(wbuf, idx, contentLen, linger) == (r3.1, r3.2);
    HeaderBlockLines(acc, contentLen, linger);
  }

  lemma HeaderBlockLines(acc: string, contentLen: int, linger: bool)
    ensures acc + ContentLengthLine(contentLen) + LingerLine(linger) + BLANK_LINE == acc + HeaderBlock(contentLen, linger)
  {
    var l1 := ContentLengthLine(contentLen);
    var l2 := LingerLine(linger);
    assert acc + l1 + l2 + BLANK_LINE == acc + (l1 + l2 + BLANK_LINE);
  }

  /** The complete text of a response with a body in the write buffer. */
  function PageText(status: int, title: string, form: string, linger: bool): (r: string)
    ensures |r| <= 53 + |Decimal(status)| + |title| + |Decimal(|form|)| + |form|
  {
    StatusLine(status, title) + HeaderBlock(|form|, linger) + form
  }

  /** The status line and the headers of a short page, into an empty
      write buffer, fit. */
  lemma HeadComposed(w: seq<char>, linger: bool, status: int, title: string, formLen: nat)
    requires |w| == WRITE_BUFFER_SIZE
    requires 0 <= status < 1000 && |title| <= 20 && formLen < 100
    ensures var r1 := AddResponse(w, 0, StatusLine(status, title));
            var h := AddHeaders(r1.1, r1.2, formLen, linger);
            r1.0 && h.1 == |StatusLine(status, title)| + |HeaderBlock(formLen, linger)| && h.1 <= 85 &&
            Holds(h.0, h.1, StatusLine(status, title) + HeaderBlock(formLen, linger))
  {
    NatDecimalWidth(status, 3);
    NatDecimalWidth(formLen, 2);
    var s := StatusLine(status, title);
    var r1 := AddResponse(w, 0, s);
    AddResponseFits(w, 0, "", s);
    AddHeadersText(r1.1, r1.2, s, formLen, linger);
  }

  /** The three add_response calls of a page, into an empty write buffer,
      all fit: the buffer then holds the status line, the headers
      announcing the form's length, and the form. */
  lemma PageComposed(w: seq<char>, linger: bool, status: int, title: string, form: string)
    requires |w| == WRITE_BUFFER_SIZE
    requires 0 <= status < 1000 && |title| <= 20 && |form| < 100
    ensures var r1 := AddResponse(w, 0, StatusLine(status, title));
            var h := AddHeaders(r1.1, r1.2, |form|, linger);
            var r3 := AddResponse(h.0, h.1, form);
            r1.0 && r3.0 && Holds(r3.1, r3.2, PageText(status, title, form, linger))
  {
    HeadComposed(w, linger, status, title, |form|);
    var r1 := AddResponse(w, 0, StatusLine(status, title));
    var h := AddHeaders(r1.1, r1.2, |form|, linger);
    AddResponseFits(h.0, h.1, StatusLine(status, title) + HeaderBlock(|form|, linger), form);
  }

  /** A page composed into an empty write buffer fits: the buffer then
      holds the status line, the headers announcing the form's length, and
      the form, and the one iovec covers exactly that text. */
  lemma ErrorReplyText(r: Reply, linger: bool, status: int, title: string, form: string)
    requires |r.wbuf| == WRITE_BUFFER_SIZE && r.writeIdx == 0
    requires 0 <= status < 1000 && |title| <= 20 && |form| < 100
    ensures var res := ErrorReply(r, linger, status, title, form);
            res.0 && Holds(res.1.wbuf, res.1.writeIdx, PageText(status, title, form, linger)) &&
            res.1.ivCount == 1 && res.1.iv0 == IoVec(0, res.1.writeIdx) && res.1.toSend == res.1.writeIdx
  {
    PageComposed(r.wbuf, linger, status, title, form);
    var r1 := AddResponse(r.wbuf, 0, StatusLine(status, title));
    var h := AddHeaders(r1.1, r1.2, |form|, linger);
    var r3 := AddResponse(h.0, h.1, form);
    ErrorReplyOf(r, linger, status, title, form, r3.0, r3.1, r3.2);
  }

  /** The error responses process_write sends, from an empty buffer: the
      page of the code, whole. */
  lemma ErrorPagesText(c: HttpCode, r: Reply, linger: bool, fileSize: nat)
    requires IsErrorCode(c) && |r.wbuf| == WRITE_BUFFER_SIZE && r.writeIdx == 0
    ensures var res := ProcessWrite(c, r, linger, fileSize);
            var pg := ErrorPage(c);
            res.0 && Holds(res.1.wbuf, res.1.writeIdx, PageText(pg.status, pg.title, pg.form, linger)) &&
            res.1.ivCount == 1 && res.1.toSend == res.1.writeIdx
  {
    var pg := ErrorPage(c);
    ErrorReplyText(r, linger, pg.status, pg.title, pg.form);
  }

  /** A file response, from an empty buffer: the buffer holds the status
      line and the headers announcing the file size, the first iovec covers
      them and the second the whole file. */
  lemma FileReplyText(r: Reply, linger: bool, fileSize: nat)
    requires |r.wbuf| == WRITE_BUFFER_SIZE && r.writeIdx == 0 && 0 < fileSize
    ensures var f := FileReply(r, linger, fileSize);
            ProcessWrite(FILE_REQUEST, r, linger, fileSize) == (true, f) &&
            Holds(f.wbuf, f.writeIdx, StatusLine(200, OK_200_TITLE) + HeaderBlock(ToInt32(fileSize), linger)) &&
            f.iv0 == IoVec(0, f.writeIdx) && f.iv1 == IoVec(0, fileSize) && f.ivCount == 2 &&
            f.toSend == ToInt32(f.writeIdx + fileSize)
  {
    DecimalOfInt32Width(ToInt32(fileSize));
    NatDecimalWidth(200, 3);
    var s := StatusLine(200, OK_200_TITLE);
    var r1 := AddResponse(r.wbuf, 0, s);
    AddResponseFits(r.wbuf, 0, "", s);
    AddHeadersText(r1.1, r1.2, s, ToInt32(fileSize), linger);
    var h := AddHeaders(r1.1, r1.2, ToInt32(fileSize), linger);
    assert FileReply(r, linger, fileSize).wbuf == h.0 && FileReply(r, linger, fileSize).writeIdx == h.1;
  }

  /** As written, an empty file is never answered: the empty-page response
      is composed and then reported as a failure, upon which process()
      closes the connection. */
  lemma EmptyFileNotAnswered(r: Reply, linger: bool)
    requires |r.wbuf| == WRITE_BUFFER_SIZE
    ensures !ProcessWrite(FILE_REQUEST, r, linger, 0).0
  {
  }

  /** With the break, an empty file is answered with the empty page, whose
      Content-Length is the page's length. */
  lemma EmptyFileAnsweredWhenFixed(r: Reply, linger: bool)
    requires |r.wbuf| == WRITE_BUFFER_SIZE && r.writeIdx == 0
    ensures var (ok, r1) := ProcessWriteFixed(FILE_REQUEST, r, linger, 0);
            ok && Holds(r1.wbuf, r1.writeIdx, PageText(200, OK_200_TITLE, OK_STRING, linger)) &&
            r1.ivCount == 1 && r1.toSend == r1.writeIdx
  {
    ErrorReplyText(r, linger, 200, OK_200_TITLE, OK_STRING);
  }
}
