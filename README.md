# webservnote core, modelled in Dafny

A model of three sequential parts of the webservnote HTTP server, with
proofs about each.

- **The per-connection HTTP engine** of `http/http_conn.cpp` and `http/http_conn.h`:
  - the line scanner `parse_line`;
  - the request-line, header and body parsers driven by the loop of `process_read`;
  - the router `do_request`, covering login, registration, the numbered pages and the stat checks;
  - the response builder: `add_response`, its wrappers, and `process_write`;
  - the partial-send loop `write`;
  - the connection life cycle: `init`, `init(sockfd, addr)`, `close_conn`, `read_once` and `process`.
- **The ascending timer list** of `timer/lst_timer.h`: `util_timer` and `sort_timer_lst`.
- **The bounded request queue** of `threadpool/threadpool.h`.

## Layout

Each file holds one Dafny module.

**Shared vocabulary:**
- `common.dfy` (`Common`): an Option type, the 32-bit narrowing g++ performs, and `Min`.
- `http_defs.dfy` (`HttpDefs`): the buffer capacities (2048, 1024 and 200) and the four enumerations of `http_conn.h`.
- `cstring.dfy` (`CString`): the C library routines the code calls, over a `seq<char>` buffer and an offset standing for a `char*`:
  - `strlen`, `strpbrk`, `strspn`, `strchr`, `strrchr`, `strcasecmp` and `strncasecmp`;
  - `atol` as glibc computes it, clamping to the range of `long`;
  - what `%d` prints, and the bytes that `strcpy`, `strncpy` and `vsnprintf` store.

**Specification functions.** These are pure functions on snapshots of the connection's fields:
- `request_parser.dfy` (`RequestParser`): `parse_line`, `parse_request_line`, `parse_headers`, `parse_content`, and the loop of `process_read`.
- `router.dfy` (`Router`): `do_request`. The user table is a `map<string, string>`. The file system that `stat` consults is a `map<string, FileInfo>`. The result of the MySQL insert is the boolean `insertOk`.
- `response.dfy` (`Response`): `add_response`, the `add_*` wrappers and `process_write`.
- `split_reads.dfy` (`SplitReads`): a request that arrives over several calls of `read_once`, each followed by `process_read`, compared with the same bytes arriving in one read.
- `send.dfy` (`Writer`): the `write()` loop. The socket is modelled as a sequence of answers, one per `writev`, and every byte sent is recorded by where it came from.

**The connection class.** `http_conn.dfy` (`HttpConnection`) holds the class `HttpConn`:
- `m_read_buf`, `m_write_buf` and `m_real_file` are `array<char>` buffers.
- The cursors, flags and iovecs are fields.
- Every member function listed above is a method, proved against the specification function it implements.
- `Shared` holds the static `m_user_count` and the global user table.
- The epoll registration is the field `armed`, which records the event `modfd` or `addfd` last armed.

**The timer list.** `timer_list.dfy` (`TimerList`) holds the class `SortTimerList`:
- The `util_timer` objects live in an arena, a `map` from timer ids to nodes with `prev` and `next` ids.
- A ghost sequence `order` lists the ids from head to tail.
- Each method is proved against a function on the sequence of entries the list holds, and list order is proved as lemmas about those functions.

**The request queue.** `thread_pool.dfy` (`ThreadPool`) holds the class `Pool`:
- The queue is a `seq`, and the semaphore is a counter of posts.
- `RunStep` is one round of `run()` as one worker sees it.
- First-in-first-out order and the bound on the queue are proved over any sequence of appends and dequeues.

Pointers into `m_read_buf` are modelled as offsets: `m_url`, `m_version`, `m_host`, `m_string` and the `text` each parser is given.

### Behaviour kept as the code has it

- A malformed line (`LINE_BAD`) makes `process_read` answer NO_REQUEST, not BAD_REQUEST.
- The LF case of `parse_line` asks for `m_checked_idx > 1`.
- The test for BAD_REQUEST after `parse_headers` can never fire, because `parse_headers` never returns it.
- BAD_REQUEST is answered with the 404 page. The 400 texts are never used.
- NO_RESOURCE has no case in `process_write`. It reports failure, and `process()` then closes the connection with no response.
- The Connection header is written as `keep-live`.
- `add_headers` ignores what its three calls return.
- The password starts ten bytes after the `&`.
- The route character is read at the same place before and after the CGI step, which may have replaced the target.
- `init()` does not reset `m_string`, the iovecs or `m_iv_count`.

The three defects under "## Findings" are modelled both as written and corrected. The class `HttpConn` uses the corrected versions:
- `RequestParser.ReadLoop` with `fixed` true, that is, the loop ends once a body check fails, so that the next check still counts from the body start;
- `Response.ProcessWriteFixed`;
- the `Writer.Fixed` bookkeeping in `HttpConnection.HttpConn.Bookkeep`.

## Model

| member | source | states |
|---|---|---|
| Common.ToInt32 | http/http_conn.cpp:715-724 | the narrowing of a file size to an int: in the 32-bit range, congruent modulo 2^32, unchanged when it already fits |
| HttpDefs.CheckStateValue | http/http_conn.h:52-56 | the three check states are numbered below 3, with REQUESTLINE the one numbered 0 |
| HttpDefs.LineStatusValue | http/http_conn.h:69-73 | the three line outcomes are numbered below 3, and 0 is LINE_OK and nothing else |
| CString.StrEnd | http/http_conn.cpp:374 | the string ends at the first NUL at or after the offset, or at the buffer end |
| CString.CStr | http/http_conn.cpp:374 | the string at an offset is the NUL-free stretch up to StrEnd |
| CString.FindBlank | http/http_conn.cpp:322 | strpbrk(" \t"): the first blank before the NUL, or none when the string has no blank |
| CString.SkipBlanks | http/http_conn.cpp:344 | strspn(" \t"): every skipped byte is blank and the next is not |
| CString.FindChar | http/http_conn.cpp:360 | strchr: the first occurrence inside the string, or none when there is no occurrence |
| CString.FindLast | http/http_conn.cpp:448 | strrchr: the last occurrence inside the string, or none when there is no occurrence |
| CString.Atol | http/http_conn.cpp:411 | atol's value lies in the range of long; CString.AtolReadsDecimal gives its value on digits |
| CString.NatDecimal | http/http_conn.cpp:650 | %d of a natural number is a non-empty run of digits, one digit below 10 |
| CString.Decimal | http/http_conn.cpp:650 | %d of an int: the digits, with a leading '-' for a negative number |
| CString.DigitsValueOfDecimal | http/http_conn.cpp:650 | reading the digits %d printed gives back the number |
| CString.AtolReadsDecimal | http/http_conn.cpp:408-411 | atol reads back exactly the length that %d printed |
| CString.NatDecimalWidth | http/http_conn.cpp:650 | a number below 10^k prints in at most k digits |
| CString.DecimalOfInt32Width | http/http_conn.cpp:650 | an int prints in at most 11 characters |
| CString.Nuls | http/http_conn.cpp:166-168 | memset with '\0': n bytes, all NUL |
| CString.StrCpyBytes | http/http_conn.cpp:444 | strcpy stores the string followed by its NUL |
| CString.StrNCpyBytes | http/http_conn.cpp:569 | strncpy stores exactly n bytes: the string's first n bytes, padded with NULs |
| CString.SnprintfBytes | http/http_conn.cpp:617 | vsnprintf stores at most size-1 bytes of the text and a NUL, and nothing when size is 0 |
| CString.CStrOfStored | http/http_conn.cpp:502 | a string stored with its NUL reads back as that string |
| CString.CasePrefixOfStored | http/http_conn.cpp:397 | strncasecmp matches stored text that equals the literal ignoring case |
| RequestParser.ScanLine | http/http_conn.cpp:282-315 | parse_line's three outcomes. LINE_OK: the CRLF just behind the new index became two NULs. LINE_OPEN: the scanner is at the end, or at a CR that is the last byte. LINE_BAD: a CR not followed by LF, or an LF with no CR before it. Always checked <= new index <= read index, with no CR or LF skipped |
| RequestParser.ScanLineWaitsWithoutEol | http/http_conn.cpp:284-314 | with no CR or LF ahead, the result is LINE_OPEN at the read index, with the buffer untouched |
| RequestParser.ScanLineFindsCrlf | http/http_conn.cpp:288-296 | the first CRLF ahead gives LINE_OK, both bytes become NUL, and the scanner stops just past the LF |
| RequestParser.ScanLineRejectsStrayEol | http/http_conn.cpp:288-310 | a CR followed by another byte, or an LF with no CR before it, gives LINE_BAD at that byte, with the buffer unchanged |
| RequestParser.RequestLine | http/http_conn.cpp:318-380 | the answer is NO_REQUEST or BAD_REQUEST. A rejected line leaves the state at REQUESTLINE. An accepted line moves to HEADER with m_url at a '/', a GET or POST method, and cgi set by POST |
| RequestParser.AfterMethod | http/http_conn.cpp:330-344 | the method before the first blank is GET or POST, ignoring case, and anything else is BAD_REQUEST |
| RequestParser.AfterTarget | http/http_conn.cpp:344-349 | a target with no blank after it is BAD_REQUEST; the method and cgi are kept |
| RequestParser.AfterVersion | http/http_conn.cpp:350-354 | only HTTP/1.1, ignoring case, is accepted as the version |
| RequestParser.CheckTarget | http/http_conn.cpp:356-379 | once any scheme is stripped, the target must start with '/' |
| RequestParser.SkipScheme | http/http_conn.cpp:358-362 | a target that does not start with the scheme, ignoring case, stays where it is; a moved target stays inside the buffer |
| RequestParser.StripScheme | http/http_conn.cpp:358-367 | a target with neither http:// nor https:// keeps its start |
| RequestParser.StripSchemeHttp | http/http_conn.cpp:358-367 | after http://, m_url moves to the next '/' |
| RequestParser.NoScheme | http/http_conn.cpp:358-367 | a target that starts with '/' is not moved |
| RequestParser.RequestLineOriginForm | http/http_conn.cpp:318-380 | "GET\|POST SP /path SP HTTP/1.1" is accepted: the method is recognised, m_url points at the path, and "/" reads as "/judge.html" |
| RequestParser.OriginFormMethod | http/http_conn.cpp:322-344 | a recognised method is followed by the target check on the NUL-split buffer |
| RequestParser.OriginFormTarget | http/http_conn.cpp:347-379 | a '/'-path, a blank and HTTP/1.1 are accepted, with the path (or /judge.html) at m_url |
| RequestParser.MethodAccepted | http/http_conn.cpp:322-340 | strpbrk stops after the method, and strcasecmp tells GET from POST |
| RequestParser.TargetFacts | http/http_conn.cpp:347-349 | strpbrk stops at the blank after a target |
| RequestParser.VersionAccepted | http/http_conn.cpp:350-354 | the version HTTP/1.1 leads on to the target check, with m_version set |
| RequestParser.TargetAccepted | http/http_conn.cpp:370-379 | a NUL-ended target starting with '/' is accepted as it is, or as /judge.html when it is "/" |
| RequestParser.WelcomeTarget | http/http_conn.cpp:374-375 | the strcat keeps the buffer size and changes nothing unless the target is just "/"; JudgeTarget gives the "/judge.html" it stores |
| RequestParser.JudgeTarget | http/http_conn.cpp:374-375 | strcat onto "/" makes it read "/judge.html" |
| RequestParser.Headers | http/http_conn.cpp:384-425 | see the breakdown below the table |
| RequestParser.ContentLengthReadsBack | http/http_conn.cpp:408-411 | the header "Content-Length:<digits of n>" sets m_content_length to n exactly, with nothing else changed |
| RequestParser.ContentLengthName | http/http_conn.cpp:397-408 | "Content-Length:" is not taken as Connection: and matches Content-length: ignoring case |
| RequestParser.HeaderContentLength | http/http_conn.cpp:408-412 | a Content-length header sets m_content_length to what atol reads, and nothing else |
| RequestParser.KeepAliveSetsLinger | http/http_conn.cpp:397-406 | "Connection: keep-alive" sets m_linger and nothing else |
| RequestParser.ConnectionHeader | http/http_conn.cpp:397-406 | a Connection header sets m_linger exactly when its value is keep-alive, ignoring case, and changes nothing else |
| RequestParser.HostRecorded | http/http_conn.cpp:413-418 | a Host header, in any case, sets m_host to its value past the blanks and changes nothing else; no earlier test can take it |
| RequestParser.UnknownHeaderIgnored | http/http_conn.cpp:419-424 | any other header gives NO_REQUEST with the state unchanged |
| RequestParser.Content | http/http_conn.cpp:428-438 | GET_REQUEST exactly when m_read_idx >= m_content_length + m_checked_idx. Then the byte after the body becomes NUL and m_string is the body start. Otherwise nothing changes |
| RequestParser.ReadLoop | http/http_conn.cpp:228-278 | see the breakdown below the table |
| RequestParser.LoopBody | http/http_conn.cpp:240-275 | the loop under the same guarantees as ReadLoop, from the point where a line is there |
| RequestParser.MalformedLineIsNoRequest | http/http_conn.cpp:235-237 | a malformed line ends the loop with NO_REQUEST, not BAD_REQUEST, with the scanner on the offending byte |
| RequestParser.PartialBodyMovesScanner | http/http_conn.cpp:235-272 | a partly received body gives NO_REQUEST, and the scanner walks over the body bytes received |
| RequestParser.MovedScannerStallsBody | http/http_conn.cpp:430 | as written, once the scanner has moved off the body start, the body check keeps failing |
| RequestParser.Received | http/http_conn.cpp:182-186 | bytes from recv are stored at m_read_idx, which grows by their number; earlier bytes are kept |
| RequestParser.SplitBodyStalls | http/http_conn.cpp:430-437 | as written, a body that arrives in two reads is never seen as complete |
| SplitReads.Extend | http/http_conn.cpp:182-186 | a state with more bytes stored from m_read_idx on: bytes before m_read_idx kept, every other field kept |
| SplitReads.ExtendOfGrown | http/http_conn.cpp:182-186 | a state with more bytes received is its original extended by its own bytes |
| SplitReads.ScanLineGrown | http/http_conn.cpp:282-315 | on a buffer with more bytes received, parse_line finds the same complete or malformed line, and a scan that ran out goes on from where it stopped |
| SplitReads.RequestLineGrown | http/http_conn.cpp:318-380 | parse_request_line on a line ending before m_read_idx has the same code with more bytes received, states one the growth of the other, and writes nothing at or after m_read_idx |
| SplitReads.CheckTargetGrown | http/http_conn.cpp:356-379 | the target checks, and the strcat of the welcome page, give the same outcome with more bytes received |
| SplitReads.HeadersGrown | http/http_conn.cpp:384-425 | parse_headers on a line ending before m_read_idx has the same outcome with more bytes received |
| SplitReads.ConnectionGrown | http/http_conn.cpp:397-406 | the keep-alive test reads the same value with more bytes received |
| SplitReads.LengthGrown | http/http_conn.cpp:408-411 | atol reads the same length with more bytes received |
| SplitReads.LoopGrown | http/http_conn.cpp:228-278 | the loop of process_read with more bytes received: the same code and a grown state when the request ends; when it waits, the loop on the larger buffer is the loop from the state it stopped in |
| SplitReads.ScanGrown | http/http_conn.cpp:235-237 | LoopGrown for a scan for the next line |
| SplitReads.LineFoundGrown | http/http_conn.cpp:238-275 | LoopGrown once a complete line is found before m_read_idx |
| SplitReads.BodyCheckGrown | http/http_conn.cpp:264-272 | LoopGrown for one body check of the corrected loop |
| SplitReads.Flatten | http/http_conn.cpp:182-186 | the bytes of a sequence of reads, first read first |
| SplitReads.Feed | http/http_conn.cpp:174-278 | each read followed by process_read until a code other than NO_REQUEST; see SplitReads.SplitReadsAgree |
| SplitReads.FirstChunk | http/http_conn.cpp:182-186 | the first read stores a prefix of the bytes of one read of everything, and the rest follows it |
| SplitReads.FeedGrown | http/http_conn.cpp:174-278 | any split into reads agrees with one read of the same bytes (the same code, a grown state, the same state while incomplete), from any state whose body check counts from the body start |
| SplitReads.FeedRest | http/http_conn.cpp:174-278 | FeedGrown after a first read that leaves the request incomplete |
| SplitReads.SplitReadsAgree | http/http_conn.cpp:174-278 | the same code whether the bytes arrive in one read or in several; the same state while the request is incomplete. Holds for the loop as written only while no body is reached |
| SplitReads.ReceivedTwice | http/http_conn.cpp:182-186 | two reads store what one read of their bytes stores |
| SplitReads.BodyArrivesInReads | http/http_conn.cpp:228-278 | with the corrected loop, a body over any number of non-empty reads ends the request on the last read, with m_string at the body start and a NUL past the body |
| Router.RouteChar | http/http_conn.cpp:448-452 | the byte after the last '/' of m_url; NUL when there is no '/' or the byte lies past the buffer |
| Router.PageOf | http/http_conn.cpp:522-564 | a page exists exactly for the route characters 0, 1, 5, 6 and 7, and each page is a short '/'-path |
| Router.ScanTo | http/http_conn.cpp:468-469 | the name loop runs to the first '&', or to the buffer end |
| Router.Credentials | http/http_conn.cpp:464-476 | the name and the password hold no NUL; Router.CredentialsOfForm gives their values |
| Router.CredentialsOfForm | http/http_conn.cpp:464-476 | the body "user=N&password=P" gives back exactly N and P |
| Router.Register | http/http_conn.cpp:479-509 | a new name is inserted with its password, whatever the insert answered. An existing name changes nothing. The page is /log.html only for a new name whose insert succeeded, and /registerError.html otherwise |
| Router.Login | http/http_conn.cpp:512-518 | /welcome.html exactly when the table holds the name with that password, /logError.html otherwise |
| Router.RegisterThenLogin | http/http_conn.cpp:492-517 | after registering, the user logs in with that password and with no other |
| Router.RegisterTwice | http/http_conn.cpp:492-508 | a second registration of a name changes nothing and gets the error page |
| Router.CgiFilePart | http/http_conn.cpp:456-460 | the CGI file part is FILENAME_LEN-len-1 bytes, starting with '/' |
| Router.CgiStep | http/http_conn.cpp:452-519 | the page chosen by Login or Register is copied over m_url. Only a registration changes the table. The root part of m_real_file is kept |
| Router.FilePart | http/http_conn.cpp:522-569 | a numbered page, or the target cut or padded to FILENAME_LEN-len-1 bytes |
| Router.Resolve | http/http_conn.cpp:573-582 | the stat checks in order: missing file gives NO_RESOURCE, unreadable by others FORBIDDEN_REQUEST, directory BAD_REQUEST, otherwise FILE_REQUEST. Each holds both ways |
| Router.RootedFile | http/http_conn.cpp:444-445 | m_real_file reads as doc_root, and the bytes past its NUL are kept |
| Router.DoRequest | http/http_conn.cpp:441-593 | the code is a resolution; FILE_REQUEST means a stat was made and the file is no directory; without a CGI 2/3 route neither m_read_buf nor the table changes |
| Router.Finish | http/http_conn.cpp:566-582 | the code and stat come from looking up the path m_real_file now names |
| Router.RootedPath | http/http_conn.cpp:569-573 | root plus a stored file part reads as the root followed by that part |
| Router.FinishPlain | http/http_conn.cpp:566-573 | a plain target names doc_root + target, cut to FILENAME_LEN-len-1 bytes |
| Router.PageRoutes | http/http_conn.cpp:522-564 | route characters 0, 1, 5, 6 and 7 serve their page under doc_root, whatever the target. The buffer and the table are unchanged |
| Router.PlainRoute | http/http_conn.cpp:566-574 | any other non-CGI target serves doc_root + target, cut to size |
| Router.DoRequestCgi | http/http_conn.cpp:448-569 | a CGI request is the CGI step followed by the page choice, with the '/' found once |
| Router.StoredPage | http/http_conn.cpp:502-522 | the copied page reads back, and the route character is re-read from inside it |
| Router.CgiRoute | http/http_conn.cpp:448-569 | m_url reads as the page, and m_real_file names that page, unless a byte of it is a route character |
| Router.LoginRoute | http/http_conn.cpp:512-518 | a CGI login stores Login's page over m_url, leaves the table alone, and serves that page |
| Router.RegisterRoute | http/http_conn.cpp:479-509 | a CGI registration stores Register's page over m_url, the table becomes Register's, and the page is served |
| Response.ErrorPage | http/http_conn.cpp:678-707 | BAD_REQUEST gets 404, FORBIDDEN_REQUEST 403 and INTERNAL_ERROR 500, each both ways; the texts are short |
| Response.AddResponse | http/http_conn.cpp:605-634 | see the breakdown below the table |
| Response.StatusLine | http/http_conn.cpp:637-639 | "HTTP/1.1 <status> <title>\r\n", whose length is fixed by the status digits and the title |
| Response.ContentLengthLine | http/http_conn.cpp:649-651 | "Content-Length:<n>\r\n", whose length is fixed by the digits of n |
| Response.LingerLine | http/http_conn.cpp:659-661 | the Connection line is at most 22 characters long, which the bounds of HeaderBlock rely on |
| Response.AddHeaders | http/http_conn.cpp:642-646 | m_write_idx only grows; Response.AddHeadersText gives the text |
| Response.AddResponseExtends | http/http_conn.cpp:605-634 | add_response appends the whole text when it fits, and nothing otherwise |
| Response.AddResponseFits | http/http_conn.cpp:617-626 | a text that fits is appended, and m_write_idx grows by its length |
| Response.HeaderBlock | http/http_conn.cpp:642-666 | the header block is at most 41 characters plus the digits |
| Response.AddHeadersText | http/http_conn.cpp:642-646 | add_headers appends Content-Length, then Connection, then the blank line, in that order |
| Response.PageText | http/http_conn.cpp:637-671 | a page is at most status line + headers + form long |
| Response.HeadComposed | http/http_conn.cpp:681-683 | the status line and headers of an error page fit into an empty buffer |
| Response.PageComposed | http/http_conn.cpp:681-685 | the status line, headers and form of an error page all fit, so the buffer holds the page |
| Response.ErrorReply | http/http_conn.cpp:678-745 | on success, one iovec covers m_write_buf up to m_write_idx and bytes_to_send = m_write_idx. On failure only the write buffer changed |
| Response.ErrorReplyOf | http/http_conn.cpp:690-697 | ErrorReply is the outcome of its last add_response |
| Response.ErrorReplyText | http/http_conn.cpp:678-745 | from an empty buffer, an error page is sent whole, with bytes_to_send its length |
| Response.ErrorPagesText | http/http_conn.cpp:678-707 | process_write sends each error code's whole page |
| Response.FileReply | http/http_conn.cpp:710-726 | two iovecs cover the headers and the whole file; bytes_to_send is their sum, narrowed to an int |
| Response.FileReplyOf | http/http_conn.cpp:712-726 | FileReply is what the status line and add_headers left |
| Response.FileReplyText | http/http_conn.cpp:710-726 | from an empty buffer, a file reply holds the status line and headers and covers the whole file |
| Response.EmptyFileReply | http/http_conn.cpp:727-737 | as written, the empty page is composed and then failure is reported |
| Response.ProcessWrite | http/http_conn.cpp:674-746 | see the breakdown below the table |
| Response.EmptyFileNotAnswered | http/http_conn.cpp:727-737 | as written, an empty file is never answered |
| Response.ProcessWriteFixed | http/http_conn.cpp:727-745 | the corrected process_write, which agrees with the code on every case but the empty file |
| Response.EmptyFileAnsweredWhenFixed | http/http_conn.cpp:727-745 | with the break, an empty file gets the 200 page with the empty html as content |
| Writer.Vector | http/http_conn.cpp:763 | what writev gathers: no header byte comes after a file byte, and only header bytes when m_iv_count is 1 |
| Writer.Span | http/http_conn.cpp:717-721 | an iovec covers exactly len bytes from its base |
| Writer.StepAsWritten | http/http_conn.cpp:776-788 | the bookkeeping as written; the two byte counters move by the bytes sent |
| Writer.StepFixed | http/http_conn.cpp:776-788 | the bookkeeping measured from the header start; the two byte counters move by the bytes sent |
| Writer.WriteLoop | http/http_conn.cpp:761-804 | what was sent plus what is left stays equal. Finished means nothing is left. Spins means bytes remain behind empty iovecs |
| Writer.Write | http/http_conn.cpp:749-805 | Idle exactly when bytes_to_send is 0, and then nothing changes. Sent plus left is kept |
| Writer.Whole | http/http_conn.cpp:716-724 | the response is the header block, then the file when there are two iovecs |
| Writer.VectorIsRest | http/http_conn.cpp:763 | under the corrected bookkeeping, writev gathers exactly the rest of the response |
| Writer.StepFixedKeepsSent | http/http_conn.cpp:776-788 | the corrected bookkeeping keeps that invariant |
| Writer.FixedRound | http/http_conn.cpp:763-788 | a writev of t bytes sends the next t bytes of the response |
| Writer.AcceptRound | http/http_conn.cpp:763-788 | an accepted writev sends the minimum of the socket's offer and the vector's length |
| Writer.FixedEmptyVector | http/http_conn.cpp:779-803 | under the corrected bookkeeping, the vector is empty only once the whole response is out |
| Writer.FixedLoopDelivers | http/http_conn.cpp:761-804 | the corrected loop sends the response in order, never spins, and finishes only once all is sent |
| Writer.FixedAcceptDelivers | http/http_conn.cpp:761-804 | one accepted corrected round, and the rest of the loop after it |
| Writer.FixedWriteDelivers | http/http_conn.cpp:749-805 | the corrected write() sends the headers and then the file, each once and in order, whatever the socket accepts |
| Writer.AsWrittenSkipsHeaderTail | http/http_conn.cpp:779-788 | as written, answers 40/30/rest on a 100+10-byte response skip the last 30 header bytes and send 30 stray bytes, yet report Finished |
| Writer.AsWrittenSpinsOnErrorPage | http/http_conn.cpp:779-788 | as written, a 100-byte page accepted 40 then 30 leaves bytes behind empty iovecs |
| Writer.SpinIsStuck | http/http_conn.cpp:761-788 | a spinning loop never changes state again |
| TimerList.PrefixAtMost | timer/lst_timer.h:187-207 | the longest prefix that expires by x: every entry in it expires by x, and the next entry, if any, expires after x |
| TimerList.InsertPos | timer/lst_timer.h:51-69 | the private add_timer's walk stops before the first later entry expiring strictly after x, or at the end |
| TimerList.InsertAfter | timer/lst_timer.h:46-70 | the private add_timer adds one entry, and lst_head and the timers before it keep their places; InsertAfterKeepsSorted gives the order and the entries |
| TimerList.Insert | timer/lst_timer.h:84-102 | add_timer adds one entry; the timer becomes the head of an empty list or when it expires before the head, and otherwise the head stays; InsertKeepsSorted and InsertSplicesBeforeFirstLater give the order, the entries and the place |
| TimerList.Remove | timer/lst_timer.h:132-169 | removal drops exactly index i and keeps the others in order |
| TimerList.Adjust | timer/lst_timer.h:105-129 | adjust_timer keeps the length; the timers before the adjusted one keep their places, and it stays put while it expires before its successor; AdjustKeepsEntriesAndOrder gives the entries and the order |
| TimerList.InsertSplicesBeforeFirstLater | timer/lst_timer.h:84-102 | every path of add_timer splices in before the first entry expiring strictly later, so ties go behind |
| TimerList.InsertPosIsPrefix | timer/lst_timer.h:46-69 | the walk from a point not later than x lands where PrefixAtMost says |
| TimerList.InsertKeepsSorted | timer/lst_timer.h:84-102 | add_timer keeps ascending order and adds exactly one entry, as a multiset |
| TimerList.SplicedSorted | timer/lst_timer.h:51-69 | splicing between the entries up to x and those after x keeps order |
| TimerList.InsertAfterKeepsSorted | timer/lst_timer.h:46-70 | the private add_timer keeps order and adds exactly one entry |
| TimerList.RemoveKeepsSorted | timer/lst_timer.h:132-169 | del_timer keeps order and removes exactly that entry |
| TimerList.AdjustKeepsEntriesAndOrder | timer/lst_timer.h:105-129 | adjust_timer keeps the same entries, and after a raised expiry the list is sorted again |
| TimerList.AdjustReinserts | timer/lst_timer.h:115-128 | a timer no earlier than its successor is unlinked and reinserted from its old successor |
| TimerList.StaysInPlaceSorted | timer/lst_timer.h:112-113 | a raised timer still before its successor needs no move |
| TimerList.TickLeavesLaterEntries | timer/lst_timer.h:187-207 | after tick, a sorted list keeps order and every entry left expires after cur |
| TimerList.Link | timer/lst_timer.h:53-56 | the four pointer stores of a splice change only links |
| TimerList.Join | timer/lst_timer.h:125-126 | closing a gap changes only links |
| TimerList.LinkInto | timer/lst_timer.h:46-70 | a splice at index k keeps the list well linked and puts the entry at k |
| TimerList.JoinKeep | timer/lst_timer.h:116-126 | unlinking a non-tail timer that stays allocated keeps the list well linked and removes its entry |
| TimerList.JoinDelete | timer/lst_timer.h:139-168 | unlinking and deleting a timer keeps the list well linked and drops its entry and payload |
| TimerList.SortTimerList.constructor | timer/lst_timer.h:73 | head and tail NULL: an empty list, with no timers and no callbacks |
| TimerList.SortTimerList.NewTimer | timer/lst_timer.h:26-33 | a fresh timer with NULL links, outside the list, with the list unchanged |
| TimerList.SortTimerList.SetExpire | timer/lst_timer.h:26 | a new expiry changes that one entry only |
| TimerList.SortTimerList.FindPrev | timer/lst_timer.h:47-61 | the walk stops at the node before the splice point InsertPos, with tmp its successor |
| TimerList.SortTimerList.AddTimerAfter | timer/lst_timer.h:46-70 | the private add_timer: the list becomes InsertAfter of the old one; the head and the payloads are kept |
| TimerList.SortTimerList.AddTimer | timer/lst_timer.h:84-102 | NULL changes nothing. Otherwise the list becomes Insert of the old one, and order is kept |
| TimerList.SortTimerList.PushFront | timer/lst_timer.h:86-97 | into an empty list, or before a later head, the timer becomes the new head |
| TimerList.SortTimerList.AdjustTimer | timer/lst_timer.h:105-129 | NULL changes nothing. Otherwise the list becomes Adjust of the old one, and after a raise it is sorted |
| TimerList.SortTimerList.Reinsert | timer/lst_timer.h:115-128 | unlink, then the private add_timer from the old successor |
| TimerList.SortTimerList.Unlink | timer/lst_timer.h:116-126 | the timer leaves the list, still allocated, and its entry is removed |
| TimerList.SortTimerList.DelTimer | timer/lst_timer.h:132-169 | NULL changes nothing. Otherwise exactly that entry and its node are gone, and order is kept |
| TimerList.SortTimerList.Tick | timer/lst_timer.h:172-208 | see the breakdown below the table |
| TimerList.TickEvicts | timer/lst_timer.h:191-206 | one eviction keeps the loop invariant |
| TimerList.TickStops | timer/lst_timer.h:187-194 | at the first timer expiring after cur, exactly the prefix expiring by cur is gone |
| ThreadPool.Enqueue | threadpool/threadpool.h:80-91 | accepted exactly when the size is below the bound, then pushed at the back; refused leaves the queue as it was; the bound is kept |
| ThreadPool.Dequeue | threadpool/threadpool.h:111-120 | an empty queue gives Empty; otherwise the front leaves the queue, and is Dropped exactly when it is NULL |
| ThreadPool.ReplayIsFifo | threadpool/threadpool.h:76-120 | across any appends and dequeues, the old queue plus the accepted requests equals the removed requests plus the new queue |
| ThreadPool.ReplayBounded | threadpool/threadpool.h:80-86 | the queue never exceeds m_max_requests |
| ThreadPool.Pool.constructor | threadpool/threadpool.h:37-41 | an empty queue, no posts, not stopped, with the two counts stored |
| ThreadPool.Pool.Create | threadpool/threadpool.h:37-65 | construction fails exactly when a count is not positive or a thread cannot be created or detached |
| ThreadPool.Pool.Append | threadpool/threadpool.h:76-92 | the queue becomes Enqueue's result; the semaphore is posted once exactly when the request was accepted |
| ThreadPool.Pool.RunStep | threadpool/threadpool.h:104-136 | see the breakdown below the table |
| ThreadPool.Pool.Shutdown | threadpool/threadpool.h:69-72 | the destructor sets m_stop and nothing else |
| HttpConnection.Answered | http/http_conn.cpp:212-224 | NO_REQUEST re-arms EPOLLIN and leaves the reply alone; otherwise the reply is ProcessWriteFixed's and the socket is as Processed says |
| HttpConnection.ReadResult | http/http_conn.cpp:228-278 | NO_REQUEST exactly when the loop waits, and then the loop's state with the file and the table kept; a complete request gets a resolution code from do_request; any other code is the loop's, with the loop's state and m_real_file, the table, the file size and the mapping kept |
| HttpConnection.Handled | http/http_conn.cpp:261-268 | GET_REQUEST hands over to do_request, which changes only the buffer among the parser's fields; any other code keeps everything |
| HttpConnection.ReadThenHand | http/http_conn.cpp:228-278 | ReadResult is the loop followed by Handled, and a complete request has m_url set |
| HttpConnection.Closed | http/http_conn.cpp:125-133 | close_conn with real_close on a live socket sets m_sockfd to -1, disarms it and lowers m_user_count by one; otherwise nothing changes. CloseIsIdempotent is its partner |
| HttpConnection.Rearmed | http/http_conn.cpp:106-119 | modfd keeps the descriptor and the count, arms a live socket for the event and leaves a closed one alone |
| HttpConnection.Armed | http/http_conn.cpp:106-119 | modfd re-arms a live socket for the event; on a closed socket nothing changes |
| HttpConnection.Processed | http/http_conn.cpp:208-225 | after process_write, a failure closes the live socket, and then EPOLLOUT is armed unless the socket is closed |
| HttpConnection.CloseIsIdempotent | http/http_conn.cpp:125-133 | a second close_conn changes nothing; the count drops once per live socket |
| HttpConnection.Shared.constructor | http/http_conn.cpp:121 | m_user_count starts at 0 with the loaded user table |
| HttpConnection.ResetParse | http/http_conn.cpp:149-169 | init's request side: all-NUL buffer, cursors at 0, REQUESTLINE, GET, no length, no linger, m_string kept |
| HttpConnection.ResetReply | http/http_conn.cpp:149-169 | init's response side: all-NUL write buffer, nothing written or to send, iovecs kept |
| HttpConnection.ResetIsIdempotent | http/http_conn.cpp:149-169 | init() is idempotent |
| HttpConnection.ResetWaitsForRequest | http/http_conn.cpp:149-169 | right after init(), process_read answers NO_REQUEST and changes nothing |
| HttpConnection.HttpConn.GetLine | http/http_conn.h:134 | the text at m_start_line, up to the NUL parse_line stored |
| HttpConnection.HttpConn.constructor | http/http_conn.h:76-114 | the three buffers are fresh, of their capacities, all NUL; the state is init()'s; the socket is closed |
| HttpConnection.HttpConn.Init | http/http_conn.cpp:149-169 | the state becomes ResetParse/ResetReply of the old one, m_real_file is all NUL, and the socket and mapping are kept |
| HttpConnection.HttpConn.ClearBuffers | http/http_conn.cpp:166-168 | the three memsets |
| HttpConnection.HttpConn.ResetCursors | http/http_conn.cpp:151-165 | every cursor and flag init() assigns takes its initial value |
| HttpConnection.HttpConn.ResetStage | http/http_conn.cpp:154-165 | state, linger, method, length and cgi take their initial values |
| HttpConnection.HttpConn.ResetOffsets | http/http_conn.cpp:157-163 | the pointers and the three read cursors take their initial values |
| HttpConnection.HttpConn.InitConn | http/http_conn.cpp:136-145 | the socket is stored and armed for EPOLLIN, m_user_count grows by one, and init() runs |
| HttpConnection.HttpConn.CloseConn | http/http_conn.cpp:125-133 | a live socket with real_close is closed and the count drops by one; otherwise nothing changes |
| HttpConnection.HttpConn.ReadOnce | http/http_conn.cpp:174-189 | true exactly when the buffer has room and recv gave bytes. Then as much as fits is stored at m_read_idx. Otherwise nothing changes |
| HttpConnection.HttpConn.ParseLine | http/http_conn.cpp:282-315 | the loop over m_checked_idx is exactly ScanLine: outcome, new index and buffer |
| HttpConnection.HttpConn.Terminator | http/http_conn.cpp:288-311 | the CR or LF cases of parse_line agree with ScanLine |
| HttpConnection.HttpConn.DoRequest | http/http_conn.cpp:441-593 | the fields become what Router.DoRequest gives: buffer, m_real_file, table, stat and mapping |
| HttpConnection.HttpConn.Store | http/http_conn.cpp:441-592 | do_request's effects: the read buffer, m_real_file and the user table take the routed contents, the size stat reported is stored, a served file is mapped, and nothing else of the parser, the reply or the socket changes |
| HttpConnection.HttpConn.Round | http/http_conn.cpp:235-275 | one loop round either ends as ReadLoop does, or reaches a state with the same outcome and a smaller measure |
| HttpConnection.HttpConn.Stage | http/http_conn.cpp:240-275 | get_line, m_start_line = m_checked_idx, and the stage parser, as LoopBody |
| HttpConnection.HttpConn.ReadRequest | http/http_conn.cpp:235-277 | the while loop ends with exactly ReadLoop's code and state |
| HttpConnection.HttpConn.Hand | http/http_conn.cpp:261-268 | GET_REQUEST hands over to do_request; any other code is returned, with nothing changed |
| HttpConnection.HttpConn.ProcessRead | http/http_conn.cpp:228-278 | the code, the parser's state, m_real_file, the user table, the file size and the mapping become ReadResult's; the reply and the socket are untouched |
| HttpConnection.HttpConn.AddResponse | http/http_conn.cpp:605-634 | the buffer and m_write_idx become Response.AddResponse's |
| HttpConnection.HttpConn.AddStatusLine | http/http_conn.cpp:637-639 | add_response of the status line |
| HttpConnection.HttpConn.AddContentLength | http/http_conn.cpp:649-651 | add_response of the Content-Length line |
| HttpConnection.HttpConn.AddLinger | http/http_conn.cpp:659-661 | add_response of the Connection line for m_linger |
| HttpConnection.HttpConn.AddBlankLine | http/http_conn.cpp:664-666 | add_response of CRLF |
| HttpConnection.HttpConn.AddContent | http/http_conn.cpp:669-671 | add_response of the content |
| HttpConnection.HttpConn.AddHeaders | http/http_conn.cpp:642-646 | the three lines in order, as Response.AddHeaders |
| HttpConnection.HttpConn.Compose | http/http_conn.cpp:681-685 | the buffer and m_write_idx become add_response of the first line, then add_headers, then add_response of the content, whose fit is the result |
| HttpConnection.HttpConn.PageOut | http/http_conn.cpp:678-745 | an error-page case of process_write, as Response.ErrorReply |
| HttpConnection.HttpConn.OneVector | http/http_conn.cpp:741-745 | one iovec over the buffer up to m_write_idx, and bytes_to_send = m_write_idx |
| HttpConnection.HttpConn.FileOut | http/http_conn.cpp:710-726 | the non-empty file case, as Response.FileReply, returning true |
| HttpConnection.HttpConn.Head | http/http_conn.cpp:712-715 | the status line and the headers announcing the narrowed file size |
| HttpConnection.HttpConn.TwoVectors | http/http_conn.cpp:716-724 | the two iovecs over the headers and the whole file, with bytes_to_send their narrowed sum |
| HttpConnection.HttpConn.ProcessWrite | http/http_conn.cpp:674-746 | the state and result become Response.ProcessWriteFixed's, and m_real_file is untouched |
| HttpConnection.HttpConn.Bookkeep | http/http_conn.cpp:776-788 | the corrected bookkeeping, Writer.StepFixed |
| HttpConnection.HttpConn.SendRound | http/http_conn.cpp:761-804 | one writev round either ends as WriteLoop does, or leaves the same outcome, with fewer answers or a non-empty vector |
| HttpConnection.HttpConn.Send | http/http_conn.cpp:761-804 | the while loop ends with exactly WriteLoop's outcome, state and bytes sent |
| HttpConnection.HttpConn.Unmap | http/http_conn.cpp:595-602 | after unmap() no file is mapped |
| HttpConnection.HttpConn.ModFd | http/http_conn.cpp:106-119 | the socket is re-armed for the event, unless it is closed |
| HttpConnection.HttpConn.Write | http/http_conn.cpp:749-805 | see the breakdown below the table |
| HttpConnection.HttpConn.Conclude | http/http_conn.cpp:754-803 | the endings of write() by outcome: which event is armed, unmapping, init() and the result |
| HttpConnection.HttpConn.Process | http/http_conn.cpp:208-225 | see the breakdown below the table |
| HttpConnection.HttpConn.Answer | http/http_conn.cpp:212-224 | the reply, the socket and the result become Answered's |
| HttpConnection.HttpConn.Respond | http/http_conn.cpp:219-224 | process_write, close_conn on failure and EPOLLOUT, as Response.ProcessWriteFixed and Processed |
| HttpConnection.HttpConn.Settle | http/http_conn.cpp:220-224 | after process_write's answer, the socket state becomes Processed; the reply, the parser's state, m_real_file and the user table are untouched |

### Breakdown of the longer contracts

**RequestParser.Headers** (http/http_conn.cpp:384-425):
- On the blank line, GET_REQUEST exactly when m_content_length is 0. Otherwise the state moves to CONTENT.
- Any other line gives NO_REQUEST with the state kept.
- Only the Connection header can set m_linger, and only the Host header can change m_host.
- BAD_REQUEST is never returned.

**RequestParser.ReadLoop** (http/http_conn.cpp:228-278):
- The answer is NO_REQUEST, GET_REQUEST or BAD_REQUEST.
- BAD_REQUEST leaves the state at REQUESTLINE.
- GET_REQUEST comes either from HEADER with no length, or from CONTENT with m_string set.
- m_start_line = m_checked_idx after the last line.
- m_read_idx is kept, and m_checked_idx never moves back.

**Response.AddResponse** (http/http_conn.cpp:605-634):
- Success holds exactly when m_write_idx < 1024 and the text is shorter than 1023 - m_write_idx.
- On success, m_write_idx grows by the text's length, stays below 1023, and the text and a NUL follow the old content.
- On failure, m_write_idx is unchanged.
- The bytes before m_write_idx are kept.

**Response.ProcessWrite** (http/http_conn.cpp:674-746):
- Only error codes and FILE_REQUEST can succeed.
- A non-empty file gets FileReply.
- Other successes use one iovec.
- A code with no case (NO_RESOURCE among them) gives false with nothing changed.
- An empty file gives false.

**TimerList.SortTimerList.Tick** (timer/lst_timer.h:172-208):
- Exactly the longest prefix whose expiry is at most cur is removed from the list.
- Its user_data is handed to the callback in list order.
- Its nodes are freed.
- A sorted list stays sorted, with every remaining entry expiring after cur.

**ThreadPool.Pool.RunStep** (threadpool/threadpool.h:104-136):
- When stopped, the round does nothing.
- With no post and no signal, the semaphore wait blocks.
- Otherwise one post is taken and the queue becomes Dequeue's result.
- A non-NULL front is processed.

**HttpConnection.HttpConn.Write** (http/http_conn.cpp:749-805), by the outcome of Writer.Write with the corrected bookkeeping:
- What was sent is exactly what Writer.Write sends.
- The result is true on Idle, on EAGAIN, and on Finished with linger.
- EPOLLIN is armed on Idle and Finished, and EPOLLOUT on EAGAIN.
- The file is unmapped on an error or on Finished.
- init() runs on Idle and on Finished with linger.
- In every other case the send state is kept as the loop left it.

**HttpConnection.HttpConn.Process** (http/http_conn.cpp:208-225):
- The parser's state, m_real_file, the user table, the file size and the mapping become ReadResult's, and the code is NO_REQUEST or a resolution.
- The reply, the socket and what was written become Answered's for that code: NO_REQUEST re-arms EPOLLIN, any other code is answered by ProcessWriteFixed and the socket becomes Processed.

## Left out

**Concurrency, I/O and other subsystems:**
- Threads, locks and semaphores.
  - The pthread calls of threadpool/threadpool.h:47-63, `worker`, and the blocking `sem.wait()` are not modelled; the success of creation and detach is the input `spawned` of `ThreadPool.Pool.Create`.
  - `m_lock` around the user-table insert and `lock/locker.h` are not modelled.
  - Interleavings of workers are sequences of `RunStep` rounds under the queue lock.
- System calls are parameters or recorded effects:
  - `recv` is the offered bytes.
  - `writev` is a sequence of answers. When the answers run out the socket is taken to have no room, that is, EAGAIN.
  - `stat` is a file table.
  - `open`, `mmap` and `munmap` are the flag `mapped`. A failing `open` or `mmap` is not modelled.
  - `epoll_ctl`, `addfd`, `modfd` and `removefd` are the field `armed`. `modfd` on a closed socket (-1) changes nothing.
  - `close` and `time()` are not modelled beyond this.
  - A `writev` on an iovec list whose lengths are all 0 is taken to return 0 without looking at the socket.
- MySQL:
  - `initmysql_result` is not modelled; the table is given to `HttpConnection.Shared.constructor`.
  - `mysql_query` is the input `insertOk`.
  - The INSERT text, and its quoting, are not modelled.
  - `connectionRAII`, the connection pool and the `mysql` field are not modelled.
- Logging (`LOG_INFO`, `LOG_ERROR`, `flush`) is not modelled.
- The ET branch of `read_once` (http/http_conn.cpp:190-204) is not compiled under `connfdLT` and is not modelled. Only the LT branch is modelled.
- `m_address`, `get_address`, the destructors of `http_conn` and `sort_timer_lst`, and the `main.cpp` reactor are not part of this model. `cb_func` is recorded as the list of user_data that `Tick` reports.
- `add_content_type` (http/http_conn.cpp:654-656) is never called; only its text is kept. The unused local `flag` of `do_request` (http/http_conn.cpp:454) is not modelled.
- Writer.WriteLoop: a loop whose iovecs are all empty while bytes remain would spin forever in C. The model stops it and reports `Spins`. Only the bookkeeping as written reaches it.

**Weakened contracts:**
- HttpConnection.HttpConn.constructor: `http_conn(){}` leaves the fields uninitialised. The model starts from the state init() leaves, with a closed socket.
- HttpConnection.HttpConn.Stage: the stage parsers run as functions on a snapshot of the fields, and the result is written back. The order of the single stores inside `parse_request_line` is not modelled. The same holds for `HttpConnection.HttpConn.DoRequest`.
- HttpConnection.HttpConn.AddHeaders: `add_headers` falls off its end without returning a value. Its result is never read, so the model's method has none.
- HttpConnection.HttpConn.FileOut: `st_size` is a natural number. Its narrowing to int for add_headers and bytes_to_send is modelled by `Common.ToInt32`. A negative size is not modelled.
- RequestParser.ReadLoop: the `default: return INTERNAL_ERROR` of process_read (http/http_conn.cpp:273-274) cannot be reached with three states, so the model has no such case.
- RequestParser.CheckTarget: `strcat` past the end of `m_read_buf` would overflow in C. The model drops the bytes that fall outside; `CString.Overwrite` clips every store this way.
- RequestParser.Content: the same clipping applies to the NUL stored at `text[m_content_length]`.
- RequestParser.Content: `m_content_length + m_checked_idx` is the exact sum. In C it is an int sum, which overflows when Content-length is within 2048 of INT_MAX; the overflow, undefined behaviour in C, is not modelled.
- CString.StrEnd: a string with no NUL ends at the buffer end. C would read on past `m_read_idx` and past the buffer until it met a NUL; what lies there is not modelled.
- RequestParser.StripScheme: for an `http://` target with no later '/', C hands the NULL `m_url` to `strncasecmp`, which is undefined behaviour. The model goes on, as the later NULL check does, and rejects the line.
- Router.Credentials:
  - With `m_string` never set (NULL in C), the name and the password are empty.
  - The name loop stops at the buffer end, and so does the password.
  - Names or passwords of 100 bytes or more would overflow `name[100]` and `password[100]` in C. The model keeps them whole.
- Router.CgiFilePart: the 200-byte `m_url_real` overflow of a long target is not modelled. The bound of the `strncpy` is kept.
- Router.RouteChar: a target with no '/' would make C read `*(NULL + 1)`. The model reads a NUL. This cannot happen after `parse_request_line`, which requires a leading '/'.
- TimerList.SortTimerList.DelTimer: requires the timer to be in the list. The same holds for AdjustTimer. AddTimer requires the new timer to be detached. The code's behaviour on other pointers is undefined.
- CString.Atol: its contract states only the range. Its value on digits is stated by `CString.AtolReadsDecimal`.
- HttpDefs.CheckStateValue: the METHOD and HTTP_CODE numbering is not modelled.

## Findings

| source | as written | input that shows it | evidently intended | confidence | as-written member | corrected member |
|---|---|---|---|---|---|---|
| http/http_conn.cpp:779-787 | `bytes_have_send`, a running total, is compared with and subtracted from `m_iv[0].iov_len`, which has already been shrunk | 100-byte header block, 10-byte file, `writev` accepting 40, then 30, then the rest: the last 30 header bytes are skipped and 30 bytes before the mapped file are sent, yet `write()` reports completion. A 100-byte error page accepted 40 then 30 leaves 30 bytes behind an empty iovec: the loop spins | the header iovec runs from `bytes_have_send` to `m_write_idx`; once the headers are out, the file iovec starts at `bytes_have_send - m_write_idx` | not executed | Writer.AsWrittenSkipsHeaderTail, Writer.AsWrittenSpinsOnErrorPage | Writer.StepFixed, Writer.FixedWriteDelivers |
| http/http_conn.cpp:430 | the body is complete when `m_read_idx >= m_content_length + m_checked_idx`, but `parse_line` has moved `m_checked_idx` over the body bytes received so far | a POST whose body has no line break and arrives in two reads, part in the first: after the second read the whole body is in the buffer, yet `process_read` answers NO_REQUEST for good | leave the loop once a body check fails, as the `line_status = LINE_OPEN` at line 271 intends, so that `m_checked_idx` stays at the body start and the next check counts from there | not executed | RequestParser.SplitBodyStalls | RequestParser.ReadLoop, SplitReads.BodyArrivesInReads |
| http/http_conn.cpp:727-737 | the empty-file case composes the empty page and then falls through into `default: return false` | a GET of an existing, world-readable regular file of size 0: `process_write` returns false and `process()` closes the connection with no response | a `break` after the empty-file case, so the one-iovec tail sends the 200 page | not executed | Response.EmptyFileNotAnswered | Response.ProcessWriteFixed, Response.EmptyFileAnsweredWhenFixed |
