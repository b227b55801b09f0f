/** The constants and enumerations of http/http_conn.h: the capacities of
    the three per-connection buffers and the states and outcomes the request
    parser passes around. */
module HttpDefs {

  const FILENAME_LEN: nat := 200
  const READ_BUFFER_SIZE: nat := 2048
  const WRITE_BUFFER_SIZE: nat := 1024

  /** The request methods the enum names; the parser accepts GET and POST. */
  datatype Method = GET | POST | HEAD | PUT | DELETE | TRACE | OPTIONS | CONNECT | PATH

  /** The states of the primary machine, in declaration order. */
  datatype CheckState = CHECK_STATE_REQUESTLINE | CHECK_STATE_HEADER | CHECK_STATE_CONTENT

  /** What parsing and routing report: NO_REQUEST means the request is not
      complete yet, GET_REQUEST that it is, BAD_REQUEST a syntax error;
      NO_RESOURCE, FORBIDDEN_REQUEST and FILE_REQUEST classify the file. */
  datatype HttpCode =
    | NO_REQUEST | GET_REQUEST | BAD_REQUEST | NO_RESOURCE
    | FORBIDDEN_REQUEST | FILE_REQUEST | INTERNAL_ERROR | CLOSED_CONNECTION

  /** The outcomes of the line scanner, in declaration order. */
  datatype LineStatus = LINE_OK | LINE_BAD | LINE_OPEN

  /** The value the C++ enum gives a check state. */
  function CheckStateValue(s: CheckState): (n: nat)
    ensures n < 3
    ensures n == 0 <==> s == CHECK_STATE_REQUESTLINE
  {
    match s
    case CHECK_STATE_REQUESTLINE => 0
    case CHECK_STATE_HEADER => 1
    case CHECK_STATE_CONTENT => 2
  }

  /** The value the C++ enum gives a line status. */
  function LineStatusValue(s: LineStatus): (n: nat)
    ensures n < 3
    ensures n == 0 <==> s == LINE_OK
  {
    match s
    case LINE_OK => 0
    case LINE_BAD => 1
    case LINE_OPEN => 2
  }

  /** The codes that say how a request ended up while it is parsed. */
  predicate IsParseOutcome(c: HttpCode)
  {
    c == NO_REQUEST || c == GET_REQUEST || c == BAD_REQUEST
  }

  /** The codes do_request classifies a requested file with. */
  predicate IsResolution(c: HttpCode)
  {
    c == NO_RESOURCE || c == FORBIDDEN_REQUEST || c == BAD_REQUEST || c == FILE_REQUEST
  }
}
