/** The request parser as a function on the state of a connection. */
module HttpParser {
  import opened Strings
  import opened Multimaps
  import opened Numbers
  import opened Urls
  import opened Cookies

  const CRLF := "\r\n"

  // -------------------------------------------------------------------------
  // Methods and versions
  // -------------------------------------------------------------------------

  datatype Method = Get | Head | Post | Put | Patch | Delete | Connect | Options | Trace

  function MethodName(m: Method): (r: string)
    ensures r != "" && ' ' !in r && !IsBlank(r[0])
    ensures forall k :: 0 <= k < |r| ==> !IsBlank(r[k])
  {
    match m
    case Get => "GET"
    case Head => "HEAD"
    case Post => "POST"
    case Put => "PUT"
    case Patch => "PATCH"
    case Delete => "DELETE"
    case Connect => "CONNECT"
    case Options => "OPTIONS"
    case Trace => "TRACE"
  }

  /** The method a name stands for, if it is supported. */
  function MethodOf(s: string): (r: Option<Method>)
    ensures r.Some? ==> MethodName(r.value) == s
    ensures r.None? ==> forall m :: MethodName(m) != s
  {
    if s == "GET" then Some(Get)
    else if s == "HEAD" then Some(Method.Head)
    else if s == "POST" then Some(Post)
    else if s == "PUT" then Some(Put)
    else if s == "PATCH" then Some(Patch)
    else if s == "DELETE" then Some(Delete)
    else if s == "CONNECT" then Some(Connect)
    else if s == "OPTIONS" then Some(Options)
    else if s == "TRACE" then Some(Trace)
    else None
  }

  lemma MethodTable()
    ensures MethodOf("GET") == Some(Get) && MethodOf("HEAD") == Some(Method.Head) && MethodOf("POST") == Some(Post)
    ensures MethodOf("PUT") == Some(Put) && MethodOf("PATCH") == Some(Patch) && MethodOf("DELETE") == Some(Delete)
    ensures MethodOf("CONNECT") == Some(Connect) && MethodOf("OPTIONS") == Some(Options)
    ensures MethodOf("TRACE") == Some(Trace)
  {
  }

  lemma MethodByName(m: Method)
    ensures MethodOf(MethodName(m)) == Some(m)
  {
  }

  const VERSION_NOT_SUPPORTED := 0x00
  const VERSION_1_0 := 0x10
  const VERSION_1_1 := 0x11

  function ParseHTTPVersion(s: string): int {
    if s == "HTTP/1.0" then VERSION_1_0 else if s == "HTTP/1.1" then VERSION_1_1 else VERSION_NOT_SUPPORTED
  }

  predicate HTTPVersionSupported(v: int) {
    v == VERSION_1_0 || v == VERSION_1_1
  }

  // -------------------------------------------------------------------------
  // The state of a connection
  // -------------------------------------------------------------------------

  const STATUS_PRIVATE_DONE := 600
  const STATUS_PRIVATE_COMPLETE := 601
  const STATUS_PRIVATE_PENDING := 602
  const STATUS_PRIVATE_INVALID := 604
  const STATUS_BAD_REQUEST := 400
  const STATUS_NOT_IMPLEMENTED := 501
  const STATUS_HTTP_VERSION_NOT_SUPPORTED := 505

  datatype ParsingState = Invalid | RequestLine | RequestHeader | RequestEmptyLine | RequestBody | Done

  /** Header fields are kept by the lower-case form of their key. */
  datatype Request = Request(httpMethod: Method, url: string, query: Multimap, version: int,
                             header: Multimap, cookies: seq<Cookie>, form: Multimap)

  const NO_REQUEST := Request(Get, "", map[], VERSION_NOT_SUPPORTED, map[], [], map[])

  datatype Conn = Conn(state: ParsingState, rbuf: string, wbuf: string, req: Request)

  // -------------------------------------------------------------------------
  // One turn in each state
  // -------------------------------------------------------------------------

  /** Method, URL and version, in this order; the first that is not supported ends the request. */
  function ParsedRequestLine(c: Conn, line: string): (r: (Conn, int))
    ensures r.1 != STATUS_PRIVATE_PENDING
    ensures r.0.state == if r.1 == STATUS_PRIVATE_COMPLETE then RequestHeader else Invalid
  {
    var v := Split(line, ' ');
    if |v| != 3 then (c.(state := Invalid), STATUS_BAD_REQUEST)
    else if MethodOf(v[0]).None? then (c.(state := Invalid), STATUS_NOT_IMPLEMENTED)
    else
      var req := c.req.(httpMethod := MethodOf(v[0]).value, url := v[1], query := Parsed(c.req.query, v[1], false));
      var version := ParseHTTPVersion(v[2]);
      if !HTTPVersionSupported(version) then (c.(state := Invalid, req := req), STATUS_HTTP_VERSION_NOT_SUPPORTED)
      else (c.(state := RequestHeader, req := req.(version := version)), STATUS_PRIVATE_COMPLETE)
  }

  function RequestLineTurn(c: Conn): (Conn, int) {
    var b := TrimLeft(c.rbuf);
    if !Occurs(b, CRLF) then (c.(rbuf := b), STATUS_PRIVATE_PENDING)
    else
      var d := c.(rbuf := AfterFirst(b, CRLF));
      var line := BeforeFirst(b, CRLF);
      if line == "" then (d, STATUS_PRIVATE_PENDING) else ParsedRequestLine(d, line)
  }

  /** A field line with its key, or cookies from a field of that name. */
  function FieldAdded(req: Request, line: string): Request
    requires ':' in line
  {
    var i := Find(line, ':');
    var key, value := line[..i], TrimLeft(line[i + 1..]);
    if Lower(CStr(key)) == "cookie" then req.(cookies := req.cookies + CookiesOf(Pairs(value)))
    else req.(header := Added(req.header, Lower(key), value))
  }

  /** Why the reading of field lines stopped. */
  datatype Stop = NoLine | EmptyLine | NoColon

  /** Takes field lines off the buffer until one is incomplete, empty or without a colon. */
  function FieldLines(buf: string, req: Request): (Stop, string, Request)
    decreases |buf|
  {
    if !Occurs(buf, CRLF) then (NoLine, buf, req)
    else
      var (line, rest) := (BeforeFirst(buf, CRLF), AfterFirst(buf, CRLF));
      if line == "" then (EmptyLine, rest, req)
      else if ':' !in line then (NoColon, rest, req)
      else FieldLines(rest, FieldAdded(req, line))
  }

  /** A line without a colon is dropped, and what follows it must be an empty line. */
  function RequestHeaderTurn(c: Conn): (Conn, int) {
    var (stop, rest, req) := FieldLines(c.rbuf, c.req);
    var d := c.(rbuf := rest, req := req);
    match stop
    case NoLine => (d, STATUS_PRIVATE_PENDING)
    case EmptyLine => (d.(state := RequestBody), STATUS_PRIVATE_COMPLETE)
    case NoColon => (d.(state := RequestEmptyLine), STATUS_PRIVATE_COMPLETE)
  }

  const CONTENT_LENGTH := "content-length"

  lemma LengthKey()
    ensures Lower("Content-Length") == CONTENT_LENGTH
  {
  }

  predicate HasContentLength(req: Request) {
    CONTENT_LENGTH in req.header
  }

  function EmptyLineTurn(c: Conn): (Conn, int) {
    if |c.rbuf| < 2 then (c, STATUS_PRIVATE_PENDING)
    else if c.rbuf[..2] == CRLF then
      (c.(rbuf := c.rbuf[2..], state := if HasContentLength(c.req) then RequestBody else Done), STATUS_PRIVATE_COMPLETE)
    else (c.(state := Invalid), STATUS_BAD_REQUEST)
  }

  /** The first `Content-Length` value, or the empty string. */
  function ContentLength(req: Request): string {
    First(req.header, CONTENT_LENGTH)
  }

  function BodyTurn(c: Conn): (Conn, int) {
    if !HasContentLength(c.req) then (c.(state := Done), STATUS_PRIVATE_COMPLETE)
    else
      match UInt64(ContentLength(c.req))
      case None => (c.(state := Done), STATUS_BAD_REQUEST)
      case Some(n) =>
        if |c.rbuf| >= n then (c.(state := Done), STATUS_PRIVATE_COMPLETE) else (c, STATUS_PRIVATE_PENDING)
  }

  function Turn(c: Conn): (Conn, int) {
    match c.state
    case RequestLine => RequestLineTurn(c)
    case RequestHeader => RequestHeaderTurn(c)
    case RequestEmptyLine => EmptyLineTurn(c)
    case RequestBody => BodyTurn(c)
    case Invalid => (c.(rbuf := "", wbuf := ""), STATUS_PRIVATE_INVALID)
    case Done => (c.(state := RequestLine), STATUS_PRIVATE_DONE)
  }

  /** How many more turns a state can lead to. */
  function Rank(s: ParsingState): nat {
    match s
    case RequestLine => 4
    case RequestHeader => 3
    case RequestEmptyLine => 2
    case RequestBody => 1
    case Done => 0
    case Invalid => 0
  }

  /** The turn after which a call returns. */
  predicate LastTurn(c: Conn) {
    c.state.Invalid? || c.state.Done? || Turn(c).1 == STATUS_PRIVATE_PENDING
  }

  /** Every turn but the last leads to a state of lower rank. */
  lemma TurnDescends(c: Conn)
    ensures !LastTurn(c) ==> Rank(Turn(c).0.state) < Rank(c.state)
    ensures Turn(c).1 == STATUS_PRIVATE_PENDING ==> Turn(c).0.state == c.state
  {
    hide Split, MethodOf, ParseHTTPVersion, Parsed, FieldLines, TrimLeft, Occurs, BeforeFirst, AfterFirst;
    hide UInt64, ContentLength;
  }

  /** One call of the parser: turns until one is the last. */
  function Datagram(c: Conn): (Conn, int)
    decreases Rank(c.state)
  {
    if LastTurn(c) then Turn(c) else
      TurnDescends(c);
      Datagram(Turn(c).0)
  }

  lemma OneTurn(c: Conn)
    ensures Datagram(c) == if LastTurn(c) then Turn(c) else Datagram(Turn(c).0)
  {
    hide Turn;
  }

  /** The number of turns one call makes. */
  function Turns(c: Conn): nat
    decreases Rank(c.state)
  {
    if LastTurn(c) then 1 else
      TurnDescends(c);
      1 + Turns(Turn(c).0)
  }
}
