/** A connection with its buffers and its request, and the parser that works on them in place. */
module HttpConns {
  import opened Strings
  import opened Multimaps
  import opened Numbers
  import opened Buffers
  import opened Urls
  import opened Cookies
  import opened HttpHeaders
  import opened HttpParser
  import opened ParserTheorems

  class HTTPRequest {
    var httpMethod: Method
    var version: int
    var cookies: seq<Cookie>
    const header: HTTPHeader
    const url: URL
    const form: Query

    constructor ()
      ensures fresh(header) && fresh(url) && fresh(url.query) && fresh(form) && form != url.query
      ensures View() == Request(Get, "/", map[], VERSION_NOT_SUPPORTED, map[], [], map[])
    {
      httpMethod, version, cookies := Get, VERSION_NOT_SUPPORTED, [];
      header := new HTTPHeader();
      url := new URL("/");
      form := new Query();
    }

    function View(): Request
      reads this, header, url, url.query, form
    {
      Request(httpMethod, url.url, url.query.params, version, header.members, cookies, form.params)
    }

    /** A supported name becomes the name of the method; any other leaves the method as it is. */
    method SetMethod(name: string)
      modifies this`httpMethod
      ensures if exists m :: MethodName(m) == name then MethodName(httpMethod) == name
              else httpMethod == old(httpMethod)
    {
      if MethodOf(name).Some? {
        httpMethod := MethodOf(name).value;
      }
    }

    method SetURL(s: string)
      modifies url, url.query
      ensures url.url == s && url.query.params == Parsed(old(url.query.params), s, false)
    {
      url.Set(s);
    }

    method SetHTTPVersion(v: int)
      modifies this`version
      ensures version == if HTTPVersionSupported(v) then v else old(version)
    {
      if HTTPVersionSupported(v) {
        version := v;
      }
    }
  }

  class HTTPConn {
    var state: ParsingState
    const readBuf: Buffer
    const writeBuf: Buffer
    const request: HTTPRequest

    ghost predicate Valid()
      reads this, readBuf, writeBuf
    {
      && readBuf.Valid() && writeBuf.Valid()
      && readBuf != writeBuf && readBuf.data != writeBuf.data
      && request.form != request.url.query
    }

    ghost function View(): Conn
      requires Valid()
      reads this, readBuf, readBuf.data, writeBuf, writeBuf.data
      reads request, request.header, request.url, request.url.query, request.form
    {
      Conn(state, readBuf.Contents(), writeBuf.Contents(), request.View())
    }

    /** Forgets the current request, and with it all bytes of its body: the body is the read buffer. */
    method ResetRequest()
      requires Valid()
      modifies readBuf`reader, readBuf`writer
      modifies request, request.header, request.url, request.url.query, request.form
      ensures Valid() && View() == old(View()).(rbuf := "", req := NO_REQUEST)
      ensures MethodName(request.httpMethod) == "GET" && request.version == 0 && request.cookies == []
      ensures request.url.url == "" && forall k :: !request.header.Has(k)
      ensures forall k :: !request.url.query.Has(k) && !request.form.Has(k)
    {
      request.header.Clear();
      request.httpMethod, request.version, request.cookies := Get, VERSION_NOT_SUPPORTED, [];
      request.url.Reset();
      request.form.Clear();
      readBuf.Reset();
    }

    constructor ()
      ensures Valid()
      ensures View() == Conn(RequestLine, "", "", Request(Get, "/", map[], VERSION_NOT_SUPPORTED, map[], [], map[]))
    {
      state := RequestLine;
      readBuf := new Buffer(1024);
      writeBuf := new Buffer(1024);
      request := new HTTPRequest();
    }
  }

  datatype LineParsingState = LineComplete | LinePending | LineInvalid | LineCompleteEmptyLine

  /** Takes one line off the read buffer, if a whole one is there. */
  method ParseSingleLine(conn: HTTPConn) returns (state: LineParsingState, line: string)
    requires conn.Valid()
    modifies conn.readBuf`reader
    ensures conn.Valid()
    ensures var b := old(conn.readBuf.Contents());
      if !Occurs(b, CRLF) then state == LinePending && conn.readBuf.Contents() == b
      else
        && line == BeforeFirst(b, CRLF) && conn.readBuf.Contents() == AfterFirst(b, CRLF)
        && state == if line == "" then LineCompleteEmptyLine else LineComplete
  {
    line := "";
    if conn.readBuf.Size() == 0 {
      return LinePending, line;
    }
    var tmp, crlfFound := conn.readBuf.ReadStringAndForwardTill(CRLF);
    if !crlfFound {
      return LinePending, line;
    }
    line := tmp;
    state := if line == "" then LineCompleteEmptyLine else LineComplete;
  }

  method ParseRequestLine(conn: HTTPConn) returns (code: int)
    requires conn.Valid()
    modifies conn`state, conn.readBuf`reader, conn.request, conn.request.url, conn.request.url.query
    ensures conn.Valid() && (conn.View(), code) == RequestLineTurn(old(conn.View()))
  {
    hide ParsedRequestLine, Strings.TrimLeft, Occurs, BeforeFirst, AfterFirst;
    conn.readBuf.TrimLeft();
    var lineState, line := TakeLine(conn);
    if lineState == LinePending || lineState == LineCompleteEmptyLine {
      return STATUS_PRIVATE_PENDING;
    }
    code := TakeRequestLine(conn, line);
  }

  /** `ParseSingleLine`, with its effect on the whole connection. */
  method TakeLine(conn: HTTPConn) returns (state: LineParsingState, line: string)
    requires conn.Valid()
    modifies conn.readBuf`reader
    ensures conn.Valid()
    ensures var c := old(conn.View());
      if !Occurs(c.rbuf, CRLF) then state == LinePending && conn.View() == c
      else
        && line == BeforeFirst(c.rbuf, CRLF) && conn.View() == c.(rbuf := AfterFirst(c.rbuf, CRLF))
        && state == if line == "" then LineCompleteEmptyLine else LineComplete
  {
    hide Occurs, BeforeFirst, AfterFirst;
    state, line := ParseSingleLine(conn);
  }

  /** Checks the parts of a request line, and stores those that come before the first unsupported one. */
  method TakeRequestLine(conn: HTTPConn, line: string) returns (code: int)
    requires conn.Valid()
    modifies conn`state, conn.request, conn.request.url, conn.request.url.query
    ensures conn.Valid() && (conn.View(), code) == ParsedRequestLine(old(conn.View()), line)
  {
    hide Split, MethodOf, Parsed, ParseHTTPVersion;
    var v := StrSplit(line, ' ');
    if |v| != 3 {
      conn.state := Invalid;
      return STATUS_BAD_REQUEST;
    }
    if MethodOf(v[0]).None? {
      conn.state := Invalid;
      return STATUS_NOT_IMPLEMENTED;
    }
    conn.request.SetMethod(v[0]);
    MethodByName(conn.request.httpMethod);
    conn.request.SetURL(v[1]);
    var version := ParseHTTPVersion(v[2]);
    if !HTTPVersionSupported(version) {
      conn.state := Invalid;
      return STATUS_HTTP_VERSION_NOT_SUPPORTED;
    }
    conn.request.SetHTTPVersion(version);
    conn.state := RequestHeader;
    return STATUS_PRIVATE_COMPLETE;
  }

  /** Adds one field line to the request. */
  method ParseField(request: HTTPRequest, field: string)
    requires ':' in field
    modifies request`cookies, request.header
    ensures request.View() == FieldAdded(old(request.View()), field)
  {
    hide Strings.TrimLeft, Lower, CStr, Added, Pairs, CookiesOf;
    var colon := Find(field, ':');
    var key := field[..colon];
    var value := Strings.TrimLeft(field[colon + 1..]);
    if Lower(CStr(key)) == "cookie" {
      var _, cookies := ParseCookieString(value, request.cookies);
      request.cookies := cookies;
    } else {
      request.header.Add(key, value);
    }
  }

  /** What reading field lines comes to, once `line` was taken off the buffer and `rest` is left. */
  ghost function Ahead(state: LineParsingState, line: string, rest: string, req: Request): (Stop, string, Request) {
    match state
    case LineComplete => if ':' in line then FieldLines(rest, FieldAdded(req, line)) else (NoColon, rest, req)
    case LineCompleteEmptyLine => (EmptyLine, rest, req)
    case _ => (NoLine, rest, req)
  }

  method TakeFieldLine(conn: HTTPConn) returns (state: LineParsingState, line: string)
    requires conn.Valid()
    modifies conn.readBuf`reader
    ensures conn.Valid() && state != LineInvalid
    ensures Ahead(state, line, conn.readBuf.Contents(), conn.request.View())
         == FieldLines(old(conn.readBuf.Contents()), conn.request.View())
    ensures |conn.readBuf.Contents()| <= |old(conn.readBuf.Contents())|
    ensures state == LineComplete ==> |conn.readBuf.Contents()| < |old(conn.readBuf.Contents())|
  {
    hide FieldAdded, Occurs, BeforeFirst, AfterFirst;
    state, line := ParseSingleLine(conn);
  }

  /** Stores one field line and takes the next line, which leaves what is ahead as it was. */
  method NextFieldLine(conn: HTTPConn, field: string) returns (state: LineParsingState, line: string)
    requires conn.Valid() && ':' in field
    modifies conn.readBuf`reader, conn.request`cookies, conn.request.header
    ensures conn.Valid() && state != LineInvalid
    ensures Ahead(state, line, conn.readBuf.Contents(), conn.request.View())
         == Ahead(LineComplete, field, old(conn.readBuf.Contents()), old(conn.request.View()))
    ensures |conn.readBuf.Contents()| <= |old(conn.readBuf.Contents())|
    ensures state == LineComplete ==> |conn.readBuf.Contents()| < |old(conn.readBuf.Contents())|
  {
    hide FieldAdded, FieldLines;
    ParseField(conn.request, field);
    state, line := TakeFieldLine(conn);
  }

  /** The header turn, by what reading field lines came to. */
  lemma HeaderTurnByStop(c: Conn, d: Conn, state: LineParsingState, line: string)
    requires Ahead(state, line, d.rbuf, d.req) == FieldLines(c.rbuf, c.req) && c.state == d.state && c.wbuf == d.wbuf
    requires state == LineComplete ==> ':' !in line
    ensures RequestHeaderTurn(c) == match state
      case LineCompleteEmptyLine => (d.(state := RequestBody), STATUS_PRIVATE_COMPLETE)
      case LineComplete => (d.(state := RequestEmptyLine), STATUS_PRIVATE_COMPLETE)
      case _ => (d, STATUS_PRIVATE_PENDING)
  {
    hide FieldLines;
  }

  method ParseRequestHeader(conn: HTTPConn) returns (code: int)
    requires conn.Valid()
    modifies conn`state, conn.readBuf`reader, conn.request`cookies, conn.request.header
    ensures conn.Valid() && (conn.View(), code) == RequestHeaderTurn(old(conn.View()))
  {
    hide FieldAdded, FieldLines, Ahead, RequestHeaderTurn, Buffer.Contents, HTTPRequest.View;
    ghost var c := conn.View();
    var lineState, field := TakeFieldLine(conn);
    while lineState == LineComplete
      modifies conn.readBuf`reader, conn.request`cookies, conn.request.header
      invariant conn.Valid() && lineState != LineInvalid
      invariant Ahead(lineState, field, conn.readBuf.Contents(), conn.request.View()) == FieldLines(c.rbuf, c.req)
      decreases |conn.readBuf.Contents()|, if lineState == LineComplete then 1 else 0
    {
      if ':' !in field {
        break;
      }
      lineState, field := NextFieldLine(conn, field);
    }
    HeaderTurnByStop(c, conn.View(), lineState, field);
    if lineState == LinePending {
      return STATUS_PRIVATE_PENDING;
    } else if lineState == LineCompleteEmptyLine {
      conn.state := RequestBody;
      return STATUS_PRIVATE_COMPLETE;
    }
    assert lineState == LineComplete;  // so the case LineInvalid, which nothing sets, cannot come up
    conn.state := RequestEmptyLine;
    return STATUS_PRIVATE_COMPLETE;
  }

  method ParseRequestEmptyLine(conn: HTTPConn) returns (code: int)
    requires conn.Valid()
    modifies conn`state, conn.readBuf`reader
    ensures conn.Valid() && (conn.View(), code) == EmptyLineTurn(old(conn.View()))
  {
    if conn.readBuf.Size() < 2 {
      return STATUS_PRIVATE_PENDING;
    }
    var first := conn.readBuf.ReadableCharacterAt(0);
    var second := conn.readBuf.ReadableCharacterAt(1);
    assert conn.readBuf.Contents()[..2] == [first, second];
    if first == '\r' && second == '\n' {
      conn.readBuf.ReaderIdxForward(2);
      LengthKey();
      if conn.request.header.Has("Content-Length") {
        conn.state := RequestBody;
      } else {
        conn.state := Done;
      }
      return STATUS_PRIVATE_COMPLETE;
    }
    conn.state := Invalid;
    return STATUS_BAD_REQUEST;
  }

  method ParseRequestBody(conn: HTTPConn) returns (code: int)
    requires conn.Valid()
    modifies conn`state
    ensures conn.Valid() && (conn.View(), code) == BodyTurn(old(conn.View()))
  {
    LengthKey();
    if !conn.request.header.Has("Content-Length") {
      conn.state := Done;
      return STATUS_PRIVATE_COMPLETE;
    }
    var clen := UInt64(conn.request.header.Get("Content-Length"));
    if clen.None? {
      conn.state := Done;
      return STATUS_BAD_REQUEST;
    }
    if conn.readBuf.Size() >= clen.value {
      conn.state := Done;
      return STATUS_PRIVATE_COMPLETE;
    }
    return STATUS_PRIVATE_PENDING;
  }

  /** One call of the parser, after new bytes were appended to the read buffer. */
  method ParseRequestDatagram(conn: HTTPConn) returns (code: int)
    requires conn.Valid()
    modifies conn`state, conn.readBuf`reader, conn.readBuf`writer, conn.writeBuf`reader, conn.writeBuf`writer
    modifies conn.request, conn.request.header, conn.request.url, conn.request.url.query
    ensures conn.Valid() && (conn.View(), code) == Datagram(old(conn.View()))
  {
    hide Turn, LastTurn, Datagram;
    ghost var c0 := conn.View();
    var state := RequestLine;
    code := STATUS_PRIVATE_COMPLETE;
    ghost var last := false;
    while state != Invalid && state != Done && code != STATUS_PRIVATE_PENDING && code != STATUS_PRIVATE_INVALID
      invariant conn.Valid()
      invariant last <==>
        state == Invalid || state == Done || code in {STATUS_PRIVATE_PENDING, STATUS_PRIVATE_INVALID}
      invariant if last then (conn.View(), code) == Datagram(c0) else Datagram(conn.View()) == Datagram(c0)
      decreases if last then 0 else 1 + Rank(conn.state)
    {
      ghost var c := conn.View();
      OneTurn(c);
      TurnDescends(c);
      LastTurnMeans(c);
      last := LastTurn(c);
      state := conn.state;
      match state {
        case RequestLine => code := ParseRequestLine(conn);
        case RequestHeader => code := ParseRequestHeader(conn);
        case RequestEmptyLine => code := ParseRequestEmptyLine(conn);
        case RequestBody => code := ParseRequestBody(conn);
        case Invalid =>
          conn.readBuf.Reset();
          conn.writeBuf.Reset();
          code := STATUS_PRIVATE_INVALID;
        case Done =>
          conn.state := RequestLine;
          code := STATUS_PRIVATE_DONE;
      }
      assert (conn.View(), code) == Turn(c) by { TurnByState(c); }
    }
  }

  lemma TurnByState(c: Conn)
    ensures Turn(c) == match c.state
      case RequestLine => RequestLineTurn(c)
      case RequestHeader => RequestHeaderTurn(c)
      case RequestEmptyLine => EmptyLineTurn(c)
      case RequestBody => BodyTurn(c)
      case Invalid => (c.(rbuf := "", wbuf := ""), STATUS_PRIVATE_INVALID)
      case Done => (c.(state := RequestLine), STATUS_PRIVATE_DONE)
  {
  }

  /** The loop condition fails after exactly the last turns. */
  lemma LastTurnMeans(c: Conn)
    ensures LastTurn(c) ==
      (c.state == Invalid || c.state == Done || Turn(c).1 in {STATUS_PRIVATE_PENDING, STATUS_PRIVATE_INVALID})
  {
    hide FieldLines, Split, MethodOf, Parsed, TrimLeft, Occurs, UInt64;
  }

  /** One network read: the bytes go behind those that are still in the buffer, then the parser is called. */
  method Receive(conn: HTTPConn, chunk: string) returns (code: int)
    requires conn.Valid()
    modifies conn`state, conn.readBuf, conn.readBuf.data, conn.writeBuf`reader, conn.writeBuf`writer
    modifies conn.request, conn.request.header, conn.request.url, conn.request.url.query
    ensures conn.Valid() && (conn.readBuf.data == old(conn.readBuf.data) || fresh(conn.readBuf.data))
    ensures (conn.View(), code) == Datagram(Fed(old(conn.View()), chunk))
  {
    hide Datagram;
    conn.readBuf.Append(chunk);
    code := ParseRequestDatagram(conn);
  }
}
