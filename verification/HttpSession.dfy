/** A connection that serves request after request, until it is closed behind a response. */
module HttpSessions {
  import opened Strings
  import opened Multimaps
  import opened Numbers
  import opened Urls
  import opened HttpParser
  import opened ParserTheorems
  import opened RequestRender

  // -------------------------------------------------------------------------
  // Handling one request
  // -------------------------------------------------------------------------

  const STATUS_CONTENT_TOO_LARGE := 413
  const STATUS_INTERNAL_SERVER_ERROR := 500

  const CONNECTION := "connection"
  const CONTENT_TYPE := "content-type"

  const KEEP_ALIVE := "keep-alive"
  const FORM_TYPE := "application/x-www-form-urlencoded"
  const MULTIPART_TYPE := "multipart/form-data"

  const MAX_BODY_BYTES := 0x7fff_ffff

  predicate AsksToStay(req: Request) {
    CStr(First(req.header, CONNECTION)) == KEEP_ALIVE
  }

  predicate CarriesForm(m: Method) {
    m.Post? || m.Put? || m.Patch?
  }

  /** Reads the form of a request out of its body, if the content type is that of a form. */
  function FormParsed(c: Conn): (Conn, int) {
    var contentType := First(c.req.header, CONTENT_TYPE);
    if contentType == FORM_TYPE then
      if |c.rbuf| > MAX_BODY_BYTES then (c, STATUS_CONTENT_TOO_LARGE)
      else (c.(rbuf := "", req := c.req.(form := Parsed(c.req.form, c.rbuf, true))), STATUS_PRIVATE_DONE)
    else if contentType == MULTIPART_TYPE then (c, STATUS_NOT_IMPLEMENTED)
    else (c, STATUS_INTERNAL_SERVER_ERROR)
  }

  /** The statuses of error responses that announce the end of the connection. */
  predicate ClosesConnection(status: int) {
    status in {400, 405, 408, 500, 505, 413}
  }

  /** What an error response adds to its `Connection` field. */
  function Closing(status: int): seq<string> {
    if ClosesConnection(status) then ["close"] else []
  }

  /** A return code other than Pending, and the connection as the parser leaves it. */
  datatype Outcome = Outcome(code: int, conn: Conn) {
    /** What routing is given, with the code 600, or the status of the error response. */
    function Handled(): (Conn, int) {
      if code != STATUS_PRIVATE_DONE then (conn, STATUS_BAD_REQUEST)
      else if CarriesForm(conn.req.httpMethod) then FormParsed(conn)
      else (conn, STATUS_PRIVATE_DONE)
    }

    predicate Routed() {
      Handled().1 == STATUS_PRIVATE_DONE
    }

    /** The `Connection` values of the response, where the callback of the route leaves them alone. */
    function Connection(): seq<string> {
      (if code != STATUS_PRIVATE_DONE then [] else if AsksToStay(conn.req) then [KEEP_ALIVE] else ["close"])
      + (if Routed() then [] else Closing(Handled().1))
    }

    /** When the response was sent, its first `Connection` value decides. */
    predicate Kept() {
      Connection() != [] && Connection()[0] == KEEP_ALIVE
    }
  }

  /** A connection is kept exactly when a whole request asks for it, whatever the response is. */
  lemma KeptIff(o: Outcome)
    ensures o.Kept() <==> o.code == STATUS_PRIVATE_DONE && AsksToStay(o.conn.req)
  {
    hide AsksToStay, FormParsed;
    assert "close"[0] == 'c' && KEEP_ALIVE[0] == 'k';
  }

  // -------------------------------------------------------------------------
  // One read, and a session of reads
  // -------------------------------------------------------------------------

  datatype Link = Open(conn: Conn) | Closed

  /** What a connection that is kept goes on with: request and bytes are forgotten. */
  function Answered(c: Conn): Conn {
    c.(rbuf := "", wbuf := "", req := NO_REQUEST)
  }

  /** A pending call waits for the next read; after any other the response is sent, which keeps or closes. */
  function Settled(c: Conn, code: int): (Link, seq<Outcome>) {
    var o := Outcome(code, c);
    if code == STATUS_PRIVATE_PENDING then (Open(c), [])
    else (if o.Kept() then Open(Answered(c)) else Closed, [o])
  }

  /** One parser call per read, as long as the connection is open. */
  function Session(l: Link, chunks: seq<string>): (Link, seq<Outcome>)
    decreases |chunks|
  {
    if l.Closed? || chunks == [] then (l, []) else
      var (d, code) := Datagram(Fed(l.conn, chunks[0]));
      var (m, first) := Settled(d, code);
      var (n, later) := Session(m, chunks[1..]);
      (n, first + later)
  }

  /** A session can be cut anywhere. */
  lemma {:induction false} SessionConcat(l: Link, a: seq<string>, b: seq<string>)
    ensures var (m, first) := Session(l, a);
      var (n, later) := Session(m, b);
      Session(l, a + b) == (n, first + later)
    decreases |a|
  {
    hide Datagram, Settled;
    if l.Closed? || a == [] {
      assert a == [] ==> a + b == b;
      assert [] + Session(l, b).1 == Session(l, b).1;
    } else {
      assert (a + b)[1..] == a[1..] + b && (a + b)[0] == a[0];
      var (d, code) := Datagram(Fed(l.conn, a[0]));
      var (m, first) := Settled(d, code);
      SessionConcat(m, a[1..], b);
      Associative(first, Session(m, a[1..]).1, Session(Session(m, a[1..]).0, b).1);
    }
  }

  /** Reads of which all but the last leave the call pending have one outcome, that of the last. */
  lemma {:induction false} WaitingSession(c: Conn, chunks: seq<string>)
    requires chunks != [] && Waits(c, chunks)
    ensures var (d, code) := Deliver(c, chunks);
      Session(Open(c), chunks) == Settled(d, code)
    decreases |chunks|
  {
    hide Datagram, Outcome.Kept;
    var (d, code) := Datagram(Fed(c, chunks[0]));
    if |chunks| == 1 {
      assert Session(Settled(d, code).0, []) == (Settled(d, code).0, []);
      assert Settled(d, code).1 + [] == Settled(d, code).1;
    } else {
      WaitingSession(d, chunks[1..]);
      assert [] + Session(Open(d), chunks[1..]).1 == Session(Open(d), chunks[1..]).1;
    }
  }

  // -------------------------------------------------------------------------
  // Request after request
  // -------------------------------------------------------------------------

  datatype Message = Message(blanks: string, httpMethod: Method, url: string, version: string,
                             fields: seq<Field>, body: string)
  {
    function Text(): string {
      blanks + Rendered(httpMethod, url, version, fields, body)
    }

    /** The request that a handler is to find, parsed on a connection that has none. */
    function Parts(): Request {
      Expected(NO_REQUEST, httpMethod, url, version, fields)
    }

    predicate Ok() {
      TrimLeft(blanks) == "" && LineOk(url, version) && FieldsOk(fields) && BodyOk(Parts(), body)
    }

    /** The values of a header field, in order. */
    function Values(key: string): seq<string> {
      ValuesOf(HeaderPairs(fields), key)
    }

    /** The first `Connection` field asks for the connection to be kept. */
    predicate Stays() {
      Values(CONNECTION) != [] && CStr(Values(CONNECTION)[0]) == KEEP_ALIVE
    }
  }

  /** The reads a message arrives in. */
  predicate PiecesOf(chunks: seq<string>, m: Message) {
    chunks != [] && (forall k :: 0 <= k < |chunks| ==> chunks[k] != "") && Flat(chunks) == m.Text()
  }

  function Reads(pieces: seq<seq<string>>): seq<string>
    decreases |pieces|
  {
    if pieces == [] then [] else pieces[0] + Reads(pieces[1..])
  }

  /** Done, with the parts of the message, and its body in the buffer. */
  function Served(c: Conn, m: Message): Outcome {
    Outcome(STATUS_PRIVATE_DONE, c.(rbuf := m.body, req := m.Parts()))
  }

  /** One outcome for every message, in order. */
  function AllServed(c: Conn, messages: seq<Message>): (r: seq<Outcome>)
    ensures |r| == |messages|
    ensures forall k :: 0 <= k < |messages| ==> r[k] == Served(c, messages[k])
  {
    seq(|messages|, k requires 0 <= k < |messages| => Served(c, messages[k]))
  }

  /** A new connection, whose request has the URL `/`, or one that has answered all requests. */
  predicate Idle(c: Conn) {
    c.state.RequestLine? && c.rbuf == "" && c.wbuf == "" && c.req.(url := "") == NO_REQUEST
  }

  /** The first value of a field is found under its lower-case key. */
  lemma FirstValue(m: Message, key: string)
    ensures First(m.Parts().header, key) == if m.Values(key) == [] then "" else m.Values(key)[0]
  {
    hide Expected;
    ParsedFields(NO_REQUEST, m.httpMethod, m.url, m.version, m.fields, key);
  }

  lemma ServedFirst(c: Conn, messages: seq<Message>)
    requires Idle(c) && messages != []
    ensures AllServed(c, messages) == [Served(c, messages[0])] + AllServed(Answered(c), messages[1..])
  {
    hide Message.Parts;
    assert forall m :: Served(Answered(c), m) == Served(c, m);
    hide Served;
  }

  lemma StaysIff(c: Conn, m: Message)
    ensures Served(c, m).Kept() <==> m.Stays()
  {
    hide Message.Parts, Message.Values, First, CStr;
    KeptIff(Served(c, m));
    FirstValue(m, CONNECTION);
    CStrWhole("");
  }

  lemma OneServed(c: Conn, m: Message, chunks: seq<string>)
    requires Idle(c) && m.Ok() && PiecesOf(chunks, m)
    ensures Session(Open(c), chunks) == (if m.Stays() then Open(Answered(c)) else Closed, [Served(c, m)])
  {
    FirstURLForgotten(c, m);
    RequestInAnyPieces(c, chunks, m.blanks, m.httpMethod, m.url, m.version, m.fields, m.body);
    hide Rendered, Expected, LineOk, FieldsOk, BodyOk, Waits, Deliver, Session, Outcome.Kept, Message.Stays;
    WaitingSession(c, chunks);
    StaysIff(c, m);
  }

  lemma FirstURLForgotten(c: Conn, m: Message)
    requires Idle(c)
    ensures Expected(c.req, m.httpMethod, m.url, m.version, m.fields) == m.Parts()
  {
    hide Parsed, ParseHTTPVersion, Filled;
    var r, n := c.req, NO_REQUEST;
    assert r.query == n.query && r.header == n.header && r.cookies == n.cookies;
    var query := Parsed(n.query, m.url, false);
    var version := ParseHTTPVersion(m.version);
    assert r.(httpMethod := m.httpMethod, url := m.url, query := query, version := version)
        == n.(httpMethod := m.httpMethod, url := m.url, query := query, version := version);
  }

  /** How many messages are read: all up to and including the first that does not ask to stay. */
  function Reached(messages: seq<Message>): (n: nat)
    ensures n <= |messages|
    decreases |messages|
  {
    if messages == [] then 0 else if !messages[0].Stays() then 1 else 1 + Reached(messages[1..])
  }

  /** All messages that are read but the last ask to stay, and so does the last if it is not the end. */
  lemma {:induction false} ReachedMeans(messages: seq<Message>)
    ensures forall k :: 0 <= k < Reached(messages) - 1 ==> messages[k].Stays()
    ensures Reached(messages) < |messages| ==>
      Reached(messages) > 0 && !messages[Reached(messages) - 1].Stays()
    decreases |messages|
  {
    hide Message.Stays;
    if messages != [] {
      ReachedMeans(messages[1..]);
      assert forall k :: 0 < k < |messages| ==> messages[k] == messages[1..][k - 1];
    }
  }

  predicate AllStay(messages: seq<Message>) {
    forall k :: 0 <= k < |messages| ==> messages[k].Stays()
  }

  /**
   * Requests one after the other, each in any non-empty pieces, as long as no read holds bytes of
   * two of them: every one up to and including the first that does not ask for the connection to
   * be kept is handled exactly once, in order, with exactly its own parts, so nothing of a request
   * reaches a later one. The others are never read. The connection is open and idle at the end if
   * and only if all ask for it.
   */
  lemma {:induction false} RequestAfterRequest(c: Conn, messages: seq<Message>, pieces: seq<seq<string>>)
    requires Idle(c) && |messages| == |pieces|
    requires forall k :: 0 <= k < |messages| ==> messages[k].Ok() && PiecesOf(pieces[k], messages[k])
    ensures Session(Open(c), Reads(pieces)).1 == AllServed(c, messages[..Reached(messages)])
    ensures Session(Open(c), Reads(pieces)).0 ==
      if messages == [] then Open(c) else if AllStay(messages) then Open(Answered(c)) else Closed
    decreases |messages|
  {
    hide Message.Ok, Message.Stays, Served, PiecesOf, Idle;
    if messages != [] {
      var m, rest := messages[0], messages[1..];
      OneServed(c, m, pieces[0]);
      SessionConcat(Open(c), pieces[0], Reads(pieces[1..]));
      StayFirst(messages);
      if m.Stays() {
        var d := Answered(c);
        assert Idle(d) by { AnsweredIdle(c); }
        RequestAfterRequest(d, rest, pieces[1..]);
        hide Session;
        var n := Reached(rest);
        assert messages[..n + 1][1..] == rest[..n];
        ServedFirst(c, messages[..n + 1]);
      } else {
        assert messages[..1] == [m];
        assert AllServed(c, [m]) == [Served(c, m)];
        assert [Served(c, m)] + [] == [Served(c, m)];
      }
    }
  }

  lemma AnsweredIdle(c: Conn)
    requires Idle(c)
    ensures Idle(Answered(c))
  {
  }

  lemma StayFirst(messages: seq<Message>)
    requires messages != []
    ensures AllStay(messages) <==> messages[0].Stays() && AllStay(messages[1..])
  {
    hide Message.Stays;
    assert forall k :: 0 < k < |messages| ==> messages[k] == messages[1..][k - 1];
  }

  /** All are served if and only if all but the last ask to stay. */
  lemma AllServedIff(c: Conn, messages: seq<Message>, pieces: seq<seq<string>>)
    requires Idle(c) && |messages| == |pieces| && messages != []
    requires forall k :: 0 <= k < |messages| ==> messages[k].Ok() && PiecesOf(pieces[k], messages[k])
    ensures Session(Open(c), Reads(pieces)).1 == AllServed(c, messages) <==> AllStay(messages[..|messages| - 1])
  {
    hide Message.Ok, Message.Stays, Served, PiecesOf, Idle, Session;
    RequestAfterRequest(c, messages, pieces);
    ReachedMeans(messages);
    var n := Reached(messages);
    if n == |messages| {
      assert messages[..n] == messages;
    } else {
      assert messages[..|messages| - 1][n - 1] == messages[n - 1];
    }
  }

  // -------------------------------------------------------------------------
  // Plain requests do not stay
  // -------------------------------------------------------------------------

  const PLAIN := Message("", Get, "/", "HTTP/1.1", [], "")

  lemma PlainRequest()
    ensures PLAIN.Ok() && !PLAIN.Stays()
    ensures PLAIN.Text() == "GET / HTTP/1.1\r\n\r\n"
  {
    PlainParts();
    PlainLine();
    hide LineOk, Expected, Rendered, CStr;
  }

  lemma PlainLine()
    ensures LineOk("/", "HTTP/1.1")
    ensures "" + Rendered(Get, "/", "HTTP/1.1", [], "") == "GET / HTTP/1.1\r\n\r\n"
  {
    assert !Occurs("/", CRLF);
    assert RequestLineText(Get, "/", "HTTP/1.1") == "GET / HTTP/1.1";
    hide RequestLineText, Occurs;
    assert FieldsText([]) + (CRLF + "") == "\r\n";
  }

  lemma PlainParts()
    ensures PLAIN.Parts().header == map[]
  {
    hide Parsed, ParseHTTPVersion;
  }

  /** A connection of two HTTP/1.1 requests without header fields: only the first one is handled. */
  lemma SecondPlainRequestIsLost(c: Conn)
    requires Idle(c)
    ensures Session(Open(c), [PLAIN.Text(), PLAIN.Text()]) == (Closed, [Served(c, PLAIN)])
  {
    PlainRequest();
    var text := PLAIN.Text();
    assert Flat([text]) == text + Flat([]) == text;
    assert PiecesOf([text], PLAIN);
    hide Served, PiecesOf, Session, Message.Ok, Message.Stays, Message.Text, Idle;
    OneServed(c, PLAIN, [text]);
    SessionConcat(Open(c), [text], [text]);
    assert [text] + [text] == [text, text];
    ClosedForGood([text]);
    assert [Served(c, PLAIN)] + [] == [Served(c, PLAIN)];
  }

  lemma ClosedForGood(chunks: seq<string>)
    ensures Session(Closed, chunks) == (Closed, [])
  {
  }

  /** The option is compared with regard to case: `Keep-Alive` does not keep the connection. */
  lemma OptionIsCaseSensitive(m: Message, key: string, space: string, value: string)
    requires m.fields == [Header(key, space, value)] && Lower(key) == CONNECTION
    ensures m.Stays() <==> CStr(value) == KEEP_ALIVE
    ensures value == "Keep-Alive" ==> !m.Stays()
  {
    hide Lower;
    assert m.fields[1..] == [];
    assert HeaderPairs(m.fields) == [(CONNECTION, value)] + [];
    assert ValuesOf([(CONNECTION, value)], CONNECTION) == [value] + [];
    assert value == "Keep-Alive" ==> Find(value, '\0') == |value| && value[..|value|][0] == 'K';
  }

  // -------------------------------------------------------------------------
  // Forms
  // -------------------------------------------------------------------------

  /** Exactly the requests that are routed: those of methods without a form, and forms that are not too large. */
  lemma RoutedIff(c: Conn, m: Message)
    ensures Served(c, m).Routed() <==>
      || MethodName(m.httpMethod) !in {"POST", "PUT", "PATCH"}
      || (m.Values("content-type") != [] && m.Values("content-type")[0] == "application/x-www-form-urlencoded"
          && |m.body| <= 2147483647)
  {
    FirstValue(m, "content-type");
    FormMethods(m.httpMethod);
    hide HeaderPairs, First, Parsed, MethodName;
  }

  lemma FormMethods(m: Method)
    ensures CarriesForm(m) <==> MethodName(m) in {"POST", "PUT", "PATCH"}
  {
    assert MethodName(m)[0] == 'P' || !CarriesForm(m);
  }

  /** The status of every request, and the `Connection` values of its response. */
  lemma AnswersExact(c: Conn, m: Message)
    ensures var (o, types, options) := (Served(c, m), m.Values("content-type"), m.Values("connection"));
      && o.Handled().1 ==
           (if MethodName(m.httpMethod) !in {"POST", "PUT", "PATCH"} then 600
            else if types != [] && types[0] == "application/x-www-form-urlencoded" then
              if |m.body| <= 2147483647 then 600 else 413
            else if types != [] && types[0] == "multipart/form-data" then 501
            else 500)
      && o.Connection() ==
           [if options != [] && CStr(options[0]) == "keep-alive" then "keep-alive" else "close"]
           + (if o.Handled().1 == 413 || o.Handled().1 == 500 then ["close"] else [])
  {
    FirstValue(m, "content-type");
    FirstValue(m, "connection");
    FormMethods(m.httpMethod);
    CStrWhole("");
    hide HeaderPairs, First, Parsed, MethodName, CStr;
  }

  /** An invalid request is answered with status 400, and the connection is announced to be closed. */
  lemma InvalidAnswer(c: Conn)
    ensures Outcome(604, c).Handled() == (c, 400) && Outcome(604, c).Connection() == ["close"]
  {
  }

  /**
   * A form that is sent as the body of a request reaches the route with exactly its pairs, in
   * order within each key, and with the body taken out of the buffer.
   */
  lemma FormReachesRoute(c: Conn, m: Message, pairs: seq<(seq<Byte>, seq<Byte>)>)
    requires MethodName(m.httpMethod) in {"POST", "PUT", "PATCH"} && m.body == Form(pairs) && |m.body| <= 2147483647
    requires m.Values("content-type") != [] && m.Values("content-type")[0] == "application/x-www-form-urlencoded"
    ensures Served(c, m).Handled() ==
      (c.(rbuf := "", req := m.Parts().(form := AddedAll(map[], Texts(pairs)))), STATUS_PRIVATE_DONE)
  {
    FirstValue(m, CONTENT_TYPE);
    FormMethods(m.httpMethod);
    ParseInvertsForm(map[], "", pairs, "");
    assert m.Parts().httpMethod == m.httpMethod && m.Parts().form == map[];
    hide Message.Parts, Message.Values, First, Parsed, Form, Texts;
  }

  /**
   * A request of such a method without a content type is answered with status 500 and never
   * routed. If it asks to stay, the response says both, and the connection is kept.
   */
  lemma UntypedFormIsAnError(c: Conn, m: Message)
    requires MethodName(m.httpMethod) in {"POST", "PUT", "PATCH"} && m.Values("content-type") == []
    ensures Served(c, m).Handled() == (Served(c, m).conn, 500)
    ensures m.Stays() ==> Served(c, m).Connection() == ["keep-alive", "close"] && Served(c, m).Kept()
  {
    FirstValue(m, CONTENT_TYPE);
    FirstValue(m, CONNECTION);
    FormMethods(m.httpMethod);
    assert m.Parts().httpMethod == m.httpMethod;
    hide Message.Parts, Message.Values, First, CStr;
  }

  // -------------------------------------------------------------------------
  // Any session
  // -------------------------------------------------------------------------

  /** An outcome is Done with the announced body in the buffer, or Invalid with empty buffers. */
  predicate OutcomeOk(o: Outcome) {
    if o.code == STATUS_PRIVATE_DONE then
      && o.conn.state.RequestLine?
      && (HasContentLength(o.conn.req) && UInt64(ContentLength(o.conn.req)).Some? ==>
            |o.conn.rbuf| >= UInt64(ContentLength(o.conn.req)).value)
    else o.code == STATUS_PRIVATE_INVALID && o.conn.state.Invalid? && o.conn.rbuf == "" && o.conn.wbuf == ""
  }

  /** An invalid connection is answered once, with status 400, and closed. */
  lemma InvalidSession(c: Conn, chunks: seq<string>)
    requires c.state.Invalid? && chunks != []
    ensures Session(Open(c), chunks) == (Closed, [Outcome(STATUS_PRIVATE_INVALID, c.(rbuf := "", wbuf := ""))])
    ensures Session(Open(c), chunks).1[0].Handled().1 == STATUS_BAD_REQUEST
  {
    var o := Outcome(STATUS_PRIVATE_INVALID, c.(rbuf := "", wbuf := ""));
    assert Datagram(Fed(c, chunks[0])) == (o.conn, o.code);
    KeptIff(o);
    hide Outcome.Kept, Datagram;
    ClosedForGood(chunks[1..]);
    assert [o] + [] == [o];
  }

  /**
   * Whatever arrives: all outcomes are sound, all but the last one kept the connection, and it is
   * closed if and only if the last one did not. So an Invalid outcome is the last one, and no read
   * meets a connection that an earlier read left invalid.
   */
  lemma {:induction false} SessionSafe(c: Conn, chunks: seq<string>)
    requires !c.state.Done?
    ensures var (l, os) := Session(Open(c), chunks);
      && (l.Open? ==> !l.conn.state.Done? && (l.conn.state.Invalid? ==> c.state.Invalid?))
      && (forall o <- os :: OutcomeOk(o))
      && (forall k :: 0 <= k < |os| - 1 ==> os[k].Kept() && os[k].code == STATUS_PRIVATE_DONE)
      && (l.Closed? <==> os != [] && !os[|os| - 1].Kept())
    decreases |chunks|
  {
    hide Datagram, OutcomeOk, Outcome.Kept;
    if chunks != [] {
      var f := Fed(c, chunks[0]);
      var (d, code) := Datagram(f);
      ReadSafe(f);
      KeptIff(Outcome(code, d));
      var m := Settled(d, code).0;
      if m.Open? {
        SessionSafe(m.conn, chunks[1..]);
      } else {
        ClosedForGood(chunks[1..]);
      }
    }
  }

  lemma ReadSafe(f: Conn)
    requires !f.state.Done?
    ensures var (d, code) := Datagram(f);
      && !d.state.Done?
      && (code == STATUS_PRIVATE_INVALID <==> d.state.Invalid?)
      && (code != STATUS_PRIVATE_PENDING ==> OutcomeOk(Outcome(code, d)))
  {
    hide Datagram, HasContentLength, ContentLength, UInt64;
    DatagramSafe(f);
    if Datagram(f).1 == STATUS_PRIVATE_DONE {
      DoneHasBody(f);
    }
  }
}
