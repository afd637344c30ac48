/** The server's part in a connection: what it does at a read, and when the response is sent. */
module HttpServers {
  import opened Strings
  import opened Multimaps
  import opened Buffers
  import opened Urls
  import opened HttpHeaders
  import opened HttpParser
  import opened ParserTheorems
  import opened HttpConns
  import opened HttpSessions

  const NEW_RESPONSE: Multimap := map["server" := ["AhriMQ/1.0"]]

  /** Fills the form of the current request from its body. */
  method ParseForm(conn: HTTPConn) returns (status: int)
    requires conn.Valid()
    modifies conn.readBuf`reader, conn.request.form
    ensures conn.Valid() && (conn.View(), status) == FormParsed(old(conn.View()))
  {
    hide Parsed;
    TypeKey();
    var contentType := conn.request.header.Get("Content-Type");
    if contentType == FORM_TYPE {
      if conn.readBuf.Size() > MAX_BODY_BYTES {
        return STATUS_CONTENT_TOO_LARGE;
      }
      var content := conn.readBuf.ReadAll();
      conn.request.form.ParseString(content, true);
      return STATUS_PRIVATE_DONE;
    } else if contentType == MULTIPART_TYPE {
      return STATUS_NOT_IMPLEMENTED;
    }
    return STATUS_INTERNAL_SERVER_ERROR;
  }

  lemma TypeKey()
    ensures Lower("Content-Type") == CONTENT_TYPE
  {
  }

  lemma ConnectionKey()
    ensures Lower("Connection") == CONNECTION
  {
  }

  lemma NewResponse()
    ensures Lower("Server") == "server" && Added(map[], Lower("Server"), "AhriMQ/1.0") == NEW_RESPONSE
  {
    var key, value := Lower("Server"), "AhriMQ/1.0";
    assert key == "server" && [] + [value] == [value];
  }

  /** A connection of the server: the parsed requests, the header of the current response, and whether it is open. */
  class HTTPStream {
    const conn: HTTPConn
    const response: HTTPHeader
    var open: bool

    ghost predicate Valid()
      reads this, conn, conn.readBuf, conn.writeBuf, response
    {
      && conn.Valid() && response != conn.request.header
      && (open ==> response.members == NEW_RESPONSE)
    }

    ghost function View(): Link
      requires Valid()
      reads this, response, conn, conn.readBuf, conn.readBuf.data, conn.writeBuf, conn.writeBuf.data
      reads conn.request, conn.request.header, conn.request.url, conn.request.url.query, conn.request.form
    {
      if open then Open(conn.View()) else Closed
    }

    /** A connection that was just accepted. */
    constructor ()
      ensures Valid() && open && Idle(View().conn) && response.Values("Server") == ["AhriMQ/1.0"]
    {
      conn := new HTTPConn();
      response := new HTTPHeader();
      open := true;
      new;
      NewResponse();
      response.Add("Server", "AhriMQ/1.0");
    }

    /** A form is read, unless the method has none; callbacks of routes are not part of this model. */
    method DoRequest() returns (status: int)
      requires conn.Valid() && response != conn.request.header
      modifies conn.readBuf`reader, conn.request.form, response
      ensures conn.Valid()
      ensures var o := Outcome(STATUS_PRIVATE_DONE, old(conn.View()));
        && (conn.View(), status) == o.Handled()
        && response.Values("Connection") == old(response.Values("Connection")) + o.Connection()
    {
      hide *;
      ghost var o := Outcome(STATUS_PRIVATE_DONE, conn.View());
      HandledStatus(o);
      ConnectionOf(o, response.Values("Connection"));
      Stay();
      status := TakeForm();
      if status != STATUS_PRIVATE_DONE {
        DoRequestError(status);
      }
    }

    /** Fills the form, if the method has one. */
    method TakeForm() returns (status: int)
      requires conn.Valid()
      modifies conn.readBuf`reader, conn.request.form
      ensures conn.Valid() && (conn.View(), status) == Outcome(STATUS_PRIVATE_DONE, old(conn.View())).Handled()
    {
      hide FormParsed;
      status := STATUS_PRIVATE_DONE;
      var m := conn.request.httpMethod;
      if m == Post || m == Put || m == Patch {
        status := ParseForm(conn);
      }
    }

    /** Announces whether the connection will be kept, as the request asks. */
    method Stay()
      requires conn.Valid() && response != conn.request.header
      modifies response
      ensures response.Values("Connection") ==
        old(response.Values("Connection")) + [if AsksToStay(conn.View().req) then KEEP_ALIVE else "close"]
    {
      ConnectionKey();
      NoZero();
      if !conn.request.header.Equals("Connection", KEEP_ALIVE) {
        response.Add("Connection", "close");
      } else {
        response.Add("Connection", KEEP_ALIVE);
      }
    }

    /** The error statuses of a form are sent as they are. */
    lemma HandledStatus(o: Outcome)
      ensures o.Handled().1 == STATUS_PRIVATE_DONE || 400 <= o.Handled().1 < 600
    {
      hide Parsed, First;
    }

    /** The option that answers the request, and what an error response adds. */
    lemma ConnectionOf(o: Outcome, before: seq<string>)
      requires o.code == STATUS_PRIVATE_DONE
      ensures var (first, status) := ([if AsksToStay(o.conn.req) then KEEP_ALIVE else "close"], o.Handled().1);
        before + o.Connection() ==
          if status == STATUS_PRIVATE_DONE then before + first else before + first + Closing(status)
    {
      hide AsksToStay, Outcome.Handled, Closing;
    }

    lemma NoZero()
      ensures CStr(KEEP_ALIVE) == KEEP_ALIVE && CStr("") == ""
    {
      hide CStr, Find;
      CStrWhole(KEEP_ALIVE);
      CStrWhole("");
    }

    /** An error response; a code that is no HTTP status is sent as an internal error. */
    method DoRequestError(code: int)
      modifies response
      ensures response.Values("Connection") ==
        old(response.Values("Connection")) + Closing(if 400 <= code < 600 then code else 500)
      ensures var announced := response.Values("Connection") != old(response.Values("Connection"));
        announced <==> code in {400, 405, 408, 413, 500, 505} || code < 400 || 600 <= code
    {
      var status := if code / 100 == 4 || code / 100 == 5 then code else STATUS_INTERNAL_SERVER_ERROR;
      if ClosesConnection(status) {
        response.Add("Connection", "close");
      } else {
        assert response.Values("Connection") + [] == response.Values("Connection");
      }
    }

    /** The response was sent: closes the connection, or forgets request and response. */
    method OnStreamWritten()
      requires conn.Valid() && response != conn.request.header
      modifies this`open, response, conn.readBuf`reader, conn.readBuf`writer
      modifies conn.request, conn.request.header, conn.request.url, conn.request.url.query, conn.request.form
      ensures Valid()
      ensures var vs := old(response.Values("Connection")); open == (vs != [] && vs[0] == KEEP_ALIVE)
      ensures conn.View() == if open then old(conn.View()).(rbuf := "", req := NO_REQUEST) else old(conn.View())
    {
      ConnectionKey();
      if !response.Has("Connection") || response.Get("Connection") != KEEP_ALIVE {
        open := false;
      } else {
        open := true;
        conn.ResetRequest();
        response.Clear();
        NewResponse();
        response.Add("Server", "AhriMQ/1.0");
      }
    }

    /**
     * One read: unless the parser waits for more, the request is handled, the response is sent off,
     * and the connection is closed or made ready for the next request.
     */
    method OnStreamReached(chunk: string) returns (ghost outcomes: seq<Outcome>)
      requires Valid() && open
      modifies this`open, response, conn`state
      modifies conn.readBuf, conn.readBuf.data, conn.writeBuf`reader, conn.writeBuf`writer
      modifies conn.request, conn.request.header, conn.request.url, conn.request.url.query, conn.request.form
      ensures Valid() && (conn.readBuf.data == old(conn.readBuf.data) || fresh(conn.readBuf.data))
      ensures var (d, code) := Datagram(Fed(old(conn.View()), chunk)); (View(), outcomes) == Settled(d, code)
    {
      hide Datagram, FormParsed, AsksToStay, Buffer.Contents, HTTPRequest.View;
      ConnectionKey();
      DatagramSafe(Fed(conn.View(), chunk));
      var code := Receive(conn, chunk);
      outcomes := Settled(conn.View(), code).1;
      if code == STATUS_PRIVATE_PENDING {
        return;
      }
      ghost var o := Outcome(code, conn.View());
      assert response.Values("Connection") == [];
      if code == STATUS_PRIVATE_DONE {
        var status := DoRequest();
      } else {
        DoRequestError(STATUS_BAD_REQUEST);
      }
      assert response.Values("Connection") == o.Connection();
      conn.ResetRequest();
      conn.writeBuf.Reset();
      OnStreamWritten();
    }

    /** A session of reads, which ends when the connection is closed. */
    method ServeAll(chunks: seq<string>) returns (ghost outcomes: seq<Outcome>)
      requires Valid()
      modifies this`open, response, conn`state
      modifies conn.readBuf, conn.readBuf.data, conn.writeBuf`reader, conn.writeBuf`writer
      modifies conn.request, conn.request.header, conn.request.url, conn.request.url.query, conn.request.form
      ensures Valid() && (conn.readBuf.data == old(conn.readBuf.data) || fresh(conn.readBuf.data))
      ensures (View(), outcomes) == Session(old(View()), chunks)
      decreases |chunks|
    {
      hide Datagram, Settled;
      outcomes := [];
      if open && chunks != [] {
        var first := OnStreamReached(chunks[0]);
        var later := ServeAll(chunks[1..]);
        outcomes := first + later;
      }
    }
  }
}
