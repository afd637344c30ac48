/** What holds of every call of the parser, and of every way the bytes of a request arrive. */
module ParserTheorems {
  import opened Strings
  import opened Numbers
  import opened Urls
  import opened HttpParser

  // -------------------------------------------------------------------------
  // Run safety
  // -------------------------------------------------------------------------

  /** What is left in the buffer of a call that returns Pending. */
  predicate Residue(c: Conn) {
    match c.state
    case RequestLine => !Occurs(c.rbuf, CRLF)
    case RequestHeader => !Occurs(c.rbuf, CRLF)
    case RequestEmptyLine => |c.rbuf| < 2
    case RequestBody => HasContentLength(c.req) && UInt64(ContentLength(c.req)).Some?
                        && |c.rbuf| < UInt64(ContentLength(c.req)).value
    case _ => false
  }

  lemma TrimmedLineNotEmpty(b: string)
    requires Occurs(TrimLeft(b), CRLF)
    ensures BeforeFirst(TrimLeft(b), CRLF) != ""
  {
    FindSubIsFirst(TrimLeft(b), CRLF);
    TrimmedStart(b);
  }

  lemma {:induction false} FieldLinesResidue(buf: string, req: Request)
    ensures FieldLines(buf, req).0.NoLine? ==> !Occurs(FieldLines(buf, req).1, CRLF)
    decreases |buf|
  {
    hide Occurs, BeforeFirst, AfterFirst, FieldAdded;
    if Occurs(buf, CRLF) {
      var line := BeforeFirst(buf, CRLF);
      if ':' in line {
        FieldLinesResidue(AfterFirst(buf, CRLF), FieldAdded(req, line));
      }
    }
  }

  lemma PendingResidue(c: Conn)
    requires Turn(c).1 == STATUS_PRIVATE_PENDING
    ensures Residue(Turn(c).0)
  {
    hide Split, Occurs, MethodOf, Parsed, UInt64, TrimLeft, FieldLines;
    if c.state.RequestLine? && Occurs(TrimLeft(c.rbuf), CRLF) {
      TrimmedLineNotEmpty(c.rbuf);
    }
    FieldLinesResidue(c.rbuf, c.req);
  }

  /**
   * Every call makes at most five turns, returns Done, Pending or Invalid only, and never rests
   * in the state Done. On Pending, the buffer holds too little for the state it rests in.
   */
  lemma {:induction false} DatagramSafe(c: Conn)
    ensures 1 <= Turns(c) <= Rank(c.state) + 1 <= 5
    ensures var (d, code) := Datagram(c);
      && code in {600, 602, 604}
      && !d.state.Done?
      && (code == 602 ==> Residue(d))
      && (code == 604 <==> d.state.Invalid?)
      && (code == 604 ==> d.rbuf == "" && d.wbuf == "")
      && (code == 600 ==> d.state.RequestLine?)
    decreases Rank(c.state)
  {
    TurnDescends(c);
    if LastTurn(c) {
      if Turn(c).1 == STATUS_PRIVATE_PENDING {
        PendingResidue(c);
      }
    } else {
      DatagramSafe(Turn(c).0);
    }
  }

  // -------------------------------------------------------------------------
  // How the bytes are cut into reads does not matter
  // -------------------------------------------------------------------------

  /** More bytes arrive. */
  function Fed(c: Conn, chunk: string): Conn {
    c.(rbuf := c.rbuf + chunk)
  }

  lemma LineExtends(b: string, more: string)
    requires Occurs(b, CRLF)
    ensures Occurs(b + more, CRLF)
    ensures BeforeFirst(b + more, CRLF) == BeforeFirst(b, CRLF)
    ensures AfterFirst(b + more, CRLF) == AfterFirst(b, CRLF) + more
  {
    FindSubExtend(b, more, CRLF);
  }

  /** Reading field lines goes on where it stopped, and what it took off does not depend on later bytes. */
  lemma {:induction false} FieldLinesExtend(buf: string, req: Request, more: string)
    ensures var (stop, rest, r) := FieldLines(buf, req);
      FieldLines(buf + more, req) == if stop.NoLine? then FieldLines(rest + more, r) else (stop, rest + more, r)
    decreases |buf|
  {
    hide Occurs, BeforeFirst, AfterFirst, FieldAdded;
    if Occurs(buf, CRLF) {
      LineExtends(buf, more);
      var line := BeforeFirst(buf, CRLF);
      if line != "" && ':' in line {
        FieldLinesExtend(AfterFirst(buf, CRLF), FieldAdded(req, line), more);
      }
    }
  }

  /** A turn that completes leaves later bytes alone. */
  lemma TurnExtends(c: Conn, more: string)
    requires !LastTurn(c)
    ensures Turn(Fed(c, more)) == (Fed(Turn(c).0, more), Turn(c).1)
  {
    match c.state
    case RequestLine => RequestLineExtends(c, more);
    case RequestHeader =>
      hide FieldLines;
      FieldLinesExtend(c.rbuf, c.req, more);
    case RequestEmptyLine =>
      assert (c.rbuf + more)[..2] == c.rbuf[..2];
      assert (c.rbuf + more)[2..] == c.rbuf[2..] + more;
    case RequestBody =>
  }

  lemma RequestLineExtends(c: Conn, more: string)
    requires c.state.RequestLine? && Turn(c).1 != STATUS_PRIVATE_PENDING
    ensures Turn(Fed(c, more)) == (Fed(Turn(c).0, more), Turn(c).1)
  {
    hide TrimLeft, Occurs, BeforeFirst, AfterFirst, Split, MethodOf, Parsed, ParseHTTPVersion;
    var b := TrimLeft(c.rbuf);
    TrimLeftExtend(c.rbuf, more);
    NothingOccursInEmpty();
    LineExtends(b, more);
  }

  lemma TrimFirst(a: string, b: string)
    ensures TrimLeft(TrimLeft(a) + b) == TrimLeft(a + b)
  {
    TrimLeftExtend(a, b);
    TrimLeftExtend(TrimLeft(a), b);
    TrimmedStart(a);
    assert "" + b == b;
  }

  lemma NothingOccursInEmpty()
    ensures !Occurs("", CRLF)
  {
  }

  /** A turn that waits for more bytes goes on as if it had not been taken. */
  lemma TurnResumes(c: Conn, more: string)
    requires Turn(c).1 == STATUS_PRIVATE_PENDING
    ensures Turn(Fed(c, more)) == Turn(Fed(Turn(c).0, more))
  {
    match c.state
    case RequestLine => RequestLineResumes(c, more);
    case RequestHeader =>
      hide FieldLines;
      FieldLinesExtend(c.rbuf, c.req, more);
    case RequestEmptyLine =>
    case RequestBody =>
  }

  lemma RequestLineResumes(c: Conn, more: string)
    requires c.state.RequestLine? && Turn(c).1 == STATUS_PRIVATE_PENDING
    ensures Turn(Fed(c, more)) == Turn(Fed(Turn(c).0, more))
  {
    hide Occurs, BeforeFirst, AfterFirst, ParsedRequestLine, TrimLeft;
    if Occurs(TrimLeft(c.rbuf), CRLF) {
      TrimmedLineNotEmpty(c.rbuf);
    }
    TrimFirst(c.rbuf, more);
  }

  /** A call that returned Pending can be repeated with more bytes, as if it had been one call. */
  lemma {:induction false} DatagramResumes(c: Conn, more: string)
    requires Datagram(c).1 == STATUS_PRIVATE_PENDING
    ensures Datagram(Fed(c, more)) == Datagram(Fed(Datagram(c).0, more))
    decreases Rank(c.state)
  {
    hide Turn;
    TurnDescends(c);
    if LastTurn(c) {
      LastTurnState(c);
      TurnResumes(c, more);
      SameTurnSameCall(Fed(c, more), Fed(Turn(c).0, more));
    } else {
      TurnExtends(c, more);
      LastTurnState(Fed(c, more));
      DatagramResumes(Turn(c).0, more);
    }
  }

  lemma LastTurnState(c: Conn)
    ensures c.state.Invalid? ==> Turn(c).1 == STATUS_PRIVATE_INVALID
    ensures c.state.Done? ==> Turn(c).1 == STATUS_PRIVATE_DONE
  {
  }

  lemma SameTurnSameCall(c: Conn, d: Conn)
    requires c.state == d.state && Turn(c) == Turn(d)
    ensures Datagram(c) == Datagram(d)
  {
    hide Turn;
  }

  /** One call per chunk; the result is that of the last one. */
  function Deliver(c: Conn, chunks: seq<string>): (Conn, int)
    requires chunks != []
    decreases |chunks|
  {
    var r := Datagram(Fed(c, chunks[0]));
    if |chunks| == 1 then r else Deliver(r.0, chunks[1..])
  }

  /** Every call before the last returns Pending. */
  predicate Waits(c: Conn, chunks: seq<string>)
    requires chunks != []
    decreases |chunks|
  {
    |chunks| == 1 ||
    (Datagram(Fed(c, chunks[0])).1 == STATUS_PRIVATE_PENDING && Waits(Datagram(Fed(c, chunks[0])).0, chunks[1..]))
  }

  /**
   * Chunking invariance: however the bytes are cut, if every call before the last returns
   * Pending, the last one returns the code and leaves the state, buffers, method, URL, version,
   * header fields and cookies that one call on all the bytes does.
   */
  lemma {:induction false} ChunkingDoesNotMatter(c: Conn, chunks: seq<string>)
    requires chunks != [] && Waits(c, chunks)
    ensures Deliver(c, chunks) == Datagram(Fed(c, Flat(chunks)))
    decreases |chunks|
  {
    hide Datagram;
    var rest := chunks[1..];
    if rest == [] {
      assert Flat(chunks) == chunks[0];
    } else {
      var d := Fed(c, chunks[0]);
      ChunkingDoesNotMatter(Datagram(d).0, rest);
      DatagramResumes(d, Flat(rest));
      assert c.rbuf + (chunks[0] + Flat(rest)) == (c.rbuf + chunks[0]) + Flat(rest);
    }
  }

  /** Bytes behind a request that is done stay in the buffer, and behind an invalid one are dropped. */
  lemma {:induction false} DatagramExtends(c: Conn, more: string)
    requires Datagram(c).1 != STATUS_PRIVATE_PENDING
    ensures Datagram(c).1 == STATUS_PRIVATE_DONE ==>
      Datagram(Fed(c, more)) == (Fed(Datagram(c).0, more), STATUS_PRIVATE_DONE)
    ensures Datagram(c).1 == STATUS_PRIVATE_INVALID ==> Datagram(Fed(c, more)) == Datagram(c)
    decreases Rank(c.state)
  {
    TurnDescends(c);
    if LastTurn(c) {
      hide FieldLines, Split, MethodOf, Parsed, Occurs, TrimLeft, UInt64;
    } else {
      hide Turn;
      TurnExtends(c, more);
      LastTurnState(Fed(c, more));
      DatagramExtends(Turn(c).0, more);
    }
  }

  /** Once a connection is invalid it stays so: every later call returns Invalid and clears the buffers. */
  lemma {:induction false} InvalidIsFinal(c: Conn, chunks: seq<string>)
    requires c.state.Invalid? && chunks != []
    ensures Deliver(c, chunks) == (c.(rbuf := "", wbuf := ""), STATUS_PRIVATE_INVALID)
    decreases |chunks|
  {
    if |chunks| > 1 {
      InvalidIsFinal(c.(rbuf := "", wbuf := ""), chunks[1..]);
    }
  }

  // -------------------------------------------------------------------------
  // Which request lines are accepted
  // -------------------------------------------------------------------------

  /** Three words, of which the first is a supported method and the last a supported version. */
  predicate GoodRequestLine(line: string) {
    var v := Split(line, ' ');
    |v| == 3 && MethodOf(v[0]).Some? && HTTPVersionSupported(ParseHTTPVersion(v[2]))
  }

  /** A line written with its end is read back whole. */
  lemma LineRead(line: string, rest: string)
    requires !Occurs(line, CRLF)
    ensures var s := line + (CRLF + rest);
      Occurs(s, CRLF) && BeforeFirst(s, CRLF) == line && AfterFirst(s, CRLF) == rest
  {
    FindSubAfter(line, CRLF, rest);
    assert line + CRLF + rest == line + (CRLF + rest);
  }

  lemma WholeRequestLine(c: Conn, line: string, rest: string)
    requires c.rbuf == line + (CRLF + rest) && line != "" && !IsBlank(line[0]) && !Occurs(line, CRLF)
    ensures RequestLineTurn(c) == ParsedRequestLine(c.(rbuf := rest), line)
  {
    hide Occurs, BeforeFirst, AfterFirst, TrimLeft, ParsedRequestLine;
    LineRead(line, rest);
    TrimLeftUnique(c.rbuf, 0);
    assert c.rbuf[0..] == c.rbuf && c.rbuf[0] == line[0];
  }

  /** A whole request line leads on to the header if and only if it is a good one; else the call ends in Invalid. */
  lemma RequestLineAcceptedIff(c: Conn, line: string, rest: string)
    requires c.state.RequestLine? && c.rbuf == line + (CRLF + rest)
    requires line != "" && !IsBlank(line[0]) && !Occurs(line, CRLF)
    ensures GoodRequestLine(line) <==> Turn(c).0.state == RequestHeader
    ensures GoodRequestLine(line) ==> Turn(c).0.rbuf == rest && Datagram(c) == Datagram(Turn(c).0)
    ensures !GoodRequestLine(line) ==> Datagram(c).1 == STATUS_PRIVATE_INVALID
  {
    hide Split, Occurs, TrimLeft, MethodOf, ParseHTTPVersion, Parsed, RequestLineTurn;
    WholeRequestLine(c, line, rest);
    OneTurn(c);
    OneTurn(Turn(c).0);
  }

  /**
   * What a request line leaves in the request: of a good one its three words; of one with a
   * supported method but another version the first two; of any other nothing.
   */
  lemma RequestLineStores(c: Conn, line: string, rest: string)
    requires c.state.RequestLine? && c.rbuf == line + (CRLF + rest)
    requires line != "" && !IsBlank(line[0]) && !Occurs(line, CRLF)
    ensures var v, r := Split(line, ' '), Turn(c).0.req;
      && r.header == c.req.header && r.cookies == c.req.cookies
      && (if |v| == 3 && MethodOf(v[0]).Some? then MethodName(r.httpMethod) == v[0] && r.url == v[1] else r == c.req)
      && (if !GoodRequestLine(line) then r.version == c.req.version
          else if v[2] == "HTTP/1.0" then r.version == 0x10
          else v[2] == "HTTP/1.1" && r.version == 0x11)
      && Turn(c).1 == (if |v| != 3 then 400 else if MethodOf(v[0]).None? then 501
                       else if v[2] !in {"HTTP/1.0", "HTTP/1.1"} then 505 else 601)
  {
    hide Split, Occurs, TrimLeft, MethodOf, Parsed, RequestLineTurn;
    WholeRequestLine(c, line, rest);
  }

  // -------------------------------------------------------------------------
  // Where the parser is more lenient than its comments
  // -------------------------------------------------------------------------

  /** Lines the header loop takes for fields. */
  predicate FieldLike(lines: seq<string>) {
    forall k :: 0 <= k < |lines| ==> ':' in lines[k] && !Occurs(lines[k], CRLF)
  }

  predicate Colonless(line: string) {
    line != "" && ':' !in line && !Occurs(line, CRLF)
  }

  function LinesText(lines: seq<string>): string
    decreases |lines|
  {
    if lines == [] then "" else lines[0] + (CRLF + LinesText(lines[1..]))
  }

  function LinesAdded(req: Request, lines: seq<string>): Request
    requires FieldLike(lines)
    decreases |lines|
  {
    if lines == [] then req else LinesAdded(FieldAdded(req, lines[0]), lines[1..])
  }

  /** The buffer holds field lines, then a line that is none, then `rest`. */
  predicate ColonlessAt(buf: string, lines: seq<string>, line: string, rest: string) {
    FieldLike(lines) && Colonless(line) && buf == LinesText(lines) + (line + (CRLF + rest))
  }

  lemma {:induction false} LinesTaken(buf: string, req: Request, lines: seq<string>, line: string, rest: string)
    requires ColonlessAt(buf, lines, line, rest)
    ensures FieldLines(buf, req) == (NoColon, rest, LinesAdded(req, lines))
    decreases |lines|
  {
    hide FieldAdded, Occurs, BeforeFirst, AfterFirst;
    if lines == [] {
      assert buf == line + (CRLF + rest);
      LineRead(line, rest);
    } else {
      var tail := LinesText(lines[1..]) + (line + (CRLF + rest));
      FirstLine(lines[0], LinesText(lines[1..]), line + (CRLF + rest));
      LineRead(lines[0], tail);
      LinesTaken(tail, FieldAdded(req, lines[0]), lines[1..], line, rest);
    }
  }

  lemma FirstLine(line: string, text: string, rest: string)
    ensures (line + (CRLF + text)) + rest == line + (CRLF + (text + rest))
  {
  }

  /** Whenever reading field lines stops at a line without a colon, that is why. */
  lemma {:induction false} LinesFound(buf: string, req: Request)
    returns (lines: seq<string>, line: string, rest: string)
    requires FieldLines(buf, req).0.NoColon?
    ensures ColonlessAt(buf, lines, line, rest)
    decreases |buf|
  {
    hide FieldAdded, Occurs, BeforeFirst, AfterFirst;
    CutAtFirst(buf, CRLF);
    var first, tail := BeforeFirst(buf, CRLF), AfterFirst(buf, CRLF);
    Associative(first, CRLF, tail);
    if ':' !in first {
      lines, line, rest := [], first, tail;
      assert "" + buf == buf;
    } else {
      lines, line, rest := LinesFound(tail, FieldAdded(req, first));
      FirstLine(first, LinesText(lines), line + (CRLF + rest));
      assert ([first] + lines)[1..] == lines;
      lines := [first] + lines;
    }
  }

  /**
   * What becomes of a request with a field line without a colon: the line is dropped, and the next
   * two bytes decide. An empty line there ends the header, anything else makes the request
   * invalid, and with fewer than two bytes the call waits for them.
   */
  lemma ColonlessLineIsDropped(c: Conn, lines: seq<string>, line: string, rest: string)
    requires c.state.RequestHeader? && ColonlessAt(c.rbuf, lines, line, rest)
    ensures var req := LinesAdded(c.req, lines);
      Datagram(c) ==
        if |rest| < 2 then (c.(state := RequestEmptyLine, rbuf := rest, req := req), STATUS_PRIVATE_PENDING)
        else if rest[..2] == CRLF then
          Datagram(c.(state := if HasContentLength(req) then RequestBody else Done, rbuf := rest[2..], req := req))
        else (c.(state := Invalid, rbuf := "", wbuf := "", req := req), STATUS_PRIVATE_INVALID)
  {
    LinesTaken(c.rbuf, c.req, lines, line, rest);
    hide FieldLines, ColonlessAt, HasContentLength, LinesAdded;
    OneTurn(c);
    var d := c.(state := RequestEmptyLine, rbuf := rest, req := LinesAdded(c.req, lines));
    assert Turn(c) == (d, STATUS_PRIVATE_COMPLETE);
    OneTurn(d);
    OneTurn(Turn(d).0);
  }

  lemma ColonlessOutcome(c: Conn, lines: seq<string>, line: string, rest: string)
    requires c.state.RequestHeader? && ColonlessAt(c.rbuf, lines, line, rest)
    ensures Datagram(c).1 == STATUS_PRIVATE_INVALID <==> |rest| >= 2 && rest[..2] != CRLF
  {
    hide Datagram, HasContentLength;
    ColonlessLineIsDropped(c, lines, line, rest);
    var req := LinesAdded(c.req, lines);
    if |rest| >= 2 && rest[..2] == CRLF {
      NeverInvalidFrom(c.(state := if HasContentLength(req) then RequestBody else Done, rbuf := rest[2..], req := req));
    }
  }

  /**
   * For every buffer: a call that reads header fields ends in Invalid if and only if field lines
   * are followed by a line without a colon that two bytes other than a line end stand behind.
   */
  lemma HeaderInvalidIff(c: Conn)
    requires c.state.RequestHeader?
    ensures Datagram(c).1 == STATUS_PRIVATE_INVALID <==>
      exists lines, line, rest :: ColonlessAt(c.rbuf, lines, line, rest) && |rest| >= 2 && rest[..2] != CRLF
  {
    hide ColonlessAt, Datagram, FieldLines;
    forall lines, line, rest | ColonlessAt(c.rbuf, lines, line, rest)
      ensures Datagram(c).1 == STATUS_PRIVATE_INVALID <==> |rest| >= 2 && rest[..2] != CRLF
    {
      ColonlessOutcome(c, lines, line, rest);
    }
    OneTurn(c);
    if FieldLines(c.rbuf, c.req).0.NoColon? {
      var lines, line, rest := LinesFound(c.rbuf, c.req);
    } else {
      if FieldLines(c.rbuf, c.req).0.EmptyLine? {
        NeverInvalidFrom(Turn(c).0);
      }
      forall lines, line, rest
        ensures !ColonlessAt(c.rbuf, lines, line, rest)
      {
        if ColonlessAt(c.rbuf, lines, line, rest) {
          LinesTaken(c.rbuf, c.req, lines, line, rest);
        }
      }
    }
  }

  /** Once the header has ended, nothing makes a request invalid. */
  lemma NeverInvalidFrom(c: Conn)
    requires c.state.RequestBody? || c.state.Done?
    ensures Datagram(c).1 != STATUS_PRIVATE_INVALID
  {
    hide UInt64, ContentLength, HasContentLength;
    OneTurn(c);
    OneTurn(Turn(c).0);
  }

  /** One input for each of the three outcomes. */
  lemma ColonlessExamples(c: Conn)
    requires c.state.RequestHeader? && !HasContentLength(c.req)
    ensures Datagram(c.(rbuf := "x\r\nHost: a\r\n\r\n")).1 == STATUS_PRIVATE_INVALID
    ensures Datagram(c.(rbuf := "x\r\n\r\n")) == (c.(state := RequestLine, rbuf := ""), STATUS_PRIVATE_DONE)
    ensures Datagram(c.(rbuf := "x\r\n")) == (c.(state := RequestEmptyLine, rbuf := ""), STATUS_PRIVATE_PENDING)
  {
    hide Datagram, Colonless, HasContentLength;
    SingleX();
    ColonlessFirst(c.(rbuf := "x\r\nHost: a\r\n\r\n"), "x", "Host: a\r\n\r\n");
    ColonlessFirst(c.(rbuf := "x\r\n\r\n"), "x", "\r\n");
    ColonlessFirst(c.(rbuf := "x\r\n"), "x", "");
    assert "\r\n"[2..] == "";
    DoneTurn(c.(state := Done, rbuf := ""));
  }

  lemma SingleX()
    ensures Colonless("x")
  {
  }

  lemma DoneTurn(c: Conn)
    requires c.state.Done?
    ensures Datagram(c) == (c.(state := RequestLine), STATUS_PRIVATE_DONE)
  {
  }

  /** The outcomes when the colonless line is the first one. */
  lemma ColonlessFirst(c: Conn, line: string, rest: string)
    requires c.state.RequestHeader? && !HasContentLength(c.req) && c.rbuf == line + CRLF + rest && Colonless(line)
    ensures Datagram(c) ==
      if |rest| < 2 then (c.(state := RequestEmptyLine, rbuf := rest), STATUS_PRIVATE_PENDING)
      else if rest[0] == '\r' && rest[1] == '\n' then Datagram(c.(state := Done, rbuf := rest[2..]))
      else (c.(state := Invalid, rbuf := "", wbuf := ""), STATUS_PRIVATE_INVALID)
  {
    hide Datagram, Colonless;
    assert LinesText([]) + (line + (CRLF + rest)) == c.rbuf;
    ColonlessLineIsDropped(c, [], line, rest);
  }

  /** A `Content-Length` that is no number ends the request as done, with all bytes left in the buffer. */
  lemma UnreadableLengthIsDone(c: Conn)
    requires c.state.RequestBody? && HasContentLength(c.req) && UInt64(ContentLength(c.req)).None?
    ensures Datagram(c) == (c.(state := RequestLine), STATUS_PRIVATE_DONE)
  {
    hide UInt64, ContentLength;
    OneTurn(c);
    OneTurn(Turn(c).0);
  }
}
