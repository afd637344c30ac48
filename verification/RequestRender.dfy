/** Writing a request out and parsing it back, in one piece or in any pieces. */
module RequestRender {
  import opened Strings
  import opened Multimaps
  import opened Numbers
  import opened Urls
  import opened Cookies
  import opened HttpParser
  import opened ParserTheorems

  // -------------------------------------------------------------------------
  // Rendering
  // -------------------------------------------------------------------------

  /** A field with the white space that stands in front of its value. */
  datatype Field =
    | Header(key: string, space: string, value: string)
    | CookieField(key: string, space: string, pairs: seq<(string, string)>)
  {
    function Text(): string {
      if Header? then value else Joined(pairs)
    }
  }

  function FieldLine(f: Field): string {
    f.key + [':'] + (f.space + f.Text())
  }

  function FieldsText(fs: seq<Field>): string
    decreases |fs|
  {
    if fs == [] then "" else FieldLine(fs[0]) + CRLF + FieldsText(fs[1..])
  }

  function RequestLineText(m: Method, url: string, version: string): string {
    MethodName(m) + [' '] + (url + [' '] + version)
  }

  function Rendered(m: Method, url: string, version: string, fs: seq<Field>, body: string): string {
    RequestLineText(m, url, version) + (CRLF + (FieldsText(fs) + (CRLF + body)))
  }

  /**
   * A field that can be written as one line: the key has no colon, and a value starts with a
   * non-blank, or is empty and has no white space in front.
   */
  predicate FieldOk(f: Field) {
    && !Occurs(FieldLine(f), CRLF) && ':' !in f.key && TrimLeft(f.space) == ""
    && (if f.Text() == "" then f.space == "" else !IsBlank(f.Text()[0]))
    && (if f.Header? then Lower(CStr(f.key)) != "cookie" else Lower(CStr(f.key)) == "cookie" && Readable(f.pairs))
  }

  predicate FieldsOk(fs: seq<Field>) {
    forall k :: 0 <= k < |fs| ==> FieldOk(fs[k])
  }

  predicate LineOk(url: string, version: string) {
    url != "" && ' ' !in url && !Occurs(url, CRLF) && version in {"HTTP/1.0", "HTTP/1.1"}
  }

  // -------------------------------------------------------------------------
  // What parsing should find
  // -------------------------------------------------------------------------

  /** The header fields, keyed in lower case, in order. */
  function HeaderPairs(fs: seq<Field>): seq<(string, string)>
    decreases |fs|
  {
    if fs == [] then [] else
      (if fs[0].Header? then [(Lower(fs[0].key), fs[0].value)] else []) + HeaderPairs(fs[1..])
  }

  function CookiePairs(fs: seq<Field>): seq<(string, string)>
    decreases |fs|
  {
    if fs == [] then [] else (if fs[0].CookieField? then fs[0].pairs else []) + CookiePairs(fs[1..])
  }

  function Filled(req: Request, fs: seq<Field>): Request {
    req.(header := AddedAll(req.header, HeaderPairs(fs)), cookies := req.cookies + CookiesOf(CookiePairs(fs)))
  }

  function Expected(req: Request, m: Method, url: string, version: string, fs: seq<Field>): Request {
    var query := Parsed(req.query, url, false);
    Filled(req.(httpMethod := m, url := url, query := query, version := ParseHTTPVersion(version)), fs)
  }

  /** The body is as long as the header fields say; without a length there is none. */
  predicate BodyOk(req: Request, body: string) {
    if HasContentLength(req) then UInt64(ContentLength(req)) == Some(|body|) else body == ""
  }

  // -------------------------------------------------------------------------
  // Lines
  // -------------------------------------------------------------------------

  lemma NoCrlf(s: string)
    ensures !Occurs(s, CRLF) <==> forall j :: 0 <= j < |s| - 1 ==> !(s[j] == '\r' && s[j + 1] == '\n')
  {
    NoOccurrence(s, CRLF);
    hide Occurs;
  }

  lemma NoCrlfAround(a: string, c: char, b: string)
    requires !Occurs(a, CRLF) && !Occurs(b, CRLF) && c != '\r' && c != '\n'
    ensures !Occurs(a + [c] + b, CRLF)
  {
    NoCrlf(a);
    NoCrlf(b);
    var s := a + [c] + b;
    hide Occurs;
    forall j | 0 <= j < |s| - 1
      ensures !(s[j] == '\r' && s[j + 1] == '\n')
    {
      if j > |a| {
        assert s[j] == b[j - |a| - 1] && s[j + 1] == b[j - |a|];
      }
    }
    NoCrlf(s);
  }

  lemma NoCrlfWithoutBlanks(s: string)
    requires forall k :: 0 <= k < |s| ==> !IsBlank(s[k])
    ensures !Occurs(s, CRLF)
  {
    NoCrlf(s);
  }

  lemma ThreeWords(a: string, b: string, c: string)
    requires a != "" && b != "" && c != "" && ' ' !in a && ' ' !in b && ' ' !in c
    ensures Split(a + [' '] + (b + [' '] + c), ' ') == [a, b, c]
  {
    hide Split;
    SplitConcat(a, ' ', b + [' '] + c);
    SplitConcat(b, ' ', c);
    SplitWhole(a, ' ');
    SplitWhole(b, ' ');
    SplitWhole(c, ' ');
  }

  lemma RequestLineRead(m: Method, url: string, version: string)
    requires LineOk(url, version)
    ensures var line := RequestLineText(m, url, version);
      && line != "" && !IsBlank(line[0]) && !Occurs(line, CRLF)
      && Split(line, ' ') == [MethodName(m), url, version]
  {
    hide Split, MethodName, Occurs;
    var name := MethodName(m);
    ThreeWords(name, url, version);
    NoCrlfWithoutBlanks(name);
    NoCrlfWithoutBlanks(version);
    NoCrlfAround(url, ' ', version);
    NoCrlfAround(name, ' ', url + [' '] + version);
    assert RequestLineText(m, url, version)[0] == name[0];
  }

  /** What one field adds to a request. */
  function WithField(req: Request, f: Field): Request {
    match f
    case Header(key, _, value) => req.(header := Added(req.header, Lower(key), value))
    case CookieField(_, _, pairs) => req.(cookies := req.cookies + CookiesOf(pairs))
  }

  lemma FieldRead(f: Field, req: Request)
    requires FieldOk(f)
    ensures FieldLine(f) != "" && ':' in FieldLine(f) && FieldAdded(req, FieldLine(f)) == WithField(req, f)
  {
    hide Occurs, Joined, Pairs, Added, CookiesOf, Lower, CStr, TrimLeft, Readable;
    var line := FieldLine(f);
    assert line[|f.key|] == ':' && line[..|f.key|] == f.key && line[|f.key| + 1..] == f.space + f.Text();
    FindAt(line, ':', |f.key|);
    TrimSpace(f.space, f.Text());
    if f.CookieField? {
      CookieRoundTrip(f.pairs);
    }
  }

  /** Any field line: its cookies, if the name is `cookie` in any spelling, and otherwise its value. */
  lemma FieldExact(req: Request, key: string, space: string, value: string)
    requires ':' !in key && TrimLeft(space) == "" && (value != "" ==> !IsBlank(value[0]))
    ensures var line := key + ":" + (space + value);
      ':' in line && FieldAdded(req, line) ==
        if SameWord(CStr(key), "Cookie") then req.(cookies := req.cookies + CookiesOf(Pairs(value)))
        else req.(header := Added(req.header, Lower(key), value))
  {
    CookieWord(CStr(key));
    hide Pairs, Added, CookiesOf, Lower, CStr, TrimLeft, SameWord;
    var line := key + ":" + (space + value);
    assert line[|key|] == ':' && line[..|key|] == key && line[|key| + 1..] == space + value;
    FindAt(line, ':', |key|);
    TrimSpace(space, value);
  }

  lemma CookieWord(key: string)
    ensures Lower(key) == "cookie" <==> SameWord(key, "Cookie")
  {
    assert Lower("Cookie") == "cookie";
    SameWordIff(key, "Cookie");
    hide Lower, SameWord;
  }

  lemma TrimSpace(space: string, text: string)
    requires TrimLeft(space) == "" && (text != "" ==> !IsBlank(text[0]))
    ensures TrimLeft(space + text) == text
  {
    TrimLeftExtend(space, text);
    TrimLeftUnique(text, 0);
    assert text[0..] == text;
  }

  // -------------------------------------------------------------------------
  // The whole request
  // -------------------------------------------------------------------------

  lemma {:induction false} FieldsRead(fs: seq<Field>, body: string, req: Request)
    requires FieldsOk(fs)
    ensures FieldLines(FieldsText(fs) + (CRLF + body), req) == (EmptyLine, body, Filled(req, fs))
    decreases |fs|
  {
    hide Occurs, BeforeFirst, AfterFirst, FieldAdded, FieldOk, FieldLine, Added;
    if fs == [] {
      NothingOccursInEmpty();
      LineRead("", body);
      assert "" + (CRLF + body) == CRLF + body;
      NoFields(req);
    } else {
      var line, tail := FieldLine(fs[0]), FieldsText(fs[1..]) + (CRLF + body);
      assert !Occurs(line, CRLF) by { LineOfField(fs[0]); }
      LineRead(line, tail);
      assert FieldsText(fs) + (CRLF + body) == line + (CRLF + tail);
      FieldRead(fs[0], req);
      FieldsRead(fs[1..], body, FieldAdded(req, line));
      OneFieldMore(req, fs);
    }
  }

  lemma LineOfField(f: Field)
    requires FieldOk(f)
    ensures !Occurs(FieldLine(f), CRLF)
  {
  }

  lemma NoFields(req: Request)
    ensures Filled(req, []) == req
  {
    assert req.cookies + CookiesOf([]) == req.cookies;
  }

  lemma OneFieldMore(req: Request, fs: seq<Field>)
    requires fs != []
    ensures Filled(WithField(req, fs[0]), fs[1..]) == Filled(req, fs)
  {
    hide Added, Lower, CookiesOf;
    if fs[0].Header? {
      HeaderFirst(fs);
    } else {
      CookiesFirst(req.cookies, fs[0].pairs, CookiePairs(fs[1..]));
      assert [] + HeaderPairs(fs[1..]) == HeaderPairs(fs[1..]);
    }
  }

  lemma HeaderFirst(fs: seq<Field>)
    requires fs != [] && fs[0].Header?
    ensures HeaderPairs(fs) == [(Lower(fs[0].key), fs[0].value)] + HeaderPairs(fs[1..])
    ensures HeaderPairs(fs)[1..] == HeaderPairs(fs[1..]) && CookiePairs(fs) == CookiePairs(fs[1..])
  {
    hide Lower;
    assert [] + CookiePairs(fs[1..]) == CookiePairs(fs[1..]);
  }

  lemma CookiesFirst(before: seq<Cookie>, pairs: seq<(string, string)>, rest: seq<(string, string)>)
    ensures before + CookiesOf(pairs + rest) == (before + CookiesOf(pairs)) + CookiesOf(rest)
  {
    assert CookiesOf(pairs + rest) == CookiesOf(pairs) + CookiesOf(rest);
  }

  /**
   * Parsing inverts rendering: for every supported method and version, every URL without a space
   * or line end, every list of well-formed fields and every body of the announced length, one
   * call on the rendered bytes, with any blank lines in front, returns Done with exactly those
   * parts, and leaves the body as the readable bytes.
   */
  lemma ParseInvertsRender(c: Conn, blanks: string, m: Method, url: string, version: string,
                           fs: seq<Field>, body: string)
    requires c.state.RequestLine? && TrimLeft(blanks) == "" && LineOk(url, version) && FieldsOk(fs)
    requires BodyOk(Expected(c.req, m, url, version, fs), body)
    ensures Datagram(c.(rbuf := blanks + Rendered(m, url, version, fs, body))) ==
      (c.(rbuf := body, req := Expected(c.req, m, url, version, fs)), STATUS_PRIVATE_DONE)
  {
    hide RequestLineText, RequestLineTurn, Parsed, FieldsText, TrimLeft, Filled, BodyOk, LineOk, FieldsOk;
    var line, tail := RequestLineText(m, url, version), FieldsText(fs) + (CRLF + body);
    var c0 := c.(rbuf := blanks + (line + (CRLF + tail)));
    RequestLineRendered(c0, blanks, m, url, version, tail);
    OneTurn(c0);
    AfterRequestLine(Turn(c0).0, fs, body);
  }

  lemma RequestLineRendered(c: Conn, blanks: string, m: Method, url: string, version: string, tail: string)
    requires c.state.RequestLine? && TrimLeft(blanks) == "" && LineOk(url, version)
    requires c.rbuf == blanks + (RequestLineText(m, url, version) + (CRLF + tail))
    ensures RequestLineTurn(c) ==
      (c.(state := RequestHeader, rbuf := tail,
          req := c.req.(httpMethod := m, url := url, query := Parsed(c.req.query, url, false),
                        version := ParseHTTPVersion(version))),
       STATUS_PRIVATE_COMPLETE)
  {
    hide RequestLineText, Occurs, BeforeFirst, AfterFirst, Split, Parsed, MethodName, MethodOf;
    var line := RequestLineText(m, url, version);
    var text := line + (CRLF + tail);
    RequestLineRead(m, url, version);
    MethodByName(m);
    LineRead(line, tail);
    TrimLeftExtend(blanks, text);
    assert text[0] == line[0];
    TrimLeftUnique(text, 0);
    assert text[0..] == text;
  }

  lemma AfterRequestLine(c: Conn, fs: seq<Field>, body: string)
    requires c.state.RequestHeader? && c.rbuf == FieldsText(fs) + (CRLF + body) && FieldsOk(fs)
    requires BodyOk(Filled(c.req, fs), body)
    ensures Datagram(c) == (c.(state := RequestLine, rbuf := body, req := Filled(c.req, fs)), STATUS_PRIVATE_DONE)
  {
    hide FieldLines, Filled, FieldsText, UInt64, ContentLength, FieldOk;
    FieldsRead(fs, body, c.req);
    var c2 := c.(state := RequestBody, rbuf := body, req := Filled(c.req, fs));
    assert Turn(c) == (c2, STATUS_PRIVATE_COMPLETE);
    OneTurn(c);
    var c3 := c2.(state := Done);
    assert Turn(c2) == (c3, STATUS_PRIVATE_COMPLETE);
    OneTurn(c2);
    OneTurn(c3);
  }

  // -------------------------------------------------------------------------
  // Any pieces
  // -------------------------------------------------------------------------

  /** A call that returns Done has the announced body, if one is announced, in the buffer. */
  lemma {:induction false} DoneHasBody(c: Conn)
    requires Datagram(c).1 == STATUS_PRIVATE_DONE && !c.state.Done?
    ensures var d := Datagram(c).0;
      HasContentLength(d.req) && UInt64(ContentLength(d.req)).Some? ==> |d.rbuf| >= UInt64(ContentLength(d.req)).value
    decreases Rank(c.state)
  {
    hide FieldLines, UInt64, ContentLength, HasContentLength, RequestLineTurn, RequestHeaderTurn;
    TurnDescends(c);
    LastTurnState(c);
    OneTurn(c);
    var d := Turn(c).0;
    if d.state.Done? {
      NotYetDone(c);
      OneTurn(d);
    } else {
      DoneHasBody(d);
    }
  }

  lemma NotYetDone(c: Conn)
    requires !c.state.Done? && Turn(c).0.state.Done?
    ensures c.state.RequestEmptyLine? || c.state.RequestBody?
  {
    hide FieldLines, UInt64, ParsedRequestLine;
  }

  /** No proper part of a rendered request is taken for a whole one, or for an invalid one. */
  lemma ProperPartPends(c: Conn, part: string, rest: string, body: string, req: Request)
    requires c.state.RequestLine? && rest != "" && BodyOk(req, body)
    requires Datagram(Fed(c, part + rest)) == (c.(rbuf := body, req := req), STATUS_PRIVATE_DONE)
    ensures Datagram(Fed(c, part)).1 == STATUS_PRIVATE_PENDING
  {
    hide Datagram, UInt64, ContentLength, HasContentLength;
    var p := Fed(c, part);
    DatagramSafe(p);
    if Datagram(p).1 != STATUS_PRIVATE_PENDING {
      DatagramExtends(p, rest);
      assert Fed(p, rest) == Fed(c, part + rest) by {
        assert (c.rbuf + part) + rest == c.rbuf + (part + rest);
      }
      if Datagram(p).1 == STATUS_PRIVATE_DONE {
        DoneHasBody(p);
      }
    }
  }

  lemma {:induction false} PiecesWait(c: Conn, d: Conn, part: string, chunks: seq<string>, body: string, req: Request)
    requires chunks != [] && (forall k :: 0 <= k < |chunks| ==> chunks[k] != "")
    requires c.state.RequestLine? && BodyOk(req, body)
    requires Datagram(Fed(c, part + Flat(chunks))) == (c.(rbuf := body, req := req), STATUS_PRIVATE_DONE)
    requires forall more :: Datagram(Fed(d, more)) == Datagram(Fed(c, part + more))
    ensures Waits(d, chunks)
    decreases |chunks|
  {
    hide Datagram, BodyOk;
    if |chunks| > 1 {
      var first, rest := chunks[0], chunks[1..];
      assert part + Flat(chunks) == (part + first) + Flat(rest);
      assert Flat(rest) != "" by { assert rest[0] == chunks[1]; }
      ProperPartPends(c, part + first, Flat(rest), body, req);
      var d' := Datagram(Fed(d, first)).0;
      forall more
        ensures Datagram(Fed(d', more)) == Datagram(Fed(c, (part + first) + more))
      {
        DatagramResumes(Fed(d, first), more);
        assert (d.rbuf + first) + more == d.rbuf + (first + more);
        assert part + (first + more) == (part + first) + more;
      }
      PiecesWait(c, d', part + first, rest, body, req);
    }
  }

  /**
   * A rendered request may arrive in any non-empty pieces: every call before the last returns
   * Pending, and the last returns Done with exactly the parts that were rendered.
   */
  lemma RequestInAnyPieces(c: Conn, chunks: seq<string>, blanks: string, m: Method, url: string, version: string,
                           fs: seq<Field>, body: string)
    requires chunks != [] && (forall k :: 0 <= k < |chunks| ==> chunks[k] != "")
    requires Flat(chunks) == blanks + Rendered(m, url, version, fs, body)
    requires c.state.RequestLine? && c.rbuf == "" && TrimLeft(blanks) == "" && LineOk(url, version) && FieldsOk(fs)
    requires BodyOk(Expected(c.req, m, url, version, fs), body)
    ensures Waits(c, chunks)
    ensures Deliver(c, chunks) == (c.(rbuf := body, req := Expected(c.req, m, url, version, fs)), STATUS_PRIVATE_DONE)
  {
    hide Datagram, Rendered, Expected, BodyOk, Waits, Deliver;
    ParseInvertsRender(c, blanks, m, url, version, fs, body);
    forall more: string
      ensures "" + more == more
    {
    }
    PiecesWait(c, c, "", chunks, body, Expected(c.req, m, url, version, fs));
    ChunkingDoesNotMatter(c, chunks);
  }

  // -------------------------------------------------------------------------
  // The announced length
  // -------------------------------------------------------------------------

  /**
   * The body is as announced when the first `Content-Length` field is the decimal text of its
   * length, and when there is neither such a field nor a body.
   */
  lemma AnnouncedLength(req: Request, m: Method, url: string, version: string, fs: seq<Field>, body: string)
    requires req.header == map[]
    requires var lengths := ValuesOf(HeaderPairs(fs), CONTENT_LENGTH);
      if lengths == [] then body == "" else lengths[0] == Decimal(|body|) && |body| < TWO_64
    ensures BodyOk(Expected(req, m, url, version, fs), body)
  {
    AddedAllGroups(req.header, HeaderPairs(fs), CONTENT_LENGTH);
    DecimalRead(|body|);
    hide UInt64, Decimal, Parsed, ParseHTTPVersion, ValuesOf, AddedAll;
  }

  /** The parsed header fields are the rendered ones, grouped by lower-case key in order. */
  lemma ParsedFields(req: Request, m: Method, url: string, version: string, fs: seq<Field>, key: string)
    requires req.header == map[]
    ensures var h := Expected(req, m, url, version, fs).header;
      && (key in h <==> ValuesOf(HeaderPairs(fs), key) != [])
      && (key in h ==> h[key] == ValuesOf(HeaderPairs(fs), key))
  {
    AddedAllGroups(req.header, HeaderPairs(fs), key);
  }

  // -------------------------------------------------------------------------
  // A length that is no number
  // -------------------------------------------------------------------------

  lemma {:induction false} OneHeaderOk(key: string, value: string)
    requires !Occurs(FieldLine(Header(key, " ", value)), CRLF) && ':' !in key && Lower(CStr(key)) != "cookie"
    requires value != "" && !IsBlank(value[0])
    ensures FieldsOk([Header(key, " ", value)])
  {
    assert TrimLeft(" ") == "";
    hide Occurs, Lower, CStr, TrimLeft, FieldLine;
  }

  /** A header of one field. */
  lemma OneHeaderRead(c: Conn, key: string, value: string)
    requires c.state.RequestHeader? && c.req.header == map[] && FieldsOk([Header(key, " ", value)])
    requires c.rbuf == FieldLine(Header(key, " ", value)) + CRLF + CRLF
    ensures Datagram(c) ==
      Datagram(c.(state := RequestBody, rbuf := "", req := c.req.(header := map[Lower(key) := [value]])))
  {
    hide FieldsOk, FieldLine, Datagram, FieldLines, Lower;
    var fs := [Header(key, " ", value)];
    assert fs[1..] == [];
    assert FieldsText(fs) == FieldLine(fs[0]) + CRLF + "";
    assert c.rbuf == FieldsText(fs) + (CRLF + "");
    FieldsRead(fs, "", c.req);
    OneHeaderFilled(c.req, key, value);
    hide FieldsText, Filled;
    OneTurn(c);
  }

  lemma OneHeaderFilled(req: Request, key: string, value: string)
    requires req.header == map[]
    ensures Filled(req, [Header(key, " ", value)]) == req.(header := map[Lower(key) := [value]])
  {
    hide Lower;
    var fs := [Header(key, " ", value)];
    HeaderFirst(fs);
    var pairs := [(Lower(key), value)];
    assert fs[1..] == [] && HeaderPairs(fs) == pairs;
    var m := Added(map[], Lower(key), value);
    assert [] + [value] == [value];
    assert AddedAll(m, []) == m && pairs[1..] == [];
    assert req.cookies + CookiesOf([]) == req.cookies;
  }

  lemma BadLengthLine()
    ensures FieldLine(Header("Content-Length", " ", "x")) == "Content-Length: x"
    ensures !Occurs("Content-Length: x", CRLF)
  {
    hide Occurs;
    NoCrlfWithoutBlanks("Content-Length:");
    NoCrlfWithoutBlanks("x");
    NoCrlfAround("Content-Length:", ' ', "x");
    assert "Content-Length:" + [' '] + "x" == "Content-Length: x";
    assert FieldLine(Header("Content-Length", " ", "x")) == "Content-Length: x";
  }

  /** A header of one `Content-Length` field that is no number. */
  lemma LengthOnly(c: Conn, key: string, value: string)
    requires c.state.RequestHeader? && c.req.header == map[]
    requires c.rbuf == FieldLine(Header(key, " ", value)) + CRLF + CRLF
    requires !Occurs(FieldLine(Header(key, " ", value)), CRLF) && ':' !in key && value != "" && !IsBlank(value[0])
    requires Lower(key) == CONTENT_LENGTH && CStr(key) == key && UInt64(value).None?
    ensures var req := c.req.(header := map[CONTENT_LENGTH := [value]]);
      Datagram(c) == (c.(state := RequestLine, rbuf := "", req := req), STATUS_PRIVATE_DONE)
  {
    assert |CONTENT_LENGTH| == 14 && |"cookie"| == 6;
    hide Datagram, FieldsOk, FieldLine, Occurs, Lower, CStr, UInt64;
    OneHeaderOk(key, value);
    OneHeaderRead(c, key, value);
    UnreadableLengthIsDone(
      c.(state := RequestBody, rbuf := "", req := c.req.(header := map[CONTENT_LENGTH := [value]])));
  }

  /** Received bytes for `UnreadableLengthIsDone`: the request counts as done. */
  lemma UnreadableLengthExample(c: Conn)
    requires c.state.RequestHeader? && c.req.header == map[] && c.rbuf == "Content-Length: x\r\n\r\n"
    ensures Datagram(c).1 == STATUS_PRIVATE_DONE && Datagram(c).0.rbuf == ""
    ensures Datagram(c).0.req.header == map[CONTENT_LENGTH := ["x"]]
  {
    NoNumber();
    BadLengthLine();
    LengthKey();
    LengthKeyPlain();
    hide Datagram, FieldLine, Occurs, Lower, CStr, UInt64, IsBlank;
    assert c.rbuf == "Content-Length: x" + CRLF + CRLF;
    LengthOnly(c, "Content-Length", "x");
  }

  lemma LengthKeyPlain()
    ensures CStr("Content-Length") == "Content-Length" && ':' !in "Content-Length" && !IsBlank("x"[0])
  {
    hide CStr, Find;
    CStrWhole("Content-Length");
  }

  lemma NoNumber()
    ensures UInt64("x").None?
  {
  }
}
