/** Cookies: reading a request's cookie string, and writing a cookie with its attributes. */
module Cookies {
  import opened Strings
  import opened Buffers
  import opened Numbers

  const SEPARATOR := "; "

  datatype SameSite = Lax | Strict | NoPolicy

  /** An optional attribute that was not set is `None`; a time is kept as its formatted text. */
  datatype Cookie = Cookie(name: string, value: string, path: string, domain: string,
                           expireAt: Option<string>, maxAge: Option<int>, httpOnly: bool, secure: bool,
                           sameSite: Option<SameSite>)

  function Plain(name: string, value: string): Cookie {
    Cookie(name, value, "", "", None, None, false, false, None)
  }

  // -------------------------------------------------------------------------
  // Reading
  // -------------------------------------------------------------------------

  /** Up to the first separator, and what follows it; all of `s` when there is none. */
  function Head(s: string): string {
    s[..FindSub(s, SEPARATOR)]
  }

  function Rest(s: string): string {
    if Occurs(s, SEPARATOR) then AfterFirst(s, SEPARATOR) else ""
  }

  /** The name/value pairs of a cookie string, up to the first pair without `=` or without a name. */
  function Pairs(s: string): (r: seq<(string, string)>)
    decreases |s|
  {
    var i := Find(s, '=');
    if i == |s| || i == 0 then [] else
      [(s[..i], Head(s[i + 1..]))] + Pairs(Rest(s[i + 1..]))
  }

  function CookiesOf(pairs: seq<(string, string)>): (r: seq<Cookie>)
    ensures |r| == |pairs|
    ensures forall k :: 0 <= k < |r| ==> r[k] == Plain(pairs[k].0, pairs[k].1)
  {
    seq(|pairs|, k requires 0 <= k < |pairs| => Plain(pairs[k].0, pairs[k].1))
  }

  /** What `find` looks at from `start` on: nothing behind the end. */
  function From(s: string, start: nat): string {
    if start <= |s| then s[start..] else ""
  }

  method ParseCookieString(cookie: string, out: seq<Cookie>) returns (nvalid: nat, out': seq<Cookie>)
    ensures nvalid == |Pairs(cookie)|
    ensures out' == out + CookiesOf(Pairs(cookie))
  {
    hide Pairs, CookiesOf, Head, Rest, Find, FindSub, Plain;
    nvalid, out' := 0, out;
    ghost var all := Pairs(cookie);
    Nothing(out, all);
    PairsEnd(cookie);
    if cookie == "" {
      return;
    }
    var start := 0;
    while true
      invariant nvalid <= |all| && Pairs(From(cookie, start)) == all[nvalid..]
      invariant out' == out + CookiesOf(all[..nvalid])
      decreases |From(cookie, start)|
    {
      var more, name, value, next := ReadPair(cookie, start);
      if !more {
        return;
      }
      Unfolded(all, nvalid, (name, value), Pairs(From(cookie, next)));
      OneMore(out, all, nvalid);
      out' := out' + [Plain(name, value)];
      nvalid := nvalid + 1;
      start := next;
    }
  }

  /** The pair at `start` and where the next one begins; none when there is no `=`, or no name before it. */
  method ReadPair(cookie: string, start: nat) returns (more: bool, name: string, value: string, next: nat)
    ensures more ==> Pairs(From(cookie, start)) == [(name, value)] + Pairs(From(cookie, next))
    ensures more ==> |From(cookie, next)| < |From(cookie, start)|
    ensures !more ==> Pairs(From(cookie, start)) == []
  {
    hide Pairs, Head, Rest, Find, FindSub, From;
    more, name, value, next := false, "", "", start;
    var eq := start + Find(From(cookie, start), '=');
    if eq == start + |From(cookie, start)| {
      PairsEnd(From(cookie, start));
      return;
    }
    NextPair(cookie, start);
    name := cookie[start..eq];
    if name == "" {
      return;
    }
    var sep := eq + 1 + FindSub(cookie[eq + 1..], SEPARATOR);
    value := cookie[eq + 1..sep];
    more, next := true, sep + 2;
  }

  lemma Unfolded<T>(all: seq<T>, n: nat, x: T, rest: seq<T>)
    requires n <= |all| && all[n..] == [x] + rest
    ensures n < |all| && all[n] == x && all[n + 1..] == rest
  {
  }

  lemma Nothing(out: seq<Cookie>, all: seq<(string, string)>)
    ensures out + CookiesOf(all[..0]) == out && all[0..] == all
    ensures forall n :: 0 <= n <= |all| && all[n..] == [] ==> n == |all| && all[..n] == all
  {
  }

  lemma PairsEnd(s: string)
    ensures Find(s, '=') == |s| ==> Pairs(s) == []
    ensures From(s, 0) == s
  {
  }

  lemma PairsStep(s: string)
    requires Find(s, '=') < |s|
    ensures Find(s, '=') == 0 ==> Pairs(s) == []
    ensures Find(s, '=') > 0 ==> var i := Find(s, '=');
      Pairs(s) == [(s[..i], Head(s[i + 1..]))] + Pairs(Rest(s[i + 1..]))
  {
  }

  /** One turn, by absolute positions. */
  lemma NextPair(cookie: string, start: nat)
    requires Find(From(cookie, start), '=') < |From(cookie, start)|
    ensures start <= |cookie| && From(cookie, start) == cookie[start..]
    ensures var eq := start + Find(cookie[start..], '=');
      && start <= eq < |cookie|
      && (eq == start ==> Pairs(From(cookie, start)) == [])
      && (eq > start ==> var sep := eq + 1 + FindSub(cookie[eq + 1..], SEPARATOR);
            && Pairs(From(cookie, start)) == [(cookie[start..eq], cookie[eq + 1..sep])] + Pairs(From(cookie, sep + 2))
            && |From(cookie, sep + 2)| < |From(cookie, start)|)
  {
    hide Pairs, Head, Rest, Find, FindSub;
    var s := cookie[start..];
    assert From(cookie, start) == s;
    hide From;
    PairsStep(s);
    CutAt(cookie, start, start + Find(s, '='));
  }

  /** The pieces by absolute positions are those by relative ones. */
  lemma CutAt(cookie: string, start: nat, eq: nat)
    requires start <= eq < |cookie| && Find(cookie[start..], '=') == eq - start
    ensures var s, sep := cookie[start..], eq + 1 + FindSub(cookie[eq + 1..], SEPARATOR);
      && s[..eq - start] == cookie[start..eq]
      && Head(s[eq - start + 1..]) == cookie[eq + 1..sep]
      && Rest(s[eq - start + 1..]) == From(cookie, sep + 2)
      && |From(cookie, sep + 2)| < |From(cookie, start)|
  {
    hide Find, FindSub;
    assert cookie[start..][eq - start + 1..] == cookie[eq + 1..];
  }

  lemma OneMore(out: seq<Cookie>, all: seq<(string, string)>, n: nat)
    requires n < |all|
    ensures (out + CookiesOf(all[..n])) + [Plain(all[n].0, all[n].1)] == out + CookiesOf(all[..n + 1])
  {
  }

  // -------------------------------------------------------------------------
  // Reading inverts joining, exactly for names without `=` and values without the separator
  // -------------------------------------------------------------------------

  function Joined(pairs: seq<(string, string)>): string
    decreases |pairs|
  {
    if pairs == [] then ""
    else pairs[0].0 + ['='] + (pairs[0].1 + if |pairs| == 1 then "" else SEPARATOR + Joined(pairs[1..]))
  }

  predicate Readable(pairs: seq<(string, string)>) {
    forall k :: 0 <= k < |pairs| ==> pairs[k].0 != "" && '=' !in pairs[k].0 && !Occurs(pairs[k].1, SEPARATOR)
  }

  lemma ReadablePair(name: string, value: string, rest: seq<(string, string)>)
    ensures Readable([(name, value)] + rest) <==>
      name != "" && '=' !in name && !Occurs(value, SEPARATOR) && Readable(rest)
  {
    hide Occurs;
    var pairs := [(name, value)] + rest;
    assert pairs[0] == (name, value) && pairs[1..] == rest;
    assert forall k :: 0 <= k < |rest| ==> pairs[k + 1] == rest[k];
  }

  lemma HeadHasNoSeparator(v: string)
    ensures !Occurs(Head(v), SEPARATOR)
  {
    hide FindSub;
    if Occurs(v, SEPARATOR) {
      CutAtFirst(v, SEPARATOR);
    } else {
      assert Head(v) == v;
    }
  }

  lemma {:induction false} PairsReadable(s: string)
    ensures Readable(Pairs(s))
    decreases |s|
  {
    hide Find, Pairs, Head, Readable, Occurs;
    var i := Find(s, '=');
    if i < |s| {
      PairsStep(s);
      if i > 0 {
        var v := s[i + 1..];
        HeadHasNoSeparator(v);
        PairsReadable(Rest(v));
        ReadablePair(s[..i], Head(v), Pairs(Rest(v)));
      }
    } else {
      PairsEnd(s);
    }
    assert Readable([]) by { NoPairs(); }
  }

  lemma NoPairs()
    ensures Readable([])
  {
  }

  lemma {:induction false} PairsOfJoined(pairs: seq<(string, string)>)
    requires Readable(pairs)
    ensures Pairs(Joined(pairs)) == pairs
    decreases |pairs|
  {
    hide Pairs, Head, Rest, Readable, FindSub;
    PairsEnd("");
    if pairs != [] {
      var (name, value) := pairs[0];
      assert pairs == [(name, value)] + pairs[1..];
      ReadablePair(name, value, pairs[1..]);
      var next := if |pairs| == 1 then None else Some(Joined(pairs[1..]));
      PairsOfJoined(pairs[1..]);
      FirstRead(name, value, next);
    }
  }

  /** The first pair of a text, in front of the next ones if there are any. */
  lemma FirstRead(name: string, value: string, next: Option<string>)
    requires name != "" && '=' !in name && !Occurs(value, SEPARATOR)
    ensures var s := name + ['='] + (value + if next.None? then "" else SEPARATOR + next.value);
      Pairs(s) == [(name, value)] + Pairs(if next.None? then "" else next.value)
  {
    hide Pairs, Head, Rest, FindSub;
    var v := value + if next.None? then "" else SEPARATOR + next.value;
    var s := name + ['='] + v;
    assert s[..|name|] == name && s[|name|] == '=' && s[|name| + 1..] == v;
    FindAt(s, '=', |name|);
    HeadAndRest(value, next);
    PairsStep(s);
  }

  lemma HeadAndRest(value: string, next: Option<string>)
    requires !Occurs(value, SEPARATOR)
    ensures var s := value + if next.None? then "" else SEPARATOR + next.value;
      Head(s) == value && Rest(s) == if next.None? then "" else next.value
  {
    if next.None? {
      assert value + "" == value;
    } else {
      FindSubAfter(value, SEPARATOR, next.value);
      assert value + SEPARATOR + next.value == value + (SEPARATOR + next.value);
    }
  }

  /**
   * Joining pairs with `=` and the separator and reading them back yields exactly the pairs, if
   * and only if no name is empty or holds a `=`, and no value holds the separator.
   */
  lemma CookieRoundTrip(pairs: seq<(string, string)>)
    ensures Pairs(Joined(pairs)) == pairs <==> Readable(pairs)
  {
    PairsReadable(Joined(pairs));
    if Readable(pairs) {
      PairsOfJoined(pairs);
    }
  }

  // -------------------------------------------------------------------------
  // Writing
  // -------------------------------------------------------------------------

  function PolicyName(p: SameSite): string {
    match p
    case Lax => "Lax"
    case Strict => "Strict"
    case NoPolicy => "None"
  }

  /** The parts, with one more if its attribute is set. */
  function With(parts: seq<string>, isSet: bool, part: string): (r: seq<string>)
    ensures |r| >= |parts|
  {
    if isSet then parts + [part] else parts
  }

  /** What is written of a cookie, in order: the pair, then the attributes that are set. */
  function Parts(c: Cookie): (r: seq<string>)
    ensures r != []
  {
    FlagParts(c, ValueParts(c))
  }

  function ValueParts(c: Cookie): (r: seq<string>)
    ensures r != []
  {
    var p := With([], true, c.name + "=" + c.value);
    var p := With(p, c.path != "", "Path=" + c.path);
    var p := With(p, c.domain != "", "Domain=" + c.domain);
    var p := With(p, c.expireAt.Some?, "Expires=" + c.expireAt.GetOr(""));
    With(p, c.maxAge.Some?, "Max-Age=" + Decimal(c.maxAge.GetOr(0)))
  }

  function FlagParts(c: Cookie, p: seq<string>): (r: seq<string>)
    ensures |r| >= |p|
  {
    var p := With(p, c.httpOnly, "HttpOnly");
    var p := With(p, c.secure, "Secure");
    With(p, c.sameSite.Some?, "SameSite=" + PolicyName(c.sameSite.GetOr(Lax)))
  }

  /** Every part with the separator behind it. */
  function Terminated(parts: seq<string>): string
    decreases |parts|
  {
    if parts == [] then "" else Terminated(parts[..|parts| - 1]) + (parts[|parts| - 1] + SEPARATOR)
  }

  /** The parts with the separator between them. */
  function Separated(parts: seq<string>): string
    decreases |parts|
  {
    if parts == [] then "" else Terminated(parts[..|parts| - 1]) + parts[|parts| - 1]
  }

  /** The text of a cookie; a cookie without a name has none. */
  function Serialized(c: Cookie): string {
    if c.name == "" then "" else Separated(Parts(c))
  }

  lemma OnePartMore(base: string, parts: seq<string>, part: string)
    ensures base + Terminated(parts + [part]) == base + Terminated(parts) + part + SEPARATOR
  {
    assert (parts + [part])[..|parts|] == parts;
  }

  /** Writing ends with a separator, and taking it back leaves the separated parts. */
  lemma LastSeparator(base: string, parts: seq<string>)
    requires parts != []
    ensures var s := base + Terminated(parts);
      && |s| >= 2 && s[|s| - 2] == ';' && s[|s| - 1] == ' '
      && s[..|s| - 2] == base + Separated(parts)
  {
  }

  lemma NoParts(base: string)
    ensures base + Terminated([]) == base
  {
  }

  /** Writes one part and the separator, if the attribute is set; `written` are the parts so far. */
  method Write(out: string, isSet: bool, part: string, ghost base: string, ghost written: seq<string>)
    returns (out': string, ghost parts: seq<string>)
    requires out == base + Terminated(written)
    ensures parts == With(written, isSet, part) && out' == base + Terminated(parts)
  {
    out', parts := out, With(written, isSet, part);
    if isSet {
      OnePartMore(base, written, part);
      out' := out' + part + SEPARATOR;
    }
  }

  /** Writes the cookie behind `out`. */
  method Serialize(c: Cookie, out: string) returns (out': string)
    ensures out' == out + Serialized(c)
  {
    hide Terminated, Separated, Decimal, PolicyName, With;
    out' := out;
    if c.name == "" {
      return;
    }
    NoParts(out);
    ghost var p: seq<string>;
    out', p := Write(out', true, c.name + "=" + c.value, out, []);
    out', p := Write(out', c.path != "", "Path=" + c.path, out, p);
    out', p := Write(out', c.domain != "", "Domain=" + c.domain, out, p);
    out', p := Write(out', c.expireAt.Some?, "Expires=" + c.expireAt.GetOr(""), out, p);
    out', p := Write(out', c.maxAge.Some?, "Max-Age=" + Decimal(c.maxAge.GetOr(0)), out, p);
    out', p := Write(out', c.httpOnly, "HttpOnly", out, p);
    out', p := Write(out', c.secure, "Secure", out, p);
    out', p := Write(out', c.sameSite.Some?, "SameSite=" + PolicyName(c.sameSite.GetOr(Lax)), out, p);
    assert p == Parts(c);
    LastSeparator(out, p);
    if out'[|out'| - 1] == ' ' && out'[|out'| - 2] == ';' {
      out' := out'[..|out'| - 2];
    }
  }

  method WriteBuffer(out: Buffer, isSet: bool, part: string, ghost base: string, ghost written: seq<string>)
    returns (ghost parts: seq<string>)
    requires out.Valid() && out.Contents() == base + Terminated(written)
    modifies out, out.data
    ensures out.Valid() && (out.data == old(out.data) || fresh(out.data))
    ensures parts == With(written, isSet, part) && out.Contents() == base + Terminated(parts)
  {
    parts := With(written, isSet, part);
    if isSet {
      OnePartMore(base, written, part);
      out.Append(part);
      out.Append(SEPARATOR);
    }
  }

  /** Writes the cookie behind the readable bytes of `out`: the same bytes as into a string. */
  method SerializeToBuffer(c: Cookie, out: Buffer)
    requires out.Valid()
    modifies out, out.data
    ensures out.Valid() && (out.data == old(out.data) || fresh(out.data))
    ensures out.Contents() == old(out.Contents()) + Serialized(c)
  {
    hide Terminated, Separated, ValueParts, FlagParts;
    ghost var base := out.Contents();
    if c.name == "" {
      assert base + "" == base;
      return;
    }
    WriteValues(c, out);
    WriteFlags(c, out, base, ValueParts(c));
    DropSeparator(out, base, Parts(c));
  }

  method WriteValues(c: Cookie, out: Buffer)
    requires out.Valid()
    modifies out, out.data
    ensures out.Valid() && (out.data == old(out.data) || fresh(out.data))
    ensures out.Contents() == old(out.Contents()) + Terminated(ValueParts(c))
  {
    hide Terminated, Decimal, With, Buffer.Contents;
    ghost var base := out.Contents();
    NoParts(base);
    ghost var p := WriteBuffer(out, true, c.name + "=" + c.value, base, []);
    p := WriteBuffer(out, c.path != "", "Path=" + c.path, base, p);
    p := WriteBuffer(out, c.domain != "", "Domain=" + c.domain, base, p);
    p := WriteBuffer(out, c.expireAt.Some?, "Expires=" + c.expireAt.GetOr(""), base, p);
    p := WriteBuffer(out, c.maxAge.Some?, "Max-Age=" + Decimal(c.maxAge.GetOr(0)), base, p);
  }

  method WriteFlags(c: Cookie, out: Buffer, ghost base: string, ghost written: seq<string>)
    requires out.Valid() && out.Contents() == base + Terminated(written)
    modifies out, out.data
    ensures out.Valid() && (out.data == old(out.data) || fresh(out.data))
    ensures out.Contents() == base + Terminated(FlagParts(c, written))
  {
    hide Terminated, PolicyName, With;
    ghost var p := WriteBuffer(out, c.httpOnly, "HttpOnly", base, written);
    p := WriteBuffer(out, c.secure, "Secure", base, p);
    p := WriteBuffer(out, c.sameSite.Some?, "SameSite=" + PolicyName(c.sameSite.GetOr(Lax)), base, p);
  }

  method DropSeparator(out: Buffer, ghost base: string, ghost parts: seq<string>)
    requires out.Valid() && parts != [] && out.Contents() == base + Terminated(parts)
    modifies out`writer
    ensures out.Valid() && out.Contents() == base + Separated(parts)
  {
    LastSeparator(base, parts);
    var last := out.ReadableCharacterAt(out.Size() - 1);
    var before := out.ReadableCharacterAt(out.Size() - 2);
    if last == ' ' && before == ';' {
      out.WriterIdxBackward(2);
    }
  }

  // -------------------------------------------------------------------------
  // A written cookie is read back, whatever its attributes
  // -------------------------------------------------------------------------

  lemma {:induction false} TerminatedFront(parts: seq<string>) returns (tail: string)
    requires parts != []
    ensures Terminated(parts) == parts[0] + (SEPARATOR + tail)
    decreases |parts|
  {
    if |parts| == 1 {
      tail := "";
    } else {
      var t := TerminatedFront(parts[..|parts| - 1]);
      tail := t + (parts[|parts| - 1] + SEPARATOR);
    }
  }

  lemma SeparatedFront(parts: seq<string>) returns (next: Option<string>)
    requires parts != []
    ensures Separated(parts) == parts[0] + if next.None? then "" else SEPARATOR + next.value
  {
    if |parts| == 1 {
      next := None;
    } else {
      var t := TerminatedFront(parts[..|parts| - 1]);
      next := Some(t + parts[|parts| - 1]);
    }
  }

  lemma FirstPart(c: Cookie)
    ensures Parts(c)[0] == c.name + "=" + c.value
  {
  }

  /** The first pair of a serialized cookie is the cookie's own. */
  lemma SerializedReadsBack(c: Cookie)
    requires Readable([(c.name, c.value)])
    ensures Pairs(Serialized(c)) != [] && Pairs(Serialized(c))[0] == (c.name, c.value)
  {
    hide Parts, Separated, Readable, Pairs, FindSub;
    assert [(c.name, c.value)] + [] == [(c.name, c.value)];
    ReadablePair(c.name, c.value, []);
    FirstPart(c);
    var next := SeparatedFront(Parts(c));
    var tail := if next.None? then "" else SEPARATOR + next.value;
    Associative(c.name + ['='], c.value, tail);
    FirstRead(c.name, c.value, next);
  }
}
