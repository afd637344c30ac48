/** Percent encoding, and the query and form strings built on it. */
module Urls {
  import opened Strings
  import opened Multimaps
  import opened Numbers

  /** What a C++ `char` holds. */
  type Byte = c: char | c as int < 256 witness 'a'

  predicate OnlyHexLowercase(c: char) {
    'a' <= c <= 'f'
  }

  predicate OnlyHexUppercase(c: char) {
    'A' <= c <= 'F'
  }

  predicate Unreserved(c: char) {
    OnlyDigit(c) || OnlyHexLowercase(c) || OnlyHexUppercase(c) || c in "-._~"
  }

  // -------------------------------------------------------------------------
  // Encoding
  // -------------------------------------------------------------------------

  const HEX_TABLE: seq<Byte> := "0123456789ABCDEF"

  /** The two hexadecimal digits of a byte. */
  method ToHex(c: Byte) returns (hi: Byte, lo: Byte)
    ensures [hi, lo] == Hex(c)
  {
    return HEX_TABLE[c as int / 16], HEX_TABLE[c as int % 16];
  }

  function Hex(c: Byte): (r: seq<Byte>)
    ensures |r| == 2 && IsHex(r[0]) && IsHex(r[1])
    ensures HexValue(r[0]) * 16 + HexValue(r[1]) == c as int
  {
    var (hi, lo) := (c as int / 16, c as int % 16);
    HexDigit(hi);
    HexDigit(lo);
    [HEX_TABLE[hi], HEX_TABLE[lo]]
  }

  predicate IsHex(c: char) {
    OnlyDigit(c) || OnlyHexLowercase(c) || OnlyHexUppercase(c)
  }

  function HexValue(c: char): (v: nat)
    requires IsHex(c)
    ensures v < 16
  {
    if OnlyDigit(c) then c as int - '0' as int
    else if OnlyHexLowercase(c) then c as int - 'a' as int + 10
    else c as int - 'A' as int + 10
  }

  lemma HexDigit(v: nat)
    requires v < 16
    ensures IsHex(HEX_TABLE[v]) && HexValue(HEX_TABLE[v]) == v
  {
    assert HEX_TABLE == ['0', '1', '2', '3', '4', '5', '6', '7', '8', '9', 'A', 'B', 'C', 'D', 'E', 'F'];
  }

  function EscapedByte(c: Byte): seq<Byte> {
    if Unreserved(c) then [c] else ['%'] + Hex(c)
  }

  function Escaped(s: seq<Byte>): seq<Byte> {
    if s == [] then [] else EscapedByte(s[0]) + Escaped(s[1..])
  }

  method Escape(s: seq<Byte>) returns (out: seq<Byte>)
    ensures out == Escaped(s)
  {
    out := [];
    for i := 0 to |s|
      invariant out + Escaped(s[i..]) == Escaped(s)
    {
      ghost var before := out;
      if Unreserved(s[i]) {
        out := out + [s[i]];
      } else {
        var hi, lo := ToHex(s[i]);
        out := out + ['%', hi, lo];
      }
      assert s[i..][1..] == s[i + 1..];
      assert out == before + EscapedByte(s[i]);
      Associative(before, EscapedByte(s[i]), Escaped(s[i + 1..]));
    }
  }

  // -------------------------------------------------------------------------
  // Decoding
  // -------------------------------------------------------------------------

  predicate IsAlnum(c: char) {
    '0' <= c <= '9' || 'a' <= c <= 'z' || 'A' <= c <= 'Z'
  }

  /** The character that the first encoded unit of `s` stands for, and the unit's length. */
  function FirstUnit(s: string): (r: Option<(char, nat)>)
    requires s != ""
    ensures r.Some? ==> 0 < r.value.1 <= |s|
  {
    if s[0] == '%' then
      if 3 <= |s| && IsHex(s[1]) && IsHex(s[2]) then Some(((HexValue(s[1]) * 16 + HexValue(s[2])) as char, 3)) else None
    else if s[0] in "-_.~:/?#[]@!$&'()*,;=" then Some((s[0], 1))
    else if s[0] == '+' then Some((' ', 1))
    else if IsAlnum(s[0]) then Some((s[0], 1))
    else None
  }

  /** Whether all of `s` decodes, and the characters decoded before the first unit that does not. */
  function Unescaped(s: string): (bool, string)
    decreases |s|
  {
    if s == "" then (true, "") else
      match FirstUnit(s)
      case None => (false, "")
      case Some((c, n)) => var (ok, rest) := Unescaped(s[n..]); (ok, [c] + rest)
  }

  /** The value of the two hexadecimal digits behind the `%` at `i`. */
  method HexPair(s: string, i: nat) returns (ok: bool, value: nat)
    requires i + 3 <= |s|
    ensures ok == (IsHex(s[i + 1]) && IsHex(s[i + 2]))
    ensures ok ==> value == HexValue(s[i + 1]) * 16 + HexValue(s[i + 2])
  {
    value := 0;
    for j := i + 1 to i + 3
      invariant forall k :: i < k < j ==> IsHex(s[k])
      invariant j > i + 1 ==> value == HexValue(s[i + 1]) * 16 + if j == i + 3 then HexValue(s[i + 2]) else 0
      invariant j == i + 1 ==> value == 0
    {
      if OnlyDigit(s[j]) {
        value := value + (s[j] as int - '0' as int);
      } else if OnlyHexLowercase(s[j]) {
        value := value + (s[j] as int - 'a' as int + 10);
      } else if OnlyHexUppercase(s[j]) {
        value := value + (s[j] as int - 'A' as int + 10);
      } else {
        return false, value;
      }
      if j == i + 1 {
        value := value * 16;
      }
    }
    return true, value;
  }

  method UnEscape(s: string) returns (ok: bool, out: string)
    ensures (ok, out) == Unescaped(s)
  {
    hide Unescaped;
    out := "";
    UnescapedEnds(s);
    var i := 0;
    while i < |s|
      invariant i <= |s|
      invariant Unescaped(s) == (Unescaped(s[i..]).0, out + Unescaped(s[i..]).1)
    {
      ghost var rest := s[i..];
      UnescapedStep(rest);
      var c: char;
      var n := 1;
      if s[i] == '%' {
        if i + 3 > |s| {
          return false, out;
        }
        var hex, value := HexPair(s, i);
        if !hex {
          return false, out;
        }
        c := value as char;
        n := 3;
      } else if s[i] in "-_.~:/?#[]@!$&'()*,;=" {
        c := s[i];
      } else if s[i] == '+' {
        c := ' ';
      } else {
        if !IsAlnum(s[i]) {
          return false, out;
        }
        c := s[i];
      }
      assert FirstUnit(rest) == Some((c, n));
      assert s[i + n..] == rest[n..];
      Associative(out, [c], Unescaped(s[i + n..]).1);
      out := out + [c];
      i := i + n;
    }
    UnescapedEnds(s[i..]);
    return true, out;
  }

  lemma UnescapedEnds(s: string)
    ensures s == "" ==> Unescaped(s) == (true, "")
    ensures s[0..] == s
    ensures forall t: string :: "" + t == t && t + "" == t
  {
  }

  lemma UnescapedStep(s: string)
    requires s != ""
    ensures FirstUnit(s).None? ==> Unescaped(s) == (false, "")
    ensures FirstUnit(s).Some? ==> var (c, n) := FirstUnit(s).value;
      Unescaped(s) == (Unescaped(s[n..]).0, [c] + Unescaped(s[n..]).1)
  {
  }

  // -------------------------------------------------------------------------
  // Encoding and decoding are inverse
  // -------------------------------------------------------------------------

  lemma EscapedByteUnit(c: Byte, rest: string)
    ensures FirstUnit(EscapedByte(c) + rest) == Some((c, |EscapedByte(c)|))
  {
  }

  /** Every byte string survives the round trip. */
  lemma {:induction false} UnescapeInvertsEscape(s: seq<Byte>)
    ensures Unescaped(Escaped(s)) == (true, s)
    decreases |s|
  {
    if s != [] {
      var head, tail := EscapedByte(s[0]), Escaped(s[1..]);
      EscapedByteUnit(s[0], tail);
      UnescapedStep(head + tail);
      assert (head + tail)[|head|..] == tail;
      UnescapeInvertsEscape(s[1..]);
      assert s == [s[0]] + s[1..];
    }
  }

  /** Bytes that are not left as they are become three. */
  lemma {:induction false} EscapedLength(s: seq<Byte>)
    ensures |s| <= |Escaped(s)| <= 3 * |s|
    ensures |Escaped(s)| == |s| <==> Escaped(s) == s
    decreases |s|
  {
    if s != [] {
      EscapedLength(s[1..]);
      assert s == [s[0]] + s[1..];
      assert Escaped(s)[|EscapedByte(s[0])|..] == Escaped(s[1..]);
    }
  }

  /** The encoded form holds no delimiter of a URL, query or form. */
  lemma {:induction false} EscapedAlphabet(s: seq<Byte>, c: char)
    requires !Unreserved(c) && c != '%'
    ensures c !in Escaped(s)
    decreases |s|
  {
    if s != [] {
      EscapedAlphabet(s[1..], c);
    }
  }

  // -------------------------------------------------------------------------
  // Queries and forms
  // -------------------------------------------------------------------------

  /** One `key=value` piece; a piece without `=` is dropped, and what does not decode is cut short. */
  function AddedPiece(m: Multimap, piece: string): Multimap {
    var i := Find(piece, '=');
    if i == |piece| then m else Added(m, Unescaped(piece[..i]).1, Unescaped(piece[i + 1..]).1)
  }

  function AddedPieces(m: Multimap, pieces: seq<string>): Multimap
    decreases |pieces|
  {
    if pieces == [] then m else AddedPieces(AddedPiece(m, pieces[0]), pieces[1..])
  }

  /** The part of `s` that holds the pairs: all of a body, of a URL what follows the first `?`. */
  function RawQuery(s: string, body: bool): string {
    var i := Find(s, '?');
    if body then s else if i == |s| then "" else s[i + 1..]
  }

  function Parsed(m: Multimap, s: string, body: bool): Multimap {
    AddedPieces(m, Split(RawQuery(s, body), '&'))
  }

  class Query {
    var params: Multimap

    constructor ()
      ensures params == map[]
    {
      params := map[];
    }

    method Add(key: string, value: string)
      modifies this
      ensures forall k :: Values(k) == if k == key then old(Values(k)) + [value] else old(Values(k))
      ensures forall k :: Has(k) <==> k == key || old(Has(k))
      ensures params == Added(old(params), key, value)
    {
      params := Added(params, key, value);
    }

    method Set(key: string, value: string)
      modifies this
      ensures forall k :: Values(k) == if k == key then [value] else old(Values(k))
      ensures forall k :: Has(k) <==> k == key || old(Has(k))
    {
      params := params[key := [value]];
    }

    method Clear()
      modifies this
      ensures params == map[]
    {
      params := map[];
    }

    predicate Has(key: string)
      reads this
    {
      key in params
    }

    function Values(key: string): seq<string>
      reads this
    {
      if Has(key) then params[key] else []
    }

    method ParseString(s: string, body: bool)
      modifies this
      ensures params == Parsed(old(params), s, body)
    {
      hide AddedPiece;
      if s == "" {
        return;
      }
      var q: seq<string>;
      if !body {
        var pos := Find(s, '?');
        if pos == |s| {
          return;
        }
        var rawQuery := s[pos + 1..];
        if rawQuery == "" {
          return;
        }
        q := StrSplit(rawQuery, '&');
      } else {
        q := StrSplit(s, '&');
      }
      AddPieces(q);
    }

    /** Adds the pairs among the pieces, in order. */
    method AddPieces(q: seq<string>)
      modifies this
      ensures params == AddedPieces(old(params), q)
    {
      hide Unescaped, Added;
      for i := 0 to |q|
        invariant AddedPieces(params, q[i..]) == AddedPieces(old(params), q)
      {
        var pos := Find(q[i], '=');
        if pos < |q[i]| {
          var _, key := UnEscape(q[i][..pos]);
          var _, value := UnEscape(q[i][pos + 1..]);
          Add(key, value);
        }
        assert q[i..][1..] == q[i + 1..];
      }
    }
  }

  class URL {
    var url: string
    const query: Query

    constructor (s: string)
      ensures fresh(query) && url == s && query.params == Parsed(map[], s, false)
    {
      url := s;
      query := new Query();
      new;
      query.ParseString(url, false);
    }

    /** Takes a new string; its query pairs join those that are already there. */
    method Set(s: string)
      modifies this, query
      ensures url == s && query.params == Parsed(old(query.params), s, false)
    {
      url := s;
      query.ParseString(url, false);
    }

    method Reset()
      modifies this, query
      ensures url == "" && query.params == map[] && forall k :: !query.Has(k)
    {
      url := "";
      query.Clear();
    }

    /** The string without its query; all of it while no query pair is known. */
    function StringWithQuery(): string
      reads this, query
    {
      var pos := Find(url, '?');
      if query.params == map[] || pos == |url| then url else url[..pos]
    }
  }

  // -------------------------------------------------------------------------
  // Rendering and parsing pairs are inverse
  // -------------------------------------------------------------------------

  function FormPiece(p: (seq<Byte>, seq<Byte>)): string {
    Escaped(p.0) + ['='] + Escaped(p.1)
  }

  function Form(pairs: seq<(seq<Byte>, seq<Byte>)>): string
    decreases |pairs|
  {
    if pairs == [] then ""
    else if |pairs| == 1 then FormPiece(pairs[0])
    else FormPiece(pairs[0]) + ['&'] + Form(pairs[1..])
  }

  function Texts(pairs: seq<(seq<Byte>, seq<Byte>)>): (r: seq<(string, string)>)
    ensures |r| == |pairs|
    decreases |pairs|
  {
    if pairs == [] then [] else [(pairs[0].0, pairs[0].1)] + Texts(pairs[1..])
  }

  lemma PieceAdds(m: Multimap, p: (seq<Byte>, seq<Byte>))
    ensures AddedPiece(m, FormPiece(p)) == Added(m, p.0, p.1)
    ensures FormPiece(p) != "" && '&' !in FormPiece(p)
  {
    var k, v := Escaped(p.0), Escaped(p.1);
    EscapedAlphabet(p.0, '=');
    EscapedAlphabet(p.0, '&');
    EscapedAlphabet(p.1, '&');
    var piece := FormPiece(p);
    assert piece[|k|] == '=' && piece[..|k|] == k && piece[|k| + 1..] == v;
    FindAt(piece, '=', |k|);
    UnescapeInvertsEscape(p.0);
    UnescapeInvertsEscape(p.1);
  }

  lemma {:induction false} FormAdds(m: Multimap, pairs: seq<(seq<Byte>, seq<Byte>)>)
    ensures AddedPieces(m, Split(Form(pairs), '&')) == AddedAll(m, Texts(pairs))
    decreases |pairs|
  {
    hide Added, FormPiece, AddedPiece;
    if pairs != [] {
      var piece := FormPiece(pairs[0]);
      PieceAdds(m, pairs[0]);
      SplitWhole(piece, '&');
      var m' := AddedPiece(m, piece);
      FormAdds(m', pairs[1..]);
      if |pairs| > 1 {
        SplitConcat(piece, '&', Form(pairs[1..]));
      }
      var rest := Split(Form(pairs[1..]), '&');
      assert Split(Form(pairs), '&') == [piece] + rest;
      assert ([piece] + rest)[1..] == rest;
      assert Texts(pairs)[1..] == Texts(pairs[1..]);
    }
  }

  /**
   * Escaping every part and joining with `=` and `&` is undone by parsing, as a body and behind
   * the first `?` of a URL: the multimap gains exactly the pairs, values in order within each key.
   */
  lemma ParseInvertsForm(m: Multimap, path: string, pairs: seq<(seq<Byte>, seq<Byte>)>, key: string)
    requires '?' !in path
    ensures Parsed(m, Form(pairs), true) == AddedAll(m, Texts(pairs))
    ensures Parsed(m, path + ['?'] + Form(pairs), false) == AddedAll(m, Texts(pairs))
    ensures m == map[] && ValuesOf(Texts(pairs), key) != [] ==>
      key in Parsed(m, Form(pairs), true) && Parsed(m, Form(pairs), true)[key] == ValuesOf(Texts(pairs), key)
  {
    FormAdds(m, pairs);
    var s := path + ['?'] + Form(pairs);
    assert s[|path|] == '?' && s[..|path|] == path && s[|path| + 1..] == Form(pairs);
    FindAt(s, '?', |path|);
    AddedAllGroups(m, Texts(pairs), key);
  }

  /** Some piece of the query holds a `=`, so there is a pair to parse. */
  predicate HasPair(url: string) {
    exists k :: 0 <= k < |Split(RawQuery(url, false), '&')| && '=' in Split(RawQuery(url, false), '&')[k]
  }

  lemma {:induction false} NoPairNoParameter(m: Multimap, pieces: seq<string>)
    ensures AddedPieces(m, pieces) == map[] <==>
      m == map[] && forall k :: 0 <= k < |pieces| ==> '=' !in pieces[k]
    decreases |pieces|
  {
    hide Unescaped;
    if pieces != [] {
      if '=' in pieces[0] {
        var piece, i := pieces[0], Find(pieces[0], '=');
        assert Unescaped(piece[..i]).1 in AddedPiece(m, piece);
      }
      NoPairNoParameter(AddedPiece(m, pieces[0]), pieces[1..]);
      assert forall k :: 0 < k < |pieces| ==> pieces[k] == pieces[1..][k - 1];
    }
  }

  /**
   * Despite its name, `StringWithQuery` of any URL that was set over any earlier pairs drops the
   * query, if and only if there is a `?`, and a pair was known before or the query holds one.
   */
  lemma PathOfURL(u: URL, before: Multimap)
    requires u.query.params == Parsed(before, u.url, false)
    ensures u.StringWithQuery() == if before != map[] || HasPair(u.url) then u.url[..Find(u.url, '?')] else u.url
    ensures u.StringWithQuery() != u.url <==> '?' in u.url && (before != map[] || HasPair(u.url))
  {
    hide Split, AddedPieces;
    NoPairNoParameter(before, Split(RawQuery(u.url, false), '&'));
    assert u.url[..|u.url|] == u.url;
  }

  /** A URL that was set to a path with a query of at least one pair gives the path back. */
  lemma PathOfForm(u: URL, path: string, pairs: seq<(seq<Byte>, seq<Byte>)>)
    requires '?' !in path && u.url == path + ['?'] + Form(pairs)
    requires u.query.params == Parsed(map[], u.url, false)
    ensures u.StringWithQuery() == if pairs == [] then u.url else path
  {
    ParseInvertsForm(map[], path, pairs, "");
    if pairs != [] {
      AddedAllGroups(map[], Texts(pairs), pairs[0].0);
      assert u.url[|path|] == '?' && u.url[..|path|] == path;
      FindAt(u.url, '?', |path|);
    }
  }

  /** `/a?b` keeps its query, which holds no pair, and `/a?b=c` loses it. */
  lemma PathExamples(u: URL, v: URL)
    requires u.url == "/a?b" && u.query.params == Parsed(map[], u.url, false)
    requires v.url == "/a?b=c" && v.query.params == Parsed(map[], v.url, false)
    ensures u.StringWithQuery() == "/a?b" && v.StringWithQuery() == "/a"
  {
    hide Split, Parsed, RawQuery, Find, URL.StringWithQuery;
    PathOfPiece(u, "/a", "b");
    PathOfPiece(v, "/a", "b=c");
    assert "b=c"[1] == '=';
  }

  lemma PathOfPiece(u: URL, path: string, query: string)
    requires u.url == path + "?" + query && '?' !in path && query != "" && '&' !in query
    requires u.query.params == Parsed(map[], u.url, false)
    ensures u.StringWithQuery() == if '=' in query then path else u.url
  {
    hide Split, Parsed, RawQuery, HasPair, Find, URL.StringWithQuery;
    QueryOnly(u.url, path, query);
    PathOfURL(u, map[]);
    assert u.url[..|path|] == path;
  }

  lemma QueryOnly(url: string, path: string, query: string)
    requires url == path + "?" + query && '?' !in path && query != "" && '&' !in query
    ensures Find(url, '?') == |path| && Split(RawQuery(url, false), '&') == [query]
    ensures HasPair(url) <==> '=' in query
  {
    assert url[|path|] == '?' && url[..|path|] == path && url[|path| + 1..] == query;
    FindAt(url, '?', |path|);
    SplitWhole(query, '&');
    hide Split, Find;
    assert [query][0] == query;
  }
}
