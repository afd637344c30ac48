/** A reader of serialized cookies, with its own names of the attributes: what was written is read back. */
module CookieReaders {
  import opened Strings
  import opened Numbers
  import opened Cookies

  // -------------------------------------------------------------------------
  // The reader
  // -------------------------------------------------------------------------

  /** The pieces between the separators. */
  function Pieces(s: string): (r: seq<string>)
    ensures r != []
    decreases |s|
  {
    if Occurs(s, "; ") then [BeforeFirst(s, "; ")] + Pieces(AfterFirst(s, "; ")) else [s]
  }

  function Number(s: string): int {
    if "-" <= s then 0 - Natural(s[1..]) else Natural(s)
  }

  function WithPair(piece: string): Cookie {
    var i := Find(piece, '=');
    Plain(piece[..i], if i == |piece| then "" else piece[i + 1..])
  }

  function WithAttribute(c: Cookie, piece: string): Cookie {
    if "Path=" <= piece then c.(path := piece[5..])
    else if "Domain=" <= piece then c.(domain := piece[7..])
    else if "Expires=" <= piece then c.(expireAt := Some(piece[8..]))
    else if "Max-Age=" <= piece then c.(maxAge := Some(Number(piece[8..])))
    else if piece == "HttpOnly" then c.(httpOnly := true)
    else if piece == "Secure" then c.(secure := true)
    else if piece == "SameSite=Lax" then c.(sameSite := Some(Lax))
    else if piece == "SameSite=Strict" then c.(sameSite := Some(Strict))
    else if piece == "SameSite=None" then c.(sameSite := Some(NoPolicy))
    else c
  }

  function CookieOf(pieces: seq<string>): Cookie
    requires pieces != []
    decreases |pieces|
  {
    if |pieces| == 1 then WithPair(pieces[0])
    else WithAttribute(CookieOf(pieces[..|pieces| - 1]), pieces[|pieces| - 1])
  }

  function CookieRead(s: string): Cookie {
    CookieOf(Pieces(s))
  }

  // -------------------------------------------------------------------------
  // Numbers
  // -------------------------------------------------------------------------

  lemma NaturalDecimal(n: nat)
    ensures Natural(Decimal(n)) == n && forall k :: 0 <= k < |Decimal(n)| ==> OnlyDigit(Decimal(n)[k])
  {
    DecimalDigits(n);
    hide Decimal, DecimalDigit, DigitsValue;
    forall k | 0 <= k < |Decimal(n)|
      ensures DecimalDigit(Decimal(n)[k])
    {
      DigitChar(Decimal(n)[k]);
    }
    DigitsNatural(Decimal(n));
  }

  /** Decimal text is read as the number it stands for, and holds no semicolon. */
  lemma NumberDecimal(n: int)
    ensures Number(Decimal(n)) == n && ';' !in Decimal(n)
  {
    hide Natural;
    if n < 0 {
      NaturalDecimal(-n);
      assert ("-" + Decimal(-n))[1..] == Decimal(-n);
    } else {
      NaturalDecimal(n);
      assert Decimal(n)[0] != '-';
    }
  }

  // -------------------------------------------------------------------------
  // Pieces
  // -------------------------------------------------------------------------

  predicate NoSeparator(s: string) {
    !Occurs(s, "; ")
  }

  predicate Clean(pieces: seq<string>) {
    forall k :: 0 <= k < |pieces| ==> NoSeparator(pieces[k])
  }

  lemma PartOfClean(s: string, i: nat, j: nat)
    requires NoSeparator(s) && i <= j <= |s|
    ensures NoSeparator(s[i..j])
  {
    NoOccurrence(s, "; ");
    NoOccurrence(s[i..j], "; ");
    hide Occurs;
  }

  /** A text behind a character that does not belong to the separator, or behind no semicolon. */
  lemma CleanBehind(a: string, b: string)
    requires NoSeparator(a) && NoSeparator(b) && (a == "" || a[|a| - 1] != ';')
    ensures NoSeparator(a + b)
  {
    NoOccurrence(a, "; ");
    NoOccurrence(b, "; ");
    NoOccurrence(a + b, "; ");
    hide Occurs;
    var s := a + b;
    forall j | 0 <= j < |s| - 1
      ensures !(s[j] == ';' && s[j + 1] == ' ')
    {
      if j >= |a| {
        assert s[j] == b[j - |a|] && s[j + 1] == b[j + 1 - |a|];
      }
    }
  }

  lemma CleanWithoutSemicolon(s: string)
    requires ';' !in s
    ensures NoSeparator(s)
  {
    NoOccurrence(s, "; ");
    hide Occurs;
  }

  lemma {:induction false} PiecesClean(s: string)
    ensures Clean(Pieces(s))
    decreases |s|
  {
    hide FindSub;
    if Occurs(s, "; ") {
      CutAtFirst(s, "; ");
      PiecesClean(AfterFirst(s, "; "));
    }
  }

  lemma {:induction false} TerminatedCons(p: string, parts: seq<string>)
    ensures Terminated([p] + parts) == p + ("; " + Terminated(parts))
    decreases |parts|
  {
    var all := [p] + parts;
    if parts == [] {
      assert all[..0] == [] && Terminated([]) == "";
      assert "" + (p + "; ") == p + ("; " + "");
    } else {
      var n := |parts| - 1;
      assert all[..n + 1] == [p] + parts[..n];
      TerminatedCons(p, parts[..n]);
      Associative(p + "; ", Terminated(parts[..n]), parts[n] + "; ");
      Associative(p, "; ", Terminated(parts[..n]));
      Associative(p, "; ", Terminated(parts));
    }
  }

  lemma SeparatedCons(p: string, parts: seq<string>)
    requires parts != []
    ensures Separated([p] + parts) == p + ("; " + Separated(parts))
  {
    var n := |parts| - 1;
    assert ([p] + parts)[..n + 1] == [p] + parts[..n];
    TerminatedCons(p, parts[..n]);
    Associative(p + "; ", Terminated(parts[..n]), parts[n]);
    Associative(p, "; ", Terminated(parts[..n]));
    Associative(p, "; ", Separated(parts));
  }

  /** Clean parts come back as the pieces between the separators. */
  lemma {:induction false} PiecesOfSeparated(parts: seq<string>)
    requires parts != [] && Clean(parts)
    ensures Pieces(Separated(parts)) == parts
    decreases |parts|
  {
    var p, rest := parts[0], parts[1..];
    assert parts == [p] + rest;
    hide FindSub;
    if rest == [] {
      assert Terminated(parts[..0]) == "" && Separated(parts) == p;
    } else {
      SeparatedCons(p, rest);
      FindSubAfter(p, "; ", Separated(rest));
      Associative(p, "; ", Separated(rest));
      hide Separated;
      PiecesOfSeparated(rest);
    }
  }

  // -------------------------------------------------------------------------
  // The text of a cookie
  // -------------------------------------------------------------------------

  lemma SeparatedWith(parts: seq<string>, isSet: bool, part: string)
    requires parts != []
    ensures Separated(With(parts, isSet, part)) == Separated(parts) + Attribute(isSet, part)
  {
    if isSet {
      var n := |parts| - 1;
      assert (parts + [part])[..n + 1] == parts;
      Associative(Terminated(parts[..n]), parts[n], "; ");
      Associative(Separated(parts), "; ", part);
    } else {
      assert Separated(parts) + "" == Separated(parts);
    }
  }

  function Attribute(isSet: bool, text: string): string {
    if isSet then "; " + text else ""
  }

  /** The text of every cookie, spelled out. */
  lemma SerializedText(c: Cookie)
    requires c.name != ""
    ensures Serialized(c) == c.name + "=" + c.value
      + Attribute(c.path != "", "Path=" + c.path)
      + Attribute(c.domain != "", "Domain=" + c.domain)
      + Attribute(c.expireAt.Some?, "Expires=" + c.expireAt.GetOr(""))
      + Attribute(c.maxAge.Some?, "Max-Age=" + Decimal(c.maxAge.GetOr(0)))
      + Attribute(c.httpOnly, "HttpOnly")
      + Attribute(c.secure, "Secure")
      + Attribute(c.sameSite == Some(Lax), "SameSite=Lax")
      + Attribute(c.sameSite == Some(Strict), "SameSite=Strict")
      + Attribute(c.sameSite == Some(NoPolicy), "SameSite=None")
  {
    ValuesText(c);
    FlagsText(c, ValueParts(c));
    hide Separated, With, Decimal, Attribute, ValueParts, FlagParts;
  }

  lemma ValuesText(c: Cookie)
    ensures Separated(ValueParts(c)) == c.name + "=" + c.value
      + Attribute(c.path != "", "Path=" + c.path)
      + Attribute(c.domain != "", "Domain=" + c.domain)
      + Attribute(c.expireAt.Some?, "Expires=" + c.expireAt.GetOr(""))
      + Attribute(c.maxAge.Some?, "Max-Age=" + Decimal(c.maxAge.GetOr(0)))
  {
    var p0 := With([], true, c.name + "=" + c.value);
    assert Separated(p0) == c.name + "=" + c.value by {
      assert p0[..0] == [] && Terminated([]) == "" && [] + [c.name + "=" + c.value] == [c.name + "=" + c.value];
    }
    hide Separated, Decimal;
    var p1 := With(p0, c.path != "", "Path=" + c.path);
    var p2 := With(p1, c.domain != "", "Domain=" + c.domain);
    var p3 := With(p2, c.expireAt.Some?, "Expires=" + c.expireAt.GetOr(""));
    SeparatedWith(p0, c.path != "", "Path=" + c.path);
    SeparatedWith(p1, c.domain != "", "Domain=" + c.domain);
    SeparatedWith(p2, c.expireAt.Some?, "Expires=" + c.expireAt.GetOr(""));
    SeparatedWith(p3, c.maxAge.Some?, "Max-Age=" + Decimal(c.maxAge.GetOr(0)));
  }

  lemma FlagsText(c: Cookie, parts: seq<string>)
    requires parts != []
    ensures Separated(FlagParts(c, parts)) == Separated(parts)
      + Attribute(c.httpOnly, "HttpOnly")
      + Attribute(c.secure, "Secure")
      + Attribute(c.sameSite == Some(Lax), "SameSite=Lax")
      + Attribute(c.sameSite == Some(Strict), "SameSite=Strict")
      + Attribute(c.sameSite == Some(NoPolicy), "SameSite=None")
  {
    hide Separated, PolicyName, Attribute, With;
    var policy := "SameSite=" + PolicyName(c.sameSite.GetOr(Lax));
    var p1 := With(parts, c.httpOnly, "HttpOnly");
    var p2 := With(p1, c.secure, "Secure");
    SeparatedWith(parts, c.httpOnly, "HttpOnly");
    SeparatedWith(p1, c.secure, "Secure");
    SeparatedWith(p2, c.sameSite.Some?, policy);
    PolicyAttribute(Separated(p2), c.sameSite);
  }

  lemma PolicyAttribute(front: string, p: Option<SameSite>)
    ensures front + Attribute(p.Some?, "SameSite=" + PolicyName(p.GetOr(Lax))) == front
      + Attribute(p == Some(Lax), "SameSite=Lax")
      + Attribute(p == Some(Strict), "SameSite=Strict")
      + Attribute(p == Some(NoPolicy), "SameSite=None")
  {
    PolicyText(p.GetOr(Lax));
    hide PolicyName;
  }

  lemma PolicyText(p: SameSite)
    ensures "SameSite=" + PolicyName(p) ==
      if p == Lax then "SameSite=Lax" else if p == Strict then "SameSite=Strict" else "SameSite=None"
  {
  }

  // -------------------------------------------------------------------------
  // Reading back
  // -------------------------------------------------------------------------

  lemma CookieOfWith(parts: seq<string>, isSet: bool, part: string)
    requires parts != []
    ensures CookieOf(With(parts, isSet, part)) ==
      if isSet then WithAttribute(CookieOf(parts), part) else CookieOf(parts)
  {
    hide WithAttribute, WithPair;
    assert (parts + [part])[..|parts|] == parts;
  }

  lemma PairRead(name: string, value: string)
    requires '=' !in name
    ensures CookieOf([name + "=" + value]) == Plain(name, value)
  {
    var s := name + "=" + value;
    assert s[..|name|] == name && s[|name|] == '=' && s[|name| + 1..] == value;
    FindAt(s, '=', |name|);
  }

  lemma TextAttributes(c: Cookie, x: string, n: int)
    ensures WithAttribute(c, "Path=" + x) == c.(path := x)
    ensures WithAttribute(c, "Domain=" + x) == c.(domain := x)
    ensures WithAttribute(c, "Expires=" + x) == c.(expireAt := Some(x))
    ensures WithAttribute(c, "Max-Age=" + Decimal(n)) == c.(maxAge := Some(n))
  {
    NumberDecimal(n);
    hide Number, Decimal;
    assert ("Path=" + x)[5..] == x && ("Domain=" + x)[7..] == x && ("Expires=" + x)[8..] == x;
    assert ("Max-Age=" + Decimal(n))[8..] == Decimal(n);
    assert ("Domain=" + x)[0] == 'D' && ("Expires=" + x)[0] == 'E' && ("Max-Age=" + Decimal(n))[0] == 'M';
    assert "Path="[0] == 'P' && "Domain="[0] == 'D' && "Expires="[0] == 'E';
  }

  lemma ValuesRead(c: Cookie)
    requires '=' !in c.name
    ensures CookieOf(ValueParts(c)) ==
      Plain(c.name, c.value).(path := c.path, domain := c.domain, expireAt := c.expireAt, maxAge := c.maxAge)
  {
    PairRead(c.name, c.value);
    var p0 := With([], true, c.name + "=" + c.value);
    assert p0 == [c.name + "=" + c.value];
    hide CookieOf, WithAttribute, Decimal;
    var p1 := With(p0, c.path != "", "Path=" + c.path);
    var p2 := With(p1, c.domain != "", "Domain=" + c.domain);
    var p3 := With(p2, c.expireAt.Some?, "Expires=" + c.expireAt.GetOr(""));
    CookieOfWith(p0, c.path != "", "Path=" + c.path);
    TextAttributes(CookieOf(p0), c.path, 0);
    CookieOfWith(p1, c.domain != "", "Domain=" + c.domain);
    TextAttributes(CookieOf(p1), c.domain, 0);
    CookieOfWith(p2, c.expireAt.Some?, "Expires=" + c.expireAt.GetOr(""));
    TextAttributes(CookieOf(p2), c.expireAt.GetOr(""), 0);
    CookieOfWith(p3, c.maxAge.Some?, "Max-Age=" + Decimal(c.maxAge.GetOr(0)));
    TextAttributes(CookieOf(p3), "", c.maxAge.GetOr(0));
  }

  lemma FlagAttributes(c: Cookie)
    ensures WithAttribute(c, "HttpOnly") == c.(httpOnly := true)
    ensures WithAttribute(c, "Secure") == c.(secure := true)
  {
    hide Number;
    assert "Path="[0] == 'P' && "Domain="[0] == 'D' && "Expires="[0] == 'E' && "Max-Age="[0] == 'M';
    assert "HttpOnly"[0] == 'H' && "Secure"[0] == 'S';
  }

  lemma PolicyAttributes(c: Cookie, p: SameSite)
    ensures WithAttribute(c, "SameSite=" + PolicyName(p)) == c.(sameSite := Some(p))
  {
    PolicyText(p);
    hide PolicyName, Number;
    assert "Path="[0] == 'P' && "Domain="[0] == 'D' && "Expires="[0] == 'E' && "Max-Age="[0] == 'M';
    assert "HttpOnly"[0] == 'H' && "Secure"[0] == 'S' && "Secure"[1] == 'e';
    assert "SameSite=Lax"[..2] == "Sa" && "SameSite=Strict"[..2] == "Sa" && "SameSite=None"[..2] == "Sa";
    assert "SameSite=Lax"[9] == 'L' && "SameSite=Strict"[9] == 'S' && "SameSite=None"[9] == 'N';
  }

  lemma FlagsRead(c: Cookie, parts: seq<string>)
    requires parts != []
    requires !CookieOf(parts).httpOnly && !CookieOf(parts).secure && CookieOf(parts).sameSite == None
    ensures CookieOf(FlagParts(c, parts)) ==
      CookieOf(parts).(httpOnly := c.httpOnly, secure := c.secure, sameSite := c.sameSite)
  {
    hide CookieOf, WithAttribute, PolicyName;
    var p1 := With(parts, c.httpOnly, "HttpOnly");
    var p2 := With(p1, c.secure, "Secure");
    var policy := c.sameSite.GetOr(Lax);
    CookieOfWith(parts, c.httpOnly, "HttpOnly");
    FlagAttributes(CookieOf(parts));
    CookieOfWith(p1, c.secure, "Secure");
    FlagAttributes(CookieOf(p1));
    CookieOfWith(p2, c.sameSite.Some?, "SameSite=" + PolicyName(policy));
    PolicyAttributes(CookieOf(p2), policy);
  }

  /** No text of the cookie holds the separator, and its name no `=`. */
  predicate TextsOk(c: Cookie) {
    && '=' !in c.name && NoSeparator(c.name) && NoSeparator(c.value)
    && NoSeparator(c.path) && NoSeparator(c.domain) && NoSeparator(c.expireAt.GetOr(""))
  }

  lemma CleanWith(parts: seq<string>, isSet: bool, part: string)
    requires Clean(parts) && (isSet ==> NoSeparator(part))
    ensures Clean(With(parts, isSet, part))
  {
    hide NoSeparator;
  }

  lemma CleanText(key: string, x: string)
    requires NoSeparator(x) && ';' !in key
    ensures NoSeparator(key + x)
  {
    hide NoSeparator;
    CleanWithoutSemicolon(key);
    CleanBehind(key, x);
  }

  lemma CleanParts(c: Cookie)
    requires TextsOk(c)
    ensures Clean(Parts(c))
  {
    hide NoSeparator, Clean, ValueParts, FlagParts;
    CleanValues(c);
    CleanFlags(c, ValueParts(c));
  }

  lemma CleanValues(c: Cookie)
    requires TextsOk(c)
    ensures Clean(ValueParts(c))
  {
    hide NoSeparator, Decimal, Clean, With;
    CleanText("Path=", c.path);
    CleanText("Domain=", c.domain);
    CleanText("Expires=", c.expireAt.GetOr(""));
    NumberDecimal(c.maxAge.GetOr(0));
    CleanWithoutSemicolon("Max-Age=" + Decimal(c.maxAge.GetOr(0)));
    CleanFirst(c);
    var p := With([], true, c.name + "=" + c.value);
    CleanWith(p, c.path != "", "Path=" + c.path);
    p := With(p, c.path != "", "Path=" + c.path);
    CleanWith(p, c.domain != "", "Domain=" + c.domain);
    p := With(p, c.domain != "", "Domain=" + c.domain);
    CleanWith(p, c.expireAt.Some?, "Expires=" + c.expireAt.GetOr(""));
    p := With(p, c.expireAt.Some?, "Expires=" + c.expireAt.GetOr(""));
    CleanWith(p, c.maxAge.Some?, "Max-Age=" + Decimal(c.maxAge.GetOr(0)));
  }

  lemma CleanFirst(c: Cookie)
    requires TextsOk(c)
    ensures Clean(With([], true, c.name + "=" + c.value))
  {
    hide NoSeparator;
    CleanPair(c);
    CleanWith([], true, c.name + "=" + c.value);
  }

  lemma CleanFlags(c: Cookie, parts: seq<string>)
    requires Clean(parts)
    ensures Clean(FlagParts(c, parts))
  {
    hide NoSeparator, Clean, With, PolicyName;
    var policy := "SameSite=" + PolicyName(c.sameSite.GetOr(Lax));
    CleanWithoutSemicolon("HttpOnly");
    CleanWithoutSemicolon("Secure");
    CleanPolicy(c.sameSite.GetOr(Lax));
    CleanWith(parts, c.httpOnly, "HttpOnly");
    var p := With(parts, c.httpOnly, "HttpOnly");
    CleanWith(p, c.secure, "Secure");
    p := With(p, c.secure, "Secure");
    CleanWith(p, c.sameSite.Some?, policy);
  }

  lemma CleanPolicy(p: SameSite)
    ensures NoSeparator("SameSite=" + PolicyName(p))
  {
    hide NoSeparator;
    CleanWithoutSemicolon("SameSite=" + PolicyName(p));
  }

  lemma CleanPair(c: Cookie)
    requires TextsOk(c)
    ensures NoSeparator(c.name + "=" + c.value)
  {
    hide NoSeparator;
    CleanWithoutSemicolon("=");
    CleanEnds(c.name, '=');
    CleanBehind(c.name + "=", c.value);
  }

  lemma CleanEnds(s: string, c: char)
    requires NoSeparator(s) && c != ' '
    ensures NoSeparator(s + [c])
  {
    NoOccurrence(s, "; ");
    NoOccurrence(s + [c], "; ");
    hide Occurs;
  }

  lemma PairTexts(piece: string)
    requires NoSeparator(piece)
    ensures TextsOk(WithPair(piece))
  {
    var i := Find(piece, '=');
    PartOfClean(piece, 0, i);
    if i < |piece| {
      PartOfClean(piece, i + 1, |piece|);
      assert piece[i + 1..|piece|] == piece[i + 1..];
    }
    assert piece[0..i] == piece[..i];
    CleanWithoutSemicolon("");
    hide NoSeparator, Find;
  }

  lemma TailClean(piece: string, i: nat)
    requires NoSeparator(piece) && i <= |piece|
    ensures NoSeparator(piece[i..])
  {
    PartOfClean(piece, i, |piece|);
    assert piece[i..|piece|] == piece[i..];
  }

  lemma AttributeTexts(c: Cookie, piece: string)
    requires TextsOk(c) && NoSeparator(piece)
    ensures TextsOk(WithAttribute(c, piece))
  {
    hide NoSeparator, Number;
    if "Path=" <= piece {
      TailClean(piece, 5);
    } else if "Domain=" <= piece {
      TailClean(piece, 7);
    } else if "Expires=" <= piece {
      TailClean(piece, 8);
    }
  }

  /** Whatever is read holds no separator. */
  lemma {:induction false} ReadTexts(pieces: seq<string>)
    requires pieces != [] && Clean(pieces)
    ensures TextsOk(CookieOf(pieces))
    decreases |pieces|
  {
    hide NoSeparator, WithPair, WithAttribute, TextsOk;
    if |pieces| == 1 {
      PairTexts(pieces[0]);
    } else {
      ReadTexts(pieces[..|pieces| - 1]);
      AttributeTexts(CookieOf(pieces[..|pieces| - 1]), pieces[|pieces| - 1]);
    }
  }

  /**
   * A reader that knows the attributes by these names gets the whole cookie back, if and only if
   * none of its texts holds the separator and its name holds no `=`.
   */
  lemma CookieReadsBack(c: Cookie)
    requires c.name != ""
    ensures CookieRead(Serialized(c)) == c <==> TextsOk(c)
  {
    PiecesClean(Serialized(c));
    ReadTexts(Pieces(Serialized(c)));
    if TextsOk(c) {
      CleanParts(c);
      PiecesOfSeparated(Parts(c));
      ValuesRead(c);
      FlagsRead(c, ValueParts(c));
    }
  }

  /** A cookie with all attributes: what is sent, piece by piece. */
  lemma FullCookieExample()
    ensures Pieces(Serialized(Cookie("a", "1", "/", "x.y", Some("Mon"), Some(-5), true, true, Some(Strict)))) ==
      ["a=1", "Path=/", "Domain=x.y", "Expires=Mon", "Max-Age=-5", "HttpOnly", "Secure", "SameSite=Strict"]
  {
    var c := Cookie("a", "1", "/", "x.y", Some("Mon"), Some(-5), true, true, Some(Strict));
    hide NoSeparator, Separated, Parts, Pieces;
    FullCookieParts(c);
    FullCookieTexts(c);
    CleanParts(c);
    PiecesOfSeparated(Parts(c));
  }

  lemma FullCookieTexts(c: Cookie)
    requires c == Cookie("a", "1", "/", "x.y", Some("Mon"), Some(-5), true, true, Some(Strict))
    ensures TextsOk(c)
  {
    hide NoSeparator;
    CleanWithoutSemicolon("a");
    CleanWithoutSemicolon("1");
    CleanWithoutSemicolon("/");
    CleanWithoutSemicolon("x.y");
    CleanWithoutSemicolon("Mon");
  }

  lemma FullCookieParts(c: Cookie)
    requires c == Cookie("a", "1", "/", "x.y", Some("Mon"), Some(-5), true, true, Some(Strict))
    ensures Parts(c) ==
      ["a=1", "Path=/", "Domain=x.y", "Expires=Mon", "Max-Age=-5", "HttpOnly", "Secure", "SameSite=Strict"]
  {
    MinusFive();
    hide Decimal;
    assert "a" + "=" + "1" == "a=1" && "Path=" + "/" == "Path=/" && "Domain=" + "x.y" == "Domain=x.y";
    assert "Expires=" + "Mon" == "Expires=Mon" && "Max-Age=" + "-5" == "Max-Age=-5";
    assert "SameSite=" + "Strict" == "SameSite=Strict";
  }

  lemma MinusFive()
    ensures Decimal(-5) == "-5"
  {
  }

  /** A cookie with one attribute. */
  lemma PolicyExample()
    ensures Serialized(Plain("a", "1").(sameSite := Some(Lax))) == "a=1; SameSite=Lax"
  {
    var c := Plain("a", "1").(sameSite := Some(Lax));
    hide Serialized, Decimal;
    SerializedText(c);
    assert Serialized(c) == "a" + "=" + "1" + "" + "" + "" + "" + "" + "" + ("; " + "SameSite=Lax") + "" + "";
    LaxShown();
  }

  lemma LaxShown()
    ensures "a" + "=" + "1" + "" + "" + "" + "" + "" + "" + ("; " + "SameSite=Lax") + "" + "" == "a=1; SameSite=Lax"
  {
  }
}
