/** Bounds, and numbers written as text. */
module Numbers {
  import opened Strings

  function Min(a: nat, b: nat): nat {
    if a <= b then a else b
  }

  function Max(a: nat, b: nat): nat {
    if a >= b then a else b
  }

  predicate OnlyDigit(c: char) {
    '0' <= c <= '9'
  }

  /** Decimal text of an integer (`std::to_string`). */
  function Decimal(n: int): (r: string)
    ensures r != ""
    decreases if n < 0 then 1 - n else n
  {
    if n < 0 then "-" + Decimal(-n)
    else if n < 10 then [(n + '0' as int) as char]
    else Decimal(n / 10) + [(n % 10 + '0' as int) as char]
  }

  const TWO_64 := 0x1_0000_0000_0000_0000

  /** The value of the leading digits of `s`, `v` being that of the digits before. */
  function DigitsValue(s: string, v: nat): nat
    decreases |s|
  {
    if s != "" && OnlyDigit(s[0]) then DigitsValue(s[1..], v * 10 + (s[0] as int - '0' as int)) else v
  }

  function SkipSpace(s: string): string {
    if s != "" && (IsBlank(s[0]) || s[0] == '\U{000B}' || s[0] == '\U{000C}') then SkipSpace(s[1..]) else s
  }

  /** `std::stoull`: leading space, a sign, digits; what follows is ignored, and a minus wraps around. */
  function UInt64(s: string): (r: Option<nat>)
    ensures r.Some? ==> r.value < TWO_64
  {
    var t := SkipSpace(s);
    var signed := t != "" && t[0] in "+-";
    var digits := if signed then t[1..] else t;
    if digits == "" || !OnlyDigit(digits[0]) then None
    else
      var v := DigitsValue(digits, 0);
      if v >= TWO_64 then None
      else if signed && t[0] == '-' && v > 0 then Some(TWO_64 - v)
      else Some(v)
  }

  lemma {:induction false} DigitsAppend(s: string, c: char, v: nat)
    requires (forall k :: 0 <= k < |s| ==> OnlyDigit(s[k])) && OnlyDigit(c)
    ensures DigitsValue(s + [c], v) == DigitsValue(s, v) * 10 + (c as int - '0' as int)
    decreases |s|
  {
    if s == "" {
      assert ("" + [c])[1..] == "";
    } else {
      assert (s + [c])[1..] == s[1..] + [c];
      DigitsAppend(s[1..], c, v * 10 + (s[0] as int - '0' as int));
    }
  }

  lemma {:induction false} DecimalDigits(n: nat)
    ensures forall k :: 0 <= k < |Decimal(n)| ==> OnlyDigit(Decimal(n)[k])
    ensures DigitsValue(Decimal(n), 0) == n
    decreases n
  {
    if n >= 10 {
      DecimalDigits(n / 10);
      DigitsAppend(Decimal(n / 10), (n % 10 + '0' as int) as char, 0);
    } else {
      assert Decimal(n)[1..] == "";
    }
  }

  /** Decimal text is read back, as long as the number fits into 64 bits. */
  lemma DecimalRead(n: nat)
    ensures UInt64(Decimal(n)) == if n < TWO_64 then Some(n) else None
  {
    hide DigitsValue, Decimal;
    DecimalDigits(n);
    var s := Decimal(n);
    assert OnlyDigit(s[0]);
    assert SkipSpace(s) == s;
  }

  // -------------------------------------------------------------------------
  // Every number `std::stoull` reads
  // -------------------------------------------------------------------------

  /** The value of decimal digits, by their places in the alphabet of digits. */
  function Natural(s: string): nat
    decreases |s|
  {
    if s == "" then 0 else 10 * Natural(s[..|s| - 1]) + Find("0123456789", s[|s| - 1])
  }

  predicate DecimalDigit(c: char) {
    c in "0123456789"
  }

  predicate Space(c: char) {
    c in " \t\n\U{000B}\U{000C}\r"
  }

  lemma DigitChar(c: char)
    ensures DecimalDigit(c) <==> OnlyDigit(c)
  {
    var s := "0123456789";
    assert forall k :: 0 <= k < 10 ==> s[k] as int == '0' as int + k;
    if '0' <= c <= '9' {
      assert s[c as int - '0' as int] == c;
    }
  }

  lemma DigitPlace(c: char)
    requires OnlyDigit(c)
    ensures Find("0123456789", c) == c as int - '0' as int
  {
    var s := "0123456789";
    assert forall k :: 0 <= k < 10 ==> s[k] as int == '0' as int + k;
    hide Find;
    assert s[c as int - '0' as int] == c;
  }

  predicate AllDigits(s: string) {
    s != "" && forall k :: 0 <= k < |s| ==> DecimalDigit(s[k])
  }

  lemma {:induction false} DigitsRead(s: string, rest: string)
    requires AllDigits(s) && (rest != "" ==> !DecimalDigit(rest[0]))
    ensures DigitsValue(s + rest, 0) == Natural(s)
    decreases |s|
  {
    DigitsOnly(s, rest, 0);
    DigitsNatural(s);
  }

  lemma {:induction false} DigitsOnly(s: string, rest: string, v: nat)
    requires (forall k :: 0 <= k < |s| ==> DecimalDigit(s[k])) && (rest != "" ==> !DecimalDigit(rest[0]))
    ensures DigitsValue(s + rest, v) == DigitsValue(s, v)
    decreases |s|
  {
    hide DecimalDigit;
    if s == "" {
      assert s + rest == rest;
      if rest != "" {
        DigitChar(rest[0]);
      }
    } else {
      DigitChar(s[0]);
      assert (s + rest)[1..] == s[1..] + rest;
      DigitsOnly(s[1..], rest, v * 10 + (s[0] as int - '0' as int));
    }
  }

  lemma {:induction false} DigitsNatural(s: string)
    requires forall k :: 0 <= k < |s| ==> DecimalDigit(s[k])
    ensures DigitsValue(s, 0) == Natural(s)
    decreases |s|
  {
    hide Find, DecimalDigit;
    if s != "" {
      var front, c := s[..|s| - 1], s[|s| - 1];
      DigitsNatural(front);
      DigitChar(c);
      DigitPlace(c);
      forall k | 0 <= k < |front|
        ensures OnlyDigit(front[k])
      {
        DigitChar(front[k]);
      }
      DigitsAppend(front, c, 0);
      assert front + [c] == s;
    }
  }

  predicate AllSpace(s: string) {
    forall k :: 0 <= k < |s| ==> Space(s[k])
  }

  lemma {:induction false} SpaceSkipped(space: string, t: string)
    requires AllSpace(space) && (t != "" ==> !Space(t[0]))
    ensures SkipSpace(space + t) == t
    decreases |space|
  {
    if space == "" {
      assert space + t == t;
    } else {
      assert (space + t)[1..] == space[1..] + t;
      SpaceSkipped(space[1..], t);
    }
  }

  /**
   * White space, a sign, digits and anything that is no digit behind them: the number of the
   * digits, its 64-bit complement behind a minus, and none when it does not fit.
   */
  lemma NumberRead(space: string, sign: string, digits: string, rest: string)
    requires AllSpace(space) && sign in {"", "+", "-"} && AllDigits(digits)
    requires rest != "" ==> !DecimalDigit(rest[0])
    ensures UInt64(space + (sign + (digits + rest))) ==
      if Natural(digits) >= 0x1_0000_0000_0000_0000 then None
      else if sign == "-" && Natural(digits) > 0 then Some(0x1_0000_0000_0000_0000 - Natural(digits))
      else Some(Natural(digits))
  {
    hide DecimalDigit, Space, SkipSpace, DigitsValue, Natural, OnlyDigit, UInt64;
    var u := digits + rest;
    DigitChar(digits[0]);
    SignNoSpace(digits[0]);
    DigitsRead(digits, rest);
    if sign == "" {
      assert sign + u == u;
      SpaceSkipped(space, u);
      Unsigned(space + u, u);
    } else {
      var c := sign[0];
      assert sign == [c];
      SpaceSkipped(space, [c] + u);
      Signed(space + ([c] + u), c, u);
    }
  }

  lemma Unsigned(s: string, u: string)
    requires SkipSpace(s) == u && u != "" && OnlyDigit(u[0])
    ensures UInt64(s) == if DigitsValue(u, 0) >= TWO_64 then None else Some(DigitsValue(u, 0))
  {
    hide SkipSpace, DigitsValue;
  }

  lemma Signed(s: string, sign: char, u: string)
    requires SkipSpace(s) == [sign] + u && (sign == '+' || sign == '-') && u != "" && OnlyDigit(u[0])
    ensures UInt64(s) ==
      if DigitsValue(u, 0) >= TWO_64 then None
      else if sign == '-' && DigitsValue(u, 0) > 0 then Some(TWO_64 - DigitsValue(u, 0))
      else Some(DigitsValue(u, 0))
  {
    hide SkipSpace, DigitsValue;
    assert ([sign] + u)[1..] == u;
  }

  lemma SignNoSpace(c: char)
    ensures OnlyDigit(c) ==> !Space(c)
    ensures !Space('+') && !Space('-')
  {
  }

  /** Nothing else is a number. */
  lemma NumberFound(s: string) returns (space: string, sign: string, digits: string, rest: string)
    requires UInt64(s).Some?
    ensures AllSpace(space) && sign in {"", "+", "-"} && AllDigits(digits)
    ensures (rest != "" ==> !DecimalDigit(rest[0])) && s == space + (sign + (digits + rest))
  {
    hide AllSpace, AllDigits, DecimalDigit, DigitsValue, SkipSpace;
    var t := SkipSpace(s);
    space := SpaceFound(s);
    sign := if t[0] in "+-" then [t[0]] else "";
    var u := if t[0] in "+-" then t[1..] else t;
    assert t == sign + u;
    digits, rest := DigitsFound(u);
  }

  lemma {:induction false} SpaceFound(s: string) returns (space: string)
    ensures AllSpace(space) && s == space + SkipSpace(s)
    decreases |s|
  {
    if SkipSpace(s) == s {
      space := "";
    } else {
      var more := SpaceFound(s[1..]);
      space := [s[0]] + more;
    }
  }

  lemma {:induction false} DigitsFound(s: string) returns (digits: string, rest: string)
    requires s != "" && OnlyDigit(s[0])
    ensures AllDigits(digits) && (rest != "" ==> !DecimalDigit(rest[0])) && s == digits + rest
    decreases |s|
  {
    DigitChar(s[0]);
    if |s| > 1 {
      DigitChar(s[1]);
    }
    hide DecimalDigit, OnlyDigit;
    if |s| > 1 && OnlyDigit(s[1]) {
      var more, left := DigitsFound(s[1..]);
      digits, rest := [s[0]] + more, left;
      assert s == [s[0]] + s[1..];
      Associative([s[0]], more, left);
      assert forall k :: 0 < k < |digits| ==> digits[k] == more[k - 1];
    } else {
      digits, rest := [s[0]], s[1..];
    }
  }
}
