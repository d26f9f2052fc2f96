/**
  What `\u` escapes denote (section 7 of RFC 8259) and how their code points are stored
  (section 3 of RFC 3629), stated against a separate UTF-8 decoder.
*/
module JsonUnicode {
  import opened CText
  import opened JsonText
  import opened JsonPrint

  // ----- UTF-8 -----

  predicate IsTrail(b: char) { 0x80 <= b as int < 0xC0 }

  function TrailBits(b: char): (x: nat)
    requires IsTrail(b)
    ensures x < 0x40
  {
    b as int - 0x80
  }

  /** The code point of one UTF-8 sequence: no overlong form, no surrogate, nothing above U+10FFFF. */
  function Utf8Value(bytes: string): (cp: Option<nat>) {
    if |bytes| == 1 && bytes[0] as int < 0x80 then Some(bytes[0] as int)
    else if |bytes| == 2 && 0xC2 <= bytes[0] as int < 0xE0 && IsTrail(bytes[1]) then
      Some((bytes[0] as int - 0xC0) * 0x40 + TrailBits(bytes[1]))
    else if |bytes| == 3 && 0xE0 <= bytes[0] as int < 0xF0 && IsTrail(bytes[1]) && IsTrail(bytes[2]) then
      var cp := (bytes[0] as int - 0xE0) * 0x1000 + TrailBits(bytes[1]) * 0x40 + TrailBits(bytes[2]);
      if cp < 0x800 || 0xD800 <= cp <= 0xDFFF then None else Some(cp)
    else if |bytes| == 4 && 0xF0 <= bytes[0] as int < 0xF5
            && IsTrail(bytes[1]) && IsTrail(bytes[2]) && IsTrail(bytes[3]) then
      var cp := (bytes[0] as int - 0xF0) * 0x40000 + TrailBits(bytes[1]) * 0x1000
                + TrailBits(bytes[2]) * 0x40 + TrailBits(bytes[3]);
      if cp < 0x10000 || cp >= 0x110000 then None else Some(cp)
    else None
  }

  /** Every code point is stored as the well-formed sequence that denotes it. */
  lemma Utf8RoundTrip(cp: nat)
    requires IsScalar(cp)
    ensures Utf8Value(Utf8(cp)) == Some(cp)
  {
    if 0x800 <= cp {
      assert cp / 0x40 / 0x40 == cp / 0x1000;
      assert cp == cp / 0x40 * 0x40 + cp % 0x40;
      assert cp / 0x40 == cp / 0x1000 * 0x40 + cp / 0x40 % 0x40;
      if 0x10000 <= cp {
        assert cp / 0x1000 / 0x40 == cp / 0x40000;
        assert cp / 0x1000 == cp / 0x40000 * 0x40 + cp / 0x1000 % 0x40;
      }
    }
  }

  // ----- escapes -----

  /** `x` is a `\u` escape, in either letter case, for the UTF-16 unit `u`. */
  predicate IsUnit(x: string, u: nat) {
    && |x| == 6 && x[0] == '\\' && x[1] == 'u'
    && (forall i | 2 <= i < 6 :: IsHex(x[i]))
    && Hex4(x[2..]) == u
  }

  function HighHalf(cp: nat): (u: nat)
    requires 0x10000 <= cp < 0x110000
    ensures IsHighSurrogate(u)
  {
    0xD800 + (cp - 0x10000) / 0x400
  }

  function LowHalf(cp: nat): (u: nat)
    requires 0x10000 <= cp < 0x110000
    ensures IsLowSurrogate(u)
  {
    0xDC00 + (cp - 0x10000) % 0x400
  }

  lemma PairOfHalves(cp: nat)
    requires 0x10000 <= cp < 0x110000
    ensures PairValue(HighHalf(cp), LowHalf(cp)) == cp
  {
    var d := cp - 0x10000;
    assert (0xD800 + d / 0x400) % 0x400 == d / 0x400;
    assert (0xDC00 + d % 0x400) % 0x400 == d % 0x400;
  }

  lemma HexPrefix(x: string, s: string)
    requires |x| == 4
    ensures Hex4(x + s) == Hex4(x)
  {
  }

  /** A single escape stands for its code point. */
  lemma UnitDenotes(x: string, u: nat, rest: string)
    requires IsUnit(x, u) && IsScalar(u)
    ensures Decode(x + rest) == Prepend(Utf8(u), Decode(rest))
  {
    hide Utf8, Hex4;
    var t := x + rest;
    assert t[2..] == x[2..] + rest;
    HexPrefix(x[2..], rest);
    assert t[6..] == rest;
    assert UnicodeEscape(t) == Some((u, rest));
  }

  /** A surrogate pair stands for the code point whose halves it names. */
  lemma PairDenotes(x: string, y: string, cp: nat, rest: string)
    requires 0x10000 <= cp < 0x110000
    requires IsUnit(x, HighHalf(cp)) && IsUnit(y, LowHalf(cp))
    ensures Decode(x + (y + rest)) == Prepend(Utf8(cp), Decode(rest))
  {
    hide Utf8, Hex4;
    var t := x + (y + rest);
    assert t[2..] == x[2..] + (y + rest);
    HexPrefix(x[2..], y + rest);
    assert t[8..] == y[2..] + rest;
    HexPrefix(y[2..], rest);
    assert t[12..] == rest;
    PairOfHalves(cp);
    assert t[6] == y[0] && t[7] == y[1];
    assert UnicodeEscape(t) == Some((cp, rest));
  }

  /** The literal starts with an escape for a low surrogate. */
  predicate LowUnitNext(s: string) {
    |s| >= 6 && IsUnit(s[..6], Hex4(s[2..])) && IsLowSurrogate(Hex4(s[2..]))
  }

  /** Zero, lone and reversed surrogates and missing digits are refused, and nothing else. */
  lemma EscapeRefused(body: string)
    requires |body| >= 2 && body[0] == '\\' && body[1] == 'u'
    ensures UnicodeEscape(body).None? <==>
            || Hex4(body[2..]) == 0
            || IsLowSurrogate(Hex4(body[2..]))
            || (IsHighSurrogate(Hex4(body[2..])) && !LowUnitNext(body[6..]))
  {
    if Hex4(body[2..]) != 0 { HexDigits(body[2..]); }
    if |body| >= 6 {
      LowNext(body[6..]);
      hide LowUnitNext, Hex4, Decode;
      if |body| >= 12 {
        assert body[6..][2..] == body[8..];
        assert body[6] == body[6..][0] && body[7] == body[6..][1];
      }
    }
  }

  /** One character that is no hexadecimal digit among the four, or fewer than four, and the escape is refused. */
  lemma BadDigitsRefused(body: string, i: nat)
    requires |body| >= 2 && body[0] == '\\' && body[1] == 'u' && i < 4
    requires |body| < 6 || !IsHex(body[2 + i])
    ensures UnicodeEscape(body) == None
  {
    if |body| >= 6 { assert body[2..][i] == body[2 + i]; }
  }

  lemma HexDigits(s: string)
    requires Hex4(s) != 0
    ensures |s| >= 4 && forall i | 0 <= i < 4 :: IsHex(s[i])
  {
  }

  lemma LowNext(s: string)
    ensures LowUnitNext(s) <==>
            |s| >= 6 && s[0] == '\\' && s[1] == 'u' && IsLowSurrogate(Hex4(s[2..]))
  {
    if |s| >= 6 && IsLowSurrogate(Hex4(s[2..])) {
      HexDigits(s[2..]);
      assert s[2..] == s[..6][2..] + s[6..];
      HexPrefix(s[..6][2..], s[6..]);
      hide Hex4;
      assert forall i | 2 <= i < 6 :: s[..6][i] == s[2..][i - 2];
    }
  }

  // ----- what the parser builds -----

  /** A literal without terminators decodes to a C string. */
  lemma {:induction false} DecodedNulFree(body: string)
    requires NulFree(body)
    ensures Decode(body).Some? ==> NulFree(Decode(body).value)
    decreases |body|
  {
    hide Utf8;
    if body == [] {
    } else if body[0] != '\\' {
      DecodedNulFree(body[1..]);
    } else if |body| == 1 {
    } else if body[1] != 'u' {
      DecodedNulFree(body[2..]);
    } else {
      match UnicodeEscape(body)
      case None =>
      case Some((cp, rest)) =>
        assert NulFree(rest) by { assert rest == body[6..] || rest == body[12..]; }
        DecodedNulFree(rest);
        assert NulFree(Utf8(cp));
    }
  }

  const AnyNumber: Number -> bool := n => true

  lemma {:induction false} SkipNulFree(s: string)
    requires NulFree(s)
    ensures NulFree(Skip(s))
  {
    if s != [] && s[0] <= ' ' { SkipNulFree(s[1..]); }
  }

  lemma {:induction false} DigitsNulFree(n: int, s: string)
    requires NulFree(s)
    ensures NulFree(Digits(n, s).1)
    decreases |s|
  {
    if s != [] && IsDigit(s[0]) { DigitsNulFree(n * 10 + DigitValue(s[0]), s[1..]); }
  }

  lemma NumberNulFree(s: string)
    requires NulFree(s)
    ensures NulFree(ParseNumber(s).1)
  {
    hide Digits;
    var (sign, a) := Sign(s);
    var a' := if Head(a) == '0' then a[1..] else a;
    DigitsNulFree(0, a');
    var (n, b) := Whole(a);
    assert NulFree(b);
    if Head(b) == '.' { DigitsNulFree(n, b[1..]); }
    var (m, c) := Fraction(n, b);
    assert NulFree(c);
    if Head(c) == 'e' || Head(c) == 'E' {
      DigitsNulFree(0, c[1..]);
      if |c| > 1 { DigitsNulFree(0, c[2..]); }
    }
  }

  lemma StringNulFree(s: string)
    requires NulFree(s) && ParseString(s).Ok?
    ensures NulFree(ParseString(s).value) && NulFree(ParseString(s).rest)
  {
    hide Decode, ScanBody;
    var n := ScanBody(s[1..]).value;
    assert NulFree(s[1..][..n]);
    DecodedNulFree(s[1..][..n]);
  }

  /** Every string in a parsed tree is a C string. */
  lemma {:induction false} ValueNulFree(s: string)
    requires NulFree(s) && ParseValue(s).Ok?
    ensures Sound(ParseValue(s).value, AnyNumber) && NulFree(ParseValue(s).rest)
    decreases |s|, 1
  {
    hide ParseString, ParseNumber, ParseArray, ParseObject;
    if Head(s) == '\"' {
      StringNulFree(s);
    } else if Head(s) == '-' || IsDigit(Head(s)) {
      NumberNulFree(s);
    } else if Head(s) == '[' {
      ArrayNulFree(s);
    } else if Head(s) == '{' {
      ObjectNulFree(s);
    }
    Dispatch(s);
  }

  lemma {:induction false} ArrayNulFree(s: string)
    requires NulFree(s) && Head(s) == '[' && ParseArray(s).Ok?
    ensures Sound(ParseArray(s).value, AnyNumber) && NulFree(ParseArray(s).rest)
    decreases |s|, 0
  {
    hide ParseValue, NextItem, Skip;
    SkipNulFree(s[1..]);
    var t := Skip(s[1..]);
    if Head(t) != ']' { ItemsNulFree([], t); }
  }

  lemma {:induction false} ItemsNulFree(items: seq<Json>, s: string)
    requires NulFree(s) && NextItem(items, s).Ok? && forall x | x in items :: Sound(x, AnyNumber)
    ensures Sound(NextItem(items, s).value, AnyNumber) && NulFree(NextItem(items, s).rest)
    decreases |s|, 2
  {
    hide ParseValue, Skip;
    ValueNulFree(s);
    var Ok(item, rest) := ParseValue(s);
    SkipNulFree(rest);
    var t := Skip(rest);
    assert NextItem(items, s) == ArrayTail(items + [item], t);
    if Head(t) == ',' {
      hide NextItem;
      SkipNulFree(t[1..]);
      ItemsNulFree(items + [item], Skip(t[1..]));
    }
  }

  lemma {:induction false} MemberNulFree(s: string)
    requires NulFree(s) && ParseMember(s).Ok?
    ensures var m := ParseMember(s).value;
            NulFree(m.name) && Sound(m.value, AnyNumber) && NulFree(ParseMember(s).rest)
    decreases |s|, 2
  {
    hide ParseString, ParseValue, Skip;
    StringNulFree(s);
    var t := Skip(ParseString(s).rest);
    SkipNulFree(ParseString(s).rest);
    SkipNulFree(t[1..]);
    ValueNulFree(Skip(t[1..]));
  }

  lemma {:induction false} ObjectNulFree(s: string)
    requires NulFree(s) && Head(s) == '{' && ParseObject(s).Ok?
    ensures Sound(ParseObject(s).value, AnyNumber) && NulFree(ParseObject(s).rest)
    decreases |s|, 0
  {
    hide ParseMember, NextMember, Skip;
    SkipNulFree(s[1..]);
    var t := Skip(s[1..]);
    if Head(t) != '}' { MembersNulFree([], t); }
  }

  lemma {:induction false} MembersNulFree(members: seq<Member>, s: string)
    requires NulFree(s) && NextMember(members, s).Ok?
    requires forall m | m in members :: NulFree(m.name) && Sound(m.value, AnyNumber)
    ensures Sound(NextMember(members, s).value, AnyNumber) && NulFree(NextMember(members, s).rest)
    decreases |s|, 3
  {
    hide ParseMember, Skip;
    MemberNulFree(s);
    var Ok(member, rest) := ParseMember(s);
    SkipNulFree(rest);
    var t := Skip(rest);
    assert NextMember(members, s) == ObjectTail(members + [member], t);
    if Head(t) == ',' {
      hide NextMember;
      SkipNulFree(t[1..]);
      MembersNulFree(members + [member], Skip(t[1..]));
    }
  }
}
