/**
  The grammar accepted by the JSON parser, as functions on the remaining text: what
  `parse_value` and the functions below it return for every input.
*/
module JsonText {
  import opened CText

  /** A number is kept as the two integers that `parse_number` hands to `pow`. */
  datatype Number = Number(mantissa: int, exponent: int)

  datatype Json =
    | Null
    | Bool(b: bool)
    | Num(number: Number)
    | Str(text: string)
    | Arr(items: seq<Json>)
    | Obj(members: seq<Member>)

  datatype Member = Member(name: string, value: Json)

  /**
    Outcome of a parsing function: a value and the rest of the text, the error position, or
    `Overrun` where the C code reads past the terminator (a lone backslash ends the text).
  */
  datatype Parsed<+T> = Ok(value: T, rest: string) | Err(ep: string) | Overrun {
    predicate IsFailure() { !Ok? }
    function PropagateFailure<U>(): Parsed<U>
      requires IsFailure()
    {
      if Err? then Parsed<U>.Err(ep) else Parsed<U>.Overrun
    }
    function Extract(): (T, string)
      requires Ok?
    {
      (value, rest)
    }
  }

  // ----- white space -----

  function Skip(s: string): (r: string)
    ensures |r| <= |s|
    ensures r != [] ==> r[0] > ' '
  {
    if s != [] && s[0] <= ' ' then Skip(s[1..]) else s
  }

  // ----- numbers -----

  predicate IsDigit(c: char) { '0' <= c <= '9' }

  function DigitValue(c: char): (d: nat)
    requires IsDigit(c)
    ensures d < 10
  {
    c as int - '0' as int
  }

  /** Accumulates decimal digits onto `n` as long as there are any. */
  function Digits(n: int, s: string): (r: (int, string))
    ensures |r.1| <= |s|
    ensures IsDigit(Head(s)) ==> |r.1| < |s|
    decreases |s|
  {
    if s != [] && IsDigit(s[0]) then Digits(n * 10 + DigitValue(s[0]), s[1..]) else (n, s)
  }

  function Sign(s: string): (r: (int, string))
    ensures |s| - 1 <= |r.1| <= |s|
    ensures Head(s) == '-' ==> |r.1| < |s|
  {
    if Head(s) == '-' then (-1, s[1..]) else (1, s)
  }

  function Whole(s: string): (r: (int, string))
    ensures |r.1| <= |s|
    ensures IsDigit(Head(s)) ==> |r.1| < |s|
  {
    var t := if Head(s) == '0' then s[1..] else s;
    if IsDigit(Head(t)) && Head(t) != '0' then Digits(0, t) else (0, t)
  }

  function Fraction(n: int, s: string): (r: (int, string))
    ensures |r.1| <= |s|
  {
    if Head(s) == '.' && IsDigit(Head(s[1..])) then Digits(n, s[1..]) else (n, s)
  }

  function Exponent(s: string): (r: (int, string))
    ensures |r.1| <= |s|
  {
    if Head(s) != 'e' && Head(s) != 'E' then (0, s)
    else if Head(s[1..]) == '+' then Digits(0, s[2..])
    else if Head(s[1..]) == '-' then
      var (x, r) := Digits(0, s[2..]);
      (-x, r)
    else Digits(0, s[1..])
  }

  /** Decimal places read by `Fraction`: the digits between the point and the rest. */
  function Places(before: string, after: string): nat {
    if |after| < |before| then |before| - |after| - 1 else 0
  }

  function ParseNumber(s: string): (r: (Number, string))
    ensures |r.1| <= |s|
    ensures Head(s) == '-' || IsDigit(Head(s)) ==> |r.1| < |s|
  {
    var (sign, a) := Sign(s);
    var (n, b) := Whole(a);
    var (m, c) := Fraction(n, b);
    var (x, d) := Exponent(c);
    (Number(sign * m, x - Places(b, c)), d)
  }

  // ----- strings -----

  function HexValue(c: char): (h: int)
    ensures -1 <= h < 16
  {
    if '0' <= c <= '9' then c as int - '0' as int
    else if 'A' <= c <= 'F' then 10 + (c as int - 'A' as int)
    else if 'a' <= c <= 'f' then 10 + (c as int - 'a' as int)
    else -1
  }

  predicate IsHex(c: char) { HexValue(c) >= 0 }

  /** Four hexadecimal digits, or zero when one of them is not a digit. */
  function Hex4(s: string): (u: nat)
    ensures u < 0x10000
  {
    if |s| >= 4 && IsHex(s[0]) && IsHex(s[1]) && IsHex(s[2]) && IsHex(s[3]) then
      ((HexValue(s[0]) * 16 + HexValue(s[1])) * 16 + HexValue(s[2])) * 16 + HexValue(s[3])
    else 0
  }

  predicate IsHighSurrogate(u: nat) { 0xD800 <= u <= 0xDBFF }
  predicate IsLowSurrogate(u: nat) { 0xDC00 <= u <= 0xDFFF }

  /** The code points that UTF-8 may carry (section 3 of RFC 3629), except zero. */
  predicate IsScalar(cp: nat) { 0 < cp < 0x110000 && !(0xD800 <= cp <= 0xDFFF) }

  /** The code point of a surrogate pair. */
  function PairValue(high: nat, low: nat): (cp: nat)
    requires IsHighSurrogate(high) && IsLowSurrogate(low)
    ensures 0x10000 <= cp < 0x110000
  {
    0x10000 + (high % 0x400) * 0x400 + low % 0x400
  }

  function Utf8(cp: nat): (bytes: string)
    requires IsScalar(cp)
    ensures 1 <= |bytes| <= 4
    ensures |bytes| <= 3 || cp >= 0x10000
    ensures forall i | 0 <= i < |bytes| :: '\0' < bytes[i] && bytes[i] as int < 0x100
  {
    if cp < 0x80 then [cp as char]
    else if cp < 0x800 then [(0xC0 + cp / 0x40) as char, Trail(cp)]
    else if cp < 0x10000 then [(0xE0 + cp / 0x1000) as char, Trail(cp / 0x40), Trail(cp)]
    else [(0xF0 + cp / 0x40000) as char, Trail(cp / 0x1000), Trail(cp / 0x40), Trail(cp)]
  }

  function Trail(cp: nat): (b: char)
    ensures 0x80 <= b as int < 0xC0
  {
    (0x80 + cp % 0x40) as char
  }

  /** A one-letter escape; unknown letters stand for themselves. */
  function Unescape(c: char): char {
    match c
    case 'b' => '\U{0008}'
    case 'f' => '\U{000C}'
    case 'n' => '\n'
    case 'r' => '\r'
    case 't' => '\t'
    case _ => c
  }

  /** Length of the literal's body up to the closing quote or the end; a backslash takes two. */
  function ScanBody(s: string): (n: Option<nat>)
    ensures n.Some? ==> n.value <= |s|
  {
    if s == [] || s[0] == '\"' then Some(0)
    else if s[0] != '\\' then
      var k := ScanBody(s[1..]);
      if k.Some? then Some(k.value + 1) else None
    else if |s| == 1 then None
    else
      var k := ScanBody(s[2..]);
      if k.Some? then Some(k.value + 2) else None
  }

  /** The code point that a `\u` escape at the start of `body` denotes and the text after it. */
  function UnicodeEscape(body: string): (r: Option<(nat, string)>)
    requires |body| >= 2 && body[0] == '\\' && body[1] == 'u'
    ensures r.Some? ==> IsScalar(r.value.0) && |r.value.1| + 6 <= |body|
    ensures r.Some? && r.value.0 >= 0x10000 ==> |r.value.1| + 12 <= |body|
  {
    var uc := Hex4(body[2..]);
    if |body| < 6 || IsLowSurrogate(uc) || uc == 0 then None
    else if !IsHighSurrogate(uc) then Some((uc, body[6..]))
    else if |body| < 12 || body[6] != '\\' || body[7] != 'u' then None
    else
      var uc2 := Hex4(body[8..]);
      if !IsLowSurrogate(uc2) then None else Some((PairValue(uc, uc2), body[12..]))
  }

  /** The characters a literal's body denotes. */
  function Decode(body: string): (r: Option<string>)
    ensures r.Some? ==> |r.value| <= |body|
    decreases |body|
  {
    if body == [] then Some([])
    else if body[0] != '\\' then Prepend([body[0]], Decode(body[1..]))
    else if |body| == 1 then None
    else if body[1] != 'u' then Prepend([Unescape(body[1])], Decode(body[2..]))
    else
      match UnicodeEscape(body)
      case None => None
      case Some((cp, rest)) => Prepend(Utf8(cp), Decode(rest))
  }

  /** Drops the closing quote, if there is one: a literal may also end with the text. */
  function AfterBody(s: string): (r: string)
    ensures |s| - 1 <= |r| <= |s|
  {
    if Head(s) == '\"' then s[1..] else s
  }

  function ParseString(s: string): (r: Parsed<string>)
    ensures r.Ok? ==> |r.rest| < |s|
  {
    if Head(s) != '\"' then Err(s)
    else
      match ScanBody(s[1..])
      case None => Overrun
      case Some(n) =>
        match Decode(s[1..][..n])
        case None => Err(s)
        case Some(text) => Ok(text, AfterBody(s[1..][n..]))
  }

  // ----- values -----

  function ParseValue(s: string): (r: Parsed<Json>)
    ensures r.Ok? ==> |r.rest| < |s|
    decreases |s|, 1
  {
    if StartsWith(s, "null") then Ok(Null, s[4..])
    else if StartsWith(s, "false") then Ok(Bool(false), s[5..])
    else if StartsWith(s, "true") then Ok(Bool(true), s[4..])
    else if Head(s) == '\"' then
      var (text, rest) :- ParseString(s);
      Ok(Str(text), rest)
    else if Head(s) == '-' || IsDigit(Head(s)) then
      var (n, rest) := ParseNumber(s);
      Ok(Num(n), rest)
    else if Head(s) == '[' then ParseArray(s)
    else if Head(s) == '{' then ParseObject(s)
    else Err(s)
  }

  function ParseArray(s: string): (r: Parsed<Json>)
    requires Head(s) == '['
    ensures r.Ok? ==> |r.rest| < |s|
    decreases |s|, 0
  {
    var t := Skip(s[1..]);
    if Head(t) == ']' then Ok(Arr([]), t[1..]) else NextItem([], t)
  }

  /** An array from its next item on, behind the items already read. */
  function NextItem(items: seq<Json>, s: string): (r: Parsed<Json>)
    ensures r.Ok? ==> |r.rest| < |s|
    decreases |s|, 2
  {
    var (item, rest) :- ParseValue(s);
    ArrayTail(items + [item], Skip(rest))
  }

  /** An array from the comma or bracket behind an item on. */
  function ArrayTail(items: seq<Json>, s: string): (r: Parsed<Json>)
    ensures r.Ok? ==> |r.rest| < |s|
    decreases |s|, 0
  {
    if Head(s) == ',' then NextItem(items, Skip(s[1..]))
    else if Head(s) == ']' then Ok(Arr(items), s[1..])
    else Err(s)
  }

  function ParseMember(s: string): (r: Parsed<Member>)
    ensures r.Ok? ==> |r.rest| < |s|
    decreases |s|, 0
  {
    var (name, rest) :- ParseString(s);
    var t := Skip(rest);
    if Head(t) != ':' then Err(t)
    else
      var (value, after) :- ParseValue(Skip(t[1..]));
      Ok(Member(name, value), after)
  }

  function ParseObject(s: string): (r: Parsed<Json>)
    requires Head(s) == '{'
    ensures r.Ok? ==> |r.rest| < |s|
    decreases |s|, 0
  {
    var t := Skip(s[1..]);
    if Head(t) == '}' then Ok(Obj([]), t[1..]) else NextMember([], t)
  }

  /** An object from its next member on, behind the members already read. */
  function NextMember(members: seq<Member>, s: string): (r: Parsed<Json>)
    ensures r.Ok? ==> |r.rest| < |s|
    decreases |s|, 2
  {
    var (member, rest) :- ParseMember(s);
    ObjectTail(members + [member], Skip(rest))
  }

  /** An object from the comma or brace behind a member on. */
  function ObjectTail(members: seq<Member>, s: string): (r: Parsed<Json>)
    ensures r.Ok? ==> |r.rest| < |s|
    decreases |s|, 0
  {
    if Head(s) == ',' then NextMember(members, Skip(s[1..]))
    else if Head(s) == '}' then Ok(Obj(members), s[1..])
    else Err(s)
  }

  /** `cJSON_ParseWithOpts`; with `whole` nothing but white space may follow the value. */
  function Parse(text: string, whole: bool): (r: Parsed<Json>)
    ensures r.Ok? && whole ==> r.rest == []
  {
    var (value, rest) :- ParseValue(Skip(text));
    if !whole then Ok(value, rest)
    else if Skip(rest) != [] then Err(Skip(rest))
    else Ok(value, [])
  }

  /** Which branch `ParseValue` takes, by the first character. */
  lemma Dispatch(s: string)
    ensures Head(s) == '\"' ==>
              ParseValue(s) == (var p := ParseString(s);
                                if p.Ok? then Ok(Str(p.value), p.rest) else p.PropagateFailure())
    ensures Head(s) == '-' || IsDigit(Head(s)) ==>
              ParseValue(s) == Ok(Num(ParseNumber(s).0), ParseNumber(s).1)
    ensures Head(s) == '[' ==> ParseValue(s) == ParseArray(s)
    ensures Head(s) == '{' ==> ParseValue(s) == ParseObject(s)
  {
    hide ParseString, ParseNumber, ParseArray, ParseObject;
    if s != [] {
      assert StartsWith(s, "null") ==> s[..4][0] == 'n';
      assert StartsWith(s, "false") ==> s[..5][0] == 'f';
      assert StartsWith(s, "true") ==> s[..4][0] == 't';
    }
  }

  lemma ArrayOpened(s: string, u: string)
    requires Head(s) == '[' && Skip(s[1..]) == u
    ensures ParseValue(s) == if Head(u) == ']' then Ok(Arr([]), u[1..]) else NextItem([], u)
  {
    hide ParseValue, NextItem, Skip;
    Dispatch(s);
  }

  lemma ObjectOpened(s: string, u: string)
    requires Head(s) == '{' && Skip(s[1..]) == u
    ensures ParseValue(s) == if Head(u) == '}' then Ok(Obj([]), u[1..]) else NextMember([], u)
  {
    hide ParseValue, NextMember, Skip;
    Dispatch(s);
  }

  /** The three literal words. */
  lemma LiteralParsed(word: string, rest: string)
    requires word == "null" || word == "false" || word == "true"
    ensures ParseValue(word + rest) ==
            Ok(if word == "null" then Null else Bool(word == "true"), rest)
  {
    hide ParseString, ParseNumber, ParseArray, ParseObject;
    var s := word + rest;
    assert s[..|word|] == word;
    assert s[|word|..] == rest;
    assert s[0] == word[0];
    assert StartsWith(s, "null") ==> s[..4][0] == 'n';
    assert StartsWith(s, "false") ==> s[..5][0] == 'f';
  }
}
