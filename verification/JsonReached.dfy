/**
  Exactly when the parser reads past the end of its text: when it reaches a literal that is left
  open behind an unpaired backslash. Whether it reaches a literal is seen by parsing the text in
  front of it with an empty literal in its place, which never reads past the end.
*/
module JsonReached {
  import opened CText
  import opened JsonText
  import opened JsonSuffix
  import opened JsonMinifyParse
  import opened JsonOverrun

  /** The empty literal. */
  const Empty: string := "\"\""

  /** A literal that is left open behind an unpaired backslash. */
  predicate Open(t: string) { Head(t) == '\"' && Unclosed(t[1..]) && Odd(Slashes(t[1..])) }

  /** The parser has read the whole text: it accepts, or misses what comes next. */
  predicate AtEnd<T>(r: Parsed<T>) { (r.Ok? && r.rest == []) || r == Err([]) }

  /** The parser stops in front of something. */
  predicate Blocked<T>(r: Parsed<T>) { (r.Err? && r.ep != []) || (r.Ok? && r.rest == "\"") }

  /**
    `r` is the outcome on a text with the open literal `t` at its end, `r'` the one with an empty
    literal in its place: they are the same up to `t`, unless the parser runs off or is blocked.
  */
  predicate Agree<T(==)>(r: Parsed<T>, r': Parsed<T>, t: string, w: string) {
    r.Overrun? ||
    if r.Ok? && |r.rest| >= |t| then r.rest == w + t && r' == Ok(r.value, w + Empty) else Blocked(r')
  }

  // ----- a quote stops everything but literals -----

  lemma {:induction false} SkipTail(u: string, t: string)
    requires Head(t) == '\"'
    ensures Skip(u + t) == Skip(u) + t
    decreases |u|
  {
    if u == [] {
      assert u + t == t;
    } else {
      assert (u + t)[1..] == u[1..] + t;
      SkipTail(u[1..], t);
    }
  }

  lemma {:induction false} DigitsTail(n: int, u: string, t: string)
    requires Head(t) == '\"'
    ensures Digits(n, u + t) == (Digits(n, u).0, Digits(n, u).1 + t)
    decreases |u|
  {
    if u == [] {
      assert u + t == t;
    } else {
      assert (u + t)[1..] == u[1..] + t;
      if IsDigit(u[0]) { DigitsTail(n * 10 + DigitValue(u[0]), u[1..], t); }
    }
  }

  lemma FirstOf(u: string, t: string)
    requires Head(t) == '\"'
    ensures Head(u + t) == if u == [] then '\"' else u[0]
    ensures u != [] ==> (u + t)[1..] == u[1..] + t
    ensures |u| > 1 ==> (u + t)[2..] == u[2..] + t
    ensures u == [] ==> u + t == t
  {
  }

  lemma WholeTail(u: string, t: string)
    requires Head(t) == '\"'
    ensures Whole(u + t) == (Whole(u).0, Whole(u).1 + t)
  {
    hide Digits;
    FirstOf(u, t);
    if Head(u) == '0' {
      FirstOf(u[1..], t);
      DigitsTail(0, u[1..], t);
    } else {
      DigitsTail(0, u, t);
    }
  }

  lemma FractionTail(n: int, u: string, t: string)
    requires Head(t) == '\"'
    ensures Fraction(n, u + t) == (Fraction(n, u).0, Fraction(n, u).1 + t)
  {
    hide Digits;
    FirstOf(u, t);
    if u != [] {
      FirstOf(u[1..], t);
      DigitsTail(n, u[1..], t);
    }
  }

  lemma ExponentTail(u: string, t: string)
    requires Head(t) == '\"'
    ensures Exponent(u + t) == (Exponent(u).0, Exponent(u).1 + t)
  {
    hide Digits;
    FirstOf(u, t);
    if u != [] {
      FirstOf(u[1..], t);
      DigitsTail(0, u[1..], t);
      if |u| > 1 { DigitsTail(0, u[2..], t); }
    }
  }

  lemma NumberTail(u: string, t: string)
    requires Head(t) == '\"'
    ensures ParseNumber(u + t) == (ParseNumber(u).0, ParseNumber(u).1 + t)
  {
    hide Whole, Fraction, Exponent;
    FirstOf(u, t);
    var (sign, a) := Sign(u);
    WholeTail(a, t);
    var (n, b) := Whole(a);
    FractionTail(n, b, t);
    var (m, c) := Fraction(n, b);
    ExponentTail(c, t);
  }

  lemma WordTail(u: string, t: string, word: string)
    requires Head(t) == '\"' && '\"' !in word
    ensures StartsWith(u + t, word) <==> StartsWith(u, word)
    ensures StartsWith(u, word) ==> (u + t)[|word|..] == u[|word|..] + t
  {
    var s := u + t;
    if |word| <= |u| {
      assert s[..|word|] == u[..|word|];
    } else if |word| <= |s| {
      assert s[..|word|][|u|] == '\"';
    }
  }

  // ----- literals -----

  /** A quote inside a body comes behind its end, ends it, or is escaped and passed. */
  lemma {:induction false} ScanPast(x: string, j: nat)
    requires j < |x| && x[j] == '\"'
    ensures (ScanBody(x).Some? && ScanBody(x).value <= j) || (ScanBody(x).None? <==> ScanBody(x[j + 1..]).None?)
    decreases |x|
  {
    if x[0] == '\"' {
    } else if x[0] != '\\' {
      ScanPast(x[1..], j - 1);
      assert x[1..][j..] == x[j + 1..];
    } else if j == 1 {
    } else {
      ScanPast(x[2..], j - 2);
      assert x[2..][j - 1..] == x[j + 1..];
    }
  }

  /** A closed literal does not depend on what follows it. */
  lemma LiteralLocal(s: string, n: nat, w: string)
    requires Head(s) == '\"' && ScanBody(s[1..]) == Some(n) && n + 1 < |s|
    ensures var y := s[..n + 2] + w; var body := Decode(s[1..][..n]);
            ParseString(y) == if body.Some? then Ok(body.value, w) else Err(y)
  {
    hide ScanBody, Decode;
    ScanClosed(s[1..], w);
    var y := s[..n + 2] + w;
    assert y[1..] == s[1..][..n + 1] + w;
    assert y[1..][..n] == s[1..][..n];
    assert y[1..][n] == s[1..][n];
    assert y[1..][n..][1..] == w;
  }

  lemma StringAgrees(u: string, t: string) returns (w: string)
    requires Open(t)
    ensures Agree(ParseString(u + t), ParseString(u + Empty), t, w)
  {
    hide ScanBody, Decode, Slashes, Unclosed;
    w := [];
    FirstOf(u, t);
    FirstOf(u, Empty);
    if u == [] {
      LiteralOverruns(t);
    } else if u[0] == '\"' {
      var x := u[1..] + t;
      assert x[|u| - 1] == '\"' && x[|u|..] == t[1..];
      ScanPast(x, |u| - 1);
      ScanOverruns(t[1..]);
      if ScanBody(x).Some? {
        var n := ScanBody(x).value;
        if n < |u| - 1 { w := ClosedBefore(u, t, n); } else { ClosedAt(u, t); }
      }
    }
  }

  /** The literal at the start ends in front of the quote. */
  lemma ClosedBefore(u: string, t: string, n: nat) returns (w: string)
    requires Head(t) == '\"' && Head(u) == '\"' && ScanBody(u[1..] + t) == Some(n) && n + 1 < |u|
    ensures Agree(ParseString(u + t), ParseString(u + Empty), t, w)
  {
    hide ScanBody, Decode, ParseString;
    var s := u + t;
    assert s[1..] == u[1..] + t && s[0] == u[0];
    w := u[n + 2..];
    assert s[..n + 2] == u[..n + 2];
    Split2(u, n + 2);
    Assoc3(u[..n + 2], w, t);
    Assoc3(u[..n + 2], w, Empty);
    assert (u + Empty)[0] == u[0];
    LiteralLocal(s, n, w + t);
    LiteralLocal(s, n, w + Empty);
  }

  /** The quote ends the literal at the start. */
  lemma ClosedAt(u: string, t: string)
    requires Head(t) == '\"' && Head(u) == '\"' && ScanBody(u[1..] + t) == Some(|u| - 1)
    ensures Agree(ParseString(u + t), ParseString(u + Empty), t, [])
  {
    hide ScanBody, Decode, ParseString;
    var s, n := u + t, |u| - 1;
    assert s[1..] == u[1..] + t && s[0] == u[0];
    assert s[..n + 2] == u + "\"";
    assert t == "\"" + t[1..];
    Assoc3(u, "\"", t[1..]);
    Assoc3(u, "\"", "\"");
    assert "\"" + "\"" == Empty;
    LiteralLocal(s, n, t[1..]);
    LiteralLocal(s, n, "\"");
  }

  // ----- values: what the parser does in front of the open literal -----

  lemma {:induction false} ValueAgrees(u: string, t: string) returns (w: string)
    requires Open(t)
    ensures Agree(ParseValue(u + t), ParseValue(u + Empty), t, w)
    decreases |u|, 1
  {
    hide ParseString, ParseNumber, ParseArray, ParseObject, Unclosed, Slashes;
    w := [];
    FirstOf(u, t);
    FirstOf(u, Empty);
    WordsTail(u, t);
    WordsTail(u, Empty);
    if StartsWith(u, "null") || StartsWith(u, "true") {
      w := u[4..];
    } else if StartsWith(u, "false") {
      w := u[5..];
    } else if u == [] || u[0] == '\"' {
      w := StringAgrees(u, t);
    } else if u[0] == '-' || IsDigit(u[0]) {
      NumberTail(u, t);
      NumberTail(u, Empty);
      w := ParseNumber(u).1;
    } else if u[0] == '[' {
      w := ArrayAgrees(u, t);
    } else if u[0] == '{' {
      w := ObjectAgrees(u, t);
    }
    Dispatch(u + t);
    Dispatch(u + Empty);
  }

  lemma WordsTail(u: string, t: string)
    requires Head(t) == '\"'
    ensures StartsWith(u + t, "null") <==> StartsWith(u, "null")
    ensures StartsWith(u + t, "true") <==> StartsWith(u, "true")
    ensures StartsWith(u + t, "false") <==> StartsWith(u, "false")
    ensures |u| >= 4 ==> (u + t)[4..] == u[4..] + t
    ensures |u| >= 5 ==> (u + t)[5..] == u[5..] + t
  {
    hide StartsWith;
    WordTail(u, t, "null");
    WordTail(u, t, "true");
    WordTail(u, t, "false");
  }

  lemma {:induction false} ArrayAgrees(u: string, t: string) returns (w: string)
    requires Open(t) && Head(u) == '['
    ensures Agree(ParseArray(u + t), ParseArray(u + Empty), t, w)
    decreases |u|, 0
  {
    hide NextItem, Skip, Unclosed, Slashes;
    FirstOf(u, t);
    FirstOf(u, Empty);
    SkipTail(u[1..], t);
    SkipTail(u[1..], Empty);
    var v := Skip(u[1..]);
    FirstOf(v, t);
    FirstOf(v, Empty);
    if Head(v) == ']' { w := v[1..]; } else { w := ItemsAgree([], v, t); }
  }

  lemma {:induction false} ItemsAgree(items: seq<Json>, u: string, t: string) returns (w: string)
    requires Open(t)
    ensures Agree(NextItem(items, u + t), NextItem(items, u + Empty), t, w)
    decreases |u|, 2
  {
    hide ParseValue, ArrayTail, Skip, Unclosed, Slashes;
    w := ValueAgrees(u, t);
    var r := ParseValue(u + t);
    if r.Ok? {
      if |r.rest| >= |t| {
        SkipTail(w, t);
        SkipTail(w, Empty);
        w := TailAgrees(items + [r.value], Skip(w), t);
      } else {
        TailStops(items, u + Empty);
        TailShort(items + [r.value], Skip(r.rest));
      }
    } else if !r.Overrun? {
      TailStops(items, u + Empty);
    }
  }

  /** A value that is blocked blocks the array. */
  lemma TailStops(items: seq<Json>, s: string)
    requires Blocked(ParseValue(s))
    ensures Blocked(NextItem(items, s))
  {
    hide ParseValue;
    assert Skip("\"") == "\"";
  }

  /** Parsing only shortens. */
  lemma TailShort(items: seq<Json>, s: string)
    ensures ArrayTail(items, s).Ok? ==> |ArrayTail(items, s).rest| < |s|
  {
  }

  lemma {:induction false} TailAgrees(items: seq<Json>, u: string, t: string) returns (w: string)
    requires Open(t)
    ensures Agree(ArrayTail(items, u + t), ArrayTail(items, u + Empty), t, w)
    decreases |u|, 0
  {
    hide NextItem, Skip, Unclosed, Slashes;
    w := [];
    FirstOf(u, t);
    FirstOf(u, Empty);
    if Head(u) == ',' {
      SkipTail(u[1..], t);
      SkipTail(u[1..], Empty);
      w := ItemsAgree(items, Skip(u[1..]), t);
    } else if Head(u) == ']' {
      w := u[1..];
    }
  }

  lemma {:induction false} MemberAgrees(u: string, t: string) returns (w: string)
    requires Open(t)
    ensures Agree(ParseMember(u + t), ParseMember(u + Empty), t, w)
    decreases |u|, 2
  {
    hide ParseString, ParseValue, Skip, Unclosed, Slashes;
    w := StringAgrees(u, t);
    var r := ParseString(u + t);
    if r.Ok? && |r.rest| >= |t| {
      hide Agree;
      SkipTail(w, t);
      SkipTail(w, Empty);
      NamedAgrees(u + t, u + Empty, r.value, r.rest, w + Empty);
      w := ColonAgrees(r.value, Skip(w), t);
    } else if !r.Overrun? {
      NameStops(u + Empty);
    }
  }

  /** A member from behind its name on. */
  function Named(name: string, s: string): Parsed<Member> {
    if Head(s) != ':' then Err(s)
    else
      var (value, after) :- ParseValue(Skip(s[1..]));
      Ok(Member(name, value), after)
  }

  lemma NamedAgrees(s: string, s': string, name: string, rest: string, rest': string)
    requires ParseString(s) == Ok(name, rest) && ParseString(s') == Ok(name, rest')
    ensures ParseMember(s) == Named(name, Skip(rest)) && ParseMember(s') == Named(name, Skip(rest'))
  {
    hide ParseString, ParseValue, Skip;
  }

  lemma {:induction false} ColonAgrees(name: string, u: string, t: string) returns (w: string)
    requires Open(t)
    ensures Agree(Named(name, u + t), Named(name, u + Empty), t, w)
    decreases |u|, 2
  {
    hide ParseValue, Skip, Unclosed, Slashes;
    w := [];
    FirstOf(u, t);
    FirstOf(u, Empty);
    if Head(u) == ':' {
      SkipTail(u[1..], t);
      SkipTail(u[1..], Empty);
      w := ValueAgrees(Skip(u[1..]), t);
    }
  }

  lemma NameStops(s: string)
    requires Blocked(ParseString(s))
    ensures Blocked(ParseMember(s))
  {
    hide ParseString;
    assert Skip("\"") == "\"";
  }

  lemma {:induction false} ObjectAgrees(u: string, t: string) returns (w: string)
    requires Open(t) && Head(u) == '{'
    ensures Agree(ParseObject(u + t), ParseObject(u + Empty), t, w)
    decreases |u|, 0
  {
    hide NextMember, Skip, Unclosed, Slashes;
    FirstOf(u, t);
    FirstOf(u, Empty);
    SkipTail(u[1..], t);
    SkipTail(u[1..], Empty);
    var v := Skip(u[1..]);
    FirstOf(v, t);
    FirstOf(v, Empty);
    if Head(v) == '}' { w := v[1..]; } else { w := MembersAgree([], v, t); }
  }

  lemma {:induction false} MembersAgree(members: seq<Member>, u: string, t: string) returns (w: string)
    requires Open(t)
    ensures Agree(NextMember(members, u + t), NextMember(members, u + Empty), t, w)
    decreases |u|, 3
  {
    hide ParseMember, ObjectTail, Skip, Unclosed, Slashes;
    w := MemberAgrees(u, t);
    var r := ParseMember(u + t);
    if r.Ok? {
      if |r.rest| >= |t| {
        SkipTail(w, t);
        SkipTail(w, Empty);
        w := MembersTailAgrees(members + [r.value], Skip(w), t);
      } else {
        MembersStop(members, u + Empty);
        MembersShort(members + [r.value], Skip(r.rest));
      }
    } else if !r.Overrun? {
      MembersStop(members, u + Empty);
    }
  }

  lemma MembersStop(members: seq<Member>, s: string)
    requires Blocked(ParseMember(s))
    ensures Blocked(NextMember(members, s))
  {
    hide ParseMember;
    assert Skip("\"") == "\"";
  }

  lemma MembersShort(members: seq<Member>, s: string)
    ensures ObjectTail(members, s).Ok? ==> |ObjectTail(members, s).rest| < |s|
  {
  }

  lemma {:induction false} MembersTailAgrees(members: seq<Member>, u: string, t: string) returns (w: string)
    requires Open(t)
    ensures Agree(ObjectTail(members, u + t), ObjectTail(members, u + Empty), t, w)
    decreases |u|, 0
  {
    hide NextMember, Skip, Unclosed, Slashes;
    w := [];
    FirstOf(u, t);
    FirstOf(u, Empty);
    if Head(u) == ',' {
      SkipTail(u[1..], t);
      SkipTail(u[1..], Empty);
      w := MembersAgree(members, Skip(u[1..]), t);
    } else if Head(u) == '}' {
      w := u[1..];
    }
  }

  // ----- an overrun is reached -----

  /** The open literal at the end of `s`, and the text in front of it. */
  predicate Found(s: string, u: string, t: string) { s == u + t && Open(t) }

  lemma EmptyParsed()
    ensures ParseString(Empty) == Ok("", []) && ParseValue(Empty) == Ok(Str(""), [])
    ensures AtEnd(ParseMember(Empty)) && Skip([]) == []
  {
    assert Empty[1..] == "\"" && "\""[..0] == "" && "\""[0..] == "\"" && "\""[1..] == "";
    assert ScanBody("\"") == Some(0) && Decode("") == Some("");
    Dispatch(Empty);
  }

  /** White space in front does not matter: the text in front of `t` starts behind it. */
  lemma SkipFound(s: string, u: string, t: string) returns (v: string)
    requires Found(Skip(s), u, t)
    ensures Found(s, v, t) && Skip(v) == u
  {
    hide Unclosed, Slashes, Skip;
    SkipEnd(s);
    v := InFront(s, Skip(s), u, t);
    SkipTail(v, t);
    SameFront(Skip(v), u, t);
  }

  /** The text in front of `t` in a longer text. */
  lemma InFront(s: string, r: string, u: string, t: string) returns (v: string)
    requires IsEnd(r, s) && Found(r, u, t)
    ensures Found(s, v, t) && |v| - |u| == |s| - |r|
  {
    hide Unclosed, Slashes;
    v := s[..|s| - |t|];
    assert s[|s| - |t|..] == r[|u|..] == t;
  }

  lemma SameFront(a: string, b: string, t: string)
    requires a + t == b + t
    ensures a == b
  {
    assert |a| == |b| && a == (a + t)[..|a|] && b == (b + t)[..|b|];
  }

  lemma {:induction false} ValueReaches(s: string) returns (u: string, t: string)
    requires ParseValue(s).Overrun?
    ensures Found(s, u, t) && AtEnd(ParseValue(u + Empty))
    decreases |s|, 1
  {
    hide ParseString, ParseArray, ParseObject, Unclosed, Slashes;
    Dispatch(s);
    if Head(s) == '\"' {
      LiteralOverruns(s);
      u, t := [], s;
      EmptyParsed();
      assert [] + s == s && [] + Empty == Empty;
    } else if Head(s) == '[' {
      u, t := ArrayReaches(s);
      Dispatch(u + Empty);
    } else {
      u, t := ObjectReaches(s);
      Dispatch(u + Empty);
    }
  }

  lemma {:induction false} ArrayReaches(s: string) returns (u: string, t: string)
    requires Head(s) == '[' && ParseArray(s).Overrun?
    ensures Found(s, u, t) && Head(u) == '[' && AtEnd(ParseArray(u + Empty))
    decreases |s|, 0
  {
    hide NextItem, Skip, Unclosed, Slashes;
    u, t := ItemsReach([], Skip(s[1..]));
    FirstOf(u, t);
    FirstOf(u, Empty);
    u := Opened(s, u, t);
  }

  /** Behind a bracket and white space. */
  lemma Opened(s: string, u: string, t: string) returns (v: string)
    requires s != [] && s[0] != '\"' && Found(Skip(s[1..]), u, t)
    ensures Found(s, v, t) && Head(v) == s[0] && Head(v + Empty) == s[0] && Skip((v + Empty)[1..]) == u + Empty
  {
    hide Skip, Unclosed, Slashes;
    var x := SkipFound(s[1..], u, t);
    v := [s[0]] + x;
    assert s == v + t;
    assert (v + Empty)[1..] == x + Empty;
    SkipTail(x, Empty);
  }

  lemma {:induction false} ItemsReach(items: seq<Json>, s: string) returns (u: string, t: string)
    requires NextItem(items, s).Overrun?
    ensures Found(s, u, t) && AtEnd(NextItem(items, u + Empty))
    decreases |s|, 2
  {
    hide ParseValue, Skip, Unclosed, Slashes;
    EmptyParsed();
    var r := ParseValue(s);
    if r.Overrun? {
      u, t := ValueReaches(s);
    } else {
      var y := Skip(r.rest);
      assert NextItem(items, s) == ArrayTail(items + [r.value], y);
      hide NextItem;
      u, t := TailReaches(items + [r.value], y);
      u := ItemsReachOn(items, s, u, t);
    }
  }

  /** Behind a value that ends in front of the open literal. */
  lemma ItemsReachOn(items: seq<Json>, s: string, u: string, t: string) returns (v: string)
    requires ParseValue(s).Ok? && Found(Skip(ParseValue(s).rest), u, t)
    requires AtEnd(ArrayTail(items + [ParseValue(s).value], u + Empty))
    ensures Found(s, v, t) && AtEnd(NextItem(items, v + Empty))
  {
    hide ParseValue, ArrayTail, Skip, Unclosed, Slashes;
    var r := ParseValue(s);
    var x := SkipFound(r.rest, u, t);
    ValueEnd(s);
    v := InFront(s, r.rest, x, t);
    var w := ValueAgrees(v, t);
    SameFront(w, x, t);
    SkipTail(x, Empty);
  }

  lemma {:induction false} TailReaches(items: seq<Json>, s: string) returns (u: string, t: string)
    requires ArrayTail(items, s).Overrun?
    ensures Found(s, u, t) && AtEnd(ArrayTail(items, u + Empty))
    decreases |s|, 0
  {
    hide NextItem, Skip, Unclosed, Slashes;
    u, t := ItemsReach(items, Skip(s[1..]));
    u := Opened(s, u, t);
  }

  lemma {:induction false} MemberReaches(s: string) returns (u: string, t: string)
    requires ParseMember(s).Overrun?
    ensures Found(s, u, t) && AtEnd(ParseMember(u + Empty))
    decreases |s|, 2
  {
    hide ParseString, ParseValue, Skip, Unclosed, Slashes;
    EmptyParsed();
    var r := ParseString(s);
    if r.Overrun? {
      LiteralOverruns(s);
      u, t := [], s;
      assert [] + s == s && [] + Empty == Empty;
    } else {
      var y := Skip(r.rest);
      u, t := ValueReaches(Skip(y[1..]));
      u := MemberReachOn(s, u, t);
    }
  }

  /** Behind a name that ends in front of the open literal. */
  lemma MemberReachOn(s: string, u: string, t: string) returns (v: string)
    requires ParseString(s).Ok? && Head(Skip(ParseString(s).rest)) == ':'
    requires Found(Skip(Skip(ParseString(s).rest)[1..]), u, t) && AtEnd(ParseValue(u + Empty))
    ensures Found(s, v, t) && AtEnd(ParseMember(v + Empty))
  {
    hide ParseString, ParseValue, Skip, Unclosed, Slashes;
    var r := ParseString(s);
    var z := Opened(Skip(r.rest), u, t);
    var x := SkipFound(r.rest, z, t);
    StringEnd(s);
    v := InFront(s, r.rest, x, t);
    var w := StringAgrees(v, t);
    SameFront(w, x, t);
    SkipTail(x, Empty);
  }

  lemma {:induction false} ObjectReaches(s: string) returns (u: string, t: string)
    requires Head(s) == '{' && ParseObject(s).Overrun?
    ensures Found(s, u, t) && Head(u) == '{' && AtEnd(ParseObject(u + Empty))
    decreases |s|, 0
  {
    hide NextMember, Skip, Unclosed, Slashes;
    u, t := MembersReach([], Skip(s[1..]));
    FirstOf(u, t);
    FirstOf(u, Empty);
    u := Opened(s, u, t);
  }

  lemma {:induction false} MembersReach(members: seq<Member>, s: string) returns (u: string, t: string)
    requires NextMember(members, s).Overrun?
    ensures Found(s, u, t) && AtEnd(NextMember(members, u + Empty))
    decreases |s|, 3
  {
    hide ParseMember, Skip, Unclosed, Slashes;
    EmptyParsed();
    var r := ParseMember(s);
    if r.Overrun? {
      u, t := MemberReaches(s);
    } else {
      var y := Skip(r.rest);
      assert NextMember(members, s) == ObjectTail(members + [r.value], y);
      hide NextMember;
      u, t := MembersTailReaches(members + [r.value], y);
      u := MembersReachOn(members, s, u, t);
    }
  }

  /** Behind a member that ends in front of the open literal. */
  lemma MembersReachOn(members: seq<Member>, s: string, u: string, t: string) returns (v: string)
    requires ParseMember(s).Ok? && Found(Skip(ParseMember(s).rest), u, t)
    requires AtEnd(ObjectTail(members + [ParseMember(s).value], u + Empty))
    ensures Found(s, v, t) && AtEnd(NextMember(members, v + Empty))
  {
    hide ParseMember, ObjectTail, Skip, Unclosed, Slashes;
    var r := ParseMember(s);
    var x := SkipFound(r.rest, u, t);
    MemberEnd(s);
    v := InFront(s, r.rest, x, t);
    var w := MemberAgrees(v, t);
    SameFront(w, x, t);
    SkipTail(x, Empty);
  }

  lemma {:induction false} MembersTailReaches(members: seq<Member>, s: string) returns (u: string, t: string)
    requires ObjectTail(members, s).Overrun?
    ensures Found(s, u, t) && AtEnd(ObjectTail(members, u + Empty))
    decreases |s|, 0
  {
    hide NextMember, Skip, Unclosed, Slashes;
    u, t := MembersReach(members, Skip(s[1..]));
    u := Opened(s, u, t);
  }

  // ----- the whole text -----

  /** The text up to the quote at `i`, with an empty literal from there on. */
  function Replaced(text: string, i: nat): string
    requires i <= |text|
  {
    text[..i] + Empty
  }

  /** Replacing an open literal by an empty one makes the text safe. */
  lemma ReplacedContained(text: string, i: nat, whole: bool)
    requires i <= |text|
    ensures !Parse(Replaced(text, i), whole).Overrun?
  {
    hide Parse;
    var s := Replaced(text, i);
    assert s[|s| - 1] == '\"';
    ParseContained(s, whole);
  }

  /** The parser reaches an open literal at `i`. */
  predicate Reached(text: string, whole: bool, i: nat) {
    i < |text| && Open(text[i..]) && AtEnd(Parse(Replaced(text, i), whole))
  }

  /** The parser reads past the end exactly if it reaches an open literal. */
  lemma ParseOverruns(text: string, whole: bool)
    ensures Parse(text, whole).Overrun? <==> exists i: nat :: Reached(text, whole, i)
  {
    hide Parse, Open;
    if Parse(text, whole).Overrun? {
      var u, t := TextReaches(text, whole);
      assert text[|u|..] == t && Replaced(text, |u|) == u + Empty;
      OpenStarts(t);
      assert Reached(text, whole, |u|);
    }
    if i: nat :| Reached(text, whole, i) {
      assert text == text[..i] + text[i..];
      TextAgrees(text[..i], text[i..], whole);
    }
  }

  lemma OpenStarts(t: string)
    requires Open(t)
    ensures t != []
  {
  }

  lemma TextReaches(text: string, whole: bool) returns (u: string, t: string)
    requires Parse(text, whole).Overrun?
    ensures Found(text, u, t) && AtEnd(Parse(u + Empty, whole))
  {
    hide ParseValue, Skip, Unclosed, Slashes;
    EmptyParsed();
    u, t := ValueReaches(Skip(text));
    var v := SkipFound(text, u, t);
    SkipTail(v, Empty);
    u := v;
  }

  lemma TextAgrees(u: string, t: string, whole: bool)
    requires Open(t)
    ensures Parse(u + t, whole).Overrun? || !AtEnd(Parse(u + Empty, whole))
  {
    hide ParseValue, Unclosed, Slashes;
    SkipTail(u, t);
    SkipTail(u, Empty);
    var v := Skip(u);
    var w := ValueAgrees(v, t);
    SkipTail(w, Empty);
    assert Skip("\"") == "\"";
  }
}
