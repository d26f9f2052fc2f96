/** Minifying an accepted text keeps it accepted and keeps its tree. */
module JsonMinifyParse {
  import opened CText
  import opened JsonText
  import opened JsonMinify
  import opened JsonRoundTrip

  /** A literal that ends with the text instead of a quote; the parser accepts it at top level. */
  predicate Unterminated(s: string) {
    Head(s) == '\"' && ScanBody(s[1..]) == Some(|s| - 1)
  }

  /** What may follow a value in an accepted text, white space aside. */
  predicate EndsValue(c: char) { c == '\0' || c == ',' || c == ']' || c == '}' }

  /** Minifying `s` is defined exactly when minifying its suffix `r` is. */
  ghost predicate SameFate(s: string, r: string) { Minify(s).Some? <==> Minify(r).Some? }

  // ----- words and numbers -----

  lemma WordMinified(word: string, s: string)
    requires word == "null" || word == "false" || word == "true"
    requires StartsWith(s, word)
    ensures SameFate(s, s[|word|..])
    ensures Minify(s).Some? ==>
              ParseValue(Minify(s).value) ==
              Ok(if word == "null" then Null else Bool(word == "true"), Minify(s[|word|..]).value)
  {
    hide ParseValue, Minify;
    assert s == word + s[|word|..];
    MinifyPlainWord(word, s[|word|..]);
    if Minify(s).Some? { LiteralParsed(word, Minify(s[|word|..]).value); }
  }

  predicate InNumber(c: char) { ExtendsNumber(c) || c == '+' || c == '-' }

  /** Behind `s` the minified text shows the same character, or one that no number contains. */
  ghost predicate Quiet(s: string) {
    Minify(s).Some? ==> Head(Minify(s).value) == Head(s) || !InNumber(Head(Minify(s).value))
  }

  lemma QuietPlain(s: string)
    requires IsPlain(Head(s))
    ensures Quiet(s) && SameFate(s, s[1..])
    ensures Minify(s).Some? ==> Head(Minify(s).value) == s[0] && Minify(s).value[1..] == Minify(s[1..]).value
  {
    hide Minify;
    MinifyPlain(s);
  }

  lemma {:induction false} DigitsMinified(n: int, s: string)
    requires Quiet(Digits(n, s).1)
    ensures var r := Digits(n, s).1;
            SameFate(s, r) && Quiet(s) &&
            (Minify(s).Some? ==> Digits(n, Minify(s).value) == (Digits(n, s).0, Minify(r).value) &&
                                 |Minify(s).value| - |Minify(r).value| == |s| - |r|)
    decreases |s|
  {
    hide Minify;
    if s != [] && IsDigit(s[0]) {
      QuietPlain(s);
      DigitsMinified(n * 10 + DigitValue(s[0]), s[1..]);
    }
  }

  lemma ExponentMinified(s: string)
    requires Quiet(Exponent(s).1)
    ensures var r := Exponent(s).1;
            SameFate(s, r) && Quiet(s) &&
            (Minify(s).Some? ==> Exponent(Minify(s).value) == (Exponent(s).0, Minify(r).value))
  {
    hide Minify, Quiet;
    if Head(s) == 'e' || Head(s) == 'E' {
      QuietPlain(s);
      var t := s[1..];
      if Head(t) == '+' || Head(t) == '-' {
        QuietPlain(t);
        assert t[1..] == s[2..];
        DigitsMinified(0, s[2..]);
        if Minify(s).Some? { assert Minify(s).value[2..] == Minify(s[2..]).value; }
      } else {
        DigitsMinified(0, t);
        QuietSign(t);
      }
    } else {
      QuietMark(s);
    }
  }

  lemma QuietSign(t: string)
    requires Quiet(t) && Head(t) != '+' && Head(t) != '-'
    ensures Minify(t).Some? ==> Head(Minify(t).value) != '+' && Head(Minify(t).value) != '-'
  {
  }

  lemma QuietMark(t: string)
    requires Quiet(t) && Head(t) != 'e' && Head(t) != 'E'
    ensures Minify(t).Some? ==> Head(Minify(t).value) != 'e' && Head(Minify(t).value) != 'E'
  {
  }

  lemma QuietDigit(t: string)
    requires Quiet(t)
    ensures Minify(t).Some? && !IsDigit(Head(t)) ==> !IsDigit(Head(Minify(t).value))
    ensures Minify(t).Some? && Head(t) != '.' ==> Head(Minify(t).value) != '.'
    ensures Minify(t).Some? && IsDigit(Head(t)) ==>
              Head(Minify(t).value) == Head(t) || !IsDigit(Head(Minify(t).value))
  {
  }

  lemma FractionMinified(n: int, s: string)
    requires Quiet(Fraction(n, s).1) && Head(Fraction(n, s).1) != '.'
    ensures var r := Fraction(n, s).1;
            SameFate(s, r) && Quiet(s) &&
            (Minify(s).Some? ==> Fraction(n, Minify(s).value) == (Fraction(n, s).0, Minify(r).value) &&
                                 Places(Minify(s).value, Minify(r).value) == Places(s, r))
  {
    hide Minify, Quiet;
    if Head(s) == '.' {
      QuietPlain(s);
      DigitsMinified(n, s[1..]);
      QuietPlain(s[1..]);
    } else {
      QuietDigit(s);
    }
  }

  lemma WholeMinified(s: string)
    requires Quiet(Whole(s).1)
    ensures var r := Whole(s).1;
            SameFate(s, r) && Quiet(s) &&
            (Minify(s).Some? ==> Whole(Minify(s).value) == (Whole(s).0, Minify(r).value))
  {
    hide Minify, Quiet;
    var t := if Head(s) == '0' then s[1..] else s;
    if Head(s) == '0' { QuietPlain(s); }
    if IsDigit(Head(t)) && Head(t) != '0' {
      DigitsMinified(0, t);
      QuietPlain(t);
    } else {
      QuietDigit(t);
      if Head(t) == '0' { QuietPlain(t); }
    }
  }

  lemma NumberMinified(s: string)
    requires EndsValue(Head(Skip(ParseNumber(s).1)))
    ensures var r := ParseNumber(s).1;
            SameFate(s, r) &&
            (Minify(s).Some? ==> ParseNumber(Minify(s).value) == (ParseNumber(s).0, Minify(r).value))
  {
    hide Minify, Quiet, Whole, Fraction, Exponent, Skip;
    var (sign, a) := Sign(s);
    var (n, b) := Whole(a);
    var (m, c) := Fraction(n, b);
    var (x, d) := Exponent(c);
    QuietEnd(d);
    ExponentMinified(c);
    PointStops(c);
    FractionMinified(n, b);
    WholeMinified(a);
    if Head(s) == '-' { QuietPlain(s); } else { QuietSignOnly(s); }
  }

  lemma QuietSignOnly(s: string)
    requires Quiet(s) && Head(s) != '-'
    ensures Minify(s).Some? ==> Head(Minify(s).value) != '-'
  {
  }

  lemma QuietEnd(r: string)
    requires EndsValue(Head(Skip(r)))
    ensures Quiet(r)
  {
    hide Minify;
    MinifySkip(r);
  }

  /** A point that no digit follows would be left over behind the number. */
  lemma PointStops(c: string)
    requires EndsValue(Head(Skip(Exponent(c).1)))
    ensures Head(c) != '.'
  {
  }

  // ----- strings -----

  lemma {:induction false} ScanClosed(x: string, w: string)
    requires ScanBody(x).Some? && ScanBody(x).value < |x|
    ensures x[ScanBody(x).value] == '\"'
    ensures ScanBody(x[..ScanBody(x).value + 1] + w) == ScanBody(x)
    decreases |x|
  {
    var n := ScanBody(x).value;
    var y := x[..n + 1] + w;
    assert y[0] == x[0];
    if x[0] == '\"' {
    } else if x[0] != '\\' {
      ScanClosed(x[1..], w);
      assert y[1..] == x[1..][..n] + w;
    } else {
      ScanClosed(x[2..], w);
      assert y[2..] == x[2..][..n - 1] + w;
    }
  }

  /** A closed literal parses the same whatever follows it. */
  lemma LiteralAlone(s: string, n: nat, w: string)
    requires Head(s) == '\"' && ScanBody(s[1..]) == Some(n) && n + 1 < |s|
    ensures ParseString(s).Ok? ==>
              ParseString(s).rest == s[n + 2..] &&
              ParseString(s[..n + 2] + w) == Ok(ParseString(s).value, w)
  {
    hide ScanBody, Decode;
    ScanClosed(s[1..], w);
    var y := s[..n + 2] + w;
    assert y[1..] == s[1..][..n + 1] + w;
    assert y[1..][..n] == s[1..][..n];
    assert y[1..][n] == s[1..][n];
    assert y[1..][n..][1..] == w;
    assert s[1..][n..][1..] == s[n + 2..];
  }

  lemma StringMinified(s: string)
    requires ParseString(s).Ok? && !Unterminated(s)
    ensures var r := ParseString(s).rest;
            SameFate(s, r) &&
            (Minify(s).Some? ==> ParseString(Minify(s).value) == Ok(ParseString(s).value, Minify(r).value))
  {
    var n := ScanBody(s[1..]).value;
    assert Minify(s) == Prepend(s[..n + 2], Minify(s[n + 2..]));
    hide ParseString, Minify;
    LiteralAlone(s, n, []);
    if Minify(s).Some? { LiteralAlone(s, n, Minify(s[n + 2..]).value); }
  }

  lemma UnterminatedRest(s: string)
    requires Unterminated(s)
    ensures ParseString(s).Ok? ==> ParseString(s).rest == []
    ensures Minify(s).None?
  {
    hide Decode;
    var n := |s| - 1;
    assert s[1..][n..] == [];
    assert Minify(s) == MinifyLiteral(s);
  }

  // ----- values -----

  lemma {:induction false} ValueMinified(s: string)
    requires ParseValue(s).Ok? && !Unterminated(s) && EndsValue(Head(Skip(ParseValue(s).rest)))
    ensures var r := ParseValue(s).rest;
            SameFate(s, r) &&
            (Minify(s).Some? ==> ParseValue(Minify(s).value) == Ok(ParseValue(s).value, Minify(r).value))
    decreases |s|, 1
  {
    hide Minify, ParseString, ParseNumber, ParseArray, ParseObject, Skip;
    if StartsWith(s, "null") {
      WordMinified("null", s);
    } else if StartsWith(s, "false") {
      WordMinified("false", s);
    } else if StartsWith(s, "true") {
      WordMinified("true", s);
    } else {
      Dispatch(s);
      hide ParseValue;
      if Head(s) == '\"' {
        StringMinified(s);
        QuoteKept(s);
      } else if Head(s) == '-' || IsDigit(Head(s)) {
        NumberMinified(s);
        QuietPlain(s);
      } else if Head(s) == '[' {
        ArrayMinified(s);
        QuietPlain(s);
      } else {
        ObjectMinified(s);
        QuietPlain(s);
      }
      if Minify(s).Some? { Dispatch(Minify(s).value); }
    }
  }

  lemma QuoteKept(s: string)
    requires Head(s) == '\"'
    ensures Minify(s).Some? ==> Head(Minify(s).value) == '\"'
  {
  }

  /** Where the parser accepts a value, no comment starts. */
  lemma ValueStart(s: string)
    requires ParseValue(s).Ok? || ParseMember(s).Ok?
    ensures Head(s) > ' ' && Head(s) != '/' && !EndsValue(Head(s))
  {
    hide ParseArray, ParseObject, ParseNumber, ParseString;
    if !ParseValue(s).Ok? { NameStart(s); }
  }

  lemma NameStart(s: string)
    requires ParseMember(s).Ok?
    ensures Head(s) == '\"'
  {
    hide ParseValue;
  }

  lemma {:induction false} ArrayMinified(s: string)
    requires Head(s) == '[' && ParseArray(s).Ok?
    ensures var r := ParseArray(s).rest;
            SameFate(s, r) &&
            (Minify(s).Some? ==> Head(Minify(s).value) == '[' &&
                                 ParseArray(Minify(s).value) == Ok(ParseArray(s).value, Minify(r).value))
    decreases |s|, 0
  {
    hide Minify, ParseValue, NextItem, Skip;
    var t := Skip(s[1..]);
    QuietPlain(s);
    if Head(t) == ']' {
      QuietPlain(t);
    } else {
      ItemStart([], t);
      NextItemMinified([], t);
    }
    MinifySkip(s[1..]);
  }

  lemma ItemStart(items: seq<Json>, s: string)
    requires NextItem(items, s).Ok?
    ensures Head(s) != '/' && Head(s) != ']'
    ensures Minify(s).Some? ==> Head(Minify(s).value) == Head(s)
  {
    hide ParseValue, ArrayTail, Minify;
    ValueStart(s);
    if Minify(s).Some? { HeadKept(s); }
  }

  lemma HeadKept(s: string)
    requires Minify(s).Some? && Head(s) > ' ' && Head(s) != '/'
    ensures Head(Minify(s).value) == Head(s)
  {
    hide Minify;
    MinifyKeepsHead(s);
  }

  lemma {:induction false} NextItemMinified(items: seq<Json>, s: string)
    requires NextItem(items, s).Ok?
    ensures var r := NextItem(items, s).rest;
            SameFate(s, r) &&
            (Minify(s).Some? ==>
               NextItem(items, Minify(s).value) == Ok(NextItem(items, s).value, Minify(r).value))
    decreases |s|, 2
  {
    hide Minify, ParseValue, Skip;
    var Ok(item, rest) := ParseValue(s);
    var t := Skip(rest);
    assert NextItem(items, s) == ArrayTail(items + [item], t);
    ClosedBefore(s, rest);
    ValueMinified(s);
    MinifySkip(rest);
    TailMinified(items + [item], t);
    if Minify(s).Some? {
      assert NextItem(items, Minify(s).value) == ArrayTail(items + [item], Skip(Minify(rest).value));
    }
  }

  lemma {:induction false} TailMinified(items: seq<Json>, t: string)
    requires ArrayTail(items, t).Ok?
    ensures var r := ArrayTail(items, t).rest;
            SameFate(t, r) && EndsValue(Head(t)) && Head(t) != '\0' &&
            (Minify(t).Some? ==>
               ArrayTail(items, Minify(t).value) == Ok(ArrayTail(items, t).value, Minify(r).value))
    decreases |t|, 0
  {
    hide Minify, NextItem, Skip;
    QuietPlain(t);
    if Head(t) == ',' {
      var u := Skip(t[1..]);
      ItemStart(items, u);
      NextItemMinified(items, u);
      MinifySkip(t[1..]);
    }
  }

  /** A value that something follows did not end with the text. */
  lemma ClosedBefore(s: string, rest: string)
    requires ParseValue(s).Ok? && ParseValue(s).rest == rest && (Skip(rest) != [] || !Unterminated(s))
    ensures !Unterminated(s)
  {
    hide ParseValue, ParseString, ScanBody, Minify;
    if Unterminated(s) {
      Dispatch(s);
      UnterminatedRest(s);
    }
  }

  lemma {:induction false} ObjectMinified(s: string)
    requires Head(s) == '{' && ParseObject(s).Ok?
    ensures var r := ParseObject(s).rest;
            SameFate(s, r) &&
            (Minify(s).Some? ==> Head(Minify(s).value) == '{' &&
                                 ParseObject(Minify(s).value) == Ok(ParseObject(s).value, Minify(r).value))
    decreases |s|, 0
  {
    hide Minify, NextMember, Skip;
    var t := Skip(s[1..]);
    QuietPlain(s);
    if Head(t) == '}' {
      QuietPlain(t);
    } else {
      MemberStart([], t);
      NextMemberMinified([], t);
    }
    MinifySkip(s[1..]);
  }

  lemma MemberStart(members: seq<Member>, s: string)
    requires NextMember(members, s).Ok?
    ensures Head(s) == '\"'
    ensures Minify(s).Some? ==> Head(Minify(s).value) == Head(s)
  {
    hide ParseMember, ObjectTail, Minify;
    NameStart(s);
    if Minify(s).Some? { HeadKept(s); }
  }

  lemma {:induction false} MemberMinified(s: string)
    requires ParseMember(s).Ok? && EndsValue(Head(Skip(ParseMember(s).rest))) && Skip(ParseMember(s).rest) != []
    ensures var r := ParseMember(s).rest;
            SameFate(s, r) &&
            (Minify(s).Some? ==> ParseMember(Minify(s).value) == Ok(ParseMember(s).value, Minify(r).value))
    decreases |s|, 2
  {
    hide Minify, ParseValue, ParseString, Skip;
    var Ok(name, rest) := ParseString(s);
    var t := Skip(rest);
    var u := Skip(t[1..]);
    var Ok(value, after) := ParseValue(u);
    assert ParseMember(s) == Ok(Member(name, value), after);
    SkipEmpty();
    if Unterminated(s) { UnterminatedRest(s); }
    StringMinified(s);
    MinifySkip(rest);
    QuietPlain(t);
    ValueStart(u);
    MinifySkip(t[1..]);
    ClosedBefore(u, after);
    ValueMinified(u);
  }

  lemma SkipEmpty()
    ensures Skip([]) == []
  {
  }

  lemma {:induction false} NextMemberMinified(members: seq<Member>, s: string)
    requires NextMember(members, s).Ok?
    ensures var r := NextMember(members, s).rest;
            SameFate(s, r) &&
            (Minify(s).Some? ==>
               NextMember(members, Minify(s).value) == Ok(NextMember(members, s).value, Minify(r).value))
    decreases |s|, 3
  {
    hide Minify, ParseMember, Skip;
    var Ok(member, rest) := ParseMember(s);
    var t := Skip(rest);
    assert NextMember(members, s) == ObjectTail(members + [member], t);
    MembersTailMinified(members + [member], t);
    MemberMinified(s);
    MinifySkip(rest);
    if Minify(s).Some? {
      assert NextMember(members, Minify(s).value) == ObjectTail(members + [member], Skip(Minify(rest).value));
    }
  }

  lemma {:induction false} MembersTailMinified(members: seq<Member>, t: string)
    requires ObjectTail(members, t).Ok?
    ensures var r := ObjectTail(members, t).rest;
            SameFate(t, r) && EndsValue(Head(t)) && Head(t) != '\0' &&
            (Minify(t).Some? ==>
               ObjectTail(members, Minify(t).value) == Ok(ObjectTail(members, t).value, Minify(r).value))
    decreases |t|, 0
  {
    hide Minify, NextMember, Skip;
    QuietPlain(t);
    if Head(t) == ',' {
      var u := Skip(t[1..]);
      MemberStart(members, u);
      NextMemberMinified(members, u);
      MinifySkip(t[1..]);
    }
  }

  /**
    An accepted text can be minified exactly when it is not an unterminated top-level literal,
    and then the minified text is accepted with the same tree.
  */
  lemma MinifyPreservesParse(text: string)
    requires Parse(text, true).Ok?
    ensures Minify(text).Some? <==> !Unterminated(Skip(text))
    ensures Minify(text).Some? ==> Parse(Minify(text).value, true) == Parse(text, true)
  {
    hide Minify, ParseValue, Skip, Unterminated;
    var s := Skip(text);
    var rest := ParseValue(s).rest;
    ValueStart(s);
    MinifySkip(text);
    if Unterminated(s) {
      UnterminatedRest(s);
    } else {
      BlankRest(rest);
      ValueMinified(s);
    }
  }

  lemma BlankRest(rest: string)
    requires Skip(rest) == []
    ensures Minify(rest).Some? && Skip(Minify(rest).value) == []
  {
    hide Minify, Skip;
    MinifySkip(rest);
    MinifyNothing();
  }

  lemma MinifyNothing()
    ensures Minify([]) == Some([])
  {
  }

  /** The parser accepts an unterminated top-level literal; the minifier runs off its end. */
  lemma OpenLiteral()
    ensures Parse("\"a", true) == Ok(Str("a"), []) && Minify("\"a").None?
  {
    var s := "\"a";
    assert s[1..] == "a" && "a"[1..] == "" && "a"[..1] == "a" && "a"[1..] == "";
    assert ScanBody("a") == Some(1);
    assert Decode("") == Some("") && Decode("a") == Prepend("a", Some(""));
    assert "a" + "" == "a";
    assert ParseString(s) == Ok("a", "");
    hide ParseString, ScanBody, Decode;
    Dispatch(s);
    assert Minify(s) == MinifyLiteral(s);
  }
}
