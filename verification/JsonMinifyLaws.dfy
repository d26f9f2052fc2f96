/** Which characters and comments minifying removes, and that it has nothing left to remove. */
module JsonMinifyLaws {
  import opened CText
  import opened JsonText
  import opened JsonMinify
  import opened JsonMinifyParse

  /** The four characters that are dropped. */
  predicate Dropped(c: char) { c == ' ' || c == '\t' || c == '\r' || c == '\n' }

  /** The characters of `s` that are none of the four, in order. */
  function Remaining(s: string): string {
    if s == [] then [] else if Dropped(s[0]) then Remaining(s[1..]) else [s[0]] + Remaining(s[1..])
  }

  /** A text without literals and comments keeps exactly those. */
  lemma {:induction false} PlainMinified(s: string)
    requires '\"' !in s && '/' !in s
    ensures Minify(s) == Some(Remaining(s))
  {
    if s != [] { PlainMinified(s[1..]); }
  }

  /** In front of any text each of the four is dropped. */
  lemma BlankDropped(c: char, s: string)
    requires Dropped(c)
    ensures Minify([c] + s) == Minify(s)
  {
    hide MinifyLiteral;
    assert ([c] + s)[1..] == s;
  }

  lemma {:induction false} LineEndFound(c: string, rest: string)
    requires '\n' !in c
    ensures LineEnd(c + ("\n" + rest)) == "\n" + rest && LineEnd(c) == []
    decreases |c|
  {
    if c == [] {
      assert c + ("\n" + rest) == "\n" + rest;
    } else {
      assert (c + ("\n" + rest))[1..] == c[1..] + ("\n" + rest);
      LineEndFound(c[1..], rest);
    }
  }

  /** A line comment goes up to its line break, or to the end of the text. */
  lemma LineCommentDropped(c: string, rest: string)
    requires '\n' !in c
    ensures Minify("//" + c + ("\n" + rest)) == Minify("\n" + rest) && Minify("//" + c) == Some([])
  {
    hide MinifyLiteral, LineEnd;
    var x, y := "//" + c + ("\n" + rest), "//" + c;
    LineEndFound(y, rest);
    assert x[0] == '/' && x[1..][0] == '/';
    assert y[0] == '/' && y[1..][0] == '/';
  }

  /** No star is followed by a slash. */
  predicate NoClose(s: string) { forall i | 0 <= i < |s| - 1 :: !(s[i] == '*' && s[i + 1] == '/') }

  lemma {:induction false} BlockEndFound(s: string, rest: string)
    requires NoClose(s)
    ensures BlockEnd(s + ("*/" + rest)) == Some(rest) && BlockEnd(s).None?
    decreases |s|
  {
    var x := s + ("*/" + rest);
    if s == [] {
      assert x[..2] == "*/" && x[2..] == rest;
    } else {
      assert x[1..] == s[1..] + ("*/" + rest);
      BlockEndFound(s[1..], rest);
      assert x[..2][0] == s[0] && x[..2][1] == if |s| > 1 then s[1] else '*';
      if |s| > 1 { assert s[..2][0] == s[0] && s[..2][1] == s[1]; }
    }
  }

  /** A block comment goes up to the first star and slash behind its own slash; without one there is no result. */
  lemma BlockCommentDropped(c: string, rest: string)
    requires NoClose("*" + c)
    ensures Minify("/*" + c + ("*/" + rest)) == Minify(rest) && Minify("/*" + c) == None
  {
    hide MinifyLiteral, BlockEnd;
    var y := "/*" + c;
    var x := y + ("*/" + rest);
    assert NoClose(y) by {
      forall i | 0 <= i < |y| - 1
        ensures !(y[i] == '*' && y[i + 1] == '/')
      {
        if i > 0 { assert y[i] == ("*" + c)[i - 1] && y[i + 1] == ("*" + c)[i]; }
      }
    }
    BlockEndFound(y, rest);
    assert x[0] == '/' && x[1..][0] == '*';
    assert y[0] == '/' && y[1..][0] == '*';
  }

  // ----- minifying again -----

  /** Outside of literals, which are all closed, there is no slash. */
  predicate NoSlash(s: string)
    decreases |s|
  {
    if s == [] then true
    else if s[0] == '\"' then
      ScanBody(s[1..]).Some? && ScanBody(s[1..]).value + 1 < |s| && NoSlash(s[ScanBody(s[1..]).value + 2..])
    else s[0] != '/' && NoSlash(s[1..])
  }

  lemma LiteralAgain(s: string, n: nat, y: string)
    requires Head(s) == '\"' && ScanBody(s[1..]) == Some(n) && n + 1 < |s|
    ensures Minify(s[..n + 2] + y) == Prepend(s[..n + 2], Minify(y))
  {
    var x := s[..n + 2] + y;
    assert x[1..] == s[1..][..n + 1] + y;
    ScanClosed(s[1..], y);
    assert x[..n + 2] == s[..n + 2] && x[n + 2..] == y;
    assert Minify(x) == MinifyLiteral(x);
  }

  lemma CharAgain(c: char, y: string)
    requires !Dropped(c) && c != '/' && c != '\"'
    ensures Minify([c] + y) == Prepend([c], Minify(y))
  {
    hide MinifyLiteral;
    assert ([c] + y)[1..] == y;
  }

  lemma {:induction false} MinifiedAgain(s: string)
    requires NoSlash(s)
    ensures Minify(s).Some? && Minify(Minify(s).value) == Minify(s)
    decreases |s|
  {
    if s != [] && s[0] == '\"' {
      var n := ScanBody(s[1..]).value;
      MinifiedAgain(s[n + 2..]);
      assert s == s[..n + 2] + s[n + 2..];
      hide Minify, ScanBody;
      LiteralAgain(s, n, s[n + 2..]);
      LiteralAgain(s, n, Minify(s[n + 2..]).value);
    } else if s != [] {
      MinifiedAgain(s[1..]);
      assert s == [s[0]] + s[1..];
      hide Minify;
      if Dropped(s[0]) {
        BlankDropped(s[0], s[1..]);
      } else {
        CharAgain(s[0], s[1..]);
        CharAgain(s[0], Minify(s[1..]).value);
      }
    } else {
      MinifyNothing();
    }
  }

  // An accepted text has no slash outside of its literals.

  lemma PlainAhead(s: string)
    requires s != [] && s[0] != '/' && s[0] != '\"' && NoSlash(s[1..])
    ensures NoSlash(s)
  {
  }

  lemma {:induction false} SkipAhead(s: string)
    requires NoSlash(Skip(s))
    ensures NoSlash(s)
  {
    hide NoSlash;
    if s != [] && s[0] <= ' ' {
      SkipAhead(s[1..]);
      PlainAhead(s);
    }
  }

  lemma {:induction false} DigitsAhead(n: int, s: string)
    requires NoSlash(Digits(n, s).1)
    ensures NoSlash(s)
    decreases |s|
  {
    hide NoSlash;
    if s != [] && IsDigit(s[0]) {
      DigitsAhead(n * 10 + DigitValue(s[0]), s[1..]);
      PlainAhead(s);
    }
  }

  lemma NumberAhead(s: string)
    requires NoSlash(ParseNumber(s).1)
    ensures NoSlash(s)
  {
    hide NoSlash, Whole, Fraction, Exponent;
    var (sign, a) := Sign(s);
    var (n, b) := Whole(a);
    var (m, c) := Fraction(n, b);
    ExponentAhead(c);
    FractionAhead(n, b);
    WholeAhead(a);
    if Head(s) == '-' { PlainAhead(s); }
  }

  lemma WholeAhead(s: string)
    requires NoSlash(Whole(s).1)
    ensures NoSlash(s)
  {
    hide NoSlash, Digits;
    var t := if Head(s) == '0' then s[1..] else s;
    if IsDigit(Head(t)) && Head(t) != '0' { DigitsAhead(0, t); }
    if Head(s) == '0' { PlainAhead(s); }
  }

  lemma FractionAhead(n: int, s: string)
    requires NoSlash(Fraction(n, s).1)
    ensures NoSlash(s)
  {
    hide NoSlash, Digits;
    if Head(s) == '.' && IsDigit(Head(s[1..])) {
      DigitsAhead(n, s[1..]);
      PlainAhead(s);
    }
  }

  lemma ExponentAhead(s: string)
    requires NoSlash(Exponent(s).1)
    ensures NoSlash(s)
  {
    hide NoSlash, Digits;
    if Head(s) == 'e' || Head(s) == 'E' {
      var t := s[1..];
      if Head(t) == '+' || Head(t) == '-' {
        assert t[1..] == s[2..];
        DigitsAhead(0, s[2..]);
        PlainAhead(t);
      } else {
        DigitsAhead(0, t);
      }
      PlainAhead(s);
    }
  }

  lemma StringAhead(s: string)
    requires ParseString(s).Ok? && !Unterminated(s) && NoSlash(ParseString(s).rest)
    ensures NoSlash(s)
  {
    hide Decode;
    var n := ScanBody(s[1..]).value;
    assert s[1..][n..] == s[n + 1..];
    assert s[n + 1..][1..] == s[n + 2..];
    ScanClosed(s[1..], []);
  }

  lemma {:induction false} ValueAhead(s: string)
    requires ParseValue(s).Ok? && !Unterminated(s) && NoSlash(ParseValue(s).rest)
    ensures NoSlash(s)
    decreases |s|, 1
  {
    hide ParseString, ParseNumber, ParseArray, ParseObject, NoSlash, Unterminated;
    Dispatch(s);
    if StartsWith(s, "null") {
      WordAhead("null", s);
    } else if StartsWith(s, "true") {
      WordAhead("true", s);
    } else if StartsWith(s, "false") {
      WordAhead("false", s);
    } else if Head(s) == '\"' {
      StringAhead(s);
    } else if Head(s) == '-' || IsDigit(Head(s)) {
      NumberAhead(s);
    } else if Head(s) == '[' {
      ArrayAhead(s);
    } else {
      ObjectAhead(s);
    }
  }

  lemma {:induction false} WordAhead(word: string, s: string)
    requires StartsWith(s, word) && '/' !in word && '\"' !in word && NoSlash(s[|word|..])
    ensures NoSlash(s)
    decreases |word|
  {
    hide NoSlash;
    if word == [] {
      assert s[0..] == s;
    } else {
      assert s[..|word|] == word;
      assert s[1..][..|word| - 1] == word[1..] && s[1..][|word| - 1..] == s[|word|..];
      WordAhead(word[1..], s[1..]);
      assert s[0] == word[0];
      PlainAhead(s);
    }
  }

  lemma {:induction false} ArrayAhead(s: string)
    requires Head(s) == '[' && ParseArray(s).Ok? && NoSlash(ParseArray(s).rest)
    ensures NoSlash(s)
    decreases |s|, 0
  {
    hide NextItem, Skip, NoSlash;
    var t := Skip(s[1..]);
    if Head(t) == ']' { PlainAhead(t); } else { ItemsAhead([], t); }
    SkipAhead(s[1..]);
    PlainAhead(s);
  }

  lemma {:induction false} ItemsAhead(items: seq<Json>, s: string)
    requires NextItem(items, s).Ok? && NoSlash(NextItem(items, s).rest)
    ensures NoSlash(s)
    decreases |s|, 2
  {
    hide ParseValue, Skip, NoSlash, Unterminated;
    var Ok(item, rest) := ParseValue(s);
    var t := Skip(rest);
    assert NextItem(items, s) == ArrayTail(items + [item], t);
    hide NextItem;
    if Head(t) == ',' {
      ItemsAhead(items + [item], Skip(t[1..]));
      SkipAhead(t[1..]);
    }
    PlainAhead(t);
    SkipAhead(rest);
    ClosedBefore(s, rest);
    ValueAhead(s);
  }

  lemma {:induction false} MemberAhead(s: string)
    requires ParseMember(s).Ok? && NoSlash(ParseMember(s).rest) && Skip(ParseMember(s).rest) != []
    ensures NoSlash(s)
    decreases |s|, 2
  {
    hide ParseString, ParseValue, Skip, NoSlash, Unterminated;
    var Ok(name, rest) := ParseString(s);
    var t := Skip(rest);
    var u := Skip(t[1..]);
    ClosedBefore(u, ParseValue(u).rest);
    ValueAhead(u);
    SkipAhead(t[1..]);
    PlainAhead(t);
    SkipAhead(rest);
    SkipEmpty();
    if Unterminated(s) { UnterminatedRest(s); }
    StringAhead(s);
  }

  lemma {:induction false} ObjectAhead(s: string)
    requires Head(s) == '{' && ParseObject(s).Ok? && NoSlash(ParseObject(s).rest)
    ensures NoSlash(s)
    decreases |s|, 0
  {
    hide NextMember, Skip, NoSlash;
    var t := Skip(s[1..]);
    if Head(t) == '}' { PlainAhead(t); } else { MembersAhead([], t); }
    SkipAhead(s[1..]);
    PlainAhead(s);
  }

  lemma {:induction false} MembersAhead(members: seq<Member>, s: string)
    requires NextMember(members, s).Ok? && NoSlash(NextMember(members, s).rest)
    ensures NoSlash(s)
    decreases |s|, 3
  {
    hide ParseMember, Skip, NoSlash;
    var Ok(member, rest) := ParseMember(s);
    var t := Skip(rest);
    assert NextMember(members, s) == ObjectTail(members + [member], t);
    hide NextMember;
    if Head(t) == ',' {
      MembersAhead(members + [member], Skip(t[1..]));
      SkipAhead(t[1..]);
    }
    PlainAhead(t);
    SkipAhead(rest);
    MemberAhead(s);
  }

  /** Minifying the minified text of an accepted text changes nothing. */
  lemma MinifyTwice(text: string)
    requires Parse(text, true).Ok? && Minify(text).Some?
    ensures Minify(Minify(text).value) == Minify(text)
  {
    hide Minify, ParseValue, Skip, NoSlash, Unterminated;
    MinifyPreservesParse(text);
    var s := Skip(text);
    var rest := ParseValue(s).rest;
    NothingSlashed();
    SkipAhead(rest);
    ValueAhead(s);
    SkipAhead(text);
    MinifiedAgain(text);
  }

  lemma NothingSlashed()
    ensures NoSlash([])
  {
  }
}
