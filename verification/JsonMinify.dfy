/** The minifier as a function: what text `cJSON_Minify` leaves. */
module JsonMinify {
  import opened CText
  import opened JsonText

  predicate IsBlank(c: char) { c == ' ' || c == '\t' || c == '\r' || c == '\n' }

  /** A line comment ends before the line break. */
  function LineEnd(s: string): (r: string)
    ensures |r| <= |s|
    ensures s != [] && s[0] != '\n' ==> |r| < |s|
  {
    if s != [] && s[0] != '\n' then LineEnd(s[1..]) else s
  }

  /** A block comment ends behind the first star and slash; without one the scan runs off the text. */
  function BlockEnd(s: string): (r: Option<string>)
    ensures r.Some? ==> |r.value| < |s|
  {
    if s == [] then None
    else if StartsWith(s, "*/") then Some(s[2..])
    else BlockEnd(s[1..])
  }

  /**
    The minified text. `None` where the C code runs past the terminator: an unterminated
    string literal or block comment.
  */
  function Minify(s: string): (r: Option<string>)
    ensures r.Some? ==> |r.value| <= |s|
    decreases |s|
  {
    if s == [] then Some([])
    else if IsBlank(s[0]) then Minify(s[1..])
    else if s[0] == '/' && Head(s[1..]) == '/' then Minify(LineEnd(s))
    else if s[0] == '/' && Head(s[1..]) == '*' then
      match BlockEnd(s)
      case None => None
      case Some(rest) => Minify(rest)
    else if s[0] == '\"' then MinifyLiteral(s)
    else Prepend([s[0]], Minify(s[1..]))
  }

  /** A closed literal is copied as it stands. */
  function MinifyLiteral(s: string): (r: Option<string>)
    requires Head(s) == '\"'
    ensures r.Some? ==> |r.value| <= |s|
    decreases |s|, 0
  {
    match ScanBody(s[1..])
    case None => None
    case Some(n) =>
      if n + 1 == |s| then None else Prepend(s[..n + 2], Minify(s[n + 2..]))
  }

  // ----- the minifier step by step -----

  /** A character that is neither white space nor opens a comment or a literal is kept. */
  predicate IsPlain(c: char) { c > ' ' && c != '/' && c != '\"' }

  lemma MinifyPlain(s: string)
    requires s != [] && IsPlain(s[0])
    ensures Minify(s) == Prepend([s[0]], Minify(s[1..]))
  {
    hide MinifyLiteral;
  }

  lemma {:induction false} MinifyPlainWord(word: string, rest: string)
    requires forall i | 0 <= i < |word| :: IsPlain(word[i])
    ensures Minify(word + rest) == Prepend(word, Minify(rest))
    decreases |word|
  {
    hide Minify;
    if word == [] {
      assert word + rest == rest;
      if Minify(rest).Some? { assert [] + Minify(rest).value == Minify(rest).value; }
    } else {
      DropFirst(word, rest);
      MinifyPlain(word + rest);
      MinifyPlainWord(word[1..], rest);
      if Minify(rest).Some? {
        Assoc3([word[0]], word[1..], Minify(rest).value);
        assert [word[0]] + word[1..] == word;
      }
    }
  }

  /** White space that the parser skips is dropped or kept; either way the parser sees past it. */
  lemma {:induction false} MinifySkip(s: string)
    requires Head(Skip(s)) != '/'
    ensures Minify(s).Some? <==> Minify(Skip(s)).Some?
    ensures Minify(s).Some? ==> Skip(Minify(s).value) == Minify(Skip(s)).value
    ensures Minify(s).Some? ==>
              Head(Minify(s).value) <= ' ' || Head(Minify(s).value) == Head(Skip(s))
    decreases |s|
  {
    if s == [] {
    } else if s[0] <= ' ' {
      MinifySkip(s[1..]);
      if !IsBlank(s[0]) && Minify(s).Some? {
        DropFirst([s[0]], Minify(s[1..]).value);
        assert [s[0]][1..] + Minify(s[1..]).value == Minify(s[1..]).value;
      }
    } else {
      MinifyKeepsHead(s);
    }
  }

  lemma MinifyKeepsHead(s: string)
    requires Head(s) > ' ' && s[0] != '/'
    ensures Minify(s).Some? ==> Minify(s).value != [] && Minify(s).value[0] == s[0]
  {
  }
}
