/** What every kind of line means, with its characters spelled out. */
module IniLines {
  import opened CText
  import opened IniText
  import opened IniOutput
  import opened IniRoundTrip
  import opened IniStore
  import opened IniFile

  // ----- the characters -----

  /** Form feed, tab and blank. */
  predicate White(s: string) { forall i | 0 <= i < |s| :: s[i] == '\U{000C}' || s[i] == '\t' || s[i] == ' ' }

  predicate Mark(c: char) { c == ';' || c == '#' }

  predicate LineEnd(c: char) { c == '\n' || c == '\r' || c == '\U{001A}' }

  /** A line is a text without line ends and terminators. */
  lemma OneLineSpelled(s: string)
    ensures OneLine(s) <==> '\n' !in s && '\r' !in s && '\U{001A}' !in s && '\0' !in s
  {
  }

  predicate Letter(c: char) { c != '\U{000C}' && c != '\t' && c != ' ' }

  /** A key starts with neither white space nor a bracket or semicolon and has no equals sign. */
  lemma IdSpelled(s: string)
    ensures IdOk(s) <==>
            OneLine(s) && '=' !in s &&
            (s != [] ==> Letter(s[0]) && s[0] != '[' && s[0] != ';' &&
                         Letter(s[|s| - 1]) && s[|s| - 1] != '\U{000B}')
  {
    hide OneLine;
    if s != [] && OneLine(s) { LastOnLine(s); }
  }

  lemma SectionSpelled(s: string)
    ensures SectionOk(s) <==>
            s != [] && OneLine(s) && ']' !in s && Letter(s[0]) &&
            Letter(s[|s| - 1]) && s[|s| - 1] != '\U{000B}'
  {
    hide OneLine;
    if s != [] && OneLine(s) { LastOnLine(s); }
  }

  lemma LastOnLine(s: string)
    requires s != [] && OneLine(s)
    ensures s[|s| - 1] != '\n' && s[|s| - 1] != '\r'
  {
  }

  /** Without quotes, a mark belongs to the value exactly if it does not follow white space. */
  predicate MarksInside(v: string, white: bool) {
    && (v != [] && Mark(v[0]) ==> !white)
    && forall i | 0 < i < |v| && Mark(v[i]) :: Letter(v[i - 1])
  }

  predicate QuoteFree(v: string) { '\"' !in v && '\'' !in v }

  lemma MarksStep(v: string, white: bool)
    requires v != []
    ensures MarksInside(v, white) <==> (Mark(v[0]) ==> !white) && MarksInside(v[1..], IsWhite(v[0]))
  {
    hide Mark;
    var w := v[1..];
    if MarksInside(v, white) {
      forall i | 0 < i < |w| && Mark(w[i])
        ensures Letter(w[i - 1])
      {
        assert v[i + 1] == w[i] && v[i] == w[i - 1];
      }
      if w != [] { assert v[1] == w[0]; }
    }
    if (Mark(v[0]) ==> !white) && MarksInside(w, IsWhite(v[0])) {
      forall i | 0 < i < |v| && Mark(v[i])
        ensures Letter(v[i - 1])
      {
        assert w[i - 1] == v[i] && (i > 1 ==> w[i - 2] == v[i - 1]);
      }
    }
  }

  lemma {:induction false} CutSpelled(v: string, white: bool)
    requires QuoteFree(v)
    ensures Cut(v, white, None) == |v| <==> MarksInside(v, white)
    ensures QuoteAfter(v, None).None?
    decreases |v|
  {
    if v != [] {
      hide MarksInside;
      assert v[0] in v;
      MarksStep(v, white);
      CutSpelled(v[1..], IsWhite(v[0]));
    } else {
      assert MarksInside(v, white);
    }
  }

  /** A value without quotes that a comment can follow, spelled out. */
  lemma ValueSpelled(v: string)
    requires QuoteFree(v)
    ensures ValueClosed(v) <==>
            OneLine(v) && MarksInside(v, true) &&
            (v != [] ==> Letter(v[0]) && Letter(v[|v| - 1]) && v[|v| - 1] != '\U{000B}')
  {
    hide OneLine, Cut, QuoteAfter, MarksInside;
    CutSpelled(v, true);
    if v != [] && OneLine(v) { LastOnLine(v); }
  }

  /** Between quotes of either kind everything belongs to the value. */
  lemma QuotedValue(q: char, v: string)
    requires (q == '\"' || q == '\'') && OneLine(v) && q !in v
    ensures ValueClosed([q] + (v + [q]))
  {
    var s := [q] + (v + [q]);
    hide Cut, QuoteAfter;
    QuotedCut(q, v, false);
    QuoteStart(q, v + [q]);
    assert OneLine(s) by {
      forall i | 0 <= i < |s|
        ensures !StopsLine(s[i])
      {
        if 1 <= i <= |v| { assert s[i] == v[i - 1]; }
      }
    }
  }

  lemma QuoteStart(q: char, r: string)
    requires q == '\"' || q == '\''
    ensures Cut([q] + r, true, None) == 1 + Cut(r, false, Some(q))
    ensures QuoteAfter([q] + r, None) == QuoteAfter(r, Some(q))
  {
    assert ([q] + r)[1..] == r;
  }

  lemma {:induction false} QuotedCut(q: char, v: string, white: bool)
    requires q !in v
    ensures Cut(v + [q], white, Some(q)) == |v| + 1 && QuoteAfter(v + [q], Some(q)).None?
    decreases |v|
  {
    var s := v + [q];
    if v == [] {
      assert s == [q] && s[1..] == [];
    } else {
      assert s[1..] == v[1..] + [q];
      QuotedCut(q, v[1..], IsWhite(v[0]));
    }
  }

  // ----- values and comments -----

  lemma {:induction false} CutAtMark(g: string, mark: char, c: string, white: bool)
    requires White(g) && Mark(mark) && (g == [] ==> white)
    ensures Cut(g + ([mark] + c), white, None) == |g|
    decreases |g|
  {
    var t := g + ([mark] + c);
    if g == [] {
      assert t == [mark] + c;
    } else {
      assert t[1..] == g[1..] + ([mark] + c);
      CutAtMark(g[1..], mark, c, true);
    }
  }

  lemma WhiteSkipped(b: string, s: string)
    requires White(b)
    ensures SkipWhite(b + s) == SkipWhite(s)
  {
    SkipAway(b, s);
  }

  /** A value, white space, a mark of either kind and a comment. */
  lemma ValueThenComment(id: Option<string>, b: string, v: string, g: string, mark: char, c: string)
    requires White(b) && ValueClosed(v) && White(g) && (v != [] ==> g != []) && Mark(mark)
    ensures ParseValue(id, SkipWhite(b + (v + (g + ([mark] + c))))) == Entry(None, id, Some(v), Some(c))
  {
    hide SkipWhite, ParseValue, ValueClosed;
    var m := [mark] + c;
    WhiteSkipped(b, v + (g + m));
    if v == [] {
      assert v + (g + m) == g + m;
      WhiteSkipped(g, m);
      CommentAlone(id, mark, c);
    } else {
      ClosedThenComment(id, v, g, mark, c);
    }
  }

  lemma ClosedThenComment(id: Option<string>, v: string, g: string, mark: char, c: string)
    requires ValueClosed(v) && v != [] && White(g) && g != [] && Mark(mark)
    ensures ParseValue(id, SkipWhite(v + (g + ([mark] + c)))) == Entry(None, id, Some(v), Some(c))
  {
    hide Cut, QuoteAfter, SkipWhite, TrimSpace, ParseValue, WhiteAfter, OneLine;
    var r := g + ([mark] + c);
    var t := v + r;
    assert t[0] == v[0];
    SkipNothing(t);
    CutConcat(v, r, true, None);
    CutAtMark(g, mark, c, WhiteAfter(v, true));
    CutValue(id, t, |v| + |g|);
    Pieces(v, g, mark, c);
    TrimAway(v, g);
  }

  lemma Pieces(v: string, g: string, mark: char, c: string)
    ensures var t := v + (g + ([mark] + c)); t[..|v| + |g|] == v + g && t[|v| + |g| + 1..] == c
  {
  }

  lemma CommentAlone(id: Option<string>, mark: char, c: string)
    requires Mark(mark)
    ensures ParseValue(id, SkipWhite([mark] + c)) == Entry(None, id, Some(""), Some(c))
  {
    hide Cut, SkipWhite, TrimSpace, ParseValue;
    var m := [mark] + c;
    SkipNothing(m);
    CutAtMark([], mark, c, true);
    assert [] + m == m && m[..0] == [] && m[1..] == c;
    CutValue(id, m, 0);
    TrimNothing([]);
  }

  lemma ValueAlone(id: Option<string>, b: string, v: string)
    requires White(b) && ValueOk(v)
    ensures ParseValue(id, SkipWhite(b + v)) == Entry(None, id, Some(v), None)
  {
    hide Cut, SkipWhite, ParseValue, OneLine;
    WhiteSkipped(b, v);
    SkipNothing(v);
    CutValue(id, v, |v|);
  }

  // ----- lines -----

  /** White space that `rtrim` removes: blank, tab, vertical tab and form feed. */
  predicate Gap(s: string) {
    forall i | 0 <= i < |s| :: s[i] == ' ' || s[i] == '\t' || s[i] == '\U{000B}' || s[i] == '\U{000C}'
  }

  lemma KeyStart(id: string, a: string, rest: string)
    requires IdOk(id) && Gap(a) && (id == [] ==> a == [])
    ensures ParseLine(id + a + ("=" + rest)) == Some(ParseValue(Some(id), SkipWhite(rest)))
  {
    hide ParseLine, ParseValue, SkipWhite, TrimSpace;
    KeyCut(id + a, rest);
    TrimAway(id, a);
  }

  /** Key, equals sign, value and a comment behind either mark. */
  lemma KeyLineCommented(id: string, a: string, b: string, v: string, g: string, mark: char, c: string)
    requires IdOk(id) && Gap(a) && (id == [] ==> a == []) && White(b)
    requires ValueClosed(v) && White(g) && (v != [] ==> g != []) && Mark(mark)
    ensures ParseLine(id + a + ("=" + (b + (v + (g + ([mark] + c)))))) == Some(Entry(None, Some(id), Some(v), Some(c)))
  {
    hide ParseLine, ParseValue, SkipWhite, IdOk, ValueClosed;
    KeyStart(id, a, b + (v + (g + ([mark] + c))));
    ValueThenComment(Some(id), b, v, g, mark, c);
  }

  lemma KeyLinePlain(id: string, a: string, b: string, v: string)
    requires IdOk(id) && Gap(a) && (id == [] ==> a == []) && White(b) && ValueOk(v)
    ensures ParseLine(id + a + ("=" + (b + v))) == Some(Entry(None, Some(id), Some(v), None))
  {
    hide ParseLine, ParseValue, SkipWhite, IdOk, ValueOk;
    KeyStart(id, a, b + v);
    ValueAlone(Some(id), b, v);
  }

  /** An indented line continues the value above it. */
  lemma ContinuationMeans(b: string, v: string, g: string, mark: char, c: string)
    requires White(b) && b != [] && ValueClosed(v) && v != [] && v[0] != '[' && v[0] != ';'
    requires White(g) && g != [] && Mark(mark)
    ensures ParseLine(b + v) == Some(Entry(None, None, Some(v), None))
    ensures ParseLine(b + (v + (g + ([mark] + c)))) == Some(Entry(None, None, Some(v), Some(c)))
  {
    hide ParseValue, SkipWhite, ParseSection, ParseKey, OneLine, Cut, QuoteAfter;
    var m := v + (g + ([mark] + c));
    WhiteSkipped(b, v);
    WhiteSkipped(b, m);
    assert m[0] == v[0];
    SkipNothing(v);
    SkipNothing(m);
    ValueThenComment(None, b, v, g, mark, c);
    ValueAlone(None, b, v);
  }

  /** White space alone, on a last line without line end, is an empty continuation. */
  lemma BlankLine(b: string)
    requires White(b) && b != []
    ensures ParseLine(b) == Some(Entry(None, None, Some(""), None))
  {
    hide ParseValue, SkipWhite, ParseSection, ParseKey;
    assert b + [] == b;
    WhiteSkipped(b, []);
    SkipNothing([]);
    CutValue(None, [], 0);
  }

  lemma BracketLine(w: string, s: string)
    requires White(w)
    ensures ParseLine(w + ("[" + s)) == ParseSection(s)
  {
    hide SkipWhite, ParseSection;
    WhiteSkipped(w, "[" + s);
    SkipNothing("[" + s);
    assert ("[" + s)[1..] == s;
  }

  lemma NameLine(b: string, name: string, a: string, rest: string)
    requires White(b) && SectionOk(name) && Gap(a)
    ensures ParseSection(b + (name + a + ("]" + rest))) ==
            Some(Entry(Some(name), None, None, CommentAt(SkipWhite(rest))))
  {
    hide SkipWhite, Find, TrimSpace, OneLine, CommentAt, ParseSection;
    var t := name + a + ("]" + rest);
    WhiteSkipped(b, t);
    assert t[0] == name[0];
    SkipNothing(t);
    NoBracket(name, a);
    FindFirst(name + a, ']', rest);
    TrimAway(name, a);
    SectionFrom(b + t, t, |name + a|, name);
  }

  lemma NoBracket(name: string, a: string)
    requires ']' !in name && Gap(a)
    ensures ']' !in name + a
  {
  }

  lemma SectionFrom(s: string, t: string, n: nat, name: string)
    requires SkipWhite(s) == t && Find(t, ']') == n < |t| && TrimSpace(t[..n]) == name != []
    ensures ParseSection(s) == Some(Entry(Some(name), None, None, CommentAt(SkipWhite(t[n + 1..]))))
  {
    hide SkipWhite, Find, TrimSpace, CommentAt;
  }

  /** A section, indented or not, with blanks inside its brackets and a comment behind either mark. */
  lemma SectionLineCommented(w: string, b: string, name: string, a: string, g: string, mark: char, c: string)
    requires White(w) && White(b) && SectionOk(name) && Gap(a) && White(g) && Mark(mark)
    ensures ParseLine(w + ("[" + (b + (name + a + ("]" + (g + ([mark] + c))))))) ==
            Some(Entry(Some(name), None, None, Some(c)))
  {
    hide ParseLine, ParseSection, SkipWhite, SectionOk;
    var m := [mark] + c;
    BracketLine(w, b + (name + a + ("]" + (g + m))));
    NameLine(b, name, a, g + m);
    WhiteSkipped(g, m);
    SkipNothing(m);
    assert m[1..] == c;
  }

  /** Anything else behind the bracket is ignored. */
  lemma SectionLinePlain(w: string, b: string, name: string, a: string, g: string, junk: string)
    requires White(w) && White(b) && SectionOk(name) && Gap(a) && White(g)
    requires junk != [] ==> Letter(junk[0]) && !Mark(junk[0])
    ensures ParseLine(w + ("[" + (b + (name + a + ("]" + (g + junk)))))) == Some(Entry(Some(name), None, None, None))
  {
    hide ParseLine, ParseSection, SkipWhite, SectionOk;
    BracketLine(w, b + (name + a + ("]" + (g + junk))));
    NameLine(b, name, a, g + junk);
    WhiteSkipped(g, junk);
    SkipNothing(junk);
  }

  /** A semicolon starts a comment line, indented or not. */
  lemma SemicolonLine(w: string, c: string)
    requires White(w)
    ensures ParseLine(w + (";" + c)) == Some(Entry(None, None, None, Some(c)))
  {
    hide SkipWhite, ParseSection, ParseKey, ParseValue;
    WhiteSkipped(w, ";" + c);
    SkipNothing(";" + c);
    assert (";" + c)[1..] == c;
  }

  /** A hash does not: such a line is a key if it has an equals sign, and nothing otherwise. */
  lemma HashLine(k: string, v: string)
    requires OneLine(k) && '=' !in k && (k != [] ==> Letter(k[|k| - 1]) && k[|k| - 1] != '\U{000B}') && ValueOk(v)
    ensures ParseLine("#" + k + ("=" + v)) == Some(Entry(None, Some("#" + k), Some(v), None))
    ensures ParseLine("#" + k) == None
  {
    var id := "#" + k;
    IdSpelled(id) by { HashOneLine(k); }
    KeyLinePlain(id, "", "", v) by { assert Gap("") && White(""); }
    assert id + "" == id && "" + v == v;
    NoEquals(id);
  }

  lemma HashOneLine(k: string)
    requires OneLine(k)
    ensures OneLine("#" + k)
  {
  }

  /** A line that is none of these and has no equals sign is dropped. */
  lemma NoEquals(line: string)
    requires line != [] && Letter(line[0]) && line[0] != '[' && line[0] != ';' && '=' !in line
    ensures ParseLine(line) == None
  {
    hide SkipWhite, ParseSection, ParseValue;
    SkipNothing(line);
  }

  /** Brackets without a name, and a bracket that is not closed, are dropped. */
  lemma NamelessDropped(w: string, b: string, rest: string, open: string)
    requires White(w) && Gap(b) && ']' !in open
    ensures ParseLine(w + ("[" + (b + ("]" + rest)))) == None && ParseLine(w + ("[" + open)) == None
  {
    hide ParseLine;
    BracketLine(w, b + ("]" + rest));
    BracketLine(w, open);
    NamelessSection(b, rest);
    OpenSection(open);
  }

  lemma NamelessSection(b: string, rest: string)
    requires Gap(b)
    ensures ParseSection(b + ("]" + rest)) == None
  {
    hide SkipWhite, Find, TrimSpace, IsTail;
    var s := b + ("]" + rest);
    var g := GapSkipped(b, "]" + rest);
    NoBracket([], g);
    assert [] + g == g;
    FindFirst(g, ']', rest);
    TrimAway([], g);
    assert [] + g == g;
  }

  /** Skipping white space leaves some of the gap. */
  lemma {:induction false} GapSkipped(b: string, s: string) returns (g: string)
    requires Gap(b) && s != [] && Letter(s[0])
    ensures SkipWhite(b + s) == g + s && Gap(g)
    decreases |b|
  {
    if b == [] || !IsWhite(b[0]) {
      g := b;
      if b == [] { assert b + s == s; }
    } else {
      assert (b + s)[1..] == b[1..] + s;
      g := GapSkipped(b[1..], s);
    }
  }

  lemma OpenSection(s: string)
    requires ']' !in s
    ensures ParseSection(s) == None
  {
    hide SkipWhite, TrimSpace;
    var t := SkipWhite(s);
    assert t == s[|s| - |t|..];
  }

  // ----- line ends -----

  lemma {:induction false} LineStops(line: string, e: char, rest: string)
    requires OneLine(line) && LineEnd(e)
    ensures LineLength(line + ([e] + rest)) == |line|
    decreases |line|
  {
    var t := line + ([e] + rest);
    if line == [] {
      assert t == [e] + rest;
    } else {
      assert t[1..] == line[1..] + ([e] + rest);
      LineStops(line[1..], e, rest);
    }
  }

  lemma BreakSkipped(e: char, rest: string)
    requires LineEnd(e)
    ensures Parse([e] + rest) == Parse(rest)
  {
    hide LineEntries, TrimWhite, LineLength;
    var t := [e] + rest;
    assert t[1..] == rest;
    if Head(rest) == '\0' {
      assert SkipEol(t) == rest && LineLength(rest) == 0 by { Stopped(rest); }
      assert rest[..0] == [] && rest[0..] == rest;
      assert GetLine(t) == ([], rest);
      assert LineEntries([]) == [] by { NoLine(); }
    }
  }

  lemma Stopped(rest: string)
    requires Head(rest) == '\0'
    ensures LineLength(rest) == 0
  {
  }

  lemma NoLine()
    ensures LineEntries([]) == []
  {
  }

  /** A line ends at a line feed, a carriage return, both, or U+001A; white space at its end is dropped. */
  lemma LineRead(line: string, w: string, eol: string, rest: string)
    requires OneLine(line) && (line != [] ==> Letter(line[|line| - 1])) && White(w)
    requires eol == "\n" || eol == "\r" || eol == "\r\n" || eol == "\U{001A}"
    ensures Parse(line + w + (eol + rest)) == LineEntries(line) + Parse(rest)
  {
    hide Parse, LineEntries;
    if eol == "\r\n" {
      assert eol + rest == "\r" + ("\n" + rest);
      LineReadOne(line, w, '\r', "\n" + rest);
      BreakSkipped('\n', rest);
    } else {
      LineReadOne(line, w, eol[0], rest);
      assert eol == [eol[0]];
    }
  }

  lemma LineReadOne(line: string, w: string, e: char, rest: string)
    requires OneLine(line) && (line != [] ==> Letter(line[|line| - 1])) && White(w) && LineEnd(e)
    ensures Parse(line + w + ([e] + rest)) == LineEntries(line) + Parse(rest)
  {
    hide LineEntries, TrimWhite, GetLine, OneLine;
    var l := line + w;
    TrimmedEnd(line, w);
    if l == [] {
      assert l + ([e] + rest) == [e] + rest;
      BreakSkipped(e, rest);
      NoLine();
      assert LineEntries(line) + Parse(rest) == Parse(rest);
    } else {
      WhiteOneLine(w);
      OneLineSum(line, w);
      EndedLine(l, e, rest);
    }
  }

  lemma WhiteOneLine(w: string)
    requires White(w)
    ensures OneLine(w)
  {
  }

  lemma EndedLine(l: string, e: char, rest: string)
    requires OneLine(l) && l != [] && LineEnd(e)
    ensures var t := l + ([e] + rest); Head(t) != '\0' && GetLine(t) == (TrimWhite(l), rest)
  {
    hide TrimWhite, LineLength, SkipEol;
    var t := l + ([e] + rest);
    LineStops(l, e, rest);
    assert t[0] == l[0];
    StartsHere(t);
    assert t[|l|] == e && t[..|l|] == l && t[|l| + 1..] == rest;
  }

  lemma {:induction false} TrimmedEnd(line: string, w: string)
    requires (line != [] ==> Letter(line[|line| - 1])) && White(w)
    ensures TrimWhite(line + w) == line
    decreases |w|
  {
    if w == [] {
      assert line + w == line;
    } else {
      var n := |w| - 1;
      assert (line + w)[..|line| + n] == line + w[..n];
      TrimmedEnd(line, w[..n]);
    }
  }

  /** The last line of a file that does not end it is taken as it is. */
  lemma LastLineRead(line: string)
    requires OneLine(line) && line != []
    ensures Parse(line) == LineEntries(line)
  {
    hide LineEntries, TrimWhite, LineLength, SkipEol;
    StartsHere(line);
    NeverStops(line);
    assert line[..|line|] == line && line[|line|..] == [];
    assert GetLine(line) == (line, []);
    hide GetLine;
    NothingParsed();
    assert LineEntries(line) + [] == LineEntries(line);
  }

  lemma {:induction false} NeverStops(line: string)
    requires OneLine(line)
    ensures LineLength(line) == |line|
  {
    if line != [] { NeverStops(line[1..]); }
  }

  // ----- reading -----

  /** A file of one section and one key, with any line ends and a comment behind either mark. */
  lemma CommentedKeyRead(sec: string, id: string, v: string, mark: char, c: string, eol: string)
    requires SectionOk(sec) && IdOk(id) && PlainKey(id) && ValueClosed(v) && Mark(mark) && CommentOk(c)
    requires eol == "\n" || eol == "\r" || eol == "\r\n" || eol == "\U{001A}"
    ensures var text := "[" + (sec + "]") + (eol + (id + ("=" + (v + (" " + ([mark] + c)))) + (eol + "")));
            ReadStr(text, sec, id) == Done(Some(v))
  {
    hide Parse, ParseLine, LoopEnds, Lookup, SectionOk, IdOk, ValueClosed, CommentOk, PlainKey, OneLine;
    var header, line := "[" + (sec + "]"), id + ("=" + (v + (" " + ([mark] + c))));
    var text := header + (eol + (line + (eol + "")));
    HeaderLine(sec);
    CommentedLine(id, v, mark, c);
    LineRead(header, "", eol, line + (eol + "")) by { assert White(""); }
    LineRead(line, "", eol, "") by { assert White(""); }
    assert header + "" == header && line + "" == line;
    NothingParsed();
    var es := [Entry(Some(sec), None, None, None), Entry(None, Some(id), Some(v), Some(c))];
    assert Parse(text) == es;
    OnlyKeyFound(sec, id, v, Some(c));
    TwoLinesEnd(header, line, eol);
  }

  lemma TwoLinesEnd(header: string, line: string, eol: string)
    requires OneLine(header) && OneLine(line) && NulFree(eol)
    ensures LoopEnds(header + (eol + (line + (eol + ""))))
  {
    hide LoopEnds;
    LoopEndsExactly(header + (eol + (line + (eol + ""))));
  }

  lemma NothingParsed()
    ensures Parse("") == []
  {
  }

  lemma HeaderLine(sec: string)
    requires SectionOk(sec)
    ensures var header := "[" + (sec + "]");
            && OneLine(header) && Letter(header[|header| - 1])
            && LineEntries(header) == [Entry(Some(sec), None, None, None)]
  {
    var header := "[" + (sec + "]");
    BracketsOneLine(sec);
    hide OneLine;
    SectionBack(sec, None);
    assert "]" + CommentText(None) == "]";
    hide ParseLine, SectionOk;
    assert LineEntries(header) == [Entry(Some(sec), None, None, None)];
  }

  lemma BracketsOneLine(sec: string)
    requires OneLine(sec)
    ensures OneLine("[" + (sec + "]"))
  {
    hide OneLine;
    SingleOneLine('[');
    SingleOneLine(']');
    OneLineSum(sec, "]");
    OneLineSum("[", sec + "]");
  }

  lemma SingleOneLine(c: char)
    requires c > '\U{001A}'
    ensures OneLine([c])
  {
  }

  lemma CommentedLine(id: string, v: string, mark: char, c: string)
    requires IdOk(id) && ValueClosed(v) && Mark(mark) && CommentOk(c)
    ensures var line := id + ("=" + (v + (" " + ([mark] + c))));
            && OneLine(line) && Letter(line[|line| - 1])
            && LineEntries(line) == [Entry(None, Some(id), Some(v), Some(c))]
  {
    hide Cut, QuoteAfter, ParseLine;
    var m := " " + ([mark] + c);
    var line := id + ("=" + (v + m));
    OneLineSum(" ", [mark] + c) by { OneLineSum([mark], c); }
    OneLineSum(v, m);
    OneLineSum("=", v + m);
    OneLineSum(id, "=" + (v + m));
    assert line[|line| - 1] == if c == [] then mark else c[|c| - 1];
    hide OneLine, IdOk, ValueClosed, CommentOk;
    KeyLineCommented(id, "", "", v, " ", mark, c) by { assert White("") && White(" ") && Gap(""); }
    assert id + "" + ("=" + ("" + (v + m))) == line;
  }

  lemma OnlyKeyFound(sec: string, id: string, v: string, c: Option<string>)
    requires PlainKey(id)
    ensures Lookup([Entry(Some(sec), None, None, None), Entry(None, Some(id), Some(v), c)], sec, id) == Some(v)
  {
    hide PlainKey, RemoveQuotes;
    PlainKeyKept(id);
    var es := [Entry(Some(sec), None, None, None), Entry(None, Some(id), Some(v), c)];
    assert es[1..] == [es[1]] && es[1..][1..] == [];
    assert SearchAll(Inside, [es[1]], sec, id) == Found(v) by { SearchOne(Inside, es[1], sec, id); }
  }
}
