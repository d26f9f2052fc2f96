/** Printing a list of entries and parsing the text gives the entries back. */
module IniRoundTrip {
  import opened CText
  import opened IniText
  import opened IniParsed
  import opened IniOutput

  lemma {:induction false} LineEnds(line: string, rest: string)
    requires OneLine(line)
    ensures LineLength(line + ("\n" + rest)) == |line|
    decreases |line|
  {
    if line == [] {
      assert line + ("\n" + rest) == "\n" + rest;
    } else {
      DropFirst(line, "\n" + rest);
      LineEnds(line[1..], rest);
    }
  }

  lemma SkipBreak(s: string)
    ensures SkipEol("\n" + s) == SkipEol(s)
  {
    assert ("\n" + s)[1..] == s;
  }

  lemma PrintedLine(blank: string, line: string, rest: string)
    requires (blank == "" || blank == "\n") && OneLine(line) && line != []
    ensures var t := blank + (line + ("\n" + rest));
            Head(t) != '\0' && GetLine(t) == (TrimWhite(line), rest)
  {
    hide TrimWhite, SkipEol, LineLength;
    var t := line + ("\n" + rest);
    assert t[0] == line[0];
    assert SkipEol(blank + t) == t by {
      StartsHere(t);
      if blank == "" { assert blank + t == t; } else { SkipBreak(t); }
    }
    LineEnds(line, rest);
    assert t[..|line|] == line && t[|line|] == '\n';
    assert t[|line| + 1..] == rest;
  }

  lemma StartsHere(t: string)
    requires t != [] && !IsEol(t[0])
    ensures SkipEol(t) == t
  {
  }

  /** The parser reads a printed line, whether or not a blank line precedes it. */
  lemma LineThenRest(blank: string, line: string, rest: string)
    requires (blank == "" || blank == "\n") && OneLine(line)
    ensures Parse(blank + (line + ("\n" + rest))) == LineEntries(TrimWhite(line)) + Parse(rest)
  {
    var t := line + ("\n" + rest);
    if line == [] {
      hide GetLine, Parse;
      assert t == "\n" + rest;
      BreakThenRest(rest);
      if blank == "" {
        assert blank + t == t;
      } else {
        BreakThenRest("\n" + rest);
      }
      assert LineEntries(TrimWhite(line)) + Parse(rest) == Parse(rest);
    } else {
      hide GetLine, TrimWhite, LineEntries;
      PrintedLine(blank, line, rest);
    }
  }

  /** Empty lines mean nothing. */
  lemma BreakThenRest(rest: string)
    ensures Parse("\n" + rest) == Parse(rest)
  {
    hide LineEntries, TrimWhite, LineLength;
    SkipBreak(rest);
    if Head(rest) == '\0' { BreakThenNothing(rest); }
  }

  lemma BreakThenNothing(rest: string)
    requires Head(rest) == '\0'
    ensures Parse("\n" + rest) == []
  {
    SkipBreak(rest);
    assert SkipEol(rest) == rest && LineLength(rest) == 0;
    assert rest[..0] == [] && rest[0..] == rest;
    assert GetLine("\n" + rest) == ([], rest);
    hide GetLine;
    assert Parse("\n" + rest) == LineEntries([]) + Parse(rest);
  }

  /** Every entry can be shown in the style, with the key width that its section gets. */
  predicate AllShown(es: seq<Entry>, m: nat, style: Style) {
    es == [] ||
    (Shown(es[0], m, style) &&
     AllShown(es[1..], if es[0].section.Some? then LongestKey(es[1..]) else m, style))
  }

  ghost predicate AllOk(es: seq<Entry>) { forall i | 0 <= i < |es| :: EntryOk(es[i]) }

  /** What the parser makes of printed entries: the first line, and then the others. */
  lemma FirstPrinted(es: seq<Entry>, skip: bool, m: nat, style: Style)
    requires es != [] && OneLine(EntryText(es[0], m, style))
    ensures var m' := if es[0].section.Some? then LongestKey(es[1..]) else m;
            Parse(Output(es, skip, m, style)) ==
            LineEntries(TrimWhite(EntryText(es[0], m, style)))
            + Parse(Output(es[1..], SkipAfter(es[0], es[1..], skip), m', style))
  {
    hide Parse, EntryText, BlankBefore, SkipAfter, LineEntries, TrimWhite, LongestKey, OneLine;
    var m' := if es[0].section.Some? then LongestKey(es[1..]) else m;
    var blank := if BlankBefore(es[0], es[1..], skip) then "\n" else "";
    var rest := Output(es[1..], SkipAfter(es[0], es[1..], skip), m', style);
    assert Output(es, skip, m, style) == blank + (EntryText(es[0], m, style) + ("\n" + rest));
    hide Output;
    LineThenRest(blank, EntryText(es[0], m, style), rest);
  }

  lemma {:induction false} OutputParses(es: seq<Entry>, skip: bool, m: nat, style: Style)
    requires AllOk(es) && AllShown(es, m, style)
    ensures Parse(Output(es, skip, m, style)) == es
  {
    hide Parse, EntryText, EntryOk, Shown, SkipAfter, LineEntries, TrimWhite, LongestKey, OneLine;
    if es == [] {
      ParseEmpty();
    } else {
      hide Output;
      LineBack(es[0], m, style);
      LineGives(EntryText(es[0], m, style), es[0]);
      FirstPrinted(es, skip, m, style);
      OutputParses(es[1..], SkipAfter(es[0], es[1..], skip),
                   if es[0].section.Some? then LongestKey(es[1..]) else m, style);
      assert [es[0]] + es[1..] == es;
    }
  }

  lemma ParseEmpty()
    ensures Parse([]) == []
  {
  }

  lemma LineGives(line: string, e: Entry)
    ensures ReadsAs(line, e) ==> LineEntries(TrimWhite(line)) == [e]
  {
  }

  // ----- printed files can be read -----

  lemma OneLineSum(a: string, b: string)
    requires OneLine(a) && OneLine(b)
    ensures OneLine(a + b)
  {
  }

  lemma PiecesOneLine(e: Entry, m: nat, style: Style)
    requires EntryOk(e)
    ensures OneLine(CommentText(e.comment)) && OneLine("[") && OneLine("]") && OneLine("  ") && OneLine("")
    ensures e.section.Some? ==> OneLine(e.section.value)
    ensures e.id.Some? ==> OneLine(KeyText(e.id.value, m, style))
    ensures e.value.Some? ==> OneLine(e.value.value)
    ensures e.section.None? && e.value.None? ==> e.comment.Some? && OneLine(";" + e.comment.value)
  {
    hide Cut, QuoteAfter, KeyText;
    if e.id.Some? { KeyOneLine(e.id.value, m, style); }
  }

  lemma KeyOneLine(id: string, m: nat, style: Style)
    requires OneLine(id)
    ensures OneLine(KeyText(id, m, style))
  {
  }

  lemma EntryOneLine(e: Entry, m: nat, style: Style)
    requires EntryOk(e)
    ensures OneLine(EntryText(e, m, style))
  {
    PiecesOneLine(e, m, style);
    hide EntryOk, OneLine, CommentText, KeyText;
    var c := CommentText(e.comment);
    if e.section.Some? {
      OneLineSum("[", e.section.value);
      OneLineSum("[" + e.section.value, "]");
      OneLineSum("[" + e.section.value + "]", c);
    } else if e.value.Some? {
      var k := if e.id.Some? then KeyText(e.id.value, m, style) else if style.Aligned? then "  " else "";
      OneLineSum(k, e.value.value);
      OneLineSum(k + e.value.value, c);
    }
  }

  lemma {:induction false} OutputNulFree(es: seq<Entry>, skip: bool, m: nat, style: Style)
    requires AllOk(es)
    ensures NulFree(Output(es, skip, m, style))
  {
    hide EntryText, EntryOk, BlankBefore, SkipAfter, LongestKey;
    if es != [] {
      EntryOneLine(es[0], m, style);
      OutputNulFree(es[1..], SkipAfter(es[0], es[1..], skip),
                    if es[0].section.Some? then LongestKey(es[1..]) else m, style);
    }
  }

  /** The parse of a printed file returns. */
  lemma OutputReturns(es: seq<Entry>, style: Style)
    requires AllOk(es)
    ensures LoopEnds(Output(es, false, 0, style))
  {
    hide EntryOk, Output, LoopEnds;
    OutputNulFree(es, false, 0, style);
    LoopEndsExactly(Output(es, false, 0, style));
  }

  // ----- compact output -----

  lemma {:induction false} CompactShown(es: seq<Entry>, m: nat)
    requires forall i | 0 <= i < |es| :: !IsContinuation(es[i])
    ensures AllShown(es, m, Compact)
    decreases |es|
  {
    if es != [] {
      CompactShown(es[1..], if es[0].section.Some? then LongestKey(es[1..]) else m);
    }
  }

  ghost predicate NoContinuation(es: seq<Entry>) { forall i | 0 <= i < |es| :: !IsContinuation(es[i]) }

  /** What compact output prints for a continuation is never read as one. */
  lemma LostLine(e: Entry, m: nat)
    requires EntryOk(e) && IsContinuation(e)
    ensures var line := EntryText(e, m, Compact);
            OneLine(line) && NoContinuation(LineEntries(TrimWhite(line)))
  {
    var v, c := e.value.value, e.comment;
    assert "" + v == v;
    assert EntryText(e, m, Compact) == v + CommentText(c);
    CommentLast(c, v);
    if v == [] {
      assert v + CommentText(c) == CommentText(c);
      hide EntryText, EntryOk, ParseLine;
      if c.Some? { LostComment(c.value); }
    } else {
      var line := v + CommentText(c);
      hide EntryText, EntryOk, CommentText, TrimWhite, ParseLine;
      Untrimmed(line);
      assert line[0] == v[0];
      LineParsed(line);
    }
  }

  lemma LostComment(c: string)
    requires CommentOk(c)
    ensures NoContinuation(LineEntries(TrimWhite("\t;" + c)))
  {
    hide TrimWhite, SkipWhite, ParseSection, ParseKey, ParseValue;
    var line := "\t;" + c;
    Untrimmed(line);
    assert line == "\t" + (";" + c);
    SkipAway("\t", ";" + c);
    SkipNothing(";" + c);
    assert ParseLine(line) == Some(Entry(None, None, None, Some((";" + c)[1..])));
  }

  lemma CompactLine(e: Entry, m: nat)
    requires EntryOk(e)
    ensures var line := EntryText(e, m, Compact);
            OneLine(line) && NoContinuation(LineEntries(TrimWhite(line)))
  {
    hide EntryOk, EntryText, LineEntries;
    if IsContinuation(e) {
      LostLine(e, m);
    } else {
      LineBack(e, m, Compact);
      LineGives(EntryText(e, m, Compact), e);
    }
  }

  lemma {:induction false} OutputHasNoContinuation(es: seq<Entry>, skip: bool, m: nat)
    requires AllOk(es)
    ensures NoContinuation(Parse(Output(es, skip, m, Compact)))
  {
    hide Parse, EntryText, EntryOk, BlankBefore, SkipAfter, LineEntries, IsContinuation;
    if es == [] {
      ParseEmpty();
    } else {
      CompactLine(es[0], m);
      FirstPrinted(es, skip, m, Compact);
      OutputHasNoContinuation(es[1..], SkipAfter(es[0], es[1..], skip),
                              if es[0].section.Some? then LongestKey(es[1..]) else m);
    }
  }

  /** Compact output survives a reparse exactly when there is no continuation. */
  lemma CompactExact(es: seq<Entry>)
    requires AllOk(es)
    ensures LoopEnds(Output(es, false, 0, Compact))
    ensures Parse(Output(es, false, 0, Compact)) == es <==> NoContinuation(es)
  {
    hide Parse, Output, EntryOk, LoopEnds;
    OutputReturns(es, Compact);
    OutputHasNoContinuation(es, false, 0);
    if NoContinuation(es) {
      CompactShown(es, 0);
      OutputParses(es, false, 0, Compact);
    }
  }

  /** A continuation line does not come back from compact output. */
  lemma ContinuationLost()
    ensures var es := [Entry(None, Some("k"), Some("1"), None), Entry(None, None, Some("2"), None)];
            AllOk(es) && Parse(Output(es, false, 0, Compact)) != es
  {
    var es := [Entry(None, Some("k"), Some("1"), None), Entry(None, None, Some("2"), None)];
    assert IsContinuation(es[1]);
    CompactExact(es);
  }

  // ----- aligned output -----

  /** No key before the next section is longer than `m`. */
  predicate KeysFit(es: seq<Entry>, m: nat) {
    es == [] || es[0].section.Some? ||
    ((es[0].id.Some? ==> |es[0].id.value| <= m) && KeysFit(es[1..], m))
  }

  lemma {:induction false} KeysFitMore(es: seq<Entry>, m: nat, n: nat)
    requires KeysFit(es, m) && m <= n
    ensures KeysFit(es, n)
    decreases |es|
  {
    if es != [] && es[0].section.None? { KeysFitMore(es[1..], m, n); }
  }

  lemma {:induction false} LongestFits(es: seq<Entry>)
    ensures KeysFit(es, LongestKey(es))
  {
    if es != [] && es[0].section.None? {
      LongestFits(es[1..]);
      KeysFitMore(es[1..], LongestKey(es[1..]), LongestKey(es));
    }
  }

  /** What aligned output cannot show: an empty key, or a continuation without a value. */
  predicate Alignable(e: Entry) {
    (IsKey(e) ==> e.id.value != []) && (IsContinuation(e) ==> e.value.value != [])
  }

  /** The width never cuts a key. */
  lemma {:induction false} AlignedShown(es: seq<Entry>, m: nat)
    requires (m == 0 || KeysFit(es, m)) && forall i | 0 <= i < |es| :: Alignable(es[i])
    ensures AllShown(es, m, Aligned)
    decreases |es|
  {
    if es != [] {
      LongestFits(es[1..]);
      AlignedShown(es[1..], if es[0].section.Some? then LongestKey(es[1..]) else m);
    }
  }

  /** An indented line never defines a key. */
  lemma IndentedNoKey(text: string)
    requires text != [] && IsWhite(text[0])
    ensures forall e | e in LineEntries(TrimWhite(text)) :: e.id.None?
  {
    hide TrimWhite, SkipWhite, ParseValue;
    var line := TrimWhite(text);
    if line != [] {
      assert line[0] == text[0];
      NoKeyInValue(SkipWhite(line));
    }
  }

  lemma NoKeyInValue(s: string)
    ensures ParseValue(None, s).id.None?
  {
    hide Cut, TrimSpace;
  }

  /** What aligned output prints for an entry it cannot show is read as something else. */
  lemma Misread(e: Entry, m: nat)
    requires EntryOk(e) && !Alignable(e)
    ensures var line := EntryText(e, m, Aligned);
            OneLine(line) && LineEntries(TrimWhite(line)) != [e]
  {
    hide EntryText, LineEntries, TrimWhite, ValueOk, ValueClosed, CommentOk, IdOk, SectionOk, CommentText;
    if IsKey(e) {
      ValueOneLine(e.value.value);
      CommentLast(e.comment, e.value.value);
      EmptyKey(e, m);
      IndentedNoKey(EntryText(e, m, Aligned));
      assert e in [e];
    } else {
      BlankContinuation(e.comment);
      ContinuationText(e, m);
      assert e in [e];
    }
  }

  lemma ValueOneLine(v: string)
    requires ValueOk(v)
    ensures OneLine(v) && (v != [] ==> !IsWhite(v[|v| - 1]))
  {
    hide Cut;
  }

  lemma ContinuationText(e: Entry, m: nat)
    requires IsContinuation(e) && e.value.value == []
    ensures EntryText(e, m, Aligned) == "  " + CommentText(e.comment)
  {
    hide CommentText;
    assert "  " + "" == "  ";
  }

  lemma EmptyKey(e: Entry, m: nat)
    requires EntryOk(e) && IsKey(e) && e.id.value == []
    requires OneLine(e.value.value + CommentText(e.comment))
    ensures var line := EntryText(e, m, Aligned); OneLine(line) && line != [] && line[0] == ' '
  {
    hide EntryOk, CommentText;
    var k := KeyText(e.id.value, m, Aligned);
    assert OneLine(k) && k[0] == ' ';
    hide KeyText, Pad;
    assert EntryText(e, m, Aligned) == k + (e.value.value + CommentText(e.comment));
  }

  lemma BlankContinuation(c: Option<string>)
    requires c.Some? ==> CommentOk(c.value)
    ensures var line := "  " + CommentText(c);
            OneLine(line) && forall e | e in LineEntries(TrimWhite(line)) :: e.value.None?
  {
    hide SkipWhite, ParseSection, ParseKey, ParseValue, Parse;
    var line := "  " + CommentText(c);
    if c.None? {
      assert line == "  ";
      assert TrimWhite("  ") == [] by { assert "  "[..1] == " "; assert " "[..0] == ""; }
    } else {
      hide TrimWhite;
      assert line == "  \t" + (";" + c.value);
      Untrimmed(line);
      SkipAway("  \t", ";" + c.value);
      SkipNothing(";" + c.value);
    }
  }

  lemma OneLineOneEntry(line: string)
    ensures |LineEntries(line)| <= 1
  {
    hide ParseLine;
  }

  lemma SumOfParts(es: seq<Entry>, a: seq<Entry>, b: seq<Entry>)
    requires es != [] && |a| <= 1 && |b| < |es|
    ensures a + b == es ==> a == [es[0]] && b == es[1..]
  {
    if a + b == es { assert a == (a + b)[..1] && b == (a + b)[1..]; }
  }

  /** No more entries come back than were printed, and all of them only if every one can be shown. */
  lemma {:induction false} AlignedLoss(es: seq<Entry>, skip: bool, m: nat)
    requires AllOk(es) && (m == 0 || KeysFit(es, m))
    ensures var back := Parse(Output(es, skip, m, Aligned));
            |back| <= |es| && (back == es ==> forall i | 0 <= i < |es| :: Alignable(es[i]))
  {
    hide Parse, EntryText, EntryOk, BlankBefore, SkipAfter, LineEntries, Alignable;
    if es == [] {
      ParseEmpty();
    } else {
      var line := EntryText(es[0], m, Aligned);
      var m' := if es[0].section.Some? then LongestKey(es[1..]) else m;
      var skip' := SkipAfter(es[0], es[1..], skip);
      var rest := Output(es[1..], skip', m', Aligned);
      LineOrLoss(es[0], m);
      FirstPrinted(es, skip, m, Aligned);
      OneLineOneEntry(TrimWhite(line));
      LongestFits(es[1..]);
      AlignedLoss(es[1..], skip', m');
      SumOfParts(es, LineEntries(TrimWhite(line)), Parse(rest));
    }
  }

  lemma LineOrLoss(e: Entry, m: nat)
    requires EntryOk(e) && (m == 0 || (e.id.Some? && e.section.None? ==> |e.id.value| <= m))
    ensures var line := EntryText(e, m, Aligned);
            OneLine(line) && (LineEntries(TrimWhite(line)) == [e] ==> Alignable(e))
  {
    hide EntryText, EntryOk, LineEntries;
    if Alignable(e) { LineBack(e, m, Aligned); } else { Misread(e, m); }
  }

  /** Aligned output survives a reparse, continuations included, exactly when every entry is alignable. */
  lemma AlignedExact(es: seq<Entry>)
    requires AllOk(es)
    ensures LoopEnds(Output(es, false, 0, Aligned))
    ensures Parse(Output(es, false, 0, Aligned)) == es <==> forall i | 0 <= i < |es| :: Alignable(es[i])
  {
    hide Parse, Output, EntryOk, LoopEnds;
    OutputReturns(es, Aligned);
    AlignedLoss(es, false, 0);
    if forall i | 0 <= i < |es| :: Alignable(es[i]) {
      AlignedShown(es, 0);
      OutputParses(es, false, 0, Aligned);
    }
  }

  /** A value without a key name comes back from aligned output as a continuation. */
  lemma EmptyKeyLost()
    ensures var es := [Entry(None, Some(""), Some("1"), None)];
            AllOk(es) && Parse(Output(es, false, 0, Aligned)) != es
  {
    var es := [Entry(None, Some(""), Some("1"), None)];
    assert IsKey(es[0]);
    AlignedExact(es);
  }
}
