/** What a removal leaves alone: the whole file, when there is nothing to remove. */
module IniKept {
  import opened CText
  import opened IniText
  import opened IniOutput
  import opened IniRoundTrip
  import opened IniStore
  import opened IniFile
  import opened IniLines
  import opened IniLayout
  import opened IniExact

  /** No section of that name has that key: there is none, or no entry up to the next section defines it. */
  predicate KeyAbsent(es: seq<Entry>, sec: string, id: string) {
    forall s | 0 <= s < |es| && es[s].section == Some(sec) && NotNamed(es, s, sec) ::
      forall i | s < i < |es| && SameBlock(es, s + 1, i + 1) :: es[i].id != Some(id)
  }

  lemma PlaceIsThere(es: seq<Entry>, sec: string, id: string)
    ensures var s := SectionIndex(es, sec);
            s < |es| && KeyIndex(es, s + 1, NextSection(es, s + 1), id) < NextSection(es, s + 1) ==>
              !KeyAbsent(es, sec, id)
  {
    hide SectionIndex, NextSection, KeyIndex;
    var s := SectionIndex(es, sec);
    if s < |es| {
      var n := NextSection(es, s + 1);
      var k := KeyIndex(es, s + 1, n, id);
      if k < n { assert SameBlock(es, s + 1, k + 1); }
    }
  }

  lemma AbsentKey(es: seq<Entry>, sec: string, id: string)
    requires KeyAbsent(es, sec, id)
    ensures DeleteKey(es, sec, id) == es
  {
    hide SectionIndex, NextSection, KeyIndex, BlockStart, Without, KeyAbsent;
    PlaceIsThere(es, sec, id);
  }

  lemma PresentKey(es: seq<Entry>, sec: string, id: string)
    requires !KeyAbsent(es, sec, id)
    ensures |DeleteKey(es, sec, id)| < |es|
  {
    hide SectionIndex, NextSection, KeyIndex, BlockStart, KeyAbsent, DeleteKey;
    DeleteShortens(es, sec, id);
    DeleteShape(es, sec, id);
    var s := SectionIndex(es, sec);
    PresentPlace(es, sec, id);
  }

  lemma PresentPlace(es: seq<Entry>, sec: string, id: string)
    requires !KeyAbsent(es, sec, id)
    ensures var s := SectionIndex(es, sec); s < |es| && KeyPlace(es, sec, id) < NextSection(es, s + 1)
  {
    hide SectionIndex, NextSection, KeyIndex;
    var s, i :| 0 <= s < |es| && es[s].section == Some(sec) && NotNamed(es, s, sec) && s < i < |es| &&
                SameBlock(es, s + 1, i + 1) && es[i].id == Some(id);
    var t := SectionIndex(es, sec);
    assert t == s;
    var n := NextSection(es, s + 1);
    assert i < n;
  }

  /**
    A key that is not there: the file is left as it is, whatever else is in it. Otherwise it is
    rewritten, and fewer entries are read from it.
  */
  lemma RemoveAbsent(text: string, sec: string, id: string)
    requires LoopEnds(text)
    ensures KeyAbsent(Parse(text), sec, id) ==> RemoveStr(text, sec, id) == Done(text)
    ensures !KeyAbsent(Parse(text), sec, id) ==>
              RemoveStr(text, sec, id).Done? && |Parse(RemoveStr(text, sec, id).value)| < |Parse(text)|
  {
    hide Parse, LoopEnds, DeleteKey, KeyAbsent, Output;
    var es := Parse(text);
    if KeyAbsent(es, sec, id) {
      AbsentKey(es, sec, id);
    } else {
      PresentKey(es, sec, id);
      LoopEndsExactly(text);
      ParsedLines(text);
      DeleteLines(es, sec, id);
      PrintedShort(DeleteKey(es, sec, id), false, 0);
    }
  }

  /** A section that is not there: the same. */
  lemma DropAbsent(text: string, sec: string)
    requires LoopEnds(text)
    ensures NotNamed(Parse(text), |Parse(text)|, sec) ==> DropSection(text, sec) == Done(text)
    ensures !NotNamed(Parse(text), |Parse(text)|, sec) && DropSection(text, sec).Done? ==>
              |Parse(DropSection(text, sec).value)| < |Parse(text)|
  {
    hide Parse, LoopEnds, DeleteSection, Output, NotNamed;
    var es := Parse(text);
    SectionThere(es, sec);
    if !NotNamed(es, |es|, sec) {
      LoopEndsExactly(text);
      ParsedLines(text);
      DropLines(es, sec);
      PrintedShort(DeleteSection(es, sec), false, 0);
    }
  }

  lemma SectionThere(es: seq<Entry>, sec: string)
    ensures NotNamed(es, |es|, sec) ==> DeleteSection(es, sec) == es && DeleteStays(es, sec)
    ensures !NotNamed(es, |es|, sec) ==> |DeleteSection(es, sec)| < |es|
  {
    hide SectionIndex, NextSection, BlockStart, ScanUp;
    var s := SectionIndex(es, sec);
    if s < |es| { ScanUpStops(es, s, NextSection(es, s + 1)); }
  }

  /** Every text in the entry fits on a line. */
  predicate EntryLines(e: Entry) {
    && (e.section.Some? ==> OneLine(e.section.value)) && (e.id.Some? ==> OneLine(e.id.value))
    && (e.value.Some? ==> OneLine(e.value.value)) && (e.comment.Some? ==> OneLine(e.comment.value))
  }

  ghost predicate AllLines(es: seq<Entry>) { forall i | 0 <= i < |es| :: EntryLines(es[i]) }

  lemma TailLine(s: string, k: nat)
    requires OneLine(s) && k <= |s|
    ensures OneLine(s[k..]) && OneLine(s[..k])
  {
  }

  lemma SkippedLine(s: string)
    requires OneLine(s)
    ensures OneLine(SkipWhite(s)) && OneLine(TrimSpace(s)) && OneLine(TrimWhite(s))
  {
    hide SkipWhite, TrimSpace, TrimWhite;
    TailLine(s, |s| - |SkipWhite(s)|);
    TailLine(s, |TrimSpace(s)|);
    TailLine(s, |TrimWhite(s)|);
  }

  lemma ValueLines(id: Option<string>, s: string)
    requires OneLine(s) && (id.Some? ==> OneLine(id.value))
    ensures EntryLines(ParseValue(id, s))
  {
    hide Cut, TrimSpace, OneLine;
    var n := Cut(s, true, None);
    TailLine(s, n);
    SkippedLine(s[..n]);
    if n < |s| { TailLine(s, n + 1); }
  }

  lemma SectionLines(s: string)
    requires OneLine(s)
    ensures ParseSection(s).Some? ==> EntryLines(ParseSection(s).value)
  {
    hide SkipWhite, Find, TrimSpace, OneLine;
    SkippedLine(s);
    var t := SkipWhite(s);
    var n := Find(t, ']');
    TailLine(t, n);
    SkippedLine(t[..n]);
    if n < |t| {
      TailLine(t, n + 1);
      SkippedLine(t[n + 1..]);
      var r := SkipWhite(t[n + 1..]);
      if r != [] { TailLine(r, 1); }
    }
  }

  lemma KeyLines(s: string)
    requires OneLine(s)
    ensures ParseKey(s).Some? ==> EntryLines(ParseKey(s).value)
  {
    hide SkipWhite, Find, TrimSpace, OneLine, ParseValue, EntryLines;
    var n := Find(s, '=');
    if n < |s| {
      TailLine(s, n);
      SkippedLine(s[..n]);
      TailLine(s, n + 1);
      SkippedLine(s[n + 1..]);
      ValueLines(Some(TrimSpace(s[..n])), SkipWhite(s[n + 1..]));
    }
  }

  lemma LineLines(line: string)
    requires OneLine(line) && line != []
    ensures ParseLine(line).Some? ==> EntryLines(ParseLine(line).value)
  {
    hide SkipWhite, OneLine, ParseSection, ParseKey, ParseValue;
    SkippedLine(line);
    var s := SkipWhite(line);
    if s != [] {
      TailLine(s, 1);
      SectionLines(s[1..]);
    }
    ValueLines(None, s);
    KeyLines(s);
  }

  lemma {:induction false} ParsedLines(text: string)
    requires NulFree(text)
    ensures AllLines(Parse(text))
    decreases |text|
  {
    hide EntryLines, GetLine, ParseLine;
    if text != [] {
      var (line, rest) := GetLine(text);
      GotLine(text);
      if line != [] { LineLines(line); }
      ParsedLines(rest);
      assert Parse(text) == LineEntries(line) + Parse(rest);
      hide Parse;
    }
  }

  lemma GotLine(text: string)
    requires NulFree(text) && text != []
    ensures OneLine(GetLine(text).0) && NulFree(GetLine(text).1)
  {
    hide SkipEol, LineLength, TrimWhite;
    GetLineNulFree(text);
    var s := SkipEol(text);
    SkippedLine(s[..LineLength(s)]);
  }

  lemma DeleteLines(es: seq<Entry>, sec: string, id: string)
    requires AllLines(es)
    ensures AllLines(DeleteKey(es, sec, id))
  {
    hide EntryLines, SectionIndex, NextSection, KeyIndex, BlockStart, NotNamed, SameBlock, NotKeyed, BlockComments;
  }

  lemma DropLines(es: seq<Entry>, sec: string)
    requires AllLines(es)
    ensures AllLines(DeleteSection(es, sec))
  {
    hide EntryLines, SectionIndex, NextSection, BlockStart, NotNamed, SameBlock, BlockComments;
  }

  lemma EntryTextLine(e: Entry, m: nat)
    requires EntryLines(e)
    ensures OneLine(EntryText(e, m, Compact))
  {
    var c := CommentText(e.comment);
    assert OneLine(c) && OneLine("[") && OneLine("]") && OneLine("=") && OneLine("") && OneLine(";");
    hide OneLine, CommentText;
    if e.section.Some? {
      OneLineSum("[", e.section.value);
      OneLineSum("[" + e.section.value, "]");
      OneLineSum("[" + e.section.value + "]", c);
    } else if e.value.Some? {
      var k := if e.id.Some? then KeyText(e.id.value, m, Compact) else "";
      if e.id.Some? { OneLineSum(e.id.value, "="); }
      OneLineSum(k, e.value.value);
      OneLineSum(k + e.value.value, c);
    } else if e.comment.Some? {
      OneLineSum(";", e.comment.value);
    }
  }

  /** No more entries are read from a printed file than were printed. */
  lemma {:induction false} PrintedShort(es: seq<Entry>, skip: bool, m: nat)
    requires AllLines(es)
    ensures |Parse(Output(es, skip, m, Compact))| <= |es|
  {
    hide Parse, EntryText, EntryLines, SkipAfter, LineEntries, TrimWhite, LongestKey, OneLine;
    if es == [] {
      ParseEmpty();
    } else {
      hide Output;
      EntryTextLine(es[0], m);
      FirstPrinted(es, skip, m, Compact);
      OneLineOneEntry(TrimWhite(EntryText(es[0], m, Compact)));
      PrintedShort(es[1..], SkipAfter(es[0], es[1..], skip),
                   if es[0].section.Some? then LongestKey(es[1..]) else m);
    }
  }

  /** A line that the parser drops survives the removal of a key that is not there. */
  lemma NoteKept()
    ensures var text := "#note\n[s]\nk=1\n"; RemoveStr(text, "s", "x") == Done(text)
  {
    hide Parse, LoopEnds, RemoveStr, KeyAbsent;
    var text := "#note\n[s]\nk=1\n";
    NoteParsed();
    LoopEndsExactly(text);
    RemoveAbsent(text, "s", "x");
    NoteAbsent();
  }

  lemma NoteAbsent()
    ensures KeyAbsent([Entry(Some("s"), None, None, None), Entry(None, Some("k"), Some("1"), None)], "s", "x")
  {
  }

  lemma NoteParsed()
    ensures Parse("#note\n[s]\nk=1\n") ==
            [Entry(Some("s"), None, None, None), Entry(None, Some("k"), Some("1"), None)]
  {
    hide Parse, LineEntries, OneLine;
    NoteLine();
    HeaderParsed();
    var rest := "[s]\nk=1\n";
    assert White("");
    LineRead("#note", "", "\n", rest);
    assert "#note" + "" == "#note";
    assert "#note" + ("\n" + rest) == "#note\n[s]\nk=1\n";
  }

  lemma HeaderParsed()
    ensures Parse("[s]\nk=1\n") == [Entry(Some("s"), None, None, None), Entry(None, Some("k"), Some("1"), None)]
  {
    hide Parse, LineEntries, OneLine;
    HeaderLine("s") by { SectionWritable(); }
    KeyParsedAlone();
    var rest := "k=1\n";
    assert White("") && "[" + ("s" + "]") == "[s]";
    LineRead("[s]", "", "\n", rest);
    assert "[s]" + "" == "[s]";
    assert "[s]" + ("\n" + rest) == "[s]\nk=1\n";
  }

  lemma KeyParsedAlone()
    ensures Parse("k=1\n") == [Entry(None, Some("k"), Some("1"), None)]
  {
    hide Parse, LineEntries, OneLine;
    PlainLine();
    NothingParsed();
    assert White("");
    LineRead("k=1", "", "\n", "");
    assert "k=1" + "" == "k=1" && "\n" + "" == "\n";
    assert "k=1" + "\n" == "k=1\n";
  }

  lemma NoteLine()
    ensures OneLine("#note") && LineEntries("#note") == []
  {
    hide ParseLine;
    HashLine("note", "");
    assert "#" + "note" == "#note";
  }

  lemma PlainLine()
    ensures OneLine("k=1") && LineEntries("k=1") == [Entry(None, Some("k"), Some("1"), None)]
  {
    hide ParseLine;
    assert White("") && Gap("");
    KeyLinePlain("k", "", "", "1");
    assert "k" + "" + ("=" + ("" + "1")) == "k=1";
  }

  /** A key added to a file: one line more, written without blanks. */
  lemma LineAdded()
    ensures WriteStr("[s]\nk=1\n", "s", "x", "2") == Done("[s]\nk=1\nx=2\n")
  {
    hide Parse, LoopEnds, Write, Output, WriteStays;
    var text := "[s]\nk=1\n";
    LoopEndsExactly(text);
    HeaderParsed();
    var h, k, x := Entry(Some("s"), None, None, None), NewKey("k", "1"), NewKey("x", "2");
    assert [] + [h] + [k] + [] == [h, k] && [] + [h] + [k] + ([x] + []) == [h, k, x];
    WriteAdds([], h, [k], [], "s", "x", "2");
    NothingBehind(h, k);
    ThreeLines();
  }

  lemma NothingBehind(h: Entry, k: Entry)
    requires h == NewSection("s") && k == NewKey("k", "1")
    ensures WriteStays([h, k], "s", "x")
  {
    hide SectionIndex, NextSection, KeyIndex;
    Places([], h, [k], [], "s", "x");
    assert [] + [h] + [k] + [] == [h, k];
  }

  lemma ThreeLines()
    ensures Output([NewSection("s"), NewKey("k", "1"), NewKey("x", "2")], false, 0, Compact) == "[s]\nk=1\nx=2\n"
  {
    var h, k, x := NewSection("s"), NewKey("k", "1"), NewKey("x", "2");
    hide EntryText, LongestKey, Lines, Noted;
    var m := LongestKey([k, x]);
    NoOutput(true, m);
    hide Output;
    SectionNoted();
    TwoKeyLines(m);
    assert [h] + [k, x] == [h, k, x] && [k, x] + [] == [k, x];
    HeaderPrinted(h, [k, x], false, 0, Compact);
    ValuesPrinted([k, x], [], true, m, Compact);
    assert "k=1\nx=2\n" + "" == "k=1\nx=2\n";
    assert "" + ("[s]" + ("\n" + "k=1\nx=2\n")) == "[s]\nk=1\nx=2\n";
  }

  lemma NoOutput(skip: bool, m: nat)
    ensures Output([], skip, m, Compact) == ""
  {
  }

  lemma SectionNoted()
    ensures EntryText(NewSection("s"), 0, Compact) == "[s]"
  {
    hide EntryText;
    SectionPrinted("s", None, 0, Compact);
    assert "[" + "s" + "]" == "[s]";
  }

  lemma TwoKeyLines(m: nat)
    ensures Lines([NewKey("k", "1"), NewKey("x", "2")], m, Compact) == "k=1\nx=2\n"
  {
    hide EntryText;
    var k, x := NewKey("k", "1"), NewKey("x", "2");
    KeyPrinted("k", "1", None, m);
    KeyPrinted("x", "2", None, m);
    assert "k" + "=" + "1" == "k=1" && "x" + "=" + "2" == "x=2";
    assert [k, x][1..] == [x] && [x][1..] == [];
    NoLines(m, Compact);
    assert Lines([x], m, Compact) == "x=2" + "\n" + "";
    assert "x=2" + "\n" + "" == "x=2\n";
    assert Lines([k, x], m, Compact) == "k=1" + "\n" + Lines([x], m, Compact);
    hide Lines;
    assert "k=1" + "\n" + "x=2\n" == "k=1\nx=2\n";
  }
}
