/** Reading, writing and removing as functions on the text of the file, with the outcomes of the C code. */
module IniFile {
  import opened CText
  import opened IniText
  import opened IniParsed
  import opened IniOutput
  import opened IniRoundTrip
  import opened IniStore
  import opened IniPool

  /** A call returns, or leaves the memory of the entry pool, or loops for ever. */
  datatype Outcome<+T> = Done(value: T) | Strays | Hangs

  /** A file whose last line is ended. */
  predicate Terminated(text: string) { text == [] || IsEol(text[|text| - 1]) }

  /** What a write may be given: a name, key and value that survive printing, the key without quotes. */
  predicate Writable(sec: string, id: string, value: string) {
    SectionOk(sec) && IdOk(id) && PlainKey(id) && ValueClosed(value)
  }

  /** The write puts a new key in front of a following section. */
  predicate Inserts(es: seq<Entry>, sec: string, id: string) {
    var s := SectionIndex(es, sec);
    s < |es| && KeyPlace(es, sec, id) < |es| && es[KeyPlace(es, sec, id)].section.Some?
  }

  /** The write stays inside the entry pool that the parser has filled. */
  predicate WriteStays(es: seq<Entry>, sec: string, id: string) {
    Inserts(es, sec, id) ==> InsertStays(Filled(|es|), KeyPlace(es, sec, id))
  }

  /** The file after `Cfg_WriteStr` with a value. */
  ghost function WriteStr(text: string, sec: string, id: string, value: string): Outcome<string> {
    var es := Parse(text);
    if !LoopEnds(text) then Hangs
    else if !WriteStays(es, sec, id) then Strays
    else Done(Output(Write(es, sec, id, value), false, 0, Compact))
  }

  /** The file after a change that was made to its entries; an unchanged list is not written. */
  function Saved(text: string, es: seq<Entry>): string {
    if es == Parse(text) then text else Output(es, false, 0, Compact)
  }

  /** `Cfg_RemoveKey`: the file after a write without a value. */
  ghost function RemoveStr(text: string, sec: string, id: string): Outcome<string> {
    if !LoopEnds(text) then Hangs else Done(Saved(text, DeleteKey(Parse(text), sec, id)))
  }

  /** The file after a write with neither key nor value. */
  ghost function DropSection(text: string, sec: string): Outcome<string> {
    var es := Parse(text);
    if !LoopEnds(text) then Hangs
    else if !DeleteStays(es, sec) then Strays
    else Done(Saved(text, DeleteSection(es, sec)))
  }

  /** `Cfg_ReadStr` without its default. */
  ghost function ReadStr(text: string, sec: string, id: string): Outcome<Option<string>> {
    if LoopEnds(text) then Done(Lookup(Parse(text), sec, id)) else Hangs
  }

  /** With a terminator in the file no call returns, and without one none hangs. */
  lemma HangsExactly(text: string, sec: string, id: string, value: string)
    ensures ReadStr(text, sec, id).Hangs? <==> !NulFree(text)
    ensures WriteStr(text, sec, id, value).Hangs? <==> !NulFree(text)
    ensures RemoveStr(text, sec, id).Hangs? <==> !NulFree(text)
    ensures DropSection(text, sec).Hangs? <==> !NulFree(text)
  {
    hide Parse, LoopEnds, WriteStays, DeleteStays;
    LoopEndsExactly(text);
  }

  /** A file of which nothing can be read or written. */
  lemma NulFileHangs()
    ensures var text := "[s]\n\0\n";
            && Terminated(text) && NoContinuation(Parse(text)) && Writable("s", "k", "1")
            && WriteStr(text, "s", "k", "1") == Hangs && ReadStr(text, "s", "k") == Hangs
  {
    hide WriteStr, ReadStr, Parse, Writable, NoContinuation, LineEntries, TrimWhite, OneLine;
    var text := "[s]\n\0\n";
    assert text[4] == '\0';
    HangsExactly(text, "s", "k", "1");
    assert text == "" + ("[s]" + ("\n" + "\0\n"));
    SectionHeader();
    LineThenRest("", "[s]", "\0\n");
    AtTerminator("\0\n");
    assert LineEntries(TrimWhite("[s]")) + [] == LineEntries(TrimWhite("[s]"));
    SectionWritable();
  }

  lemma SectionWritable()
    ensures Writable("s", "k", "1")
  {
  }

  lemma AtTerminator(text: string)
    requires Head(text) == '\0'
    ensures Parse(text) == []
  {
  }

  lemma SectionHeader()
    ensures OneLine("[s]") && NoContinuation(LineEntries(TrimWhite("[s]")))
  {
    hide ParseSection, SkipWhite, ParseKey, ParseValue;
    Untrimmed("[s]");
    SkipNothing("[s]");
    OnlySections("[s]"[1..]);
  }

  lemma OnlySections(s: string)
    ensures ParseSection(s).Some? ==> !IsContinuation(ParseSection(s).value)
  {
    hide SkipWhite, Find, TrimSpace;
  }

  // ----- what a file holds -----

  lemma {:induction false} SkipTerminated(text: string)
    requires Terminated(text)
    ensures Terminated(SkipEol(text))
  {
    if text != [] && IsEol(text[0]) { SkipTerminated(text[1..]); }
  }

  lemma NextLineOk(text: string)
    requires Terminated(text) && NulFree(text) && text != []
    ensures var (line, rest) := GetLine(text);
            Terminated(rest) && NulFree(rest) && (line != [] ==> LineOk(line))
  {
    hide TrimWhite, LineLength, SkipEol;
    SkipTerminated(text);
    SkipEolNulFree(text);
    var s := SkipEol(text);
    var n := LineLength(s);
    if n < |s| {
      var line := TrimWhite(s[..n]);
      assert line == s[..|line|];
    }
  }

  /** The entries of an ended file without terminators are well-formed. */
  lemma {:induction false} ParsedOk(text: string)
    requires Terminated(text) && NulFree(text)
    ensures AllOk(Parse(text))
    decreases |text|
  {
    hide EntryOk, GetLine, ParseLine;
    if text != [] {
      var (line, rest) := GetLine(text);
      NextLineOk(text);
      if line != [] { LineParsed(line); }
      ParsedOk(rest);
      assert Parse(text) == LineEntries(line) + Parse(rest);
      hide Parse;
    }
  }

  lemma {:induction false} OutputTerminated(es: seq<Entry>, skip: bool, m: nat, style: Style)
    ensures Terminated(Output(es, skip, m, style))
  {
    hide EntryText, BlankBefore, SkipAfter, LongestKey;
    if es != [] {
      var m' := if es[0].section.Some? then LongestKey(es[1..]) else m;
      var rest := Output(es[1..], SkipAfter(es[0], es[1..], skip), m', style);
      OutputTerminated(es[1..], SkipAfter(es[0], es[1..], skip), m', style);
      var blank := if BlankBefore(es[0], es[1..], skip) then "\n" else "";
      var line := EntryText(es[0], m, style);
      assert Output(es, skip, m, style) == blank + (line + ("\n" + rest));
      hide Output;
      EndsLike(blank, line, rest);
    }
  }

  lemma EndsLike(blank: string, line: string, rest: string)
    requires Terminated(rest)
    ensures Terminated(blank + (line + ("\n" + rest)))
  {
    var t := blank + (line + ("\n" + rest));
    assert t[|t| - 1] == if rest == [] then '\n' else rest[|rest| - 1];
  }

  // ----- one write -----

  ghost predicate GoodFile(text: string) { Terminated(text) && NulFree(text) && NoContinuation(Parse(text)) }

  lemma NewEntriesOk(sec: string, id: string, value: string)
    requires Writable(sec, id, value)
    ensures EntryOk(NewSection(sec)) && EntryOk(NewKey(id, value))
    ensures !IsContinuation(NewSection(sec)) && !IsContinuation(NewKey(id, value))
  {
    hide SectionOk, IdOk, ValueOk, PlainKey;
  }

  lemma UpdatedOk(e: Entry, id: string, value: string)
    requires EntryOk(e) && e.section.None? && e.id == Some(id) && ValueClosed(value)
    ensures EntryOk(e.(value := Some(value))) && !IsContinuation(e.(value := Some(value)))
  {
    hide SectionOk, IdOk, ValueOk, CommentOk;
  }

  /** A write keeps the entries well-formed. */
  lemma WriteOk(es: seq<Entry>, sec: string, id: string, value: string)
    requires AllOk(es) && NoContinuation(es) && Writable(sec, id, value)
    ensures AllOk(Write(es, sec, id, value)) && NoContinuation(Write(es, sec, id, value))
  {
    hide EntryOk, IsContinuation, SectionIndex, KeyPlace, ValueClosed;
    NewEntriesOk(sec, id, value);
    if SectionIndex(es, sec) < |es| {
      WriteShape(es, sec, id, value);
      hide Write, Written, Writable;
      WrittenOk(es, Write(es, sec, id, value), KeyPlace(es, sec, id), id, value);
    }
  }

  lemma WrittenOk(es: seq<Entry>, es': seq<Entry>, k: nat, id: string, value: string)
    requires AllOk(es) && NoContinuation(es) && Written(es, es', k, id, value) && ValueClosed(value)
    requires EntryOk(NewKey(id, value)) && !IsContinuation(NewKey(id, value))
    ensures AllOk(es') && NoContinuation(es')
  {
    hide EntryOk, IsContinuation, ValueClosed;
    if k < |es| && es[k].section.None? && es[k].id == Some(id) { UpdatedOk(es[k], id, value); }
  }

  /** A printed file is a good file and holds what was printed. */
  lemma PrintedGood(es: seq<Entry>)
    requires AllOk(es) && NoContinuation(es)
    ensures GoodFile(Output(es, false, 0, Compact)) && Parse(Output(es, false, 0, Compact)) == es
  {
    hide Parse, Output, AllOk, NoContinuation, Terminated;
    CompactExact(es);
    OutputTerminated(es, false, 0, Compact);
    OutputNulFree(es, false, 0, Compact);
  }

  /** The parse of a good file returns, and its entries are well-formed. */
  lemma GoodEntries(text: string)
    requires GoodFile(text)
    ensures LoopEnds(text) && AllOk(Parse(text)) && NoContinuation(Parse(text))
  {
    hide Parse, AllOk, LoopEnds;
    LoopEndsExactly(text);
    ParsedOk(text);
  }

  /**
    A write to a good file never hangs, and leaves the pool only where it inserts at a tight size.
    The written file holds exactly the written entries, and is a good file again.
  */
  lemma WriteStrEntries(text: string, sec: string, id: string, value: string)
    requires GoodFile(text) && Writable(sec, id, value)
    ensures !WriteStr(text, sec, id, value).Hangs?
    ensures WriteStr(text, sec, id, value).Strays? <==>
            var n := |Parse(text)|;
            Inserts(Parse(text), sec, id) && exists j :: n == Boundary(j) || n + 1 == Boundary(j)
    ensures var t := WriteStr(text, sec, id, value);
            t.Done? ==> GoodFile(t.value) && Parse(t.value) == Write(Parse(text), sec, id, value)
  {
    hide Parse, Write, Output, Writable, AllOk, InsertStays, Filled, Boundary, KeyPlace;
    hide LoopEnds, GoodFile, NoContinuation;
    var es := Parse(text);
    if Inserts(es, sec, id) { TightSizes(|es|, KeyPlace(es, sec, id)); }
    GoodEntries(text);
    WriteOk(es, sec, id, value);
    PrintedGood(Write(es, sec, id, value));
  }

  /** End to end: the value reads back, up to a quoted alias in front of it, and nothing else changes. */
  lemma WriteThenRead(text: string, sec: string, id: string, value: string, other: string, key: string)
    requires GoodFile(text) && Writable(sec, id, value) && WriteStr(text, sec, id, value).Done?
    ensures var t := WriteStr(text, sec, id, value).value;
            && ReadStr(t, sec, id) ==
               Done(var v := Shadowing(Parse(text), sec, id); if v.Some? then v else Some(value))
            && (other != sec || key != id ==> ReadStr(t, other, key) == ReadStr(text, other, key))
  {
    hide Parse, Write, WriteStr, Lookup, Shadowing, GoodFile, LoopEnds;
    WriteStrEntries(text, sec, id, value);
    GoodEntries(text);
    GoodEntries(WriteStr(text, sec, id, value).value);
    ReadYourWrite(Parse(text), sec, id, value);
    if other != sec || key != id { WriteFrame(Parse(text), sec, id, value, other, key); }
  }

  // ----- files without room to insert -----

  /** Two sections, the first one with all the keys. */
  function TwoSections(n: nat): (es: seq<Entry>)
    requires n >= 2
    ensures |es| == n
  {
    [NewSection("a")] + seq(n - 2, _ => NewKey("k", "1")) + [NewSection("b")]
  }

  lemma TwoSectionsOk(n: nat)
    requires n >= 2
    ensures AllOk(TwoSections(n)) && NoContinuation(TwoSections(n))
  {
    NewEntriesOk("a", "k", "1");
    NewEntriesOk("b", "k", "1");
    hide EntryOk, IsContinuation;
  }

  lemma SampleWritable()
    ensures Writable("a", "x", "1")
  {
  }

  lemma TwoSectionsInsert(n: nat)
    requires n >= 2
    ensures Inserts(TwoSections(n), "a", "x")
  {
    var es := TwoSections(n);
    assert SectionIndex(es, "a") == 0;
    hide SectionIndex, NextSection, KeyIndex;
    assert forall i | 0 < i < n - 1 :: es[i] == NewKey("k", "1");
    assert es[n - 1].section == Some("b");
  }

  /** Such a file of `n` entries exists for every `n`, and adding a key fails exactly at the tight sizes. */
  lemma RoomBySize(n: nat)
    requires n >= 2
    ensures var text := Output(TwoSections(n), false, 0, Compact);
            && GoodFile(text) && Parse(text) == TwoSections(n) && Writable("a", "x", "1")
            && (WriteStr(text, "a", "x", "1") == Strays <==> exists j :: n == Boundary(j) || n + 1 == Boundary(j))
  {
    var es := TwoSections(n);
    var text := Output(es, false, 0, Compact);
    hide Parse, Output, WriteStr, TwoSections, AllOk, NoContinuation, Inserts, Boundary, Writable, GoodFile;
    SampleWritable();
    TwoSectionsOk(n);
    TwoSectionsInsert(n);
    PrintedGood(es);
    WriteStrEntries(text, "a", "x", "1");
  }

  /** The first sizes at which a key cannot be added to the first of two sections. */
  lemma NoRoom(n: nat)
    requires n == 102 || n == 103 || n == 154 || n == 155 || n == 232 || n == 233
    ensures WriteStr(Output(TwoSections(n), false, 0, Compact), "a", "x", "1") == Strays
  {
    hide WriteStr, Output, TwoSections, Boundary;
    FirstBoundaries();
    RoomBySize(n);
  }

  // ----- removal -----

  lemma KeptOk(es: seq<Entry>, a: nat, b: nat)
    requires AllOk(es) && NoContinuation(es) && a <= |es| && b <= |es|
    ensures AllOk(es[..a] + es[b..]) && NoContinuation(es[..a] + es[b..])
  {
    hide EntryOk, IsContinuation;
  }

  /** A removal keeps the entries well-formed. */
  lemma DeleteKeyOk(es: seq<Entry>, sec: string, id: string)
    requires AllOk(es) && NoContinuation(es)
    ensures AllOk(DeleteKey(es, sec, id)) && NoContinuation(DeleteKey(es, sec, id))
  {
    hide AllOk, NoContinuation, SectionIndex, NextSection, KeyIndex, BlockStart, NotNamed, SameBlock, NotKeyed;
    hide BlockComments, IsBlockComment;
    var s := SectionIndex(es, sec);
    if s < |es| {
      var n := NextSection(es, s + 1);
      var k := KeyIndex(es, s + 1, n, id);
      if k < n { KeptOk(es, BlockStart(es, k), k + 1); }
    }
  }

  lemma DeleteSectionOk(es: seq<Entry>, sec: string)
    requires AllOk(es) && NoContinuation(es)
    ensures AllOk(DeleteSection(es, sec)) && NoContinuation(DeleteSection(es, sec))
  {
    hide AllOk, NoContinuation, SectionIndex, NextSection, BlockStart, NotNamed, SameBlock, BlockComments;
    hide IsBlockComment;
    var s := SectionIndex(es, sec);
    if s < |es| { KeptOk(es, BlockStart(es, s), BlockStart(es, NextSection(es, s + 1))); }
  }

  /** A saved file holds exactly the entries that were saved. */
  lemma SavedEntries(text: string, es: seq<Entry>)
    requires GoodFile(text) && AllOk(es) && NoContinuation(es)
    ensures GoodFile(Saved(text, es)) && Parse(Saved(text, es)) == es
  {
    hide Parse, Output, AllOk, GoodFile, NoContinuation;
    PrintedGood(es);
  }

  /**
    Removing a key from a file: the new file holds exactly the remaining entries, the key is gone
    exactly if it was defined once, and every other key reads as before.
  */
  lemma RemoveThenRead(text: string, sec: string, id: string, other: string, key: string)
    requires GoodFile(text) && PlainKey(id)
    ensures RemoveStr(text, sec, id).Done?
    ensures var t := RemoveStr(text, sec, id).value;
            && GoodFile(t) && Parse(t) == DeleteKey(Parse(text), sec, id)
            && (ReadStr(t, sec, id) == Done(None) <==> DefinedOnce(Parse(text), sec, id))
            && (other != sec || key != id ==> ReadStr(t, other, key) == ReadStr(text, other, key))
  {
    hide Parse, DeleteKey, Lookup, GoodFile, AllOk, NoContinuation, DefinedOnce, Saved, PlainKey, LoopEnds;
    var es := Parse(text);
    GoodEntries(text);
    DeleteKeyOk(es, sec, id);
    SavedEntries(text, DeleteKey(es, sec, id));
    GoodEntries(Saved(text, DeleteKey(es, sec, id)));
    DeletedKeyGone(es, sec, id);
    if other != sec || key != id { DeleteKeyFrame(es, sec, id, other, key); }
  }

  /**
    Removing a section from a file fails exactly if the section is there and nothing but block
    comments stands above it; otherwise every other section reads as before, and the name means
    the next section of that name.
  */
  lemma DropThenRead(text: string, sec: string, other: string, key: string)
    requires GoodFile(text)
    ensures var es := Parse(text); var s := SectionIndex(es, sec);
            && !DropSection(text, sec).Hangs?
            && (DropSection(text, sec).Strays? <==> s < |es| && BlockComments(es, 0, s))
            && (DropSection(text, sec).Done? ==>
                  var t := DropSection(text, sec).value;
                  && GoodFile(t) && Parse(t) == DeleteSection(es, sec)
                  && (other != sec ==> ReadStr(t, other, key) == ReadStr(text, other, key))
                  && (s < |es| ==> ReadStr(t, sec, key) == Done(Lookup(es[NextSection(es, s + 1)..], sec, key))))
  {
    hide Parse, DeleteSection, Lookup, GoodFile, AllOk, NoContinuation, Saved, DeleteStays, SectionIndex, NextSection;
    hide BlockComments, LoopEnds;
    var es := Parse(text);
    GoodEntries(text);
    DeleteSectionOk(es, sec);
    SavedEntries(text, DeleteSection(es, sec));
    GoodEntries(Saved(text, DeleteSection(es, sec)));
    DeleteStaysExactly(es, sec);
    if other != sec { DeleteSectionFrame(es, sec, other, key); }
    if SectionIndex(es, sec) < |es| { DeletedSectionGone(es, sec, key); }
  }

  // ----- any number of writes -----

  datatype Update = Update(sec: string, id: string, value: string)

  ghost function WriteAll(text: string, us: seq<Update>): Outcome<string> {
    if us == [] then Done(text)
    else
      var u := us[|us| - 1];
      match WriteAll(text, us[..|us| - 1])
      case Done(t) => WriteStr(t, u.sec, u.id, u.value)
      case other => other
  }

  /** The last value written to a key, or what was read before. */
  function Expected(us: seq<Update>, sec: string, id: string, before: Option<string>): Option<string> {
    if us == [] then before
    else
      var u := us[|us| - 1];
      if u.sec == sec && u.id == id then Some(u.value) else Expected(us[..|us| - 1], sec, id, before)
  }

  /** No key of the file is written with quotes. */
  predicate PlainIds(es: seq<Entry>) {
    forall i | 0 <= i < |es| && es[i].id.Some? && es[i].id.value != [] :: PlainKey(es[i].id.value)
  }

  lemma {:induction false} NoShadow(es: seq<Entry>, from: nat, end: nat, id: string)
    requires from <= end <= |es| && PlainIds(es)
    ensures Shadow(es, from, end, id) == None
    decreases end - from
  {
    if from < end {
      var e := es[from];
      if e.id.Some? && e.id.value != [] { PlainKeyKept(e.id.value); }
      hide PlainKey;
      NoShadow(es, from + 1, end, id);
    }
  }

  lemma WriteKeepsPlain(es: seq<Entry>, sec: string, id: string, value: string)
    requires PlainIds(es) && PlainKey(id)
    ensures PlainIds(Write(es, sec, id, value))
  {
    hide PlainKey, SectionIndex, KeyPlace;
    if SectionIndex(es, sec) < |es| {
      WriteShape(es, sec, id, value);
      hide Write;
    }
  }

  lemma PlainUnshadowed(es: seq<Entry>, sec: string, id: string)
    requires PlainIds(es)
    ensures Shadowing(es, sec, id) == None
  {
    hide PlainIds;
    var s := SectionIndex(es, sec);
    if s < |es| { NoShadow(es, s + 1, KeyPlace(es, sec, id), id); }
  }

  /** Over any sequence of writes every key reads as its last write, or as in the original file. */
  lemma {:induction false} WritesThenRead(text: string, us: seq<Update>, sec: string, id: string)
    requires GoodFile(text) && PlainIds(Parse(text))
    requires forall i | 0 <= i < |us| :: Writable(us[i].sec, us[i].id, us[i].value)
    ensures ReadStr(text, sec, id).Done? && !WriteAll(text, us).Hangs?
    ensures WriteAll(text, us).Done? ==>
              var t := WriteAll(text, us).value;
              && GoodFile(t) && PlainIds(Parse(t))
              && ReadStr(t, sec, id) == Done(Expected(us, sec, id, ReadStr(text, sec, id).value))
  {
    hide Parse, WriteStr, GoodFile, PlainIds, Writable, LoopEnds, Lookup;
    if us == [] {
      GoodEntries(text);
    } else {
      hide ReadStr;
      var u, before := us[|us| - 1], us[..|us| - 1];
      WritesThenRead(text, before, sec, id);
      if WriteAll(text, before).Done? {
        var t := WriteAll(text, before).value;
        WriteStrEntries(t, u.sec, u.id, u.value);
        if WriteStr(t, u.sec, u.id, u.value).Done? { OneMore(t, u, sec, id); }
      }
    }
  }

  lemma OneMore(t: string, u: Update, sec: string, id: string)
    requires GoodFile(t) && PlainIds(Parse(t)) && Writable(u.sec, u.id, u.value)
    requires WriteStr(t, u.sec, u.id, u.value).Done?
    ensures var t' := WriteStr(t, u.sec, u.id, u.value).value;
            && GoodFile(t') && PlainIds(Parse(t'))
            && ReadStr(t', sec, id) ==
               if u.sec == sec && u.id == id then Done(Some(u.value)) else ReadStr(t, sec, id)
  {
    hide Parse, Write, WriteStr, ReadStr, GoodFile, PlainIds;
    WriteStrEntries(t, u.sec, u.id, u.value);
    WriteKeepsPlain(Parse(t), u.sec, u.id, u.value);
    WriteThenRead(t, u.sec, u.id, u.value, sec, id);
    PlainUnshadowed(Parse(t), u.sec, u.id);
  }
}
