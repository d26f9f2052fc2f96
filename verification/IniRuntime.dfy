/** Parsing an image into the handle, printing the handle, and the calls that work on a whole file. */
module IniRuntime {
  import opened CText
  import opened IniText
  import opened IniOutput
  import opened IniStore
  import opened IniPool
  import opened IniFile
  import opened IniConfig

  // ----- scanning -----

  method SkipWhiteFrom(s: string, p: nat) returns (q: nat)
    requires p <= |s|
    ensures p <= q <= |s| && s[q..] == SkipWhite(s[p..])
  {
    q := p;
    while q < |s| && IsWhite(s[q])
      invariant p <= q <= |s| && SkipWhite(s[q..]) == SkipWhite(s[p..])
    {
      assert s[q..][1..] == s[q + 1..];
      q := q + 1;
    }
  }

  /** `rtrim`: the loop from the end. */
  method TrimEnd(s: string) returns (r: string)
    ensures r == TrimSpace(s)
  {
    var n := |s|;
    assert s[..n] == s;
    while n > 0 && IsSpace(s[n - 1])
      invariant 0 <= n <= |s| && TrimSpace(s[..n]) == TrimSpace(s)
    {
      assert s[..n][..n - 1] == s[..n - 1];
      n := n - 1;
    }
    r := s[..n];
  }

  method SkipEolFrom(text: string, p: nat) returns (q: nat)
    requires p <= |text|
    ensures p <= q <= |text| && text[q..] == SkipEol(text[p..])
  {
    q := p;
    while q < |text| && IsEol(text[q])
      invariant p <= q <= |text| && SkipEol(text[q..]) == SkipEol(text[p..])
    {
      assert text[q..][1..] == text[q + 1..];
      q := q + 1;
    }
  }

  method LineEndFrom(text: string, start: nat) returns (cp: nat)
    requires start <= |text|
    ensures cp == start + LineLength(text[start..])
  {
    cp := start;
    while cp < |text| && !StopsLine(text[cp])
      invariant start <= cp <= |text|
      invariant cp - start + LineLength(text[cp..]) == LineLength(text[start..])
    {
      assert text[cp..][1..] == text[cp + 1..];
      cp := cp + 1;
    }
  }

  /** `_cfg_getline`: skip line ends, find the next one, trim back from it. */
  method GetLineAt(text: string, p: nat) returns (line: string, next: nat)
    requires p <= |text|
    ensures p <= next <= |text| && GetLine(text[p..]) == (line, text[next..])
    ensures next == p <==> p == |text| || text[p] == '\0'
  {
    hide SkipEol, LineLength, TrimWhite;
    var start := SkipEolFrom(text, p);
    var cp := LineEndFrom(text, start);
    ghost var s := text[start..];
    assert s[..cp - start] == text[start..cp];
    if cp < |text| && text[cp] != '\0' {
      line := TrimLine(text[start..cp]);
      next := cp + 1;
      assert s[cp - start + 1..] == text[next..];
    } else {
      line, next := text[start..cp], cp;
      assert s[cp - start..] == text[next..];
    }
  }

  /** The backward loop over white space at the end of a line. */
  method TrimLine(s: string) returns (line: string)
    ensures line == TrimWhite(s)
  {
    var n := |s|;
    assert s[..n] == s;
    while n > 0 && IsWhite(s[n - 1])
      invariant 0 <= n <= |s| && TrimWhite(s[..n]) == TrimWhite(s)
    {
      assert s[..n][..n - 1] == s[..n - 1];
      n := n - 1;
    }
    line := s[..n];
  }

  /** The value loop: quotes are tracked, a comment mark behind white space ends it. */
  method CutAt(s: string) returns (lp: nat)
    ensures lp == Cut(s, true, None)
  {
    var inString: Option<char> := None;
    var white := true;
    lp := 0;
    assert s[0..] == s;
    while lp < |s|
      invariant lp <= |s|
      invariant lp + Cut(s[lp..], white, inString) == Cut(s, true, None)
    {
      assert s[lp..][1..] == s[lp + 1..];
      if inString.Some? {
        if s[lp] == inString.value { inString := None; }
      } else if IsQuote(s[lp]) {
        inString := Some(s[lp]);
      } else if IsMark(s[lp]) && white {
        return;
      }
      white := IsWhite(s[lp]);
      lp := lp + 1;
    }
  }

  // ----- one line -----

  method ScanValue(id: Option<string>, s: string) returns (e: Entry)
    ensures e == ParseValue(id, s)
  {
    hide Cut, TrimSpace;
    var n := CutAt(s);
    if n == |s| {
      e := Entry(None, id, Some(s), None);
    } else {
      var v := TrimEnd(s[..n]);
      e := Entry(None, id, Some(v), Some(s[n + 1..]));
    }
  }

  method ScanSection(s: string) returns (e: Option<Entry>)
    ensures e == ParseSection(s)
  {
    hide SkipWhite, TrimSpace, Find;
    assert s[0..] == s;
    var p := SkipWhiteFrom(s, 0);
    var t := s[p..];
    var n := Find(t, ']');
    if n == |t| { return None; }
    var name := TrimEnd(t[..n]);
    if name == [] { return None; }
    var q := SkipWhiteFrom(t, n + 1);
    e := Some(Entry(Some(name), None, None, CommentAt(t[q..])));
  }

  method ScanKey(s: string) returns (e: Option<Entry>)
    ensures e == ParseKey(s)
  {
    hide SkipWhite, TrimSpace, Find, ParseValue;
    var n := Find(s, '=');
    if n == |s| { return None; }
    var id := TrimEnd(s[..n]);
    var p := SkipWhiteFrom(s, n + 1);
    var entry := ScanValue(Some(id), s[p..]);
    e := Some(entry);
  }

  method ScanLine(line: string) returns (e: Option<Entry>)
    requires line != []
    ensures e == ParseLine(line)
  {
    hide SkipWhite, ParseSection, ParseKey, ParseValue;
    assert line[0..] == line;
    var p := SkipWhiteFrom(line, 0);
    var s := line[p..];
    if Head(s) == '[' {
      e := ScanSection(s[1..]);
    } else if Head(s) == ';' {
      e := Some(Entry(None, None, None, Some(s[1..])));
    } else if IsWhite(line[0]) {
      var entry := ScanValue(None, s);
      e := Some(entry);
    } else {
      e := ScanKey(s);
    }
  }

  /**
    `_cfg_parse` into an empty handle. A round that does not get on would be repeated for ever;
    the model stops there and says so.
  */
  method LoadImage(text: string) returns (c: Config, ends: bool)
    ensures fresh(c) && fresh(c.entries) && c.Valid() && c.Packed() && !c.dirty && c.Entries() == Parse(text)
    ensures ends <==> LoopEnds(text)
  {
    hide Parse, GetLine, ParseLine, LoopEnds;
    c := new Config();
    var p := 0;
    ghost var all := Parse(text);
    assert text[0..] == text;
    while p < |text|
      invariant p <= |text| && fresh(c) && fresh(c.entries) && c.Valid() && c.Packed() && !c.dirty
      invariant c.Entries() + Parse(text[p..]) == all
      invariant LoopEnds(text[p..]) <==> LoopEnds(text)
      decreases |text| - p
    {
      var line, next := GetLineAt(text, p);
      if next == p {
        Stuck(text[p..]);
        NothingToParse(text[p..]);
        return c, false;
      }
      ParseStep(text[p..]);
      RoundEnds(text[p..]);
      StoreLine(c, line, Parse(text[next..]));
      p := next;
    }
    NothingToParse(text[p..]);
    NothingLeft();
    return c, true;
  }

  /** Stores what a line gives. */
  method StoreLine(c: Config, line: string, ghost more: seq<Entry>)
    requires c.Valid() && c.Packed()
    modifies c`entries, c`numEntries, c`maxEntries, c`copied, c.entries
    ensures c.Valid() && c.Packed() && (c.entries == old(c.entries) || fresh(c.entries))
    ensures c.Entries() + more == old(c.Entries()) + (LineEntries(line) + more)
  {
    hide ParseLine;
    ghost var done := c.Entries();
    if line != [] {
      var e := ScanLine(line);
      if e.Some? { c.StoreEntry(e.value); }
    }
    assert c.Entries() == done + LineEntries(line);
    assert done + (LineEntries(line) + more) == done + LineEntries(line) + more;
  }

  lemma ParseStep(text: string)
    requires Head(text) != '\0'
    ensures Parse(text) == LineEntries(GetLine(text).0) + Parse(GetLine(text).1)
  {
  }

  lemma NothingToParse(text: string)
    requires Head(text) == '\0'
    ensures Parse(text) == []
  {
  }

  // ----- printing -----

  method LongestKeyFrom(es: seq<Entry>, i: nat) returns (m: nat)
    requires i <= |es|
    ensures m == LongestKey(es[i..])
  {
    m := 0;
    var j := i;
    while j < |es| && es[j].section.None?
      invariant i <= j <= |es|
      invariant LongestKey(es[i..]) == if LongestKey(es[j..]) > m then LongestKey(es[j..]) else m
    {
      assert es[j..][1..] == es[j + 1..];
      if es[j].id.Some? && |es[j].id.value| > m { m := |es[j].id.value|; }
      j := j + 1;
    }
  }

  method SectionFollowsFrom(es: seq<Entry>, i: nat) returns (b: bool)
    requires i <= |es|
    ensures b == SectionFollows(es[i..])
  {
    var j := i;
    while j < |es|
      invariant i <= j <= |es| && SectionFollows(es[i..]) == SectionFollows(es[j..])
    {
      assert es[j..][1..] == es[j + 1..];
      if es[j].section.Some? { return true; }
      if es[j].id.Some? || es[j].value.Some? { return false; }
      j := j + 1;
    }
    return false;
  }

  lemma OutputStep(es: seq<Entry>, i: nat, skip: bool, m: nat, style: Style)
    requires i < |es|
    ensures var rest := es[i + 1..];
            Output(es[i..], skip, m, style) ==
            (if BlankBefore(es[i], rest, skip) then "\n" else "")
            + (EntryText(es[i], m, style) +
               ("\n" + Output(rest, SkipAfter(es[i], rest, skip),
                              if es[i].section.Some? then LongestKey(rest) else m, style)))
  {
    hide BlankBefore, EntryText, SkipAfter, LongestKey;
    assert es[i..][1..] == es[i + 1..];
  }

  /** `_cfg_output` and `_cfg_outputformatted`. */
  method PrintEntries(es: seq<Entry>, style: Style) returns (out: string)
    ensures out == Output(es, false, 0, style)
  {
    hide Output, EntryText, LongestKey, SectionFollows;
    out := "";
    var skip, m := false, 0;
    assert es[0..] == es;
    ghost var whole := Output(es, false, 0, style);
    assert out + whole == whole;
    for i := 0 to |es|
      invariant m >= 0
      invariant out + Output(es[i..], skip, m, style) == whole
    {
      OutputStep(es, i, skip, m, style);
      ghost var rest := es[i + 1..];
      var follows := SectionFollowsFrom(es, i + 1);
      var e := es[i];
      var text := EntryText(e, m, style);
      var blank := if skip && (e.section.Some? ||
                               (e.value.None? && e.comment.Some? && IsBlock(e.comment.value) && follows))
                   then "\n" else "";
      ghost var more := Output(rest, SkipAfter(e, rest, skip), if e.section.Some? then LongestKey(rest) else m, style);
      Assoc5(out, blank, text, "\n", more);
      out := out + blank + text + "\n";
      if e.section.Some? {
        m := LongestKeyFrom(es, i + 1);
        skip := true;
      } else if blank != "" {
        skip := false;
      }
    }
    PrintedAll(es[|es|..], skip, m, style);
    assert out + "" == out;
  }

  lemma PrintedAll(es: seq<Entry>, skip: bool, m: nat, style: Style)
    requires es == []
    ensures Output(es, skip, m, style) == ""
  {
  }

  // ----- whole files -----

  /** `Cfg_WriteStr` on the file's text. */
  method WriteFile(text: string, sec: string, id: string, value: string) returns (t: Outcome<string>)
    ensures t == WriteStr(text, sec, id, value)
  {
    hide Parse, Write, Inserts, PoolSize, Output, InsertStays, Filled, KeyPlace, LoopEnds;
    var c, ends := LoadImage(text);
    if !ends { return Hangs; }
    SamePool(Parse(text), sec, id);
    var stays := c.WriteKey(sec, id, value);
    if !stays { return Strays; }
    var out := PrintEntries(c.entries[..c.numEntries], Compact);
    return Done(out);
  }

  /** What an insertion does depends on the pool's numbers only. */
  lemma SamePool(es: seq<Entry>, sec: string, id: string)
    ensures Inserts(es, sec, id) ==>
              (InsertStays(Filled(|es|), KeyPlace(es, sec, id)) <==>
               InsertStays(Pool(0, |es|, PoolSize(|es|)), KeyPlace(es, sec, id)))
  {
    hide PoolSize, Filled, SectionIndex, KeyPlace;
    FilledSize(|es|);
  }

  /** `Cfg_RemoveKey` on the file's text: nothing is written when nothing changed. */
  method RemoveFile(text: string, sec: string, id: string) returns (t: Outcome<string>)
    ensures t == RemoveStr(text, sec, id)
  {
    hide Parse, DeleteKey, Output, LoopEnds;
    var c, ends := LoadImage(text);
    if !ends { return Hangs; }
    DeleteShortens(Parse(text), sec, id);
    c.DeleteEntry(sec, id);
    if !c.dirty { return Done(text); }
    var out := PrintEntries(c.entries[..c.numEntries], Compact);
    return Done(out);
  }

  /** A write with neither key nor value on the file's text. */
  method DropFile(text: string, sec: string) returns (t: Outcome<string>)
    ensures t == DropSection(text, sec)
  {
    hide Parse, DeleteSection, Output, DeleteStays, LoopEnds;
    var c, ends := LoadImage(text);
    if !ends { return Hangs; }
    DeleteShortens(Parse(text), sec, "");
    var stays := c.RemoveSection(sec);
    if !stays { return Strays; }
    if !c.dirty { return Done(text); }
    var out := PrintEntries(c.entries[..c.numEntries], Compact);
    return Done(out);
  }

  /** `Cfg_ReadStr` on the file's text. */
  method ReadFile(text: string, sec: string, id: string, default: string) returns (v: Outcome<string>)
    ensures v == match ReadStr(text, sec, id)
                 case Done(found) => Done(if found.Some? then found.value else default)
                 case _ => Hangs
  {
    hide Parse, Lookup, LoopEnds;
    var c, ends := LoadImage(text);
    if !ends { return Hangs; }
    var ret := c.FindKey(sec, id);
    return Done(if ret < 0 then default else c.value.value);
  }
}
