/** How a file is laid out: the line of every entry, the width of its keys, and where the empty lines go. */
module IniLayout {
  import opened CText
  import opened IniText
  import opened IniOutput
  import opened IniExact

  // ----- lines -----

  /** The comment behind an entry: a tab and a semicolon. */
  function Noted(line: string, c: Option<string>): string { if c.None? then line else line + "\t;" + c.value }

  lemma NotedText(line: string, c: Option<string>)
    ensures line + CommentText(c) == Noted(line, c)
  {
    if c.None? {
      assert line + "" == line;
    } else {
      assert line + ("\t;" + c.value) == line + "\t;" + c.value;
    }
  }

  lemma SectionPrinted(s: string, c: Option<string>, m: nat, style: Style)
    ensures EntryText(Entry(Some(s), None, None, c), m, style) == Noted("[" + s + "]", c)
  {
    NotedText("[" + s + "]", c);
  }

  /** Compact keys have no blanks around the equals sign; aligned ones are padded to the width. */
  lemma KeyPrinted(id: string, v: string, c: Option<string>, m: nat)
    ensures EntryText(Entry(None, Some(id), Some(v), c), m, Compact) == Noted(id + "=" + v, c)
    ensures |id| <= m ==>
              EntryText(Entry(None, Some(id), Some(v), c), m, Aligned) ==
              Noted(id + Repeat(' ', m - |id|) + " = " + v, c)
    ensures EntryText(Entry(None, Some(id), Some(v), c), 0, Aligned) == Noted(id + " = " + v, c)
  {
    NotedText(id + "=" + v, c);
    NotedText(id + " = " + v, c);
    hide CommentText, Noted;
    if |id| <= m {
      var k := id + Repeat(' ', m - |id|);
      NotedText(k + " = " + v, c);
      if m == 0 {
        assert k == id;
      } else if |id| == m {
        assert id[..m] == id && k == id;
      }
    }
  }

  /** A continuation is indented by two blanks in aligned output, and not at all in compact output. */
  lemma ContinuationPrinted(v: string, c: Option<string>, m: nat)
    ensures EntryText(Entry(None, None, Some(v), c), m, Compact) == Noted(v, c)
    ensures EntryText(Entry(None, None, Some(v), c), m, Aligned) == Noted("  " + v, c)
  {
    NotedText(v, c);
    NotedText("  " + v, c);
    hide CommentText, Noted;
    assert "" + v == v;
  }

  lemma CommentPrinted(c: string, m: nat, style: Style)
    ensures EntryText(Entry(None, None, None, Some(c)), m, style) == ";" + c
  {
  }

  // ----- the width of a section's keys -----

  /** The width is the length of the section's longest key, and zero without one. */
  lemma {:induction false} WidthIsLongest(a: seq<Entry>, post: seq<Entry>)
    requires Headless(a) && Over(post)
    ensures forall i | 0 <= i < |a| && a[i].id.Some? :: |a[i].id.value| <= LongestKey(a + post)
    ensures LongestKey(a + post) == 0 ||
            exists i :: 0 <= i < |a| && a[i].id.Some? && |a[i].id.value| == LongestKey(a + post)
    decreases |a|
  {
    var es := a + post;
    if a == [] {
      assert es == post;
    } else {
      var b := a[1..];
      assert es[1..] == b + post && es[0] == a[0];
      WidthIsLongest(b, post);
      forall i | 0 <= i < |a| && a[i].id.Some?
        ensures |a[i].id.value| <= LongestKey(es)
      {
        if i > 0 { assert a[i] == b[i - 1]; }
      }
      if LongestKey(es) == LongestKey(b + post) != 0 {
        var i :| 0 <= i < |b| && b[i].id.Some? && |b[i].id.value| == LongestKey(b + post);
        assert a[i + 1] == b[i];
      }
    }
  }

  // ----- empty lines -----

  function Lines(es: seq<Entry>, m: nat, style: Style): string {
    if es == [] then "" else EntryText(es[0], m, style) + "\n" + Lines(es[1..], m, style)
  }

  /** In front of a header there is an empty line if a section was printed since the last one. */
  lemma HeaderPrinted(h: Entry, rest: seq<Entry>, skip: bool, m: nat, style: Style)
    requires h.section.Some?
    ensures Output([h] + rest, skip, m, style) ==
            (if skip then "\n" else "")
            + (EntryText(h, m, style) + ("\n" + Output(rest, true, LongestKey(rest), style)))
  {
    hide EntryText, LongestKey;
    assert ([h] + rest)[1..] == rest;
  }

  /** Keys and continuations get none. */
  lemma {:induction false} ValuesPrinted(a: seq<Entry>, rest: seq<Entry>, skip: bool, m: nat, style: Style)
    requires forall i | 0 <= i < |a| :: a[i].section.None? && a[i].value.Some?
    ensures Output(a + rest, skip, m, style) == Lines(a, m, style) + Output(rest, skip, m, style)
    decreases |a|
  {
    hide EntryText, LongestKey, SectionFollows;
    if a == [] {
      assert a + rest == rest && "" + Output(rest, skip, m, style) == Output(rest, skip, m, style);
    } else {
      var es, b := a + rest, a[1..];
      assert es[1..] == b + rest && es[0] == a[0];
      ValuesPrinted(b, rest, skip, m, style);
      var x, y, z := EntryText(a[0], m, style), Lines(b, m, style), Output(rest, skip, m, style);
      assert Output(es, skip, m, style) == "" + (x + ("\n" + (y + z)));
      assert Lines(a, m, style) == x + "\n" + y;
      hide Output, Lines;
      Gathered(x, y, z);
    }
  }

  lemma Gathered(x: string, y: string, z: string)
    ensures "" + (x + ("\n" + (y + z))) == x + "\n" + y + z
  {
    Assoc4(x, "\n", y, z);
  }

  /** Comment lines that go with the section below: an empty line in front of them, none in front of the header. */
  lemma {:induction false} BlockPrinted(c: seq<Entry>, h: Entry, rest: seq<Entry>, skip: bool, m: nat, style: Style)
    requires BlockLines(c) && c != [] && h.section.Some?
    ensures Output(c + ([h] + rest), skip, m, style) ==
            (if skip then "\n" else "") + (Lines(c, m, style) + Output([h] + rest, false, m, style))
    decreases |c|
  {
    hide EntryText, LongestKey, BlockLine, SectionFollows;
    var es, b := c + ([h] + rest), c[1..];
    var tail := Output([h] + rest, false, m, style);
    BlockStarts(c, h, rest);
    var x := EntryText(c[0], m, style);
    assert es[1..] == b + ([h] + rest) && es[0] == c[0];
    assert Output(es, skip, m, style) ==
           (if skip then "\n" else "") + (x + ("\n" + Output(b + ([h] + rest), false, m, style)));
    assert Lines(c, m, style) == x + "\n" + Lines(b, m, style);
    hide Output, Lines;
    if b == [] {
      assert b + ([h] + rest) == [h] + rest;
      NoLines(m, style);
      assert x + "\n" + "" == x + "\n";
      Assoc3(x, "\n", tail);
    } else {
      BlockPrinted(b, h, rest, false, m, style);
      var y := Lines(b, m, style);
      assert "" + (y + tail) == y + tail;
      Assoc4(x, "\n", y, tail);
    }
  }

  lemma NoLines(m: nat, style: Style)
    ensures Lines([], m, style) == ""
  {
  }

  lemma {:induction false} BlockStarts(c: seq<Entry>, h: Entry, rest: seq<Entry>)
    requires BlockLines(c) && c != [] && h.section.Some?
    ensures c[0].section.None? && c[0].value.None? && c[0].comment.Some? && IsBlock(c[0].comment.value)
    ensures SectionFollows((c + ([h] + rest))[1..])
    decreases |c|
  {
    var b := c[1..];
    assert (c + ([h] + rest))[1..] == b + ([h] + rest);
    if b == [] {
      assert b + ([h] + rest) == [h] + rest;
    } else {
      BlockStarts(b, h, rest);
      assert (b + ([h] + rest))[0] == b[0];
    }
  }

  /** Other comment lines, such as a definition behind a semicolon, get none. */
  lemma NotePrinted(e: Entry, rest: seq<Entry>, skip: bool, m: nat, style: Style)
    requires e.section.None? && e.id.None? && e.value.None? && e.comment.Some? && !BlockLine(e)
    ensures Output([e] + rest, skip, m, style) == EntryText(e, m, style) + ("\n" + Output(rest, skip, m, style))
  {
    hide EntryText, LongestKey, SectionFollows;
    assert ([e] + rest)[1..] == rest;
    var x := EntryText(e, m, style) + ("\n" + Output(rest, skip, m, style));
    assert Output([e] + rest, skip, m, style) == "" + x;
    assert "" + x == x;
  }
}
