/** The two configuration printers, and that the parser reads back what they write. */
module IniOutput {
  import opened CText
  import opened IniText

  /** `_cfg_output` writes compactly, `_cfg_outputformatted` aligns keys and indents continuations. */
  datatype Style = Compact | Aligned

  function CommentText(c: Option<string>): string {
    if c.None? then "" else "\t;" + c.value
  }

  /** `%-*.*s` with both numbers equal to `m`: cut to `m` characters, then padded to `m`. */
  function Pad(s: string, m: nat): string {
    if |s| >= m then s[..m] else s + Repeat(' ', m - |s|)
  }

  function KeyText(id: string, m: nat, style: Style): string {
    if style.Compact? then id + "="
    else if m > 0 then Pad(id, m) + " = "
    else id + " = "
  }

  /** The line printed for an entry; `m` is the length of the section's longest key. */
  function EntryText(e: Entry, m: nat, style: Style): string {
    if e.section.Some? then "[" + e.section.value + "]" + CommentText(e.comment)
    else if e.id.Some? && e.value.Some? then KeyText(e.id.value, m, style) + e.value.value + CommentText(e.comment)
    else if e.value.Some? then (if style.Aligned? then "  " else "") + e.value.value + CommentText(e.comment)
    else if e.comment.Some? then ";" + e.comment.value
    else ""
  }

  /** A comment that belongs to what follows: empty, or starting with white space or a mark. */
  predicate IsBlock(c: string) { c == [] || IsWhite(c[0]) || IsMark(c[0]) }

  /** Only comments stand between here and the next section. */
  predicate SectionFollows(es: seq<Entry>) {
    es != [] &&
    (es[0].section.Some? || (es[0].id.None? && es[0].value.None? && SectionFollows(es[1..])))
  }

  /** The length of the longest key before the next section. */
  function LongestKey(es: seq<Entry>): nat {
    if es == [] || es[0].section.Some? then 0
    else
      var m := LongestKey(es[1..]);
      if es[0].id.Some? && |es[0].id.value| > m then |es[0].id.value| else m
  }

  predicate BlankBefore(e: Entry, rest: seq<Entry>, skip: bool) {
    skip && (e.section.Some? ||
             (e.value.None? && e.comment.Some? && IsBlock(e.comment.value) && SectionFollows(rest)))
  }

  function SkipAfter(e: Entry, rest: seq<Entry>, skip: bool): bool {
    e.section.Some? || (skip && !BlankBefore(e, rest, skip))
  }

  function Output(es: seq<Entry>, skip: bool, m: nat, style: Style): string {
    if es == [] then []
    else
      var m' := if es[0].section.Some? then LongestKey(es[1..]) else m;
      (if BlankBefore(es[0], es[1..], skip) then "\n" else "")
      + (EntryText(es[0], m, style) + ("\n" + Output(es[1..], SkipAfter(es[0], es[1..], skip), m', style)))
  }

  // ----- one line back -----

  lemma {:induction false} TrimAway(s: string, spaces: string)
    requires (s != [] ==> !IsSpace(s[|s| - 1])) && forall i | 0 <= i < |spaces| :: IsSpace(spaces[i])
    ensures TrimSpace(s + spaces) == s
    decreases |spaces|
  {
    if spaces == [] {
      assert s + spaces == s;
    } else {
      assert (s + spaces)[..|s + spaces| - 1] == s + spaces[..|spaces| - 1];
      TrimAway(s, spaces[..|spaces| - 1]);
    }
  }

  lemma {:induction false} SkipAway(white: string, s: string)
    requires forall i | 0 <= i < |white| :: IsWhite(white[i])
    ensures SkipWhite(white + s) == SkipWhite(s)
    decreases |white|
  {
    if white == [] {
      assert white + s == s;
    } else {
      DropFirst(white, s);
      SkipAway(white[1..], s);
    }
  }

  lemma {:induction false} FindFirst(a: string, c: char, b: string)
    requires c !in a
    ensures Find(a + ([c] + b), c) == |a|
    ensures (a + ([c] + b))[..|a|] == a && (a + ([c] + b))[|a| + 1..] == b
    decreases |a|
  {
    if a != [] {
      DropFirst(a, [c] + b);
      FindFirst(a[1..], c, b);
    }
  }

  /** Whether the last character of `s` is white space, or the one before it if there is none. */
  function WhiteAfter(s: string, white: bool): bool {
    if s == [] then white else IsWhite(s[|s| - 1])
  }

  lemma {:induction false} CutConcat(a: string, b: string, white: bool, quote: Option<char>)
    requires Cut(a, white, quote) == |a|
    ensures Cut(a + b, white, quote) == |a| + Cut(b, WhiteAfter(a, white), QuoteAfter(a, quote))
    decreases |a|
  {
    if a == [] {
      assert a + b == b;
    } else {
      DropFirst(a, b);
      CutConcat(a[1..], b, IsWhite(a[0]), NextQuote(a[0], quote));
      hide NextQuote;
      assert WhiteAfter(a[1..], IsWhite(a[0])) == WhiteAfter(a, white);
    }
  }

  lemma CutValue(id: Option<string>, s: string, n: nat)
    requires Cut(s, true, None) == n
    ensures n == |s| ==> ParseValue(id, s) == Entry(None, id, Some(s), None)
    ensures n < |s| ==> ParseValue(id, s) == Entry(None, id, Some(TrimSpace(s[..n])), Some(s[n + 1..]))
  {
    hide Cut, TrimSpace;
  }

  /** The printed value and comment are read back as they were. */
  lemma ValueBack(id: Option<string>, v: string, c: Option<string>)
    requires ValueOk(v) && (c.Some? ==> ValueClosed(v))
    ensures ParseValue(id, SkipWhite(v + CommentText(c))) == Entry(None, id, Some(v), c)
  {
    hide ParseValue, Cut, QuoteAfter, SkipWhite, TrimSpace;
    if c.None? {
      assert v + "" == v;
      SkipNothing(v);
      CutValue(id, v, |v|);
    } else if v == [] {
      assert v + CommentText(c) == "\t" + (";" + c.value);
      OnlyComment(id, c.value);
    } else {
      ClosedBack(id, v, c.value);
    }
  }

  lemma OnlyComment(id: Option<string>, c: string)
    ensures ParseValue(id, SkipWhite("\t" + (";" + c))) == Entry(None, id, Some(""), Some(c))
  {
    hide ParseValue, SkipWhite;
    var t := ";" + c;
    SkipAway("\t", t);
    SkipNothing(t);
    CutValue(id, t, 0);
    assert t[..0] == "";
    assert t[1..] == c;
  }

  lemma ClosedBack(id: Option<string>, v: string, c: string)
    requires ValueClosed(v) && v != []
    ensures ParseValue(id, SkipWhite(v + ("\t;" + c))) == Entry(None, id, Some(v), Some(c))
  {
    hide Cut, QuoteAfter, SkipWhite, TrimSpace, ParseValue, WhiteAfter;
    var t := v + ("\t;" + c);
    assert t[0] == v[0];
    SkipNothing(t);
    CutConcat(v, "\t;" + c, true, None);
    CutMark(c, WhiteAfter(v, true));
    CutValue(id, t, |v| + 1);
    assert t[..|v| + 1] == v + "\t";
    TrimAway(v, "\t");
    assert t[|v| + 2..] == c;
  }

  lemma SkipNothing(s: string)
    requires s != [] ==> !IsWhite(s[0])
    ensures SkipWhite(s) == s
  {
  }

  lemma CutMark(c: string, white: bool)
    ensures Cut("\t;" + c, white, None) == 1
  {
    assert ("\t;" + c)[1..] == ";" + c;
  }

  lemma TrimNothing(s: string)
    requires s != [] ==> !IsSpace(s[|s| - 1])
    ensures TrimSpace(s) == s
  {
  }

  lemma SectionBack(name: string, c: Option<string>)
    requires SectionOk(name)
    ensures ParseLine("[" + (name + ("]" + CommentText(c)))) == Some(Entry(Some(name), None, None, c))
  {
    hide SkipWhite, Find, TrimSpace;
    var s := name + ("]" + CommentText(c));
    var line := "[" + s;
    SkipNothing(line);
    DropFirst("[", s);
    assert [] + s == s;
    SkipNothing(s);
    FindFirst(name, ']', CommentText(c));
    TrimNothing(name);
    MarkBack(c);
  }

  lemma MarkBack(c: Option<string>)
    ensures CommentAt(SkipWhite(CommentText(c))) == c
  {
    hide SkipWhite;
    if c.Some? {
      var s := ";" + c.value;
      assert CommentText(c) == "\t" + s;
      hide CommentText;
      SkipAway("\t", s);
      SkipNothing(s);
      assert s[1..] == c.value;
    } else {
      SkipNothing([]);
    }
  }

  /** A line that is neither indented nor a section or comment is cut at its first equals sign. */
  lemma KeyCut(a: string, rest: string)
    requires '=' !in a && (a != [] ==> !IsWhite(a[0]) && a[0] != '[' && a[0] != ';')
    ensures ParseLine(a + ("=" + rest)) == Some(ParseValue(Some(TrimSpace(a)), SkipWhite(rest)))
  {
    hide SkipWhite, Find, TrimSpace, ParseValue;
    var line := a + ("=" + rest);
    assert line[0] == if a == [] then '=' else a[0];
    SkipNothing(line);
    FindFirst(a, '=', rest);
  }

  lemma KeyBack(id: string, pad: string, w: string, v: string, c: Option<string>)
    requires IdOk(id) && ValueOk(v) && (c.Some? ==> ValueClosed(v))
    requires (forall i | 0 <= i < |pad| :: pad[i] == ' ') && (id == [] ==> pad == [])
    requires forall i | 0 <= i < |w| :: w[i] == ' '
    ensures ParseLine(id + pad + ("=" + (w + (v + CommentText(c))))) ==
            Some(Entry(None, Some(id), Some(v), c))
  {
    hide SkipWhite, TrimSpace, ParseValue, ValueOk, ValueClosed, CommentText, ParseLine;
    KeyCut(id + pad, w + (v + CommentText(c)));
    TrimAway(id, pad);
    SkipAway(w, v + CommentText(c));
    ValueBack(Some(id), v, c);
  }

  lemma ContinuationBack(v: string, c: Option<string>)
    requires ValueOk(v) && (c.Some? ==> ValueClosed(v)) && v != [] && v[0] != '[' && v[0] != ';'
    ensures ParseLine("  " + (v + CommentText(c))) == Some(Entry(None, None, Some(v), c))
  {
    hide SkipWhite, ParseValue, ValueClosed, CommentText;
    var s := v + CommentText(c);
    SkipAway("  ", s);
    SkipNothing(s);
    ValueBack(None, v, c);
  }

  // ----- one entry back -----

  /** What a style can show of an entry. Compact output loses continuations. */
  predicate Shown(e: Entry, m: nat, style: Style) {
    if style.Compact? then !IsContinuation(e)
    else
      && (IsKey(e) ==> e.id.value != [] && (m == 0 || |e.id.value| <= m))
      && (IsContinuation(e) ==> e.value.value != [])
  }

  /** A printed line that `_cfg_getline` trims and the parser turns into `e`. */
  ghost predicate ReadsAs(line: string, e: Entry) {
    OneLine(line) && TrimWhite(line) != [] && ParseLine(TrimWhite(line)) == Some(e)
  }

  lemma Untrimmed(line: string)
    requires line != [] && !IsWhite(line[|line| - 1])
    ensures TrimWhite(line) == line
  {
  }

  lemma CommentLast(c: Option<string>, s: string)
    requires (c.Some? ==> CommentOk(c.value)) && OneLine(s) && (s != [] ==> !IsWhite(s[|s| - 1]))
    ensures var t := s + CommentText(c); OneLine(t) && (t != [] ==> !IsWhite(t[|t| - 1]))
    ensures c.Some? ==> CommentText(c) != []
  {
    if c.None? { assert s + "" == s; }
  }

  lemma SectionLine(e: Entry, m: nat, style: Style)
    requires EntryOk(e) && IsSectionEntry(e)
    ensures ReadsAs(EntryText(e, m, style), e)
  {
    hide CommentText, TrimWhite, ParseLine;
    var name := e.section.value;
    CommentLast(e.comment, "[" + name + "]");
    Assoc4("[", name, "]", CommentText(e.comment));
    Untrimmed(EntryText(e, m, style));
    SectionBack(name, e.comment);
  }

  lemma CommentLine(e: Entry, m: nat, style: Style)
    requires EntryOk(e) && IsCommentEntry(e)
    ensures ReadsAs(EntryText(e, m, style), e)
  {
    hide TrimWhite;
    var line := ";" + e.comment.value;
    Untrimmed(line);
    SkipNothing(line);
    assert line[1..] == e.comment.value;
  }

  /** The key, its padding and the blank behind the equals sign. */
  lemma KeySplit(id: string, m: nat, style: Style) returns (pad: string, w: string)
    requires style.Compact? || (id != [] && (m == 0 || |id| <= m))
    ensures KeyText(id, m, style) == id + pad + "=" + w
    ensures (forall i | 0 <= i < |pad| :: pad[i] == ' ') && (id == [] ==> pad == [])
    ensures w == (if style.Compact? then "" else " ")
  {
    if style.Compact? {
      pad, w := "", "";
      assert id + "" + "=" + "" == id + "=";
    } else {
      w := " ";
      var fill := if m == 0 then 0 else m - |id|;
      pad := Repeat(' ', fill) + " ";
      assert id + Repeat(' ', fill) + " = " == id + (Repeat(' ', fill) + " ") + "=" + " ";
      assert (if m > 0 then Pad(id, m) else id) == id + Repeat(' ', fill);
    }
  }

  lemma KeyLine(e: Entry, m: nat, style: Style)
    requires EntryOk(e) && IsKey(e) && Shown(e, m, style)
    ensures ReadsAs(EntryText(e, m, style), e)
  {
    var id, v, c := e.id.value, e.value.value, e.comment;
    var pad, w := KeySplit(id, m, style);
    assert EntryText(e, m, style) == id + pad + "=" + w + v + CommentText(c);
    hide EntryText, KeyText, CommentText, TrimWhite, ParseLine, ValueOk, ValueClosed, Shown;
    KeyShape(id + pad, w, v, c);
    KeyEnd(id + pad, w, v + CommentText(c));
    var line := id + pad + ("=" + (w + (v + CommentText(c))));
    if v + CommentText(c) == [] && w == " " {
      KeyBack(id, pad, "", v, c);
    } else {
      KeyBack(id, pad, w, v, c);
    }
  }

  /** The blank behind the equals sign is trimmed when nothing follows it. */
  lemma KeyEnd(k: string, w: string, x: string)
    requires (w == "" || w == " ") && (x != [] ==> !IsWhite(x[|x| - 1]))
    ensures TrimWhite(k + ("=" + (w + x))) == k + ("=" + ((if x == [] then "" else w) + x))
  {
    var line := k + ("=" + (w + x));
    if x == [] && w == " " {
      assert line == k + "=" + " ";
      TrimOne(k + "=", ' ');
      assert "" + x == "";
    } else {
      assert x == [] ==> w + x == w;
      hide TrimWhite;
      Untrimmed(line);
    }
  }

  lemma TrimOne(s: string, c: char)
    requires IsWhite(c) && s != [] && !IsWhite(s[|s| - 1])
    ensures TrimWhite(s + [c]) == s
  {
    assert (s + [c])[..|s|] == s;
  }

  lemma KeyShape(k: string, w: string, v: string, c: Option<string>)
    requires OneLine(k) && OneLine(w) && ValueOk(v) && (c.Some? ==> CommentOk(c.value))
    ensures k + "=" + w + v + CommentText(c) == k + ("=" + (w + (v + CommentText(c))))
    ensures OneLine(k + ("=" + (w + (v + CommentText(c)))))
    ensures v + CommentText(c) != [] ==> !IsWhite((v + CommentText(c))[|v + CommentText(c)| - 1])
  {
    CommentLast(c, v);
    hide CommentText, ValueOk;
    Assoc5(k, "=", w, v, CommentText(c));
  }

  lemma ContinuationLine(e: Entry, m: nat)
    requires EntryOk(e) && IsContinuation(e) && e.value.value != []
    ensures ReadsAs(EntryText(e, m, Aligned), e)
  {
    hide CommentText, TrimWhite, ParseLine, Cut, QuoteAfter;
    var v, c := e.value.value, e.comment;
    CommentLast(c, v);
    Assoc3("  ", v, CommentText(c));
    assert EntryText(e, m, Aligned) == "  " + (v + CommentText(c));
    hide EntryText;
    Indented(v + CommentText(c));
    Untrimmed("  " + (v + CommentText(c)));
    ContinuationBack(v, c);
  }

  lemma Indented(s: string)
    requires OneLine(s) && s != [] && !IsWhite(s[|s| - 1])
    ensures var t := "  " + s; OneLine(t) && !IsWhite(t[|t| - 1])
  {
  }

  lemma LineBack(e: Entry, m: nat, style: Style)
    requires EntryOk(e) && Shown(e, m, style)
    ensures ReadsAs(EntryText(e, m, style), e)
  {
    hide ReadsAs, EntryText, SectionOk, IdOk, ValueOk, ValueClosed, CommentOk;
    if IsSectionEntry(e) {
      SectionLine(e, m, style);
    } else if IsKey(e) {
      KeyLine(e, m, style);
    } else if IsContinuation(e) {
      ContinuationLine(e, m);
    } else {
      CommentLine(e, m, style);
    }
  }
}
