/** The configuration parser, as functions on text: what `_cfg_parse` stores, and for which images it returns. */
module IniText {
  import opened CText

  /** One entry of the store. A section, a key, a continuation or a comment. */
  datatype Entry = Entry(section: Option<string>, id: Option<string>, value: Option<string>, comment: Option<string>)

  predicate IsEol(c: char) { c == '\n' || c == '\r' || c == '\U{001A}' }

  predicate IsWhite(c: char) { c == '\U{000C}' || c == '\t' || c == ' ' }

  /** C's `isspace`. */
  predicate IsSpace(c: char) { c == ' ' || '\t' <= c <= '\r' }

  predicate IsMark(c: char) { c == ';' || c == '#' }

  predicate IsQuote(c: char) { c == '\"' || c == '\'' }

  // ----- scanning -----

  /** `r` is what is left of `s` behind some pointer into it. */
  predicate IsTail(r: string, s: string) { |r| <= |s| && r == s[|s| - |r|..] }

  function SkipWhite(s: string): (r: string)
    ensures IsTail(r, s)
    ensures r != [] ==> !IsWhite(r[0])
  {
    if s != [] && IsWhite(s[0]) then SkipWhite(s[1..]) else s
  }

  function TrimWhite(s: string): (r: string)
    ensures r <= s
    ensures r != [] ==> !IsWhite(r[|r| - 1])
  {
    if s != [] && IsWhite(s[|s| - 1]) then TrimWhite(s[..|s| - 1]) else s
  }

  /** `rtrim`. */
  function TrimSpace(s: string): (r: string)
    ensures r <= s
    ensures r != [] ==> !IsSpace(r[|r| - 1])
  {
    if s != [] && IsSpace(s[|s| - 1]) then TrimSpace(s[..|s| - 1]) else s
  }

  /** `strchr`: the first position of `c`, or the length. */
  function Find(s: string, c: char): (n: nat)
    ensures n <= |s|
    ensures n < |s| ==> s[n] == c
    ensures forall i | 0 <= i < n :: s[i] != c
  {
    if s == [] || s[0] == c then 0 else 1 + Find(s[1..], c)
  }

  function SkipEol(s: string): (r: string)
    ensures |r| <= |s|
    ensures r != [] ==> !IsEol(r[0])
  {
    if s != [] && IsEol(s[0]) then SkipEol(s[1..]) else s
  }

  /** A line end or a terminator, which may also stand inside an image. */
  predicate StopsLine(c: char) { IsEol(c) || c == '\0' }

  function LineLength(s: string): (n: nat)
    ensures n <= |s|
    ensures n < |s| ==> StopsLine(s[n])
    ensures forall i | 0 <= i < n :: !StopsLine(s[i])
  {
    if s == [] || StopsLine(s[0]) then 0 else 1 + LineLength(s[1..])
  }

  /**
    `_cfg_getline`: the next line, trimmed if a line end follows it, and the text behind. At a
    terminator it stops without passing it, so from there on it returns nothing for ever.
  */
  function GetLine(text: string): (r: (string, string))
    ensures |r.1| <= |text|
    ensures Head(text) != '\0' ==> |r.1| < |text|
    ensures Head(text) == '\0' ==> r == ([], text)
  {
    var s := SkipEol(text);
    var n := LineLength(s);
    if n < |s| && IsEol(s[n]) then (TrimWhite(s[..n]), s[n + 1..]) else (s[..n], s[n..])
  }

  /** The open quote behind a character. */
  function NextQuote(c: char, quote: Option<char>): Option<char> {
    if quote.Some? then (if c == quote.value then None else quote)
    else if IsQuote(c) then Some(c)
    else None
  }

  /**
    Where a value ends: at a comment mark outside quotes that follows white space. `white` tells
    whether the character before is white space, `quote` the quote that is open.
  */
  function Cut(s: string, white: bool, quote: Option<char>): (n: nat)
    ensures n <= |s|
    ensures n < |s| ==> IsMark(s[n])
  {
    if s == [] || (quote.None? && IsMark(s[0]) && white) then 0
    else 1 + Cut(s[1..], IsWhite(s[0]), NextQuote(s[0], quote))
  }

  // ----- one line -----

  function CommentAt(s: string): Option<string> {
    if s != [] && IsMark(s[0]) then Some(s[1..]) else None
  }

  function ParseSection(s: string): (e: Option<Entry>) {
    var t := SkipWhite(s);
    var n := Find(t, ']');
    if n == |t| then None
    else
      var name := TrimSpace(t[..n]);
      if name == [] then None
      else Some(Entry(Some(name), None, None, CommentAt(SkipWhite(t[n + 1..]))))
  }

  /** The value is preceded by white space or by the cut equals sign, which counts as white space. */
  function ParseValue(id: Option<string>, s: string): Entry {
    var n := Cut(s, true, None);
    if n == |s| then Entry(None, id, Some(s), None)
    else Entry(None, id, Some(TrimSpace(s[..n])), Some(s[n + 1..]))
  }

  function ParseKey(s: string): (e: Option<Entry>) {
    var n := Find(s, '=');
    if n == |s| then None
    else Some(ParseValue(Some(TrimSpace(s[..n])), SkipWhite(s[n + 1..])))
  }

  function ParseLine(line: string): (e: Option<Entry>)
    requires line != []
  {
    var s := SkipWhite(line);
    if Head(s) == '[' then ParseSection(s[1..])
    else if Head(s) == ';' then Some(Entry(None, None, None, Some(s[1..])))
    else if IsWhite(line[0]) then Some(ParseValue(None, s))
    else ParseKey(s)
  }

  function LineEntries(line: string): seq<Entry> {
    if line == [] then []
    else
      match ParseLine(line)
      case None => []
      case Some(e) => [e]
  }

  /** What the rounds of `_cfg_parse` store, as long as they get on. */
  function Parse(text: string): seq<Entry>
    decreases |text|
  {
    if Head(text) == '\0' then []
    else
      var (line, rest) := GetLine(text);
      LineEntries(line) + Parse(rest)
  }

  // ----- the loop -----

  /** Where the loop over the image stands after `k` rounds; at the end of the image it stops. */
  function After(text: string, k: nat): string
    decreases k
  {
    if k == 0 || text == [] then text else After(GetLine(text).1, k - 1)
  }

  /** The loop reaches the end of the image. */
  ghost predicate LoopEnds(text: string) { exists k: nat :: After(text, k) == [] }

  lemma RoundEnds(text: string)
    ensures LoopEnds(text) <==> LoopEnds(GetLine(text).1)
  {
    hide GetLine;
    var rest := GetLine(text).1;
    if k: nat :| After(text, k) == [] {
      assert After(rest, if k > 0 then k - 1 else 0) == [];
    }
    if k: nat :| After(rest, k) == [] {
      assert After(text, k + 1) == [];
    }
  }

  /** A round that does not get on is repeated for ever. */
  lemma {:induction false} NeverEnds(text: string, k: nat)
    requires text != [] && GetLine(text).1 == text
    ensures After(text, k) == text
    decreases k
  {
    hide GetLine;
    if k > 0 { NeverEnds(text, k - 1); }
  }

  lemma {:induction false} SkipEolNulFree(text: string)
    ensures NulFree(SkipEol(text)) <==> NulFree(text)
  {
    if text != [] && IsEol(text[0]) {
      SkipEolNulFree(text[1..]);
      assert text == [text[0]] + text[1..];
    }
  }

  lemma GetLineNulFree(text: string)
    requires Head(text) != '\0'
    ensures NulFree(GetLine(text).1) <==> NulFree(text)
  {
    hide SkipEol, LineLength, TrimWhite;
    SkipEolNulFree(text);
    var s := SkipEol(text);
    var n := LineLength(s);
    var k := if n < |s| && IsEol(s[n]) then n + 1 else n;
    assert GetLine(text).1 == s[k..];
    hide GetLine;
    Passed(s, k);
  }

  lemma Passed(s: string, k: nat)
    requires k <= |s| && forall i | 0 <= i < k :: s[i] != '\0'
    ensures NulFree(s[k..]) <==> NulFree(s)
  {
    if !NulFree(s) {
      var i :| 0 <= i < |s| && s[i] == '\0';
      assert s[k..][i - k] == '\0';
    }
  }

  /** The parse of an image returns if and only if there is no terminator inside it. */
  lemma {:induction false} LoopEndsExactly(text: string)
    ensures LoopEnds(text) <==> NulFree(text)
    decreases |text|
  {
    hide GetLine, LoopEnds;
    if text == [] {
      NothingLeft();
    } else if text[0] == '\0' {
      Stuck(text);
    } else {
      RoundEnds(text);
      GetLineNulFree(text);
      LoopEndsExactly(GetLine(text).1);
    }
  }

  lemma NothingLeft()
    ensures LoopEnds([])
  {
    assert After([], 0) == [];
  }

  lemma Stuck(text: string)
    requires text != [] && GetLine(text).1 == text
    ensures !LoopEnds(text)
  {
    hide GetLine;
    forall k: nat
      ensures After(text, k) != []
    {
      NeverEnds(text, k);
    }
  }

  // ----- well-formed entries -----

  /** What fits on a line. */
  predicate OneLine(s: string) { forall i | 0 <= i < |s| :: !StopsLine(s[i]) }

  predicate SectionOk(s: string) {
    && s != [] && OneLine(s) && ']' !in s && !IsWhite(s[0]) && !IsSpace(s[|s| - 1])
  }

  predicate IdOk(s: string) {
    && OneLine(s) && '=' !in s
    && (s != [] ==> !IsWhite(s[0]) && s[0] != '[' && s[0] != ';' && !IsSpace(s[|s| - 1]))
  }

  /** The quote that is open behind `s`. */
  function QuoteAfter(s: string, quote: Option<char>): Option<char> {
    if s == [] then quote else QuoteAfter(s[1..], NextQuote(s[0], quote))
  }

  predicate ValueOk(s: string) {
    && OneLine(s) && Cut(s, true, None) == |s|
    && (s != [] ==> !IsWhite(s[0]) && !IsWhite(s[|s| - 1]))
  }

  /** A value that a comment can follow. */
  predicate ValueClosed(s: string) {
    ValueOk(s) && QuoteAfter(s, None).None? && (s != [] ==> !IsSpace(s[|s| - 1]))
  }

  predicate CommentOk(s: string) { OneLine(s) && (s != [] ==> !IsWhite(s[|s| - 1])) }

  predicate IsSectionEntry(e: Entry) { e.section.Some? && e.id.None? && e.value.None? }
  predicate IsKey(e: Entry) { e.section.None? && e.id.Some? && e.value.Some? }
  predicate IsContinuation(e: Entry) { e.section.None? && e.id.None? && e.value.Some? }
  predicate IsCommentEntry(e: Entry) { e.section.None? && e.id.None? && e.value.None? && e.comment.Some? }

  predicate EntryOk(e: Entry) {
    && (e.comment.Some? ==> CommentOk(e.comment.value))
    && (|| (IsSectionEntry(e) && SectionOk(e.section.value))
        || (IsKey(e) && IdOk(e.id.value) && ValueOk(e.value.value)
            && (e.comment.Some? ==> ValueClosed(e.value.value)))
        || (IsContinuation(e) && ValueOk(e.value.value) && Head(e.value.value) != '[' && Head(e.value.value) != ';'
            && (e.comment.Some? ==> ValueClosed(e.value.value)))
        || IsCommentEntry(e))
  }
}
