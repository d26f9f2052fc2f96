/** Every entry that the parser stores for a terminated line is well-formed. */
module IniParsed {
  import opened CText
  import opened IniText

  /** A line as `_cfg_getline` leaves it when a line end follows. */
  predicate LineOk(line: string) {
    line != [] && OneLine(line) && !IsWhite(line[|line| - 1])
  }

  /** A pointer into such a line sees the same end. */
  lemma TailOk(r: string, line: string)
    requires LineOk(line) && IsTail(r, line)
    ensures CommentOk(r)
  {
  }

  lemma TailTrans(a: string, b: string, c: string)
    requires IsTail(a, b) && IsTail(b, c)
    ensures IsTail(a, c)
  {
  }

  lemma DropTail(s: string, n: nat)
    requires n <= |s|
    ensures IsTail(s[n..], s)
  {
  }

  // ----- cutting -----

  lemma {:induction false} CutPrefix(s: string, k: nat, white: bool, quote: Option<char>)
    requires k <= Cut(s, white, quote)
    ensures Cut(s[..k], white, quote) == k
    decreases k
  {
    if k > 0 {
      assert s[..k][1..] == s[1..][..k - 1];
      CutPrefix(s[1..], k - 1, IsWhite(s[0]), NextQuote(s[0], quote));
    }
  }

  lemma {:induction false} CutUnquoted(s: string, white: bool, quote: Option<char>)
    requires Cut(s, white, quote) < |s|
    ensures QuoteAfter(s[..Cut(s, white, quote)], quote).None?
    decreases |s|
  {
    var n := Cut(s, white, quote);
    if n > 0 {
      assert s[..n][1..] == s[1..][..n - 1];
      CutUnquoted(s[1..], IsWhite(s[0]), NextQuote(s[0], quote));
    }
  }

  predicate AQuote(quote: Option<char>) { quote.Some? ==> IsQuote(quote.value) }

  lemma {:induction false} QuoteConcat(a: string, b: string, quote: Option<char>)
    ensures QuoteAfter(a + b, quote) == QuoteAfter(b, QuoteAfter(a, quote))
    decreases |a|
  {
    if a == [] {
      assert a + b == b;
    } else {
      DropFirst(a, b);
      QuoteConcat(a[1..], b, NextQuote(a[0], quote));
    }
  }

  lemma {:induction false} QuoteAfterIsQuote(s: string, quote: Option<char>)
    requires AQuote(quote)
    ensures AQuote(QuoteAfter(s, quote))
    decreases |s|
  {
    if s != [] { QuoteAfterIsQuote(s[1..], NextQuote(s[0], quote)); }
  }

  /** Trimming white space does not change which quote is open. */
  lemma {:induction false} TrimKeepsQuote(s: string)
    ensures QuoteAfter(TrimSpace(s), None) == QuoteAfter(s, None)
    decreases |s|
  {
    if s != [] && IsSpace(s[|s| - 1]) {
      var t := s[..|s| - 1];
      TrimKeepsQuote(t);
      assert s == t + [s[|s| - 1]];
      QuoteConcat(t, [s[|s| - 1]], None);
      QuoteAfterIsQuote(t, None);
      SpaceIsNoQuote(s[|s| - 1], QuoteAfter(t, None));
    }
  }

  lemma SpaceIsNoQuote(c: char, quote: Option<char>)
    requires IsSpace(c) && AQuote(quote)
    ensures QuoteAfter([c], quote) == quote
  {
    assert [c][1..] == [];
  }

  // ----- entries -----

  lemma ValueParsed(id: Option<string>, s: string, line: string)
    requires LineOk(line) && IsTail(s, line) && (s != [] ==> !IsWhite(s[0]))
    ensures var e := ParseValue(id, s);
            && e.section.None? && e.id == id && e.value.Some? && ValueOk(e.value.value)
            && (e.comment.Some? ==> CommentOk(e.comment.value) && ValueClosed(e.value.value))
            && (e.value.value != [] ==> e.value.value[0] == Head(s))
  {
    hide Cut, QuoteAfter, TrimSpace, IsTail;
    TailOk(s, line);
    var n := Cut(s, true, None);
    if n < |s| {
      var v := TrimSpace(s[..n]);
      CutPrefix(s, |v|, true, None);
      assert v == s[..|v|];
      CutUnquoted(s, true, None);
      TrimKeepsQuote(s[..n]);
      DropTail(s, n + 1);
      TailTrans(s[n + 1..], s, line);
      TailOk(s[n + 1..], line);
    }
  }

  lemma NameOk(t: string, n: nat)
    requires n <= |t| && OneLine(t) && (t != [] ==> !IsWhite(t[0]))
    ensures (forall i | 0 <= i < n :: t[i] != ']') && TrimSpace(t[..n]) != [] ==> SectionOk(TrimSpace(t[..n]))
    ensures (forall i | 0 <= i < n :: t[i] != '=') && Head(t) != '[' && Head(t) != ';' ==> IdOk(TrimSpace(t[..n]))
  {
    var name := TrimSpace(t[..n]);
    assert name == t[..|name|];
    hide TrimSpace;
  }

  lemma MarkedTail(r: string, line: string)
    requires LineOk(line) && IsTail(r, line)
    ensures CommentAt(r).Some? ==> CommentOk(CommentAt(r).value)
  {
    hide IsTail, LineOk, CommentOk;
    if r != [] {
      DropTail(r, 1);
      TailTrans(r[1..], r, line);
      TailOk(r[1..], line);
    }
  }

  lemma SectionParsed(s: string, line: string)
    requires LineOk(line) && IsTail(s, line)
    ensures ParseSection(s).Some? ==> EntryOk(ParseSection(s).value) && IsSectionEntry(ParseSection(s).value)
  {
    hide SkipWhite, Find, TrimSpace, SectionOk, IdOk, ValueOk, ValueClosed, CommentAt, IsTail;
    var t := SkipWhite(s);
    var n := Find(t, ']');
    TailTrans(t, s, line);
    TailOk(t, line);
    NameOk(t, n);
    if n < |t| {
      var r := SkipWhite(t[n + 1..]);
      DropTail(t, n + 1);
      TailTrans(r, t[n + 1..], t);
      TailTrans(r, t, line);
      MarkedTail(r, line);
    }
  }

  lemma KeyParsed(line: string)
    requires LineOk(line) && !IsWhite(line[0]) && line[0] != '[' && line[0] != ';'
    ensures ParseKey(line).Some? ==> EntryOk(ParseKey(line).value) && IsKey(ParseKey(line).value)
  {
    hide ParseValue, SkipWhite, Find, TrimSpace, SectionOk, IdOk, ValueOk, ValueClosed, CommentOk, IsTail;
    var n := Find(line, '=');
    NameOk(line, n);
    if n < |line| {
      var v := SkipWhite(line[n + 1..]);
      DropTail(line, n + 1);
      TailTrans(v, line[n + 1..], line);
      ValueParsed(Some(TrimSpace(line[..n])), v, line);
    }
  }

  /** The parser stores well-formed entries only; a continuation comes from an indented line only. */
  lemma LineParsed(line: string)
    requires LineOk(line)
    ensures ParseLine(line).Some? ==>
              EntryOk(ParseLine(line).value) && (IsContinuation(ParseLine(line).value) ==> IsWhite(line[0]))
  {
    hide IsTail, ParseSection, ParseKey, ParseValue, ValueOk, ValueClosed;
    var s := SkipWhite(line);
    if Head(s) == '[' || Head(s) == ';' {
      DropTail(s, 1);
      TailTrans(s[1..], s, line);
      TailOk(s[1..], line);
      SectionParsed(s[1..], line);
    } else if IsWhite(line[0]) {
      ValueParsed(None, s, line);
    } else {
      KeyParsed(line);
    }
  }
}
