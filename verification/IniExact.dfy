/** Lookup, write and deletion on lists that are taken apart: which entry is meant, and what becomes of each. */
module IniExact {
  import opened CText
  import opened IniText
  import opened IniStore
  import opened IniConfig

  // ----- quotes -----

  predicate Quotes(s: string) { forall i | 0 <= i < |s| :: s[i] == '\"' || s[i] == '\'' }

  /** A key is what stands between its leading quotes and the next quote; of quotes alone nothing is left. */
  lemma {:induction false} QuotesRemoved(q: string, id: string, rest: string)
    requires Quotes(q) && PlainKey(id) && (rest != [] ==> rest[0] == '\"' || rest[0] == '\'')
    ensures RemoveQuotes(q + (id + rest)) == Some(id) && RemoveQuotes(q) == None
    decreases |q|
  {
    if q == [] {
      assert q + (id + rest) == id + rest;
      UpToRest(id, rest);
      assert (id + rest)[0] == id[0];
    } else {
      assert (q + (id + rest))[1..] == q[1..] + (id + rest);
      QuotesRemoved(q[1..], id, rest);
    }
  }

  lemma {:induction false} UpToRest(id: string, rest: string)
    requires (forall i | 0 <= i < |id| :: !IsQuote(id[i])) && (rest != [] ==> IsQuote(rest[0]))
    ensures UpToQuote(id + rest) == id
    decreases |id|
  {
    if id == [] {
      assert id + rest == rest;
    } else {
      assert (id + rest)[1..] == id[1..] + rest;
      UpToRest(id[1..], rest);
    }
  }

  // ----- lists taken apart -----

  /** Nothing in `pre` is a section of that name. */
  predicate Unnamed(pre: seq<Entry>, sec: string) { forall i | 0 <= i < |pre| :: pre[i].section != Some(sec) }

  /** No headers: all of it belongs to one section. */
  predicate Headless(a: seq<Entry>) { forall i | 0 <= i < |a| :: a[i].section.None? }

  /** The end of a section: nothing, or the next header. */
  predicate Over(post: seq<Entry>) { post == [] || post[0].section.Some? }

  predicate Unkeyed(a: seq<Entry>, id: string) { forall i | 0 <= i < |a| :: a[i].id != Some(id) }

  /** Where the loops find the section, its end and the key. */
  lemma Places(pre: seq<Entry>, h: Entry, a: seq<Entry>, rest: seq<Entry>, sec: string, id: string)
    requires Unnamed(pre, sec) && h.section == Some(sec) && Headless(a) && Unkeyed(a, id)
    requires rest == [] || rest[0].section.Some? || rest[0].id == Some(id)
    ensures var es := pre + [h] + a + rest; var s, k := |pre|, |pre| + 1 + |a|;
            && s == SectionIndex(es, sec) && k == KeyIndex(es, s + 1, NextSection(es, s + 1), id)
            && (k < NextSection(es, s + 1) <==> rest != [] && rest[0].section.None?)
  {
    hide SectionIndex, NextSection, KeyIndex;
    var es := pre + [h] + a + rest;
    var s, k := |pre|, |pre| + 1 + |a|;
    assert forall i | 0 <= i < |es| ::
        es[i] == if i < s then pre[i] else if i == s then h else if i < k then a[i - s - 1] else rest[i - k];
    FirstIsIndex(es, s, sec);
    PlaceIsIndex(es, s + 1, k, id);
  }

  /** Updating: the first entry with exactly that key gets the value and keeps everything else. */
  lemma WriteUpdates(pre: seq<Entry>, h: Entry, a: seq<Entry>, e: Entry, b: seq<Entry>,
                     sec: string, id: string, value: string)
    requires Unnamed(pre, sec) && h.section == Some(sec) && Headless(a) && Unkeyed(a, id)
    requires e.section.None? && e.id == Some(id)
    ensures Write(pre + [h] + a + ([e] + b), sec, id, value) ==
            pre + [h] + a + ([Entry(None, Some(id), Some(value), e.comment)] + b)
  {
    hide Write, SectionIndex, NextSection, KeyIndex, KeyPlace;
    var es := pre + [h] + a + ([e] + b);
    var k := |pre| + 1 + |a|;
    Places(pre, h, a, [e] + b, sec, id);
    WriteBy(es, sec, id, value);
    assert es[k] == e;
    assert es[k := e.(value := Some(value))] == pre + [h] + a + ([e.(value := Some(value))] + b);
  }

  /** Adding: the key becomes the last entry of the section, without a comment. */
  lemma WriteAdds(pre: seq<Entry>, h: Entry, a: seq<Entry>, post: seq<Entry>, sec: string, id: string, value: string)
    requires Unnamed(pre, sec) && h.section == Some(sec) && Headless(a) && Unkeyed(a, id) && Over(post)
    ensures Write(pre + [h] + a + post, sec, id, value) ==
            pre + [h] + a + ([Entry(None, Some(id), Some(value), None)] + post)
  {
    hide Write, SectionIndex, NextSection, KeyIndex, KeyPlace;
    var es := pre + [h] + a + post;
    var k := |pre| + 1 + |a|;
    Places(pre, h, a, post, sec, id);
    WriteBy(es, sec, id, value);
    assert es[..k] == pre + [h] + a && es[k..] == post;
    var n := Entry(None, Some(id), Some(value), None);
    if post == [] {
      assert es == pre + [h] + a && [n] + post == [n];
    } else {
      assert es[..k] + [n] + es[k..] == pre + [h] + a + ([n] + post);
    }
  }

  /** A new section comes last, with its key, both without a comment. */
  lemma WriteCreates(es: seq<Entry>, sec: string, id: string, value: string)
    requires Unnamed(es, sec)
    ensures Write(es, sec, id, value) ==
            es + [Entry(Some(sec), None, None, None), Entry(None, Some(id), Some(value), None)]
  {
    hide Write, SectionIndex, NextSection, KeyIndex, KeyPlace;
    FirstIsIndex(es, |es|, sec);
    WriteBy(es, sec, id, value);
    var h, n := Entry(Some(sec), None, None, None), Entry(None, Some(id), Some(value), None);
    assert es + [h] + [n] == es + [h, n];
  }

  // ----- lookup -----

  /** Lookup passes an entry: no header, and no value under that key. */
  predicate Passed(e: Entry, id: string) {
    e.section.None? && !(e.value.Some? && e.id.Some? && RemoveQuotes(e.id.value) == Some(id))
  }

  predicate AllPassed(a: seq<Entry>, id: string) { forall i | 0 <= i < |a| :: Passed(a[i], id) }

  /** Lookup gives the first value under the key in the first section of the name. */
  lemma LookupFinds(pre: seq<Entry>, h: Entry, a: seq<Entry>, e: Entry, b: seq<Entry>, sec: string, id: string)
    requires Unnamed(pre, sec) && h.section == Some(sec) && AllPassed(a, id)
    requires e.section.None? && e.value.Some? && e.id.Some? && RemoveQuotes(e.id.value) == Some(id)
    ensures Lookup(pre + [h] + a + ([e] + b), sec, id) == e.value
  {
    hide SearchAll, RemoveQuotes;
    SearchTo(pre, h, a, [e] + b, sec, id);
    SearchConcat(Inside, [e], b, sec, id);
    SearchOne(Inside, e, sec, id);
    FoundStays(e.value.value, b, sec, id);
  }

  lemma LookupMisses(pre: seq<Entry>, h: Entry, a: seq<Entry>, post: seq<Entry>, sec: string, id: string)
    requires Unnamed(pre, sec) && h.section == Some(sec) && AllPassed(a, id) && Over(post)
    ensures Lookup(pre + [h] + a + post, sec, id) == None && Lookup(pre, sec, id) == None
  {
    hide SearchAll, RemoveQuotes;
    SearchTo(pre, h, a, post, sec, id);
    NotFoundBehind(post, sec, id);
    StaysBefore(pre, |pre|, sec, id);
    assert pre[..|pre|] == pre;
  }

  lemma SearchTo(pre: seq<Entry>, h: Entry, a: seq<Entry>, rest: seq<Entry>, sec: string, id: string)
    requires Unnamed(pre, sec) && h.section == Some(sec) && AllPassed(a, id)
    ensures SearchAll(Before, pre + [h] + a + rest, sec, id) == SearchAll(Inside, rest, sec, id)
  {
    hide SearchAll, RemoveQuotes;
    StaysBefore(pre, |pre|, sec, id);
    assert pre[..|pre|] == pre && a[0..|a|] == a;
    SearchConcat(Before, pre + [h] + a, rest, sec, id);
    SearchConcat(Before, pre + [h], a, sec, id);
    SearchConcat(Before, pre, [h], sec, id);
    SearchOne(Before, h, sec, id);
    InsideMore(a, 0, |a|, sec, id);
  }

  // ----- deletion -----

  /** A comment line that goes with what is below it: its text is empty or starts with white space or a mark. */
  predicate BlockLine(e: Entry) {
    e.section.None? && e.id.None? && e.value.None? && e.comment.Some? &&
    (e.comment.value == [] ||
     var c := e.comment.value[0]; c == '\U{000C}' || c == '\t' || c == ' ' || c == ';' || c == '#')
  }

  predicate BlockLines(c: seq<Entry>) { forall i | 0 <= i < |c| :: BlockLine(c[i]) }

  lemma {:induction false} BlockStartIs(es: seq<Entry>, k: nat, b: nat)
    requires b <= k <= |es| && BlockComments(es, b, k) && (b > 0 ==> !IsBlockComment(es[b - 1]))
    ensures BlockStart(es, k) == b
    decreases k
  {
    hide IsBlockComment;
    if b < k { BlockStartIs(es, k - 1, b); }
  }

  /** The comment lines directly in front of `rest`, and nothing more of them in front. */
  lemma BlockPlace(front: seq<Entry>, c: seq<Entry>, rest: seq<Entry>)
    requires BlockLines(c) && front != [] && !BlockLine(front[|front| - 1])
    ensures var es := front + c + rest;
            BlockStart(es, |front| + |c|) == |front| && ScanUp(es, |front| + |c| - 1) == |front| - 1
  {
    hide BlockStart, ScanUp;
    var es, k := front + c + rest, |front| + |c|;
    forall i | |front| <= i < k
      ensures IsBlockComment(es[i])
    {
      assert es[i] == c[i - |front|];
    }
    assert es[|front| - 1] == front[|front| - 1];
    BlockStartIs(es, k, |front|);
    ScanUpExact(es, k);
  }

  /** Deleting a key: the first entry with exactly that key goes with the comment lines directly above it. */
  lemma DeleteTakes(pre: seq<Entry>, h: Entry, a: seq<Entry>, c: seq<Entry>, e: Entry, b: seq<Entry>,
                    sec: string, id: string)
    requires Unnamed(pre, sec) && h.section == Some(sec) && Headless(a) && Unkeyed(a, id)
    requires BlockLines(c) && (a != [] ==> !BlockLine(a[|a| - 1])) && e.section.None? && e.id == Some(id)
    ensures DeleteKey(pre + [h] + a + c + ([e] + b), sec, id) == pre + [h] + a + b
  {
    hide SectionIndex, NextSection, KeyIndex, BlockStart, ScanUp, DeleteKey, Without;
    var front, s, k := pre + [h] + a, |pre|, |pre| + 1 + |a| + |c|;
    var es := front + c + ([e] + b);
    Assoc(pre + [h], a, c);
    CommentsHeadless(a, c, id);
    Places(pre, h, a + c, [e] + b, sec, id);
    assert front[|front| - 1] == if a == [] then h else a[|a| - 1];
    BlockPlace(front, c, [e] + b);
    DeleteKeyCut(es, sec, id, s, k, |front|);
    CutOne(front, c, e, b);
  }

  lemma CommentsHeadless(a: seq<Entry>, c: seq<Entry>, id: string)
    requires Headless(a) && Unkeyed(a, id) && BlockLines(c)
    ensures Headless(a + c) && Unkeyed(a + c, id)
  {
  }

  lemma CutOne(front: seq<Entry>, c: seq<Entry>, e: Entry, b: seq<Entry>)
    ensures Without(front + c + ([e] + b), |front|, |front| + |c| + 1) == front + b
  {
    var es := front + c + ([e] + b);
    assert es[..|front|] == front && es[|front| + |c| + 1..] == b;
  }

  /** Deleting a section: its comment lines, header and entries go; the comment lines of the next section stay. */
  lemma DropTakes(pre: seq<Entry>, c: seq<Entry>, h: Entry, a: seq<Entry>, d: seq<Entry>, post: seq<Entry>,
                  sec: string)
    requires Unnamed(pre, sec) && BlockLines(c) && pre != [] && !BlockLine(pre[|pre| - 1])
    requires h.section == Some(sec) && Headless(a) && (a != [] ==> !BlockLine(a[|a| - 1]))
    requires BlockLines(d) && Over(post)
    ensures var es := pre + c + [h] + a + d + post;
            DeleteStays(es, sec) && DeleteSection(es, sec) == pre + d + post
  {
    hide SectionIndex, NextSection, BlockStart, ScanUp, DeleteSection, DeleteStays;
    var front := pre + c + [h] + a;
    var es := front + d + post;
    assert front[|front| - 1] == if a == [] then h else a[|a| - 1];
    BlockPlace(front, d, post);
    DropRegrouped(pre, c, h, a, d, post);
    BlockPlace(pre, c, [h] + (a + d + post));
    CommentsUnnamed(pre, c, a, d, sec);
    SectionPlaces(pre + c, h, a + d, post, sec);
    DeleteSectionBy(es, sec, |pre| + |c|, |front| + |d|, |pre| - 1, |front| - 1);
  }

  lemma CommentsUnnamed(pre: seq<Entry>, c: seq<Entry>, a: seq<Entry>, d: seq<Entry>, sec: string)
    requires Unnamed(pre, sec) && BlockLines(c) && Headless(a) && BlockLines(d)
    ensures Unnamed(pre + c, sec) && Headless(a + d)
  {
  }

  lemma DropRegrouped(pre: seq<Entry>, c: seq<Entry>, h: Entry, a: seq<Entry>, d: seq<Entry>, post: seq<Entry>)
    ensures var front := pre + c + [h] + a; var es := front + d + post;
            && es == pre + c + ([h] + (a + d + post)) && es == pre + c + [h] + (a + d) + post
            && es[..|pre|] + es[|front|..] == pre + d + post
  {
    var front := pre + c + [h] + a;
    var es := front + d + post;
    assert es[..|pre|] == pre && es[|front|..] == d + post;
    Assoc(pre, d, post);
    Assoc(pre + c + [h], a, d);
    Assoc(pre + c + [h], a + d, post);
    Assoc(pre + c, [h], a + d + post);
  }

  lemma Assoc(a: seq<Entry>, b: seq<Entry>, c: seq<Entry>)
    ensures a + (b + c) == a + b + c
  {
  }

  lemma SectionPlaces(pre: seq<Entry>, h: Entry, a: seq<Entry>, post: seq<Entry>, sec: string)
    requires Unnamed(pre, sec) && h.section == Some(sec) && Headless(a) && Over(post)
    ensures var es := pre + [h] + a + post;
            SectionIndex(es, sec) == |pre| && NextSection(es, |pre| + 1) == |pre| + 1 + |a|
  {
    hide SectionIndex, NextSection;
    var es := pre + [h] + a + post;
    var s, n := |pre|, |pre| + 1 + |a|;
    assert forall i | 0 <= i < |es| ::
        es[i] == if i < s then pre[i] else if i == s then h else if i < n then a[i - s - 1] else post[i - n];
    FirstIsIndex(es, s, sec);
    EndIsNext(es, s + 1, n);
  }
}
