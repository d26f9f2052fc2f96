/** Lookup, update, insertion and deletion on the list of entries, and how they interact. */
module IniStore {
  import opened CText
  import opened IniText
  import opened IniOutput

  // ----- lookup -----

  function StripQuotes(s: string): (r: string)
    ensures |r| <= |s|
  {
    if s != [] && IsQuote(s[0]) then StripQuotes(s[1..]) else s
  }

  function UpToQuote(s: string): string {
    if s == [] || IsQuote(s[0]) then [] else [s[0]] + UpToQuote(s[1..])
  }

  /** `remove_quotes`: nothing is left of a string of quotes. */
  function RemoveQuotes(s: string): Option<string> {
    var t := StripQuotes(s);
    if t == [] then None else Some(UpToQuote(t))
  }

  /** A key that lookup and update agree on: not empty and without quotes. */
  predicate PlainKey(id: string) { id != [] && forall i | 0 <= i < |id| :: !IsQuote(id[i]) }

  lemma PlainKeyKept(id: string)
    requires PlainKey(id)
    ensures RemoveQuotes(id) == Some(id)
  {
    UpToEnd(id);
  }

  lemma {:induction false} UpToEnd(s: string)
    requires forall i | 0 <= i < |s| :: !IsQuote(s[i])
    ensures UpToQuote(s) == s
  {
    if s != [] {
      UpToEnd(s[1..]);
      assert [s[0]] + s[1..] == s;
    }
  }

  /** Lookup compares keys without their quotes. */
  predicate Defines(e: Entry, id: string) {
    e.section.None? && e.value.Some? && e.id.Some? && RemoveQuotes(e.id.value) == Some(id)
  }

  /** Where the search for a key stands: before the section, in it, past it, or done. */
  datatype Search = Before | Inside | Stopped | Found(value: string)

  function Advance(st: Search, e: Entry, sec: string, id: string): Search {
    match st
    case Before => if e.section == Some(sec) then Inside else Before
    case Inside =>
      if e.section.Some? then Stopped else if Defines(e, id) then Found(e.value.value) else Inside
    case _ => st
  }

  function SearchAll(st: Search, es: seq<Entry>, sec: string, id: string): Search
    decreases |es|
  {
    if es == [] then st else SearchAll(Advance(st, es[0], sec, id), es[1..], sec, id)
  }

  /** `cfg_find` and the value it leaves. */
  function Lookup(es: seq<Entry>, sec: string, id: string): Option<string> {
    Result(SearchAll(Before, es, sec, id))
  }

  function Result(st: Search): Option<string> {
    if st.Found? then Some(st.value) else None
  }

  lemma {:induction false} SearchConcat(st: Search, a: seq<Entry>, b: seq<Entry>, sec: string, id: string)
    ensures SearchAll(st, a + b, sec, id) == SearchAll(SearchAll(st, a, sec, id), b, sec, id)
    decreases |a|
  {
    hide Advance;
    if a == [] {
      assert a + b == b;
    } else {
      assert (a + b)[1..] == a[1..] + b;
      SearchConcat(Advance(st, a[0], sec, id), a[1..], b, sec, id);
    }
  }

  lemma SearchOne(st: Search, e: Entry, sec: string, id: string)
    ensures SearchAll(st, [e], sec, id) == Advance(st, e, sec, id)
  {
    assert [e][1..] == [];
  }

  // ----- positions -----

  predicate NotNamed(es: seq<Entry>, s: nat, sec: string)
    requires s <= |es|
  {
    forall i | 0 <= i < s :: es[i].section != Some(sec)
  }

  predicate SameBlock(es: seq<Entry>, from: nat, n: nat)
    requires n <= |es|
  {
    forall i | from <= i < n :: es[i].section.None?
  }

  predicate NotKeyed(es: seq<Entry>, from: nat, k: nat, id: string)
    requires k <= |es|
  {
    forall i | from <= i < k :: es[i].id != Some(id)
  }

  /** The first section of that name, or the length. */
  function SectionIndex(es: seq<Entry>, sec: string): (s: nat)
    ensures s <= |es|
    ensures s < |es| ==> es[s].section == Some(sec)
    ensures NotNamed(es, s, sec)
  {
    if es == [] || es[0].section == Some(sec) then 0 else 1 + SectionIndex(es[1..], sec)
  }

  /** The next section from `from` on, or the length. */
  function NextSection(es: seq<Entry>, from: nat): (n: nat)
    requires from <= |es|
    ensures from <= n <= |es|
    ensures n < |es| ==> es[n].section.Some?
    ensures SameBlock(es, from, n)
    decreases |es| - from
  {
    if from == |es| || es[from].section.Some? then from else NextSection(es, from + 1)
  }

  /** The first entry between `from` and `n` with exactly that key, or `n`. */
  function KeyIndex(es: seq<Entry>, from: nat, n: nat, id: string): (k: nat)
    requires from <= n <= |es|
    ensures from <= k <= n
    ensures k < n ==> es[k].id == Some(id)
    ensures NotKeyed(es, from, k, id)
    decreases n - from
  {
    if from == n || es[from].id == Some(id) then from else KeyIndex(es, from + 1, n, id)
  }

  // ----- update and insertion -----

  function NewKey(id: string, value: string): Entry { Entry(None, Some(id), Some(value), None) }
  function NewSection(sec: string): Entry { Entry(Some(sec), None, None, None) }

  /** `cfg_write` with a value. */
  function Write(es: seq<Entry>, sec: string, id: string, value: string): seq<Entry> {
    var s := SectionIndex(es, sec);
    if s == |es| then es + [NewSection(sec), NewKey(id, value)]
    else
      var n := NextSection(es, s + 1);
      var k := KeyIndex(es, s + 1, n, id);
      if k < n then es[k := es[k].(value := Some(value))]
      else es[..n] + [NewKey(id, value)] + es[n..]
  }

  /** An entry that lookup takes for the key although it is written with quotes. */
  predicate Alias(e: Entry, id: string) { Defines(e, id) && e.id != Some(id) }

  /** The value that an alias in front of the key makes lookup return, if there is one. */
  function Shadow(es: seq<Entry>, from: nat, end: nat, id: string): Option<string>
    requires from <= end <= |es|
    decreases end - from
  {
    if from == end then None
    else if Alias(es[from], id) then es[from].value
    else Shadow(es, from + 1, end, id)
  }

  /** Up to its first section of that name the search stays outside. */
  lemma {:induction false} StaysBefore(es: seq<Entry>, k: nat, sec: string, id: string)
    requires k <= |es| && NotNamed(es, k, sec)
    ensures SearchAll(Before, es[..k], sec, id) == Before
    decreases k
  {
    if k > 0 {
      StaysBefore(es, k - 1, sec, id);
      assert es[..k] == es[..k - 1] + [es[k - 1]];
      hide SearchAll;
      SearchConcat(Before, es[..k - 1], [es[k - 1]], sec, id);
      SearchOne(Before, es[k - 1], sec, id);
    }
  }

  /** Inside the section, entries that do not define the key are passed; an alias ends the search. */
  lemma {:induction false} ShadowSearch(es: seq<Entry>, from: nat, end: nat, sec: string, id: string)
    requires from <= end <= |es| && SameBlock(es, from, end) && NotKeyed(es, from, end, id)
    ensures SearchAll(Inside, es[from..end], sec, id) ==
            var v := Shadow(es, from, end, id); if v.Some? then Found(v.value) else Inside
    decreases end - from
  {
    hide RemoveQuotes;
    if from < end {
      assert es[from..end][1..] == es[from + 1..end];
      if Alias(es[from], id) {
        FoundStays(es[from].value.value, es[from + 1..end], sec, id);
      } else {
        ShadowSearch(es, from + 1, end, sec, id);
      }
    }
  }

  lemma {:induction false} FoundStays(v: string, es: seq<Entry>, sec: string, id: string)
    ensures SearchAll(Found(v), es, sec, id) == Found(v)
    ensures SearchAll(Stopped, es, sec, id) == Stopped
    decreases |es|
  {
    if es != [] { FoundStays(v, es[1..], sec, id); }
  }

  /** How the search for the section's own key reaches position `k` of its block. */
  lemma ReachKey(es: seq<Entry>, s: nat, k: nat, sec: string, id: string)
    requires s < k <= |es| && es[s].section == Some(sec) && NotNamed(es, s, sec)
    requires SameBlock(es, s + 1, k) && NotKeyed(es, s + 1, k, id)
    ensures SearchAll(Before, es[..k], sec, id) ==
            var v := Shadow(es, s + 1, k, id); if v.Some? then Found(v.value) else Inside
  {
    hide SearchAll, Shadow, NotNamed, SameBlock, NotKeyed;
    StaysBefore(es, s, sec, id);
    SplitMiddle(es, s, k);
    SearchSplit(es[..s], es[s], es[s + 1..k], sec, id);
    ShadowSearch(es, s + 1, k, sec, id);
  }

  /** A search for another section is not inside anything behind this section's header. */
  lemma {:induction false} OutsideOther(es: seq<Entry>, s: nat, k: nat, sec: string, other: string, id: string)
    requires s < k <= |es| && es[s].section == Some(sec) && sec != other && SameBlock(es, s + 1, k)
    ensures !SearchAll(Before, es[..k], other, id).Inside?
    decreases k
  {
    assert es[..k] == es[..k - 1] + [es[k - 1]];
    SearchConcat(Before, es[..k - 1], [es[k - 1]], other, id);
    SearchOne(SearchAll(Before, es[..k - 1], other, id), es[k - 1], other, id);
    hide SearchAll;
    if k - 1 > s { OutsideOther(es, s, k - 1, sec, other, id); }
  }

  /** The entry that holds the written key: its position, and the entry itself. */
  ghost predicate HoldsKey(e: Entry, id: string, value: string) {
    e.section.None? && e.id == Some(id) && e.value == Some(value)
  }

  lemma KeyFound(st: Search, e: Entry, sec: string, id: string, value: string)
    requires PlainKey(id) && HoldsKey(e, id, value)
    ensures st.Inside? ==> Advance(st, e, sec, id) == Found(value)
    ensures st.Found? ==> Advance(st, e, sec, id) == st
  {
    PlainKeyKept(id);
  }

  /** Splits a search at one entry. */
  lemma SearchSplit(a: seq<Entry>, x: Entry, b: seq<Entry>, sec: string, id: string)
    ensures SearchAll(Before, a + [x] + b, sec, id) ==
            SearchAll(Advance(SearchAll(Before, a, sec, id), x, sec, id), b, sec, id)
  {
    hide SearchAll, Advance;
    SearchConcat(Before, a + [x], b, sec, id);
    SearchConcat(Before, a, [x], sec, id);
    SearchOne(SearchAll(Before, a, sec, id), x, sec, id);
  }

  /**
    The shape of a write into an existing section: one entry at position `k`, in place of the
    entry with that key or in front of everything from `k` on.
  */
  ghost predicate Written(es: seq<Entry>, es': seq<Entry>, k: nat, id: string, value: string) {
    k <= |es| &&
    if k < |es| && es[k].section.None? && es[k].id == Some(id) then
      es' == es[..k] + [es[k].(value := Some(value))] + es[k + 1..]
    else
      es' == es[..k] + [NewKey(id, value)] + es[k..]
  }

  /** Where a write into an existing section puts the key. */
  function KeyPlace(es: seq<Entry>, sec: string, id: string): (k: nat)
    requires SectionIndex(es, sec) < |es|
    ensures SectionIndex(es, sec) < k <= |es|
    ensures SameBlock(es, SectionIndex(es, sec) + 1, k) && NotKeyed(es, SectionIndex(es, sec) + 1, k, id)
  {
    var s := SectionIndex(es, sec);
    KeyIndex(es, s + 1, NextSection(es, s + 1), id)
  }

  lemma WriteShape(es: seq<Entry>, sec: string, id: string, value: string)
    requires SectionIndex(es, sec) < |es|
    ensures Written(es, Write(es, sec, id, value), KeyPlace(es, sec, id), id, value)
  {
    hide SectionIndex, NextSection, KeyIndex;
    var s := SectionIndex(es, sec);
    var n := NextSection(es, s + 1);
    var k := KeyIndex(es, s + 1, n, id);
    if k < n { UpdateSplit(es, k, es[k].(value := Some(value))); }
  }

  lemma ReadWritten(es: seq<Entry>, es': seq<Entry>, s: nat, k: nat, sec: string, id: string, value: string)
    requires PlainKey(id) && Written(es, es', k, id, value)
    requires s < k && es[s].section == Some(sec) && NotNamed(es, s, sec)
    requires SameBlock(es, s + 1, k) && NotKeyed(es, s + 1, k, id)
    ensures Result(SearchAll(Before, es', sec, id)) ==
            var v := Shadow(es, s + 1, k, id); if v.Some? then v else Some(value)
  {
    hide SearchAll, Shadow, PlainKey, NotNamed, SameBlock, NotKeyed;
    ReachKey(es, s, k, sec, id);
    var st := SearchAll(Before, es[..k], sec, id);
    var updated := k < |es| && es[k].section.None? && es[k].id == Some(id);
    var x := if updated then es[k].(value := Some(value)) else NewKey(id, value);
    var rest := if updated then es[k + 1..] else es[k..];
    SearchSplit(es[..k], x, rest, sec, id);
    KeyFound(st, x, sec, id, value);
    FoundStays(if st.Found? then st.value else value, rest, sec, id);
  }

  /** The value that shadows a written key. */
  function Shadowing(es: seq<Entry>, sec: string, id: string): Option<string> {
    var s := SectionIndex(es, sec);
    if s == |es| then None else Shadow(es, s + 1, KeyPlace(es, sec, id), id)
  }

  /**
    Reading what was written: the value comes back, unless an entry whose quoted key means the
    same stands in front of it; then that entry's value comes back instead.
  */
  lemma ReadYourWrite(es: seq<Entry>, sec: string, id: string, value: string)
    requires PlainKey(id)
    ensures Lookup(Write(es, sec, id, value), sec, id) ==
            var v := Shadowing(es, sec, id); if v.Some? then v else Some(value)
  {
    hide SearchAll, PlainKey;
    var s := SectionIndex(es, sec);
    if s == |es| {
      StaysBefore(es, |es|, sec, id);
      assert es[..|es|] == es;
      assert es + [NewSection(sec), NewKey(id, value)] == es + [NewSection(sec)] + [NewKey(id, value)];
      SearchSplit(es, NewSection(sec), [NewKey(id, value)], sec, id);
      SearchOne(Inside, NewKey(id, value), sec, id);
      KeyFound(Inside, NewKey(id, value), sec, id, value);
    } else {
      WriteShape(es, sec, id, value);
      hide Write, Written, SectionIndex, KeyPlace;
      ReadWritten(es, Write(es, sec, id, value), s, KeyPlace(es, sec, id), sec, id, value);
    }
  }

  /** A key spelled with quotes in front of the written one is what lookup finds. */
  lemma QuotedKeyHides()
    ensures var es := [NewSection("s"), NewKey("'k'", "old")];
            Lookup(Write(es, "s", "k", "new"), "s", "k") == Some("old")
  {
    var es := [NewSection("s"), NewKey("'k'", "old")];
    var q := "'k'";
    assert StripQuotes(q) == "k'" by { assert q[1..] == "k'"; }
    assert UpToQuote("k'") == "k" by { assert "k'"[1..] == "'" && ['k'] + [] == "k"; }
    ReadYourWrite(es, "s", "k", "new");
    assert SectionIndex(es, "s") == 0 && KeyPlace(es, "s", "k") == 2;
    assert Shadow(es, 1, 2, "k") == Some("old");
  }

  /** An entry with the written key does not matter to any other search. */
  lemma KeyNeutral(st: Search, e: Entry, id: string, other: string, key: string)
    requires PlainKey(id) && e.section.None? && e.id == Some(id)
    requires key != id || !st.Inside?
    ensures Advance(st, e, other, key) == st
  {
    PlainKeyKept(id);
  }

  lemma FrameWritten(es: seq<Entry>, es': seq<Entry>, k: nat, id: string, value: string, other: string, key: string)
    requires PlainKey(id) && Written(es, es', k, id, value)
    requires key != id || !SearchAll(Before, es[..k], other, key).Inside?
    ensures SearchAll(Before, es', other, key) == SearchAll(Before, es, other, key)
  {
    hide SearchAll, Advance, PlainKey;
    var st := SearchAll(Before, es[..k], other, key);
    if k < |es| && es[k].section.None? && es[k].id == Some(id) {
      var x := es[k].(value := Some(value));
      SearchSplit(es[..k], x, es[k + 1..], other, key);
      KeyNeutral(st, x, id, other, key);
      Split3(es, k);
      SearchSplit(es[..k], es[k], es[k + 1..], other, key);
      KeyNeutral(st, es[k], id, other, key);
    } else {
      SearchSplit(es[..k], NewKey(id, value), es[k..], other, key);
      KeyNeutral(st, NewKey(id, value), id, other, key);
      Split2(es, k);
      SearchConcat(Before, es[..k], es[k..], other, key);
    }
  }

  /** Every other lookup is as before the write. */
  lemma WriteFrame(es: seq<Entry>, sec: string, id: string, value: string, other: string, key: string)
    requires PlainKey(id) && (other != sec || key != id)
    ensures Lookup(Write(es, sec, id, value), other, key) == Lookup(es, other, key)
  {
    hide SearchAll, Advance, PlainKey;
    var s := SectionIndex(es, sec);
    if s == |es| {
      var a, b := NewSection(sec), NewKey(id, value);
      assert es + [a, b] == es + [a] + [b];
      SearchSplit(es, a, [b], other, key);
      var st := SearchAll(Before, es, other, key);
      SearchOne(Advance(st, a, other, key), b, other, key);
      NewSectionNeutral(st, sec, id, value, other, key);
    } else {
      WriteShape(es, sec, id, value);
      var k := KeyPlace(es, sec, id);
      if other != sec { OutsideOther(es, s, k, sec, other, key); }
      hide Write, Written, SectionIndex, KeyPlace;
      FrameWritten(es, Write(es, sec, id, value), k, id, value, other, key);
    }
  }

  /** A section appended with its first key. */
  lemma NewSectionNeutral(st: Search, sec: string, id: string, value: string, other: string, key: string)
    requires PlainKey(id) && (other != sec || key != id)
    ensures var st' := Advance(Advance(st, NewSection(sec), other, key), NewKey(id, value), other, key);
            Result(st') == Result(st)
  {
    PlainKeyKept(id);
  }

  // ----- deletion -----

  /** A comment that belongs to the entry below it. */
  predicate IsBlockComment(e: Entry) {
    e.comment.Some? && e.section.None? && e.id.None? && e.value.None? && IsBlock(e.comment.value)
  }

  predicate BlockComments(es: seq<Entry>, b: nat, k: nat)
    requires k <= |es|
  {
    forall i | b <= i < k :: IsBlockComment(es[i])
  }

  /** The start of the run of block comments directly above `k`. */
  function BlockStart(es: seq<Entry>, k: nat): (b: nat)
    requires k <= |es|
    ensures b <= k
    ensures BlockComments(es, b, k)
    ensures b > 0 ==> !IsBlockComment(es[b - 1])
  {
    if k > 0 && IsBlockComment(es[k - 1]) then BlockStart(es, k - 1) else k
  }

  /** The list without the entries from `b` up to `e`. */
  function Without(es: seq<Entry>, b: nat, e: nat): seq<Entry>
    requires b <= e <= |es|
  {
    es[..b] + es[e..]
  }

  /** `cfg_write` without a value: the key goes, with the block comments above it. */
  function DeleteKey(es: seq<Entry>, sec: string, id: string): seq<Entry> {
    var s := SectionIndex(es, sec);
    if s == |es| then es
    else
      var n := NextSection(es, s + 1);
      var k := KeyIndex(es, s + 1, n, id);
      if k == n then es else Without(es, BlockStart(es, k), k + 1)
  }

  /**
    The upward scan over block comments, from position `e` down: where it stops, or -1 if it
    passes the first entry, where the C code goes on reading in front of the array.
  */
  function ScanUp(es: seq<Entry>, e: int): (r: int)
    requires -1 <= e < |es|
    ensures -1 <= r <= e
    decreases e + 1
  {
    if e >= 0 && IsBlockComment(es[e]) then ScanUp(es, e - 1) else e
  }

  /** The scan stays in the array exactly if some entry above is no block comment. */
  lemma {:induction false} ScanUpExact(es: seq<Entry>, k: nat)
    requires k <= |es|
    ensures ScanUp(es, k - 1) == BlockStart(es, k) - 1
    ensures ScanUp(es, k - 1) >= 0 <==> !BlockComments(es, 0, k)
    decreases k
  {
    hide IsBlockComment;
    if k > 0 && IsBlockComment(es[k - 1]) { ScanUpExact(es, k - 1); }
  }

  /** `cfg_write` without key and value stays in the array: both of its upward scans do. */
  predicate DeleteStays(es: seq<Entry>, sec: string) {
    var s := SectionIndex(es, sec);
    s < |es| ==> ScanUp(es, NextSection(es, s + 1) - 1) >= 0 && ScanUp(es, s - 1) >= 0
  }

  /** Deleting a section needs an entry above it that is no block comment. */
  lemma DeleteStaysExactly(es: seq<Entry>, sec: string)
    ensures var s := SectionIndex(es, sec);
            DeleteStays(es, sec) <==> (s < |es| ==> !BlockComments(es, 0, s))
  {
    hide ScanUp, BlockStart, SectionIndex, NextSection, NotNamed, SameBlock;
    var s := SectionIndex(es, sec);
    if s < |es| {
      ScanUpExact(es, s);
      ScanUpExact(es, NextSection(es, s + 1));
      assert !IsBlockComment(es[s]);
    }
  }

  /** The first section of a file that starts with it can never be deleted. */
  lemma FirstSectionStrays(es: seq<Entry>, sec: string)
    requires es != [] && es[0].section == Some(sec)
    ensures !DeleteStays(es, sec)
  {
    hide ScanUp, NextSection, DeleteStays;
    DeleteStaysExactly(es, sec);
  }

  /** A comment line above does not help, a key does. */
  lemma CommentedSectionStrays()
    ensures !DeleteStays([Entry(None, None, None, Some(" about s")), NewSection("s")], "s")
    ensures DeleteStays([NewKey("k", "1"), NewSection("s")], "s")
  {
    var es := [Entry(None, None, None, Some(" about s")), NewSection("s")];
    var fs := [NewKey("k", "1"), NewSection("s")];
    assert SectionIndex(es, "s") == 1 && SectionIndex(fs, "s") == 1;
    assert !IsBlockComment(fs[0]);
    hide SectionIndex, NextSection, DeleteStays;
    DeleteStaysExactly(es, "s");
    DeleteStaysExactly(fs, "s");
  }

  /** The section goes with its own block comments; those of the next section stay. */
  function DeleteSection(es: seq<Entry>, sec: string): seq<Entry> {
    var s := SectionIndex(es, sec);
    if s == |es| then es
    else es[..BlockStart(es, s)] + es[BlockStart(es, NextSection(es, s + 1))..]
  }

  /** A deletion that changes the list makes it shorter. */
  lemma DeleteShortens(es: seq<Entry>, sec: string, id: string)
    ensures |DeleteKey(es, sec, id)| == |es| <==> DeleteKey(es, sec, id) == es
    ensures |DeleteSection(es, sec)| == |es| <==> DeleteSection(es, sec) == es
  {
    hide SectionIndex, NextSection, KeyIndex, BlockStart, NotNamed, SameBlock, NotKeyed, BlockComments;
    var s := SectionIndex(es, sec);
    if s < |es| {
      var n := NextSection(es, s + 1);
      ScanUpStops(es, s, n);
    }
  }

  /** A section header is no comment, so an upward scan from below stops at it at the latest. */
  lemma {:induction false} ScanUpStops(es: seq<Entry>, s: nat, k: nat)
    requires s < k <= |es| && es[s].section.Some?
    ensures ScanUp(es, k - 1) >= s && BlockStart(es, k) > s
    decreases k
  {
    if k - 1 > s { ScanUpStops(es, s, k - 1); }
  }

  lemma {:induction false} CommentsNeutral(st: Search, es: seq<Entry>, sec: string, id: string)
    requires forall i | 0 <= i < |es| :: IsBlockComment(es[i])
    ensures SearchAll(st, es, sec, id) == st
    decreases |es|
  {
    if es != [] {
      assert Advance(st, es[0], sec, id) == st;
      CommentsNeutral(st, es[1..], sec, id);
    }
  }

  /** Where a key is deleted: `k` the key in the block of the section at `s`, `b` the comments above it. */
  ghost predicate Deleted(es: seq<Entry>, es': seq<Entry>, s: nat, b: nat, k: nat, sec: string, id: string) {
    && s < k < |es| && b <= k && es[s].section == Some(sec) && es' == Without(es, b, k + 1)
    && NotNamed(es, s, sec) && SameBlock(es, s + 1, k) && es[k].section.None? && es[k].id == Some(id)
    && BlockComments(es, b, k)
  }

  lemma DeleteShape(es: seq<Entry>, sec: string, id: string)
    ensures var s := SectionIndex(es, sec);
            if s < |es| && KeyPlace(es, sec, id) < NextSection(es, s + 1) then
              var k := KeyPlace(es, sec, id); Deleted(es, DeleteKey(es, sec, id), s, BlockStart(es, k), k, sec, id)
            else DeleteKey(es, sec, id) == es
  {
    hide SectionIndex, NextSection, KeyIndex, BlockStart, IsBlockComment;
    hide NotNamed, SameBlock, NotKeyed, BlockComments, Without;
    var s := SectionIndex(es, sec);
    if s < |es| {
      var n, k := NextSection(es, s + 1), KeyPlace(es, sec, id);
      assert k == KeyIndex(es, s + 1, n, id);
      hide KeyPlace;
      if k < n {
        assert DeleteKey(es, sec, id) == Without(es, BlockStart(es, k), k + 1);
        hide DeleteKey;
        InBlock(es, s + 1, n, k);
      }
    }
  }

  lemma InBlock(es: seq<Entry>, from: nat, n: nat, i: nat)
    requires from <= i < n <= |es| && SameBlock(es, from, n)
    ensures es[i].section.None?
  {
  }

  /** Deleting a key leaves every other lookup as it was. */
  lemma DeleteKeyFrame(es: seq<Entry>, sec: string, id: string, other: string, key: string)
    requires PlainKey(id) && (other != sec || key != id)
    ensures Lookup(DeleteKey(es, sec, id), other, key) == Lookup(es, other, key)
  {
    hide DeleteKey, SectionIndex, NextSection, KeyPlace, BlockStart, SearchAll, PlainKey, Deleted;
    DeleteShape(es, sec, id);
    var s := SectionIndex(es, sec);
    if s < |es| && KeyPlace(es, sec, id) < NextSection(es, s + 1) {
      var k := KeyPlace(es, sec, id);
      FrameDeleted(es, DeleteKey(es, sec, id), s, BlockStart(es, k), k, sec, id, other, key);
    }
  }

  lemma FrameDeleted(es: seq<Entry>, es': seq<Entry>, s: nat, b: nat, k: nat, sec: string, id: string,
                     other: string, key: string)
    requires PlainKey(id) && (other != sec || key != id) && Deleted(es, es', s, b, k, sec, id)
    ensures SearchAll(Before, es', other, key) == SearchAll(Before, es, other, key)
  {
    hide SearchAll, PlainKey, IsBlockComment;
    if other != sec { OutsideOther(es, s, k, sec, other, key); }
    FrameCutOut(es, b, k, id, other, key);
  }

  lemma FrameCutOut(es: seq<Entry>, b: nat, k: nat, id: string, other: string, key: string)
    requires PlainKey(id) && b <= k < |es| && es[k].section.None? && es[k].id == Some(id)
    requires BlockComments(es, b, k)
    requires key != id || !SearchAll(Before, es[..k], other, key).Inside?
    ensures SearchAll(Before, es[..b] + es[k + 1..], other, key) == SearchAll(Before, es, other, key)
  {
    hide SearchAll, Advance, PlainKey, IsBlockComment;
    SearchRun(es, b, k, other, key);
    Split3(es, k);
    SearchSplit(es[..k], es[k], es[k + 1..], other, key);
    KeyNeutral(SearchAll(Before, es[..k], other, key), es[k], id, other, key);
    SearchConcat(Before, es[..b], es[k + 1..], other, key);
  }

  /** The comments between `b` and `k` make no difference. */
  lemma SearchRun(es: seq<Entry>, b: nat, k: nat, sec: string, id: string)
    requires b <= k <= |es| && BlockComments(es, b, k)
    ensures SearchAll(Before, es[..k], sec, id) == SearchAll(Before, es[..b], sec, id)
  {
    hide SearchAll, IsBlockComment;
    SplitTail(es, b, k);
    SearchConcat(Before, es[..b], es[b..k], sec, id);
    CommentsNeutral(SearchAll(Before, es[..b], sec, id), es[b..k], sec, id);
  }

  /** The section defines the key at most once, by the entry that a write would change. */
  predicate DefinedOnce(es: seq<Entry>, sec: string, id: string) {
    var s := SectionIndex(es, sec);
    s < |es| ==> forall i | s < i < NextSection(es, s + 1) :: Defines(es[i], id) ==> i == KeyPlace(es, sec, id)
  }

  /** A deleted key is gone exactly when its section does not define it a second time. */
  lemma DeletedKeyGone(es: seq<Entry>, sec: string, id: string)
    ensures Lookup(DeleteKey(es, sec, id), sec, id) == None <==> DefinedOnce(es, sec, id)
  {
    hide DeleteKey, SectionIndex, NextSection, KeyPlace, BlockStart, SearchAll, Defines, IsBlockComment;
    DeleteShape(es, sec, id);
    var s := SectionIndex(es, sec);
    if s == |es| {
      StaysBefore(es, |es|, sec, id);
      assert es[..|es|] == es;
    } else {
      var n, k := NextSection(es, s + 1), KeyPlace(es, sec, id);
      KeyPlaceBound(es, sec, id);
      NoComments(es, n);
      var b := if k == n then n else BlockStart(es, k);
      if k == n { Split2(es, n); }
      if DefinedOnce(es, sec, id) {
        GoneAt(es, s, b, k, n, sec, id);
      } else {
        var i :| s < i < n && Defines(es[i], id) && i != k;
        LeftAt(es, s, b, k, n, i, sec, id);
      }
    }
  }

  /** A key defined twice is still there after its deletion. */
  lemma SecondKeyStays()
    ensures var es := [NewSection("s"), NewKey("k", "1"), NewKey("k", "2")];
            Lookup(DeleteKey(es, "s", "k"), "s", "k") != None
  {
    var es := [NewSection("s"), NewKey("k", "1"), NewKey("k", "2")];
    DeletedKeyGone(es, "s", "k");
    PlainKeyKept("k");
    assert SectionIndex(es, "s") == 0 && NextSection(es, 1) == 3 && KeyPlace(es, "s", "k") == 1;
    assert Defines(es[2], "k");
  }

  lemma NoComments(es: seq<Entry>, n: nat)
    requires n <= |es|
    ensures BlockComments(es, n, n)
  {
  }

  /** Inside its section a search goes on or has found the key. */
  lemma {:induction false} BlockSearch(es: seq<Entry>, from: nat, n: nat, i: int, sec: string, id: string)
    requires from <= n <= |es| && SameBlock(es, from, n)
    ensures var st := SearchAll(Inside, es[from..n], sec, id);
            (st.Inside? || st.Found?) && (from <= i < n && Defines(es[i], id) ==> st.Found?)
    decreases n - from
  {
    hide RemoveQuotes;
    if from < n {
      assert es[from..n][1..] == es[from + 1..n];
      if Defines(es[from], id) {
        FoundStays(es[from].value.value, es[from + 1..n], sec, id);
      } else {
        BlockSearch(es, from + 1, n, i, sec, id);
      }
    }
  }

  /** A second definition is found behind a deletion. */
  lemma LeftAt(es: seq<Entry>, s: nat, b: nat, k: nat, n: nat, i: nat, sec: string, id: string)
    requires s < k <= n <= |es| && b <= k && es[s].section == Some(sec) && NotNamed(es, s, sec)
    requires SameBlock(es, s + 1, n) && s < i < n && i != k && Defines(es[i], id)
    requires BlockComments(es, b, k)
    ensures Result(SearchAll(Before, es[..b] + es[if k < n then k + 1 else k..], sec, id)).Some?
  {
    hide SearchAll, Defines, IsBlockComment;
    var k' := if k < n then k + 1 else k;
    StaysBefore(es, s, sec, id);
    SplitMiddle(es, s, k);
    SearchSplit(es[..s], es[s], es[s + 1..k], sec, id);
    SearchRun(es, b, k, sec, id);
    BlockSearch(es, s + 1, k, i, sec, id);
    BlockSearch(es, k', n, i, sec, id);
    SearchConcat(Before, es[..b], es[k'..], sec, id);
    var st := SearchAll(Before, es[..b], sec, id);
    SplitTail(es, k', n);
    SearchConcat(Inside, es[k'..n], es[n..], sec, id);
    FoundEnd(st, es[k'..], sec, id);
    FoundEnd(SearchAll(Inside, es[k'..n], sec, id), es[n..], sec, id);
  }

  lemma FoundEnd(st: Search, es: seq<Entry>, sec: string, id: string)
    ensures st.Found? ==> Result(SearchAll(st, es, sec, id)).Some?
  {
    hide SearchAll;
    if st.Found? { FoundStays(st.value, es, sec, id); }
  }

  lemma KeyPlaceBound(es: seq<Entry>, sec: string, id: string)
    requires SectionIndex(es, sec) < |es|
    ensures KeyPlace(es, sec, id) <= NextSection(es, SectionIndex(es, sec) + 1)
  {
  }

  lemma GoneAt(es: seq<Entry>, s: nat, b: nat, k: nat, n: nat, sec: string, id: string)
    requires s < k <= n <= |es| && b <= k && es[s].section == Some(sec) && NotNamed(es, s, sec)
    requires forall i | s < i < n && i != k :: es[i].section.None? && !Defines(es[i], id)
    requires n < |es| ==> es[n].section.Some?
    requires BlockComments(es, b, k)
    ensures Result(SearchAll(Before, es[..b] + es[if k < n then k + 1 else k..], sec, id)) == None
  {
    hide SearchAll, Defines, IsBlockComment;
    var k' := if k < n then k + 1 else k;
    InsideUntil(es, s, k, sec, id);
    SearchRun(es, b, k, sec, id);
    InsideMore(es, k', n, sec, id);
    SplitTail(es, k', n);
    SearchConcat(Inside, es[k'..n], es[n..], sec, id);
    SearchConcat(Before, es[..b], es[k'..], sec, id);
    NotFoundBehind(es[n..], sec, id);
  }

  lemma {:induction false} InsideMore(es: seq<Entry>, from: nat, n: nat, sec: string, id: string)
    requires from <= n <= |es| && forall i | from <= i < n :: es[i].section.None? && !Defines(es[i], id)
    ensures SearchAll(Inside, es[from..n], sec, id) == Inside
    decreases n - from
  {
    if from < n {
      assert es[from..n][1..] == es[from + 1..n];
      InsideMore(es, from + 1, n, sec, id);
    }
  }

  lemma InsideUntil(es: seq<Entry>, s: nat, k: nat, sec: string, id: string)
    requires s < k <= |es| && es[s].section == Some(sec) && NotNamed(es, s, sec)
    requires forall i | s < i < k :: es[i].section.None? && !Defines(es[i], id)
    ensures SearchAll(Before, es[..k], sec, id) == Inside
  {
    hide SearchAll, Defines;
    StaysBefore(es, s, sec, id);
    SplitMiddle(es, s, k);
    SearchSplit(es[..s], es[s], es[s + 1..k], sec, id);
    InsideMore(es, s + 1, k, sec, id);
  }

  lemma NotFoundBehind(es: seq<Entry>, sec: string, id: string)
    requires es != [] ==> es[0].section.Some?
    ensures !SearchAll(Inside, es, sec, id).Found?
  {
    if es != [] { FoundStays("", es[1..], sec, id); }
  }

  /** Outside its section a search passes everything but section headers. */
  lemma {:induction false} OutsideNeutral(st: Search, es: seq<Entry>, sec: string, id: string)
    requires !st.Inside? && forall i | 0 <= i < |es| :: es[i].section.None?
    ensures SearchAll(st, es, sec, id) == st
    decreases |es|
  {
    if es != [] { OutsideNeutral(st, es[1..], sec, id); }
  }

  /** A search for another section crosses a whole section: it is stopped or not affected. */
  lemma CrossSection(es: seq<Entry>, s: nat, n: nat, sec: string, other: string, id: string)
    requires s < n <= |es| && es[s].section == Some(sec) && sec != other && SameBlock(es, s + 1, n)
    ensures var st := SearchAll(Before, es[..s], other, id);
            SearchAll(Before, es[..n], other, id) == if st.Inside? then Stopped else st
  {
    hide SearchAll;
    var st := SearchAll(Before, es[..s], other, id);
    SplitMiddle(es, s, n);
    SearchSplit(es[..s], es[s], es[s + 1..n], other, id);
    OutsideNeutral(if st.Inside? then Stopped else st, es[s + 1..n], other, id);
  }

  /** What a search sees of the list after a deletion. */
  lemma DeletedSearch(es: seq<Entry>, a: nat, s: nat, b: nat, n: nat, other: string, key: string)
    requires a <= s <= |es| && b <= n <= |es|
    requires BlockComments(es, a, s) && BlockComments(es, b, n)
    ensures SearchAll(Before, es[..a] + es[b..], other, key) ==
            SearchAll(SearchAll(Before, es[..s], other, key), es[n..], other, key)
  {
    hide SearchAll, IsBlockComment;
    SearchRun(es, a, s, other, key);
    SearchConcat(Before, es[..a], es[b..], other, key);
    SplitTail(es, b, n);
    SearchConcat(SearchAll(Before, es[..a], other, key), es[b..n], es[n..], other, key);
    CommentsNeutral(SearchAll(Before, es[..a], other, key), es[b..n], other, key);
  }

  lemma FrameCrossed(es: seq<Entry>, s: nat, n: nat, sec: string, other: string, key: string)
    requires s < n <= |es| && es[s].section == Some(sec) && sec != other && SameBlock(es, s + 1, n)
    requires n < |es| ==> es[n].section.Some?
    ensures Result(SearchAll(SearchAll(Before, es[..s], other, key), es[n..], other, key)) ==
            Result(SearchAll(Before, es, other, key))
  {
    hide SearchAll;
    CrossSection(es, s, n, sec, other, key);
    Split2(es, n);
    SearchConcat(Before, es[..n], es[n..], other, key);
    FoundStays("", es[n..], other, key);
    NotFoundBehind(es[n..], other, key);
  }

  /** Deleting a section leaves every other section's lookups as they were. */
  lemma DeleteSectionFrame(es: seq<Entry>, sec: string, other: string, key: string)
    requires other != sec
    ensures Lookup(DeleteSection(es, sec), other, key) == Lookup(es, other, key)
  {
    var s := SectionIndex(es, sec);
    if s < |es| {
      var n := NextSection(es, s + 1);
      hide SearchAll, IsBlockComment, SectionIndex, NextSection, BlockStart;
      DeletedSearch(es, BlockStart(es, s), s, BlockStart(es, n), n, other, key);
      FrameCrossed(es, s, n, sec, other, key);
    }
  }

  /** Behind a deletion, the name means a later section of that name, if there is one. */
  lemma DeletedSectionGone(es: seq<Entry>, sec: string, key: string)
    requires SectionIndex(es, sec) < |es|
    ensures var n := NextSection(es, SectionIndex(es, sec) + 1);
            Lookup(DeleteSection(es, sec), sec, key) == Lookup(es[n..], sec, key)
  {
    hide SearchAll, IsBlockComment, SectionIndex, NextSection, BlockStart;
    var s := SectionIndex(es, sec);
    var n := NextSection(es, s + 1);
    DeletedSearch(es, BlockStart(es, s), s, BlockStart(es, n), n, sec, key);
    hide DeleteSection;
    StaysBefore(es, s, sec, key);
  }
}
