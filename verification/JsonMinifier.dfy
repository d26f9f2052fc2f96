/** `cJSON_Minify` on its buffer: read and write positions in one array. */
module JsonMinifier {
  import opened CText
  import opened JsonText
  import opened JsonMinify
  import opened JsonLiteral

  /** The first `n` characters are the text, the terminator follows. */
  ghost predicate HoldsText(a: array<char>, n: nat)
    reads a
  {
    n < a.Length && a[n] == '\0' && NulFree(a[..n])
  }

  // One step of the minifier on the text behind the read position.

  lemma Blank(s: string, j: nat)
    requires j < |s| && IsBlank(s[j])
    ensures Minify(s[j..]) == Minify(s[j + 1..])
  {
    assert s[j..][1..] == s[j + 1..];
  }

  lemma Kept(s: string, j: nat)
    requires j < |s| && !IsBlank(s[j]) && s[j] != '\"'
    requires s[j] == '/' ==> Head(s[j + 1..]) != '/' && Head(s[j + 1..]) != '*'
    ensures Minify(s[j..]) == Prepend([s[j]], Minify(s[j + 1..]))
  {
    assert s[j..][1..] == s[j + 1..];
  }

  lemma LineComment(s: string, j: nat)
    requires j + 1 < |s| && s[j] == '/' && s[j + 1] == '/'
    ensures Minify(s[j..]) == Minify(LineEnd(s[j..]))
  {
    assert s[j..][1..] == s[j + 1..];
  }

  lemma BlockComment(s: string, j: nat)
    requires j + 1 < |s| && s[j] == '/' && s[j + 1] == '*'
    ensures Minify(s[j..]) == if BlockEnd(s[j..]).Some? then Minify(BlockEnd(s[j..]).value) else None
  {
    assert s[j..][1..] == s[j + 1..];
  }

  lemma Literal(s: string, j: nat)
    requires j < |s| && s[j] == '\"' && Minify(s[j..]).Some?
    ensures var n := ScanBody(s[j + 1..]);
            n.Some? && j + 1 + n.value < |s| &&
            Minify(s[j..]) == Prepend(s[j..j + n.value + 2], Minify(s[j + n.value + 2..]))
  {
    var t := s[j..];
    assert t[1..] == s[j + 1..];
    assert Minify(t) == MinifyLiteral(t);
    var n := ScanBody(s[j + 1..]).value;
    assert t[..n + 2] == s[j..j + n + 2];
    assert t[n + 2..] == s[j + n + 2..];
  }

  /** From `j` on the buffer still holds the text `s`, terminator included. */
  ghost predicate Unread(a: array<char>, s: string, j: nat)
    reads a
  {
    |s| < a.Length && a[|s|] == '\0' && forall k | j <= k < |s| :: a[k] == s[k]
  }

  /** `now` is `before` with `len` characters of `s` from `j` copied down to `i`; only [i, j + len) changed. */
  ghost predicate Copied(now: string, before: string, s: string, i: nat, j: nat, len: nat) {
    && |now| == |before| && i <= j && j + len <= |s| < |now|
    && (forall k | 0 <= k < i || j + len <= k < |now| :: now[k] == before[k])
    && (forall k | i <= k < i + len :: now[k] == s[k - i + j])
  }

  lemma CopyOne(now: string, before: string, s: string, i: nat, j: nat, len: nat)
    requires Copied(now, before, s, i, j, len) && j + len < |s| && before[j + len] == s[j + len]
    ensures Copied(now[i + len := now[j + len]], before, s, i, j, len + 1)
  {
  }

  method CopyChar(a: array<char>, ghost before: string, ghost s: string, ghost i: nat, ghost j: nat,
                  into: nat, json: nat)
    requires i <= into && into - i == json - j && Copied(a[..], before, s, i, j, into - i)
    requires json < |s| && before[json] == s[json]
    modifies a
    ensures Copied(a[..], before, s, i, j, into + 1 - i)
  {
    ghost var now := a[..];
    CopyOne(now, before, s, i, j, into - i);
    a[into] := a[json];
    assert a[..] == now[into := now[json]];
  }

  /** From `j` on `before` holds the text `s`. */
  ghost predicate Original(before: string, s: string, j: nat) {
    |s| < |before| && forall k | j <= k < |s| :: before[k] == s[k]
  }

  /** One round of the loop inside a literal: a character, or a backslash with the character behind it. */
  method CopyUnit(a: array<char>, ghost before: string, ghost s: string, ghost i: nat, ghost j: nat,
                  into: nat, json: nat, ghost n: nat) returns (into': nat, json': nat)
    requires i <= into && into - i == json - j && Copied(a[..], before, s, i, j, into - i)
    requires |s| < a.Length && Original(before, s, j)
    requires j + 1 <= json <= j + 1 + n < |s| && ScanFrom(s, j + 1, json) && ScanBody(s[j + 1..]) == Some(n)
    requires a[json] != '\"'
    modifies a
    ensures json < json' <= j + 1 + n && into' - i == json' - j
    ensures Copied(a[..], before, s, i, j, into' - i) && ScanFrom(s, j + 1, json')
  {
    hide ScanBody, ScanFrom, Copied;
    Behind(a, before, s, i, j, json);
    ScanAdvance(s, j + 1, json);
    Inside(s, j, json, n);
    into', json' := into, json;
    if a[json'] == '\\' {
      CopyChar(a, before, s, i, j, into', json');
      into', json' := into' + 1, json' + 1;
    }
    CopyChar(a, before, s, i, j, into', json');
    into', json' := into' + 1, json' + 1;
  }

  /** Copies a closed literal, quotes and escapes included, down to the write position. */
  method CopyLiteral(a: array<char>, into: nat, json: nat, ghost s: string) returns (into': nat, json': nat)
    requires into <= json < |s| && NulFree(s) && Unread(a, s, json) && s[json] == '\"'
    requires ScanBody(s[json + 1..]).Some? && json + 1 + ScanBody(s[json + 1..]).value < |s|
    modifies a
    ensures json' == json + ScanBody(s[json + 1..]).value + 2 && into' - into == json' - json
    ensures Copied(a[..], old(a[..]), s, into, json, json' - json)
  {
    hide ScanBody, ScanFrom, Copied;
    ghost var before := a[..];
    ghost var n := ScanBody(s[json + 1..]).value;
    CopyNone(before, s, into, json);
    ScanStart(s, json + 1);
    CopyChar(a, before, s, into, json, into, json);
    into', json' := into + 1, json + 1;
    while a[json'] != '\0' && a[json'] != '\"'
      invariant json + 1 <= json' <= json + 1 + n && into' - into == json' - json
      invariant Copied(a[..], before, s, into, json, json' - json)
      invariant ScanFrom(s, json + 1, json')
      decreases |s| - json'
    {
      into', json' := CopyUnit(a, before, s, into, json, into', json', n);
    }
    Behind(a, before, s, into, json, json');
    Closing(s, json, json', n);
    CopyChar(a, before, s, into, json, into', json');
    into', json' := into' + 1, json' + 1;
  }

  lemma CopyNone(before: string, s: string, i: nat, j: nat)
    requires i <= j <= |s| < |before|
    ensures Copied(before, before, s, i, j, 0)
  {
  }

  lemma ScanStart(s: string, j: nat)
    requires j <= |s|
    ensures ScanFrom(s, j, j)
  {
    hide ScanBody;
  }

  lemma Behind(a: array<char>, before: string, s: string, i: nat, j: nat, j': nat)
    requires j <= j' < |s| && Copied(a[..], before, s, i, j, j' - j) && before[j'] == s[j']
    ensures a[j'] == s[j']
  {
    assert a[..][j'] == before[j'];
  }

  /** Neither a character nor an escape reaches past the closing quote. */
  lemma Inside(s: string, j: nat, j': nat, n: nat)
    requires j + 1 <= j' <= j + 1 + n < |s| && ScanFrom(s, j + 1, j') && ScanBody(s[j + 1..]) == Some(n)
    requires s[j'] != '\"'
    ensures j' + 1 <= j + 1 + n && (s[j'] == '\\' ==> j' + 2 <= j + 1 + n)
  {
    assert s[j'..][0] == s[j'];
  }

  lemma Closing(s: string, j: nat, j': nat, n: nat)
    requires j + 1 <= j' < |s| && ScanFrom(s, j + 1, j') && ScanBody(s[j + 1..]) == Some(n)
    requires s[j'] == '\"'
    ensures j' == j + 1 + n
  {
  }

  method SkipLine(a: array<char>, json: nat, ghost s: string) returns (json': nat)
    requires json <= |s| && NulFree(s) && Unread(a, s, json)
    ensures json <= json' <= |s| && s[json'..] == LineEnd(s[json..])
  {
    json' := json;
    while a[json'] != '\0' && a[json'] != '\n'
      invariant json <= json' <= |s| && LineEnd(s[json'..]) == LineEnd(s[json..])
      decreases |s| - json'
    {
      assert s[json'..][1..] == s[json' + 1..];
      json' := json' + 1;
    }
  }

  lemma BlockStep(s: string, j: nat)
    requires j <= |s|
    ensures j == |s| ==> BlockEnd(s[j..]).None?
    ensures j + 1 < |s| && s[j] == '*' && s[j + 1] == '/' ==> BlockEnd(s[j..]) == Some(s[j + 2..])
    ensures j < |s| && !(j + 1 < |s| && s[j] == '*' && s[j + 1] == '/') ==>
              BlockEnd(s[j..]) == BlockEnd(s[j + 1..])
  {
    if j < |s| { assert s[j..][1..] == s[j + 1..]; }
    if j + 1 < |s| {
      assert s[j..][..2] == [s[j], s[j + 1]];
      assert s[j..][2..] == s[j + 2..];
    }
  }

  method SkipBlock(a: array<char>, json: nat, ghost s: string) returns (json': nat)
    requires json <= |s| && NulFree(s) && Unread(a, s, json) && BlockEnd(s[json..]).Some?
    ensures json <= json' <= |s| && BlockEnd(s[json..]) == Some(s[json'..])
  {
    hide BlockEnd;
    json' := json;
    while a[json'] != '\0' && !(a[json'] == '*' && a[json' + 1] == '/')
      invariant json <= json' <= |s| && BlockEnd(s[json'..]) == BlockEnd(s[json..])
      decreases |s| - json'
    {
      BlockStep(s, json');
      json' := json' + 1;
    }
    BlockStep(s, json');
    json' := json' + 2;
  }

  /** `now` holds what was kept so far before `into` and the unread text from `json` on. */
  ghost predicate Progress(now: string, before: string, s: string, into: nat, json: nat) {
    && into <= json <= |s| < |now| == |before|
    && (forall k | json <= k < |now| :: now[k] == before[k])
    && Minify(s) == Prepend(now[..into], Minify(s[json..]))
  }

  lemma Started(before: string, s: string)
    requires |s| < |before| && before[..|s|] == s
    ensures Progress(before, before, s, 0, 0)
  {
    hide Minify;
    PrependNothing(Minify(s));
    assert s[0..] == s;
  }

  lemma Skipped(now: string, before: string, s: string, into: nat, json: nat, json': nat)
    requires Progress(now, before, s, into, json) && json <= json' <= |s|
    requires Minify(s[json..]) == Minify(s[json'..])
    ensures Progress(now, before, s, into, json')
  {
    hide Minify;
  }

  lemma KeptOne(now: string, before: string, s: string, into: nat, json: nat)
    requires Progress(now, before, s, into, json) && json < |s| && before[json] == s[json]
    requires Minify(s[json..]) == Prepend([s[json]], Minify(s[json + 1..]))
    ensures Progress(now[into := now[json]], before, s, into + 1, json + 1)
  {
    hide Minify;
    PrependPrepend(now[..into], [s[json]], Minify(s[json + 1..]));
    assert now[into := now[json]][..into + 1] == now[..into] + [s[json]];
  }

  lemma KeptLiteral(now: string, before: string, s: string, into: nat, json: nat, now': string, json': nat)
    requires Progress(now, before, s, into, json) && json <= json' <= |s|
    requires Copied(now', now, s, into, json, json' - json)
    requires Minify(s[json..]) == Prepend(s[json..json'], Minify(s[json'..]))
    ensures Progress(now', before, s, into + json' - json, json')
  {
    hide Minify;
    PrependPrepend(now[..into], s[json..json'], Minify(s[json'..]));
    assert now'[..into + json' - json] == now[..into] + s[json..json'];
  }

  /** What the buffer shows at and behind the read position. */
  lemma Reading(a: array<char>, before: string, s: string, into: nat, json: nat)
    requires Progress(a[..], before, s, into, json) && before[..|s|] == s && before[|s|] == '\0'
    ensures Unread(a, s, json)
    ensures forall k | json <= k < a.Length :: a[k] == before[k]
    ensures forall k | 0 <= k < |s| :: before[k] == s[k]
    ensures Minify(s).Some? ==> Minify(s[json..]).Some?
  {
    hide Minify;
    assert forall k | 0 <= k < a.Length :: a[k] == a[..][k];
    assert forall k | 0 <= k < |s| :: before[k] == before[..|s|][k];
  }

  /**
    `cJSON_Minify`: the buffer ends up holding the minified text and its terminator. The write
    position never passes the read position, and nothing behind the old terminator changes.
  */
  method MinifyInPlace(a: array<char>, ghost n: nat)
    requires HoldsText(a, n) && Minify(a[..n]).Some?
    modifies a
    ensures var m := |Minify(old(a[..n])).value|;
            m <= n && a[..m] == Minify(old(a[..n])).value && a[m] == '\0'
    ensures a[n + 1..] == old(a[n + 1..])
  {
    hide Minify, ScanBody, LineEnd, BlockEnd, Copied, Progress;
    ghost var before, s := a[..], a[..n];
    var json: nat, into: nat := 0, 0;
    Started(before, s);
    Reading(a, before, s, into, json);
    while a[json] != '\0'
      invariant into <= json <= |s|
      invariant Progress(a[..], before, s, into, json)
      invariant Unread(a, s, json)
      decreases |s| - json
    {
      ghost var now, i, j := a[..], into, json;
      Reading(a, before, s, into, json);
      if a[json] == ' ' || a[json] == '\t' || a[json] == '\r' || a[json] == '\n' {
        Blank(s, json);
        json := json + 1;
        Skipped(now, before, s, i, j, json);
      } else if a[json] == '/' && a[json + 1] == '/' {
        LineComment(s, json);
        json := SkipLine(a, json, s);
        LineAdvances(s, j);
        Skipped(now, before, s, i, j, json);
      } else if a[json] == '/' && a[json + 1] == '*' {
        BlockComment(s, json);
        json := SkipBlock(a, json, s);
        Skipped(now, before, s, i, j, json);
      } else if a[json] == '\"' {
        Literal(s, json);
        into, json := CopyLiteral(a, into, json, s);
        KeptLiteral(now, before, s, i, j, a[..], json);
      } else {
        Kept(s, json);
        KeepChar(a, before, s, into, json);
        into, json := into + 1, json + 1;
      }
      Reading(a, before, s, into, json);
    }
    Terminate(a, before, s, into);
  }

  /** A character that stays is copied down to the write position. */
  method KeepChar(a: array<char>, ghost before: string, ghost s: string, into: nat, json: nat)
    requires Progress(a[..], before, s, into, json) && json < |s| && before[json] == s[json]
    requires Minify(s[json..]) == Prepend([s[json]], Minify(s[json + 1..]))
    modifies a
    ensures Progress(a[..], before, s, into + 1, json + 1)
  {
    hide Minify;
    ghost var now := a[..];
    KeptOne(now, before, s, into, json);
    a[into] := a[json];
    assert a[..] == now[into := now[json]];
  }

  /** Everything is read: the terminator goes behind the kept text. */
  method Terminate(a: array<char>, ghost before: string, ghost s: string, into: nat)
    requires Progress(a[..], before, s, into, |s|)
    modifies a
    ensures Minify(s) == Some(a[..into]) && a[into] == '\0' && into <= |s|
    ensures a[|s| + 1..] == before[|s| + 1..]
  {
    hide Minify;
    Finished(a[..], before, s, into, |s|);
    ghost var now := a[..];
    assert forall k | |s| <= k < a.Length :: now[k] == before[k];
    a[into] := '\0';
    assert a[..into] == now[..into];
  }

  lemma Finished(now: string, before: string, s: string, into: nat, json: nat)
    requires Progress(now, before, s, into, json) && json == |s|
    ensures Minify(s) == Some(now[..into])
  {
    assert s[json..] == [];
    assert now[..into] + [] == now[..into];
  }

  lemma LineAdvances(s: string, j: nat)
    requires j < |s| && s[j] == '/'
    ensures |LineEnd(s[j..])| < |s| - j
  {
  }
}
