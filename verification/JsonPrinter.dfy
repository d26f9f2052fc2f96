/**
  The joining printer: every value is printed into an allocation of its own whose size is
  computed beforehand. Each method is proved to write exactly the specified text, which
  includes that the computed size is enough.
*/
module JsonPrinter {
  import opened CText
  import opened JsonText
  import opened JsonPrint
  import opened JsonUnicode

  /** The array starts with the text and its terminator. */
  ghost predicate Holds(a: array<char>, s: string)
    reads a
  {
    |s| < a.Length && a[..|s|] == s && a[|s|] == '\0'
  }

  /** The floating-point texts are C strings that fit the 64 bytes the code reserves. */
  ghost predicate FloatsFit(f: Format) {
    forall n :: |f.floatText(n)| < 64 && NulFree(f.floatText(n))
  }

  // ----- C library -----

  method StrLen(a: array<char>, ghost s: string) returns (n: nat)
    requires Holds(a, s) && NulFree(s)
    ensures n == |s|
  {
    n := 0;
    while a[n] != '\0'
      invariant n <= |s|
      decreases |s| - n
    {
      assert a[..|s|][n] == s[n];
      n := n + 1;
    }
  }

  /** `memcpy` of the text `s` to position `at`. */
  method Put(out: array<char>, at: nat, s: string) returns (next: nat)
    requires at + |s| <= out.Length
    modifies out
    ensures next == at + |s| && out[..next] == old(out[..at]) + s
  {
    ghost var before := out[..at];
    var k := 0;
    while k < |s|
      invariant 0 <= k <= |s| && out[..at + k] == before + s[..k]
    {
      out[at + k] := s[k];
      assert s[..k + 1] == s[..k] + [s[k]];
      assert out[..at + (k + 1)] == out[..at + k] + [s[k]];
      k := k + 1;
    }
    assert s[..k] == s;
    next := at + k;
  }

  /** The same with a terminator behind it, as `strcpy` writes it. */
  method PutEnded(out: array<char>, at: nat, s: string) returns (next: nat)
    requires at + |s| < out.Length
    modifies out
    ensures next == at + |s| && out[..next] == old(out[..at]) + s && out[next] == '\0'
  {
    next := Put(out, at, s);
    ghost var before := out[..next];
    out[next] := '\0';
    assert out[..next] == before;
  }

  method PutTabs(out: array<char>, at: nat, depth: nat, f: Format) returns (next: nat)
    requires at + |Tabs(depth, f)| <= out.Length
    modifies out
    ensures next == at + |Tabs(depth, f)| && out[..next] == old(out[..at]) + Tabs(depth, f)
  {
    ghost var before := out[..at];
    next := at;
    if f.pretty {
      var j := 0;
      while j < depth
        invariant 0 <= j <= depth && next == at + j
        invariant out[..next] == before + Repeat('\t', j)
      {
        out[next] := '\t';
        assert Repeat('\t', j + 1) == Repeat('\t', j) + ['\t'];
        assert out[..next + 1] == out[..next] + ['\t'];
        next, j := next + 1, j + 1;
      }
    } else {
      assert before + "" == before;
    }
  }

  // ----- strings -----

  /** The characters that need an escape. */
  predicate Special(c: char) { c < ' ' || c == '\"' || c == '\\' }

  lemma {:induction false} PlainEscape(s: string)
    requires forall i | 0 <= i < |s| :: !Special(s[i])
    ensures Escape(s) == s
  {
    if s != [] {
      PlainEscape(s[1..]);
      assert [s[0]] + s[1..] == s;
    }
  }

  /** The length that the counting loop adds for one character. */
  function EscapeLength(c: char): nat {
    if c in "\"\\\U{0008}\U{000C}\n\r\t" then 2 else if c < ' ' then 6 else 1
  }

  lemma EscapeLengthRight(c: char)
    ensures EscapeLength(c) == |EscapeChar(c)|
  {
  }

  lemma EscapeFirst(s: string, i: nat)
    requires i < |s|
    ensures Escape(s[i..]) == EscapeChar(s[i]) + Escape(s[i + 1..])
  {
    hide EscapeChar;
    assert s[i..][1..] == s[i + 1..];
  }

  method EscapedLength(str: string) returns (len: nat)
    ensures len == |Escape(str)|
  {
    hide EscapeChar, EscapeLength;
    len := 0;
    assert str[0..] == str;
    var ptr := 0;
    while ptr < |str|
      invariant 0 <= ptr <= |str| && len + |Escape(str[ptr..])| == |Escape(str)|
    {
      EscapeFirst(str, ptr);
      EscapeLengthRight(str[ptr]);
      hide Escape;
      len := len + EscapeLength(str[ptr]);
      ptr := ptr + 1;
    }
  }

  /** `print_string_ptr`: the literal fills the allocation up to and including its last byte. */
  method PrintString(str: string) returns (out: array<char>)
    ensures fresh(out) && Holds(out, StringText(str)) && out.Length == |StringText(str)| + 1
  {
    hide Escape, EscapeChar;
    var flag, ptr := false, 0;
    while ptr < |str|
      invariant 0 <= ptr <= |str|
      invariant !flag ==> forall i | 0 <= i < ptr :: !Special(str[i])
    {
      if Special(str[ptr]) { flag := true; }
      ptr := ptr + 1;
    }
    if flag {
      var len := EscapedLength(str);
      out := new char[len + 3];
      PutEscaped(out, str);
    } else {
      PlainEscape(str);
      out := new char[|str| + 3];
      var at: nat := Put(out, 0, "\"");
      at := Put(out, at, str);
      at := Put(out, at, "\"");
      out[at] := '\0';
    }
  }

  method PutEscaped(out: array<char>, str: string)
    requires out.Length == |Escape(str)| + 3
    modifies out
    ensures Holds(out, StringText(str))
  {
    hide Escape, EscapeChar;
    var at: nat := Put(out, 0, "\"");
    var ptr := 0;
    ghost var whole := "\"" + Escape(str);
    assert str[0..] == str;
    while ptr < |str|
      invariant 0 <= ptr <= |str| && at <= out.Length
      invariant out[..at] + Escape(str[ptr..]) == whole
    {
      EscapeFirst(str, ptr);
      Assoc3(out[..at], EscapeChar(str[ptr]), Escape(str[ptr + 1..]));
      at := Put(out, at, EscapeChar(str[ptr]));
      ptr := ptr + 1;
    }
    assert out[..at] == whole by { NothingLeft(); assert str[ptr..] == []; }
    at := Put(out, at, "\"");
    out[at] := '\0';
  }

  lemma NothingLeft()
    ensures Escape([]) == []
  {
  }

  // ----- numbers -----

  lemma {:induction false} NatTextLength(n: nat, k: nat, bound: nat)
    requires k > 0 && n < bound && bound == PowerOfTen(k)
    ensures |NatText(n)| <= k
  {
    if n >= 10 { NatTextLength(n / 10, k - 1, PowerOfTen(k - 1)); }
  }

  /** Eleven characters are enough for every 32-bit integer. */
  lemma IntTextLength(n: int)
    requires INT_MIN <= n <= INT_MAX
    ensures |IntText(n)| <= 11
  {
    assert PowerOfTen(5) == 100000;
    assert PowerOfTen(7) == 10 * PowerOfTen(6);
    assert PowerOfTen(9) == 10 * (10 * PowerOfTen(7));
    assert PowerOfTen(10) == 10000000000;
    NatTextLength(if n < 0 then -n else n, 10, 10000000000);
  }

  /** `print_number`: 2, 21 or 64 bytes. */
  method PrintNumber(n: Number, f: Format) returns (out: array<char>)
    requires FloatsFit(f)
    ensures fresh(out) && Holds(out, NumberText(n, f))
    ensures out.Length == if n.mantissa == 0 then 2 else if IsInt32(n) then 21 else 64
  {
    var size := NumberSize(n);
    NumberFits(n, f);
    out := new char[size];
    var at: nat := PutEnded(out, 0, NumberText(n, f));
  }

  function NumberSize(n: Number): nat {
    if n.mantissa == 0 then 2 else if IsInt32(n) then 21 else 64
  }

  lemma NumberFits(n: Number, f: Format)
    requires FloatsFit(f)
    ensures |NumberText(n, f)| < NumberSize(n)
    ensures NulFree(NumberText(n, f))
  {
    hide IntText, IntValue;
    if IsInt32(n) { IntTextLength(IntValue(n).value); }
    assert NulFree(f.floatText(n));
  }

  // ----- values -----

  /** What the code adds to an array's size for the items. */
  function ItemsRoom(items: seq<Json>, depth: nat, f: Format): (n: nat) {
    if items == [] then 0
    else |Text(items[0], depth, f)| + 2 + (if f.pretty then 1 else 0) + ItemsRoom(items[1..], depth, f)
  }

  /** The size added up is that of the text and one more for each item and for the last separator. */
  lemma {:induction false} ItemsFit(items: seq<Json>, depth: nat, f: Format)
    ensures |ItemsText(items, depth, f)| <= ItemsRoom(items, depth, f)
    ensures items != [] ==>
              ItemsRoom(items, depth, f) ==
              |ItemsText(items, depth, f)| + |items| + 1 + (if f.pretty then 1 else 0)
  {
    hide Text;
    if |items| > 1 { ItemsFit(items[1..], depth, f); }
  }

  /** The text of the items from `i` on, split behind the next one. */
  lemma NextItemText(items: seq<Json>, i: nat, depth: nat, f: Format)
    requires i < |items|
    ensures ItemsText(items[i..], depth, f) ==
            Text(items[i], depth, f) + (if i == |items| - 1 then "" else Comma(f))
            + ItemsText(items[i + 1..], depth, f)
    ensures ItemsRoom(items[i..], depth, f) ==
            |Text(items[i], depth, f)| + 2 + (if f.pretty then 1 else 0) + ItemsRoom(items[i + 1..], depth, f)
  {
    hide Text;
    assert items[i..][1..] == items[i + 1..];
  }

  /** Every value printed so far is the text of its item. */
  ghost predicate Printed(entries: seq<string>, items: seq<Json>, depth: nat, f: Format) {
    |entries| <= |items| && forall k | 0 <= k < |entries| :: entries[k] == Text(items[k], depth, f)
  }

  /** No terminator inside a printed text, so its C length is its length. */
  lemma {:induction false} TextNulFree(t: Json, depth: nat, f: Format)
    requires Sound(t, AnyNumber) && FloatsFit(f)
    ensures NulFree(Text(t, depth, f))
    decreases t, 1
  {
    hide FloatsFit, NumberText, ItemsText, MembersText, Escape;
    match t
    case Null =>
    case Bool(_) =>
    case Num(n) => NumberFits(n, f);
    case Str(s) =>
    case Arr(items) => ItemsNulFree(items, depth + 1, f);
    case Obj(members) => MembersNulFree(members, depth + 1, f);
  }

  lemma {:induction false} ItemsNulFree(items: seq<Json>, depth: nat, f: Format)
    requires (forall x | x in items :: Sound(x, AnyNumber)) && FloatsFit(f)
    ensures NulFree(ItemsText(items, depth, f))
    decreases items, 0
  {
    hide FloatsFit, Text;
    if items != [] {
      TextNulFree(items[0], depth, f);
      ItemsNulFree(items[1..], depth, f);
    }
  }

  lemma {:induction false} MembersNulFree(members: seq<Member>, depth: nat, f: Format)
    requires (forall m | m in members :: NulFree(m.name) && Sound(m.value, AnyNumber)) && FloatsFit(f)
    ensures NulFree(MembersText(members, depth, f))
    decreases members, 0
  {
    hide FloatsFit, Text;
    if members != [] {
      TextNulFree(members[0].value, depth, f);
      MembersNulFree(members[1..], depth, f);
    }
  }

  /** `print_value` without a buffer. */
  method PrintValue(t: Json, depth: nat, f: Format) returns (out: array<char>)
    requires Sound(t, AnyNumber) && FloatsFit(f)
    ensures fresh(out) && Holds(out, Text(t, depth, f))
    decreases t, 1
  {
    hide FloatsFit;
    match t
    case Null => out := StrDup("null");
    case Bool(b) => out := StrDup(if b then "true" else "false");
    case Num(n) => out := PrintNumber(n, f);
    case Str(s) => out := PrintString(s);
    case Arr(items) => out := PrintArray(items, depth, f);
    case Obj(members) => out := PrintObject(members, depth, f);
  }

  method StrDup(s: string) returns (out: array<char>)
    ensures fresh(out) && Holds(out, s) && out.Length == |s| + 1
  {
    out := new char[|s| + 1];
    var at: nat := Put(out, 0, s);
    out[at] := '\0';
  }

  method PrintArray(items: seq<Json>, depth: nat, f: Format) returns (out: array<char>)
    requires (forall x | x in items :: Sound(x, AnyNumber)) && FloatsFit(f)
    ensures fresh(out) && Holds(out, Text(Arr(items), depth, f))
    ensures out.Length == |Text(Arr(items), depth, f)| +
                          (if items == [] then 1 else |items| + 4 + (if f.pretty then 1 else 0))
    decreases items, 1
  {
    hide FloatsFit, ItemsText, ItemsRoom;
    if items == [] {
      out := StrDup("[]");
      return;
    }
    var entries, len := PrintItems(items, depth + 1, f);
    ItemsFit(items, depth + 1, f);
    out := new char[len];
    var ptr: nat := PutEnded(out, 0, "[");
    ptr := JoinItems(out, ptr, entries, items, depth + 1, f);
    ptr := PutEnded(out, ptr, "]");
  }

  /** Prints the items one by one and adds up the size of the joined text. */
  method PrintItems(items: seq<Json>, depth: nat, f: Format) returns (entries: seq<string>, len: nat)
    requires (forall x | x in items :: Sound(x, AnyNumber)) && FloatsFit(f)
    ensures |entries| == |items| && Printed(entries, items, depth, f)
    ensures len == 5 + ItemsRoom(items, depth, f)
    decreases items, 0
  {
    hide FloatsFit, Text, ItemsText, ItemsRoom, Sound;
    entries, len := [], 5;
    assert items[0..] == items;
    for i := 0 to |items|
      invariant |entries| == i && Printed(entries, items, depth, f)
      invariant len + ItemsRoom(items[i..], depth, f) == 5 + ItemsRoom(items, depth, f)
    {
      NextItemText(items, i, depth, f);
      assert items[i] in items;
      var ret := PrintValue(items[i], depth, f);
      TextNulFree(items[i], depth, f);
      var n := StrLen(ret, Text(items[i], depth, f));
      entries := entries + [ret[..n]];
      len := len + n + 2 + (if f.pretty then 1 else 0);
    }
    NoItems(depth, f);
    assert items[|items|..] == [];
  }

  lemma NoItems(depth: nat, f: Format)
    ensures ItemsRoom([], depth, f) == 0 && ItemsText([], depth, f) == ""
  {
  }

  /** Copies the printed items behind the bracket, commas between them. */
  method JoinItems(out: array<char>, at: nat, entries: seq<string>, ghost items: seq<Json>,
                   ghost depth: nat, f: Format) returns (ptr: nat)
    requires |entries| == |items| && Printed(entries, items, depth, f)
    requires at + |ItemsText(items, depth, f)| < out.Length
    modifies out
    ensures ptr == at + |ItemsText(items, depth, f)|
    ensures out[..ptr] == old(out[..at]) + ItemsText(items, depth, f)
  {
    hide Text, ItemsText;
    ghost var whole := out[..at] + ItemsText(items, depth, f);
    ptr := at;
    assert items[0..] == items;
    for i := 0 to |entries|
      invariant ptr <= out.Length
      invariant out[..ptr] + ItemsText(items[i..], depth, f) == whole
    {
      NextItemText(items, i, depth, f);
      ghost var more := ItemsText(items[i + 1..], depth, f);
      ghost var comma := if i == |items| - 1 then "" else Comma(f);
      Assoc4(out[..ptr], entries[i], comma, more);
      Assoc3(entries[i], comma, more);
      ptr := Put(out, ptr, entries[i]);
      if i != |entries| - 1 {
        ptr := PutEnded(out, ptr, Comma(f));
      } else {
        assert out[..ptr] + "" == out[..ptr];
      }
    }
    NoItems(depth, f);
    assert items[|items|..] == [];
    assert out[..ptr] + "" == out[..ptr];
  }

  /** What the code adds to an object's size for the members. */
  function MembersRoom(members: seq<Member>, depth: nat, f: Format): (n: nat) {
    if members == [] then 0
    else
      |Text(members[0].value, depth, f)| + |StringText(members[0].name)| + 2
      + (if f.pretty then 2 + depth else 0) + MembersRoom(members[1..], depth, f)
  }

  /** The size added up is that of the text and one more. */
  lemma {:induction false} MembersFit(members: seq<Member>, depth: nat, f: Format)
    ensures |MembersText(members, depth, f)| <= MembersRoom(members, depth, f)
    ensures members != [] ==> MembersRoom(members, depth, f) == |MembersText(members, depth, f)| + 1
  {
    hide Text, StringText;
    if members != [] { MembersFit(members[1..], depth, f); }
  }

  lemma NextMemberText(members: seq<Member>, i: nat, depth: nat, f: Format)
    requires i < |members|
    ensures MembersText(members[i..], depth, f) ==
            MemberText(members[i], depth, f) + (if i == |members| - 1 then "" else ",") + NewLine(f)
            + MembersText(members[i + 1..], depth, f)
    ensures MembersRoom(members[i..], depth, f) ==
            |Text(members[i].value, depth, f)| + |StringText(members[i].name)| + 2
            + (if f.pretty then 2 + depth else 0) + MembersRoom(members[i + 1..], depth, f)
  {
    hide MemberText, Text, StringText;
    assert members[i..][1..] == members[i + 1..];
  }

  lemma NoMembers(depth: nat, f: Format)
    ensures MembersRoom([], depth, f) == 0 && MembersText([], depth, f) == ""
  {
  }

  ghost predicate PrintedMembers(names: seq<string>, entries: seq<string>, members: seq<Member>,
                                 depth: nat, f: Format) {
    && |names| == |entries| <= |members|
    && forall k | 0 <= k < |names| ::
         names[k] == StringText(members[k].name) && entries[k] == Text(members[k].value, depth, f)
  }

  method PrintObject(members: seq<Member>, depth: nat, f: Format) returns (out: array<char>)
    requires (forall m | m in members :: NulFree(m.name) && Sound(m.value, AnyNumber)) && FloatsFit(f)
    ensures fresh(out) && Holds(out, Text(Obj(members), depth, f))
    ensures out.Length == |Text(Obj(members), depth, f)| + (if members == [] then 1 else 6)
    decreases members, 1
  {
    hide FloatsFit, MembersText, MembersRoom;
    var len;
    if members == [] {
      len := if f.pretty then depth + 4 else 3;
      NoMembers(depth + 1, f);
      out := new char[len];
      PutObject(out, [], [], [], depth, f);
    } else {
      var names, entries;
      names, entries, len := PrintMembers(members, depth + 1, f);
      MembersFit(members, depth + 1, f);
      out := new char[len];
      PutObject(out, names, entries, members, depth, f);
    }
  }

  /** Prints names and values and adds up the size of the joined text; `depth` is the members' depth. */
  method PrintMembers(members: seq<Member>, depth: nat, f: Format)
    returns (names: seq<string>, entries: seq<string>, len: nat)
    requires (forall m | m in members :: NulFree(m.name) && Sound(m.value, AnyNumber)) && FloatsFit(f)
    ensures |names| == |members| && PrintedMembers(names, entries, members, depth, f)
    ensures len == 7 + (if f.pretty then depth else 0) + MembersRoom(members, depth, f)
    decreases members, 0
  {
    hide FloatsFit, Text, StringText, MembersText, MembersRoom, Sound;
    names, entries, len := [], [], 7 + (if f.pretty then depth else 0);
    assert members[0..] == members;
    for i := 0 to |members|
      invariant |names| == i && PrintedMembers(names, entries, members, depth, f)
      invariant len + MembersRoom(members[i..], depth, f) ==
                7 + (if f.pretty then depth else 0) + MembersRoom(members, depth, f)
    {
      NextMemberText(members, i, depth, f);
      var m := members[i];
      assert m in members;
      var str := PrintString(m.name);
      NameNulFree(m.name);
      var strLen := StrLen(str, StringText(m.name));
      var ret := PrintValue(m.value, depth, f);
      TextNulFree(m.value, depth, f);
      var retLen := StrLen(ret, Text(m.value, depth, f));
      names, entries := names + [str[..strLen]], entries + [ret[..retLen]];
      len := len + retLen + strLen + 2 + (if f.pretty then 2 + depth else 0);
    }
    NoMembers(depth, f);
    assert members[|members|..] == [];
  }

  lemma NameNulFree(name: string)
    ensures NulFree(StringText(name))
  {
  }

  /** Braces, line breaks and tabs around the members. */
  method PutObject(out: array<char>, names: seq<string>, entries: seq<string>, ghost members: seq<Member>,
                   depth: nat, f: Format)
    requires |names| == |members| && PrintedMembers(names, entries, members, depth + 1, f)
    requires |Text(Obj(members), depth, f)| < out.Length
    modifies out
    ensures Holds(out, Text(Obj(members), depth, f))
  {
    ghost var text := Text(Obj(members), depth, f);
    assert text == "{" + NewLine(f) + MembersText(members, depth + 1, f) + Tabs(depth, f) + "}";
    hide Text, MembersText, Tabs, NewLine, PrintedMembers;
    var ptr: nat := Put(out, 0, "{");
    assert out[..ptr] == "{";
    ptr := PutEnded(out, ptr, NewLine(f));
    ptr := JoinMembers(out, ptr, names, entries, members, depth + 1, f);
    ptr := PutTabs(out, ptr, depth, f);
    ptr := PutEnded(out, ptr, "}");
    assert out[..ptr] == text;
  }

  method JoinMembers(out: array<char>, at: nat, names: seq<string>, entries: seq<string>,
                     ghost members: seq<Member>, depth: nat, f: Format) returns (ptr: nat)
    requires |names| == |members| && PrintedMembers(names, entries, members, depth, f)
    requires at + |MembersText(members, depth, f)| < out.Length
    modifies out
    ensures ptr == at + |MembersText(members, depth, f)|
    ensures out[..ptr] == old(out[..at]) + MembersText(members, depth, f)
  {
    hide MemberText, MembersText;
    ghost var whole := out[..at] + MembersText(members, depth, f);
    ptr := at;
    assert members[0..] == members;
    for i := 0 to |names|
      invariant ptr <= out.Length
      invariant out[..ptr] + MembersText(members[i..], depth, f) == whole
    {
      NextMemberText(members, i, depth, f);
      ghost var member := MemberText(members[i], depth, f);
      ghost var more := MembersText(members[i + 1..], depth, f);
      var comma := if i == |names| - 1 then "" else ",";
      Assoc3(member, comma, NewLine(f));
      Assoc3(member, comma + NewLine(f), more);
      Assoc4(out[..ptr], member, comma + NewLine(f), more);
      ptr := JoinMember(out, ptr, names[i], entries[i], members[i], depth, f);
      Assoc3(out[..ptr], comma, NewLine(f));
      ptr := Put(out, ptr, comma);
      ptr := PutEnded(out, ptr, NewLine(f));
    }
    NoMembers(depth, f);
    assert members[|members|..] == [];
    assert out[..ptr] + "" == out[..ptr];
  }

  method JoinMember(out: array<char>, at: nat, name: string, entry: string, ghost m: Member,
                    depth: nat, f: Format) returns (ptr: nat)
    requires name == StringText(m.name) && entry == Text(m.value, depth, f)
    requires at + |MemberText(m, depth, f)| < out.Length
    modifies out
    ensures ptr == at + |MemberText(m, depth, f)|
    ensures out[..ptr] == old(out[..at]) + MemberText(m, depth, f)
  {
    hide Text, StringText;
    ghost var before := out[..at];
    assert MemberText(m, depth, f) == Tabs(depth, f) + name + Colon(f) + entry;
    Assoc5(before, Tabs(depth, f), name, Colon(f), entry);
    Assoc4(Tabs(depth, f), name, Colon(f), entry);
    ptr := PutTabs(out, at, depth, f);
    ptr := Put(out, ptr, name);
    ptr := Put(out, ptr, Colon(f));
    ptr := PutEnded(out, ptr, entry);
  }
}
