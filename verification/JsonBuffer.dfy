/**
  The buffered printer: one growing buffer, reallocated to the next power of two whenever a
  piece does not fit. It is proved to leave exactly the specified text in the buffer, which
  includes that every write stays inside the buffer of the moment.
*/
module JsonBuffer {
  import opened CText
  import opened JsonText
  import opened JsonPrint
  import opened JsonUnicode
  import opened JsonPrinter
  import opened JsonGrowth

  function Max(a: nat, b: nat): nat { if a < b then b else a }

  /**
    How far behind its start the printing of a value reserves: up to the terminator behind the
    text, and further only where a number reserves more than it writes.
  */
  function Need(t: Json, depth: nat, f: Format): (n: nat)
    ensures n >= 1
    decreases t, 1
  {
    match t
    case Num(n) => NumberSize(n)
    case Arr(items) => Max(|Text(t, depth, f)| + 1, 1 + ItemsNeed(items, depth + 1, f))
    case Obj(members) => Max(|Text(t, depth, f)| + 1, 1 + |NewLine(f)| + MembersNeed(members, depth + 1, f))
    case _ => |Text(t, depth, f)| + 1
  }

  function ItemsNeed(items: seq<Json>, depth: nat, f: Format): (n: nat)
    ensures n >= 1
    decreases items, 0
  {
    if items == [] then 1
    else
      var comma := if |items| == 1 then 0 else |Comma(f)|;
      Max(Need(items[0], depth, f), |Text(items[0], depth, f)| + comma + ItemsNeed(items[1..], depth, f))
  }

  function MemberNeed(m: Member, depth: nat, f: Format): nat
    decreases m, 2
  {
    |Tabs(depth, f)| + |StringText(m.name)| + |Colon(f)| + Need(m.value, depth, f)
  }

  function MembersNeed(members: seq<Member>, depth: nat, f: Format): (n: nat)
    ensures n >= 1
    decreases members, 0
  {
    if members == [] then 1
    else
      var comma := if |members| == 1 then 0 else 1;
      Max(MemberNeed(members[0], depth, f),
          |MemberText(members[0], depth, f)| + comma + |NewLine(f)| + MembersNeed(members[1..], depth, f))
  }

  /** Every reservation ends behind the text, by less than the 64 bytes of a number. */
  lemma {:induction false} NeedBounds(t: Json, depth: nat, f: Format)
    requires FloatsFit(f)
    ensures |Text(t, depth, f)| + 1 <= Need(t, depth, f) <= |Text(t, depth, f)| + 64
    decreases t, 1
  {
    hide FloatsFit, ItemsNeed, MembersNeed, ItemsText, MembersText, StringText, NumberText;
    match t
    case Num(n) => NumberFits(n, f);
    case Arr(items) =>
      NoItems(depth + 1, f);
      ItemsNeedBound(items, depth + 1, f);
    case Obj(members) => MembersNeedBound(members, depth + 1, f);
    case _ =>
  }

  lemma {:induction false} ItemsNeedBound(items: seq<Json>, depth: nat, f: Format)
    requires FloatsFit(f)
    ensures ItemsNeed(items, depth, f) <= |ItemsText(items, depth, f)| + 64
    decreases items, 0
  {
    hide FloatsFit, Text, Need;
    if items != [] {
      NeedBounds(items[0], depth, f);
      ItemsNeedBound(items[1..], depth, f);
    }
  }

  lemma {:induction false} MembersNeedBound(members: seq<Member>, depth: nat, f: Format)
    requires FloatsFit(f)
    ensures MembersNeed(members, depth, f) <= |MembersText(members, depth, f)| + 64
    decreases members, 0
  {
    hide FloatsFit, Text, Need, StringText;
    if members != [] {
      NeedBounds(members[0].value, depth, f);
      MembersNeedBound(members[1..], depth, f);
    }
  }

  /** Trees without numbers need exactly their text and its terminator. */
  lemma {:induction false} NeedWithoutNumbers(t: Json, depth: nat, f: Format)
    requires Sound(t, NoNumber)
    ensures Need(t, depth, f) == |Text(t, depth, f)| + 1
    decreases t, 1
  {
    hide ItemsNeed, MembersNeed, ItemsText, MembersText, StringText;
    match t
    case Arr(items) =>
      NoItems(depth + 1, f);
      ItemsNeedExact(items, depth + 1, f);
    case Obj(members) => MembersNeedExact(members, depth + 1, f);
    case _ =>
  }

  const NoNumber: Number -> bool := n => false

  lemma {:induction false} ItemsNeedExact(items: seq<Json>, depth: nat, f: Format)
    requires forall x | x in items :: Sound(x, NoNumber)
    ensures ItemsNeed(items, depth, f) == |ItemsText(items, depth, f)| + 1
    decreases items, 0
  {
    hide Text, Need, Sound;
    if items != [] {
      NeedWithoutNumbers(items[0], depth, f);
      ItemsNeedExact(items[1..], depth, f);
    }
  }

  lemma {:induction false} MembersNeedExact(members: seq<Member>, depth: nat, f: Format)
    requires forall m | m in members :: Sound(m.value, NoNumber)
    ensures MembersNeed(members, depth, f) == |MembersText(members, depth, f)| + 1
    decreases members, 0
  {
    hide Text, Need, StringText, Sound;
    if members != [] {
      NeedWithoutNumbers(members[0].value, depth, f);
      MembersNeedExact(members[1..], depth, f);
    }
  }

  /** What is left to reserve from item `i` on. */
  lemma NextItemNeed(items: seq<Json>, i: nat, depth: nat, f: Format)
    requires i < |items|
    ensures var comma := if i == |items| - 1 then 0 else |Comma(f)|;
            ItemsNeed(items[i..], depth, f) ==
            Max(Need(items[i], depth, f),
                |Text(items[i], depth, f)| + comma + ItemsNeed(items[i + 1..], depth, f))
  {
    hide Text, Need;
    assert items[i..][1..] == items[i + 1..];
  }

  lemma NextMemberNeed(members: seq<Member>, i: nat, depth: nat, f: Format)
    requires i < |members|
    ensures var comma := if i == |members| - 1 then 0 else 1;
            MembersNeed(members[i..], depth, f) ==
            Max(MemberNeed(members[i], depth, f),
                |MemberText(members[i], depth, f)| + comma + |NewLine(f)| + MembersNeed(members[i + 1..], depth, f))
  {
    hide MemberText, MemberNeed;
    assert members[i..][1..] == members[i + 1..];
  }

  class PrintBuffer {
    var buffer: array<char>
    var length: nat
    var offset: nat

    ghost predicate Valid()
      reads this
    {
      buffer.Length == length && offset <= length <= MAX_SIZE
    }

    /** The text up to the current offset. */
    ghost function Written(): string
      requires Valid()
      reads this, buffer
    {
      buffer[..offset]
    }

    constructor (prebuffer: nat)
      requires 1 <= prebuffer <= MAX_SIZE
      ensures Valid() && fresh(buffer) && offset == 0 && length == prebuffer
    {
      buffer := new char[prebuffer];
      length, offset := prebuffer, 0;
    }

    /** Makes room for `needed` characters from the offset on, keeping what is written. */
    method Ensure(needed: nat)
      requires Valid() && 0 < offset + needed <= MAX_SIZE
      modifies this
      ensures Valid() && offset == old(offset) && offset + needed <= length
      ensures length == if offset + needed <= old(length) then old(length) else Pow2gt(offset + needed)
      ensures Written() == old(Written())
      ensures buffer == old(buffer) || fresh(buffer)
    {
      hide Pow2gt;
      if offset + needed <= length { return; }
      var newSize := Pow2gt(offset + needed);
      GrowthFits(offset + needed);
      var newBuffer := new char[newSize];
      forall i | 0 <= i < length { newBuffer[i] := buffer[i]; }
      assert newBuffer[..offset] == buffer[..offset];
      length, buffer := newSize, newBuffer;
    }

    /** The buffer holds `s` and a terminator, and the offset is not past the end of `s`. */
    ghost predicate Shows(s: string)
      reads this, buffer
    {
      Valid() && offset <= |s| < length && buffer[..|s|] == s && buffer[|s|] == '\0'
    }

    /** Moves the offset to the end of the text: `update`. */
    method Update(ghost s: string)
      requires Shows(s) && NulFree(s[offset..])
      modifies this`offset
      ensures Valid() && offset == |s| && Written() == s
    {
      var k := offset;
      while buffer[k] != '\0'
        invariant offset <= k <= |s|
        decreases |s| - k
      {
        assert buffer[..|s|][k] == s[k] == s[offset..][k - offset];
        k := k + 1;
      }
      offset := k;
    }

    /** Writes a piece and its terminator at the offset, which stays where it is. */
    method Write(needed: nat, s: string)
      requires Valid() && |s| < needed && offset + needed <= MAX_SIZE
      modifies this, buffer
      ensures Shows(old(Written()) + s) && offset == old(offset)
      ensures buffer == old(buffer) || fresh(buffer)
    {
      Ensure(needed);
      var at: nat := Put(buffer, offset, s);
      buffer[at] := '\0';
    }

    /** Writes a piece and moves the offset behind it. */
    method Append(needed: nat, s: string)
      requires Valid() && |s| <= needed && 0 < offset + needed <= MAX_SIZE
      modifies this, buffer
      ensures Valid() && Written() == old(Written()) + s
      ensures buffer == old(buffer) || fresh(buffer)
    {
      Ensure(needed);
      var at: nat := Put(buffer, offset, s);
      if |s| < needed { buffer[at] := '\0'; }
      offset := at;
    }

    /** The offset lies within the piece `s` that was just written behind `before`. */
    lemma TailNulFree(before: string, s: string)
      requires NulFree(s) && |before| <= offset <= |before| + |s|
      ensures NulFree((before + s)[offset..])
    {
      assert (before + s)[offset..] == s[offset - |before|..];
    }

    /** `print_value` with a buffer; `start` is the position of the pointer it returns. */
    method PrintValue(t: Json, depth: nat, f: Format) returns (start: nat)
      requires Valid() && Sound(t, AnyNumber) && FloatsFit(f)
      requires offset + Need(t, depth, f) <= MAX_SIZE
      modifies this, buffer
      ensures Shows(old(Written()) + Text(t, depth, f)) && old(offset) <= offset
      ensures buffer == old(buffer) || fresh(buffer)
      ensures depth == 0 && old(offset) == 0 ==> start == 0
      decreases t, 1
    {
      hide FloatsFit;
      start := offset;
      match t
      case Null => Write(5, "null");
      case Bool(b) => if b { Write(5, "true"); } else { Write(6, "false"); }
      case Num(n) => NumberFits(n, f); Write(NumberSize(n), NumberText(n, f));
      case Str(s) => PrintStringPtr(s);
      case Arr(items) => start := PrintArray(items, depth, f);
      case Obj(members) => start := PrintObject(members, depth, f);
    }

    method PrintStringPtr(s: string)
      requires Valid() && offset + |StringText(s)| + 1 <= MAX_SIZE
      modifies this, buffer
      ensures Shows(old(Written()) + StringText(s)) && offset == old(offset)
      ensures buffer == old(buffer) || fresh(buffer)
    {
      var len := EscapedLength(s);
      Write(len + 3, StringText(s));
    }

    method PrintArray(items: seq<Json>, depth: nat, f: Format) returns (start: nat)
      requires Valid() && (forall x | x in items :: Sound(x, AnyNumber)) && FloatsFit(f)
      requires offset + Need(Arr(items), depth, f) <= MAX_SIZE
      modifies this, buffer
      ensures Shows(old(Written()) + Text(Arr(items), depth, f)) && old(offset) <= offset
      ensures buffer == old(buffer) || fresh(buffer)
      ensures start == old(offset)
      decreases items, 1
    {
      hide FloatsFit, ItemsText, Sound, ItemsNeed;
      start := offset;
      if items == [] {
        Write(3, "[]");
        return;
      }
      ghost var before, text := Written(), ItemsText(items, depth + 1, f);
      Assoc4(before, "[", text, "]");
      Assoc3("[", text, "]");
      Append(1, "[");
      PrintItems(items, depth + 1, f);
      Write(2, "]");
    }

    method PrintItems(items: seq<Json>, depth: nat, f: Format)
      requires Valid() && (forall x | x in items :: Sound(x, AnyNumber)) && FloatsFit(f)
      requires offset + ItemsNeed(items, depth, f) <= MAX_SIZE
      modifies this, buffer
      ensures Valid() && Written() == old(Written()) + ItemsText(items, depth, f)
      ensures buffer == old(buffer) || fresh(buffer)
      decreases items, 0
    {
      hide FloatsFit, Text, ItemsText, Sound, Need, ItemsNeed;
      ghost var before, whole := Written(), Written() + ItemsText(items, depth, f);
      assert items[0..] == items;
      for i := 0 to |items|
        invariant Valid() && |before| <= offset
        invariant Written() + ItemsText(items[i..], depth, f) == whole
        invariant offset + ItemsNeed(items[i..], depth, f) <= MAX_SIZE
        invariant buffer == old(buffer) || fresh(buffer)
      {
        NextItemText(items, i, depth, f);
        NextItemNeed(items, i, depth, f);
        ghost var done, x := Written(), Text(items[i], depth, f);
        ghost var comma := if i == |items| - 1 then "" else Comma(f);
        ghost var more := ItemsText(items[i + 1..], depth, f);
        Assoc4(done, x, comma, more);
        Assoc3(x, comma, more);
        assert items[i] in items;
        var _ := PrintValue(items[i], depth, f);
        TextNulFree(items[i], depth, f);
        TailNulFree(done, x);
        Update(done + x);
        if i != |items| - 1 {
          Append(|Comma(f)| + 1, Comma(f));
        } else {
          assert Written() + "" == Written();
        }
      }
      NoItems(depth, f);
      assert items[|items|..] == [];
      assert Written() + "" == Written();
    }

    /** In formatted output the start index is reused as a loop counter, so `start` ends as the depth. */
    method PrintObject(members: seq<Member>, depth: nat, f: Format) returns (start: nat)
      requires Valid() && (forall m | m in members :: NulFree(m.name) && Sound(m.value, AnyNumber)) && FloatsFit(f)
      requires offset + Need(Obj(members), depth, f) <= MAX_SIZE
      modifies this, buffer
      ensures Shows(old(Written()) + Text(Obj(members), depth, f)) && old(offset) <= offset
      ensures buffer == old(buffer) || fresh(buffer)
      ensures start == if members != [] && f.pretty then depth else old(offset)
      decreases members, 1
    {
      hide FloatsFit, MembersText, Sound, MembersNeed;
      start := offset;
      ghost var before := Written();
      if members == [] {
        NoMembers(depth + 1, f);
        Write(if f.pretty then depth + 4 else 3, Text(Obj([]), depth, f));
        return;
      }
      ghost var text := MembersText(members, depth + 1, f);
      ObjectText(before, members, depth, f);
      hide Text;
      Append(|NewLine(f)| + 2, "{" + NewLine(f));
      PrintMembers(members, depth + 1, f);
      Write(if f.pretty then depth + 2 else 2, Tabs(depth, f) + "}");
      if f.pretty { start := depth; }
    }

    lemma ObjectText(before: string, members: seq<Member>, depth: nat, f: Format)
      ensures before + Text(Obj(members), depth, f) ==
              before + ("{" + NewLine(f)) + MembersText(members, depth + 1, f) + (Tabs(depth, f) + "}")
      ensures |Text(Obj(members), depth, f)| ==
              |NewLine(f)| + |MembersText(members, depth + 1, f)| + |Tabs(depth, f)| + 2
    {
      var open, text := "{" + NewLine(f), MembersText(members, depth + 1, f);
      assert Text(Obj(members), depth, f) == open + text + Tabs(depth, f) + "}";
      hide Text, MembersText, NewLine, Tabs;
      Assoc4(open, text, Tabs(depth, f), "}");
      Assoc3(open, text, Tabs(depth, f) + "}");
      Assoc4(before, open, text, Tabs(depth, f) + "}");
    }

    lemma Regroup(a: string, b: string, c: string, d: string, e: string)
      ensures a + (b + c + d + e) == a + b + (c + d) + e
    {
      Assoc3(b, c, d);
      Assoc3(b, c + d, e);
      Assoc4(a, b, c + d, e);
    }

    method PrintMembers(members: seq<Member>, depth: nat, f: Format)
      requires Valid() && (forall m | m in members :: NulFree(m.name) && Sound(m.value, AnyNumber)) && FloatsFit(f)
      requires offset + MembersNeed(members, depth, f) <= MAX_SIZE
      modifies this, buffer
      ensures Valid() && Written() == old(Written()) + MembersText(members, depth, f)
      ensures buffer == old(buffer) || fresh(buffer)
      decreases members, 0
    {
      hide FloatsFit, MemberText, MembersText, Sound, MemberNeed, MembersNeed;
      ghost var before, whole := Written(), Written() + MembersText(members, depth, f);
      assert members[0..] == members;
      for i := 0 to |members|
        invariant Valid() && |before| <= offset
        invariant Written() + MembersText(members[i..], depth, f) == whole
        invariant offset + MembersNeed(members[i..], depth, f) <= MAX_SIZE
        invariant buffer == old(buffer) || fresh(buffer)
      {
        NextMemberText(members, i, depth, f);
        NextMemberNeed(members, i, depth, f);
        ghost var done, m := Written(), MemberText(members[i], depth, f);
        ghost var more := MembersText(members[i + 1..], depth, f);
        var comma := if i == |members| - 1 then "" else ",";
        Regroup(done, m, comma, NewLine(f), more);
        assert members[i] in members;
        PrintMember(members[i], depth, f);
        Append(|comma| + |NewLine(f)| + 1, comma + NewLine(f));
      }
      NoMembers(depth, f);
      assert members[|members|..] == [];
      assert Written() + "" == Written();
    }

    /** Tabs, name, colon and value of one member. */
    method PrintMember(m: Member, depth: nat, f: Format)
      requires Valid() && NulFree(m.name) && Sound(m.value, AnyNumber) && FloatsFit(f)
      requires offset + MemberNeed(m, depth, f) <= MAX_SIZE
      modifies this, buffer
      ensures Valid() && Written() == old(Written()) + MemberText(m, depth, f)
      ensures buffer == old(buffer) || fresh(buffer)
      decreases m, 2
    {
      hide FloatsFit, Text, StringText, Sound, Need;
      ghost var before, name, value := Written(), StringText(m.name), Text(m.value, depth, f);
      assert MemberText(m, depth, f) == Tabs(depth, f) + name + Colon(f) + value;
      hide MemberText;
      Assoc5(before, Tabs(depth, f), name, Colon(f), value);
      Assoc4(Tabs(depth, f), name, Colon(f), value);
      if f.pretty && depth > 0 {
        Append(depth, Tabs(depth, f));
      } else {
        assert Written() + Tabs(depth, f) == Written();
      }
      ghost var done := Written();
      PrintStringPtr(m.name);
      NameNulFree(m.name);
      TailNulFree(done, name);
      Update(done + name);
      Append(|Colon(f)|, Colon(f));
      done := Written();
      var _ := PrintValue(m.value, depth, f);
      TextNulFree(m.value, depth, f);
      TailNulFree(done, value);
      Update(done + value);
    }
  }

  /**
    `cJSON_PrintBuffered`: from any first size, the buffer ends up holding the same text that
    the joining printer gives, and the returned pointer is its start.
  */
  method PrintBuffered(t: Json, prebuffer: nat, f: Format) returns (out: array<char>, start: nat)
    requires Sound(t, AnyNumber) && FloatsFit(f)
    requires 1 <= prebuffer <= MAX_SIZE && Need(t, 0, f) <= MAX_SIZE
    ensures fresh(out) && start == 0 && Holds(out, Text(t, 0, f))
  {
    var p := new PrintBuffer(prebuffer);
    start := p.PrintValue(t, 0, f);
    out := p.buffer;
    assert [] + Text(t, 0, f) == Text(t, 0, f);
  }
}
