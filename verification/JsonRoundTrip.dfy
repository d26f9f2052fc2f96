/** Printing a tree and parsing the text gives the tree back and stops right behind it. */
module JsonRoundTrip {
  import opened CText
  import opened JsonText
  import opened JsonPrint

  // ----- numbers -----

  /** A character that could make the parser read on in a number. */
  predicate ExtendsNumber(c: char) { IsDigit(c) || c == '.' || c == 'e' || c == 'E' }

  lemma {:induction false} DigitsConcat(n: int, s: string, rest: string)
    requires forall i | 0 <= i < |s| :: IsDigit(s[i])
    ensures Digits(n, s + rest) == Digits(Digits(n, s).0, rest)
    decreases |s|
  {
    if s == [] {
      assert s + rest == rest;
    } else {
      assert (s + rest)[1..] == s[1..] + rest;
      DigitsConcat(n * 10 + DigitValue(s[0]), s[1..], rest);
    }
  }

  lemma {:induction false} DigitsOfNatText(n: nat)
    ensures Digits(0, NatText(n)) == (n, [])
  {
    if n >= 10 {
      DigitsOfNatText(n / 10);
      DigitsConcat(0, NatText(n / 10), [DigitChar(n % 10)]);
    }
  }

  /** Whether the number parser reads on into `rest` behind the digits of `n`; a zero stands alone. */
  predicate Extends(n: int, rest: string) {
    || (IsDigit(Head(rest)) && (n == 0 ==> Head(rest) != '0'))
    || (Head(rest) == '.' && IsDigit(Head(rest[1..])))
    || Head(rest) == 'e' || Head(rest) == 'E'
  }

  lemma WholeOfNatText(n: nat, rest: string)
    ensures var (m, r) := Whole(NatText(n) + rest);
            if IsDigit(Head(rest)) && (n == 0 ==> Head(rest) != '0') then |r| < |rest| else (m, r) == (n, rest)
  {
    var s := NatText(n);
    DigitsOfNatText(n);
    DigitsConcat(0, s, rest);
    assert (s + rest)[0] == s[0];
    if s[0] == '0' {
      assert s == "0";
      assert (s + rest)[1..] == rest;
    }
  }

  /** A printed integer is read back, up to its end, exactly when the text behind cannot extend it. */
  lemma NumberRoundTrip(n: int, rest: string)
    ensures ParseNumber(IntText(n) + rest) == (Number(n, 0), rest) <==> !Extends(n, rest)
  {
    if n < 0 {
      WholeOfNatText(-n, rest);
      assert (IntText(n) + rest)[1..] == NatText(-n) + rest;
    } else {
      WholeOfNatText(n, rest);
      assert (NatText(n) + rest)[0] == NatText(n)[0];
    }
    hide NatText, Digits;
  }

  // ----- strings -----

  /** Characters that neither close nor escape are scanned one by one. */
  lemma {:induction false} ScanPlain(p: string, s: string)
    requires forall i | 0 <= i < |p| :: p[i] != '\"' && p[i] != '\\'
    ensures ScanBody(p + s) == if ScanBody(s).Some? then Some(|p| + ScanBody(s).value) else None
    decreases |p|
  {
    if p == [] {
      assert p + s == s;
    } else {
      assert (p + s)[1..] == p[1..] + s;
      ScanPlain(p[1..], s);
    }
  }

  lemma ScanStep(c: char, s: string)
    ensures ScanBody(EscapeChar(c) + s) ==
            if ScanBody(s).Some? then Some(|EscapeChar(c)| + ScanBody(s).value) else None
  {
    hide ScanBody, EscapeChar;
    var e := EscapeChar(c);
    if |e| == 1 {
      ScanPlain(e, s);
    } else {
      ScanTwo(e + s);
      assert (e + s)[2..] == e[2..] + s;
      ScanPlain(e[2..], s);
    }
  }

  lemma ScanTwo(t: string)
    requires |t| >= 2 && t[0] == '\\'
    ensures ScanBody(t) == if ScanBody(t[2..]).Some? then Some(2 + ScanBody(t[2..]).value) else None
  {
  }

  lemma {:induction false} ScanEscape(s: string, rest: string)
    ensures ScanBody(Escape(s) + ("\"" + rest)) == Some(|Escape(s)|)
  {
    var q := "\"" + rest;
    if s == [] {
      assert Escape(s) + q == q;
    } else {
      hide ScanBody, EscapeChar;
      ScanEscape(s[1..], rest);
      ScanStep(s[0], Escape(s[1..]) + q);
      Assoc3(EscapeChar(s[0]), Escape(s[1..]), q);
    }
  }

  lemma AsciiUtf8(c: char)
    requires '\0' < c < '\U{0080}'
    ensures Utf8(c as int) == [c]
  {
  }

  lemma DecodeStep(c: char, s: string)
    requires c != '\0'
    ensures Decode(EscapeChar(c) + s) == Prepend([c], Decode(s))
  {
    hide Utf8;
    var e := EscapeChar(c);
    var t := e + s;
    if |e| == 1 {
      assert t[1..] == s;
    } else if |e| == 2 {
      assert t[2..] == s;
      assert t[1] == e[1];
    } else {
      assert t[2..][..4] == e[2..];
      assert t[6..] == s;
      assert Hex4(t[2..]) == c as int;
      assert UnicodeEscape(t) == Some((c as int, s));
      assert Utf8(c as int) == [c] by { AsciiUtf8(c); }
    }
  }

  lemma {:induction false} DecodeEscape(s: string)
    requires NulFree(s)
    ensures Decode(Escape(s)) == Some(s)
  {
    if s != [] {
      DecodeEscape(s[1..]);
      DecodeStep(s[0], Escape(s[1..]));
      assert [s[0]] + s[1..] == s;
    }
  }

  lemma StringRoundTrip(s: string, rest: string)
    requires NulFree(s)
    ensures ParseString(StringText(s) + rest) == Ok(s, rest)
  {
    hide ScanBody, Decode, Escape;
    var t := StringText(s) + rest;
    var e := Escape(s);
    assert t[1..] == e + ("\"" + rest);
    ScanEscape(s, rest);
    DecodeEscape(s);
    assert t[1..][..|e|] == e;
    assert t[1..][|e|..] == "\"" + rest;
    assert ("\"" + rest)[1..] == rest;
  }

  // ----- values -----

  /** A 32-bit integer as the parser represents it. */
  predicate IsPlainInt(n: Number) { n.exponent == 0 && INT_MIN <= n.mantissa <= INT_MAX }

  ghost predicate Printable(t: Json) { Sound(t, IsPlainInt) }

  /** The first character of a printed value is neither white space nor a closing bracket. */
  lemma TextStart(t: Json, depth: nat, f: Format)
    requires Printable(t)
    ensures var s := Text(t, depth, f); s != [] && s[0] > ' ' && s[0] != ']' && s[0] != '}'
  {
  }

  lemma {:induction false} SkipBlanks(blanks: string, s: string)
    requires forall i | 0 <= i < |blanks| :: blanks[i] <= ' '
    requires s != [] && s[0] > ' '
    ensures Skip(blanks + s) == s
    decreases |blanks|
  {
    if blanks == [] {
      assert blanks + s == s;
    } else {
      assert (blanks + s)[1..] == blanks[1..] + s;
      SkipBlanks(blanks[1..], s);
    }
  }

  // One step of the parser each, on a text whose parts are named.

  lemma ItemParsed(done: seq<Json>, s: string, item: Json, tail: string)
    requires ParseValue(s) == Ok(item, tail)
    ensures Head(tail) == ']' ==> NextItem(done, s) == Ok(Arr(done + [item]), tail[1..])
    ensures Head(tail) == ',' ==> NextItem(done, s) == NextItem(done + [item], Skip(tail[1..]))
  {
    hide ParseValue;
  }

  lemma MemberParsed(done: seq<Member>, s: string, member: Member, tail: string)
    requires ParseMember(s) == Ok(member, tail)
    ensures Head(Skip(tail)) == '}' ==> NextMember(done, s) == Ok(Obj(done + [member]), Skip(tail)[1..])
    ensures Head(Skip(tail)) == ',' ==>
              NextMember(done, s) == NextMember(done + [member], Skip(Skip(tail)[1..]))
  {
    hide ParseMember;
  }

  lemma NameParsed(s: string, name: string, blanks: string, u: string, value: Json, rest: string)
    requires ParseString(s) == Ok(name, ":" + blanks + u)
    requires forall i | 0 <= i < |blanks| :: blanks[i] <= ' '
    requires u != [] && u[0] > ' ' && ParseValue(u) == Ok(value, rest)
    ensures ParseMember(s) == Ok(Member(name, value), rest)
  {
    hide ParseString, ParseValue;
    var t := ":" + blanks + u;
    assert t[0] == ':';
    assert t[1..] == blanks + u;
    SkipBlanks(blanks, u);
  }

  /** The tree comes back and the parser stops at `rest`, unless the tree is a number that `rest` extends. */
  lemma {:induction false} ValueRoundTrip(t: Json, depth: nat, f: Format, rest: string)
    requires Printable(t)
    ensures ParseValue(Text(t, depth, f) + rest) == Ok(t, rest) <==>
            !(t.Num? && Extends(t.number.mantissa, rest))
    decreases t, 1
  {
    hide ParseValue;
    match t
    case Null => LiteralParsed("null", rest);
    case Bool(b) => LiteralParsed(if b then "true" else "false", rest);
    case Num(n) =>
      PlainValue(n);
      IntRoundTrip(n, f, rest);
    case Str(text) => TextRoundTrip(text, rest);
    case Arr(items) => ArrayRoundTrip(items, depth, f, rest);
    case Obj(members) => ObjectRoundTrip(members, depth, f, rest);
  }

  /** Whatever its exponent, a number that is a 32-bit integer is read back as that integer. */
  lemma IntRoundTrip(n: Number, f: Format, rest: string)
    requires IsInt32(n)
    ensures var v := IntValue(n).value;
            ParseValue(NumberText(n, f) + rest) == Ok(Num(Number(v, 0)), rest) <==> !Extends(v, rest)
  {
    hide ParseValue, ParseNumber;
    var v := IntValue(n).value;
    var s := IntText(v) + rest;
    assert NumberText(n, f) == IntText(v) by { if n.mantissa == 0 { ZeroText(n); } }
    hide NumberText, IntValue;
    assert s[0] == IntText(v)[0];
    NumberRoundTrip(v, rest);
    Dispatch(s);
  }

  lemma ZeroText(n: Number)
    requires n.mantissa == 0
    ensures IntValue(n) == Some(0) && IntText(0) == "0"
  {
  }

  lemma PlainValue(n: Number)
    requires IsPlainInt(n)
    ensures IsInt32(n) && IntValue(n) == Some(n.mantissa)
  {
  }

  lemma TextRoundTrip(text: string, rest: string)
    requires NulFree(text)
    ensures ParseValue(StringText(text) + rest) == Ok(Str(text), rest)
  {
    hide ParseValue, ParseString;
    StringRoundTrip(text, rest);
    Dispatch(StringText(text) + rest);
  }

  lemma {:induction false} ArrayRoundTrip(items: seq<Json>, depth: nat, f: Format, rest: string)
    requires forall x | x in items :: Printable(x)
    ensures ParseValue(Text(Arr(items), depth, f) + rest) == Ok(Arr(items), rest)
    decreases items, 1
  {
    hide ParseValue, NextItem, ItemsText;
    var s := Text(Arr(items), depth, f) + rest;
    var u := if items == [] then "]" + rest else ItemsText(items, depth + 1, f) + "]" + rest;
    assert s[1..] == u;
    if items == [] {
      assert u[1..] == rest;
    } else {
      ItemsRoundTrip([], items, depth + 1, f, rest);
      assert [] + items == items;
    }
    ArrayOpened(s, u);
  }

  /** What the printer puts behind the first item. */
  function AfterItem(items: seq<Json>, depth: nat, f: Format, rest: string): string
    requires items != []
  {
    if |items| == 1 then "]" + rest else Comma(f) + (ItemsText(items[1..], depth, f) + "]" + rest)
  }

  lemma FirstItem(items: seq<Json>, depth: nat, f: Format, rest: string)
    requires items != []
    ensures ItemsText(items, depth, f) + "]" + rest ==
            Text(items[0], depth, f) + AfterItem(items, depth, f, rest)
    ensures var tail := AfterItem(items, depth, f, rest);
            && !ExtendsNumber(Head(tail))
            && (|items| == 1 ==> Head(tail) == ']' && tail[1..] == rest)
            && (|items| > 1 ==> Head(tail) == ',' &&
                                tail[1..] == Comma(f)[1..] + (ItemsText(items[1..], depth, f) + "]" + rest))
  {
    hide Text;
    var x := Text(items[0], depth, f);
    if |items| == 1 {
      assert ItemsText(items, depth, f) == x;
      hide ItemsText;
      Assoc3(x, "]", rest);
      DropFirst("]", rest);
    } else {
      var more := ItemsText(items[1..], depth, f);
      assert ItemsText(items, depth, f) == x + Comma(f) + more;
      hide ItemsText;
      Assoc5(x, Comma(f), more, "]", rest);
      Assoc3(more, "]", rest);
      DropFirst(Comma(f), more + "]" + rest);
    }
  }

  lemma {:induction false} ItemsRoundTrip(done: seq<Json>, items: seq<Json>, depth: nat, f: Format, rest: string)
    requires items != [] && forall x | x in items :: Printable(x)
    ensures var s := ItemsText(items, depth, f) + "]" + rest;
            s[0] > ' ' && s[0] != ']' && NextItem(done, s) == Ok(Arr(done + items), rest)
    decreases items, 0
  {
    hide ParseValue, NextItem, Text, Skip, Printable, ItemsText, AfterItem;
    var x := Text(items[0], depth, f);
    var s := ItemsText(items, depth, f) + "]" + rest;
    var tail := AfterItem(items, depth, f, rest);
    TextStart(items[0], depth, f);
    FirstItem(items, depth, f, rest);
    assert s[0] == x[0];
    ValueRoundTrip(items[0], depth, f, tail);
    ItemParsed(done, s, items[0], tail);
    if |items| == 1 {
      assert done + [items[0]] == done + items;
    } else {
      ItemsRoundTrip(done + [items[0]], items[1..], depth, f, rest);
      SkipBlanks(Comma(f)[1..], ItemsText(items[1..], depth, f) + "]" + rest);
      assert done + [items[0]] + items[1..] == done + items;
    }
  }

  lemma EmptyObjectRoundTrip(depth: nat, f: Format, rest: string)
    ensures ParseValue(Text(Obj([]), depth, f) + rest) == Ok(Obj([]), rest)
  {
    hide ParseValue, NextMember, Text, Tabs, NewLine;
    var s := Text(Obj([]), depth, f) + rest;
    var blanks := NewLine(f) + Tabs(depth, f);
    EmptyObjectText(depth, f);
    assert s[1..] == blanks + ("}" + rest);
    SkipBlanks(blanks, "}" + rest);
    ObjectOpened(s, "}" + rest);
    assert ("}" + rest)[1..] == rest;
  }

  lemma EmptyObjectText(depth: nat, f: Format)
    ensures Text(Obj([]), depth, f) == "{" + (NewLine(f) + Tabs(depth, f)) + "}"
    ensures forall i | 0 <= i < |NewLine(f) + Tabs(depth, f)| :: (NewLine(f) + Tabs(depth, f))[i] <= ' '
  {
    assert MembersText([], depth + 1, f) == "";
    assert "{" + NewLine(f) + "" + Tabs(depth, f) + "}" == "{" + (NewLine(f) + Tabs(depth, f)) + "}";
  }

  lemma {:induction false} ObjectRoundTrip(members: seq<Member>, depth: nat, f: Format, rest: string)
    requires forall m | m in members :: NulFree(m.name) && Printable(m.value)
    ensures ParseValue(Text(Obj(members), depth, f) + rest) == Ok(Obj(members), rest)
    decreases members, 1
  {
    hide ParseValue, NextMember, MembersText;
    if members == [] {
      EmptyObjectRoundTrip(depth, f, rest);
    } else {
      hide Tabs;
      var s := Text(Obj(members), depth, f) + rest;
      var u := NewLine(f) + (MembersText(members, depth + 1, f) + (Tabs(depth, f) + "}" + rest));
      assert s[1..] == u;
      MembersRoundTrip([], members, NewLine(f), depth, f, rest);
      assert [] + members == members;
      ObjectOpened(s, Skip(u));
    }
  }

  lemma {:induction false} MemberRoundTrip(m: Member, depth: nat, f: Format, rest: string)
    requires NulFree(m.name) && Printable(m.value) && !ExtendsNumber(Head(rest))
    ensures ParseMember(StringText(m.name) + (Colon(f) + (Text(m.value, depth, f) + rest))) == Ok(m, rest)
    decreases m, 2
  {
    hide ParseString, ParseValue, ParseMember, StringText, Text;
    var u := Text(m.value, depth, f) + rest;
    StringRoundTrip(m.name, Colon(f) + u);
    assert Colon(f) == ":" + Colon(f)[1..];
    assert Colon(f) + u == ":" + Colon(f)[1..] + u;
    TextStart(m.value, depth, f);
    ValueRoundTrip(m.value, depth, f, rest);
    NameParsed(StringText(m.name) + (Colon(f) + u), m.name, Colon(f)[1..], u, m.value, rest);
  }

  /** What the printer puts behind the first member. */
  function AfterMember(members: seq<Member>, depth: nat, f: Format, rest: string): string
    requires members != []
  {
    (if |members| == 1 then "" else ",")
    + (NewLine(f) + (MembersText(members[1..], depth + 1, f) + (Tabs(depth, f) + "}" + rest)))
  }

  lemma FirstMember(members: seq<Member>, depth: nat, f: Format, rest: string)
    requires members != []
    ensures MembersText(members, depth + 1, f) + (Tabs(depth, f) + "}" + rest) ==
            Tabs(depth + 1, f) + (StringText(members[0].name) + (Colon(f) +
            (Text(members[0].value, depth + 1, f) + AfterMember(members, depth, f, rest))))
  {
    var m := members[0];
    var sep := if |members| == 1 then "" else ",";
    var close := Tabs(depth, f) + "}" + rest;
    var more := MembersText(members[1..], depth + 1, f);
    var member := MemberText(m, depth + 1, f);
    assert MembersText(members, depth + 1, f) == member + sep + NewLine(f) + more;
    assert member == Tabs(depth + 1, f) + StringText(m.name) + Colon(f) + Text(m.value, depth + 1, f);
    hide Text, MembersText, MemberText, Tabs, Colon, NewLine;
    Assoc5(member, sep, NewLine(f), more, close);
    Assoc5(Tabs(depth + 1, f), StringText(m.name), Colon(f), Text(m.value, depth + 1, f),
           sep + (NewLine(f) + (more + close)));
  }

  lemma {:induction false} MembersRoundTrip(done: seq<Member>, members: seq<Member>, blanks: string,
                                            depth: nat, f: Format, rest: string)
    requires members != [] && forall m | m in members :: NulFree(m.name) && Printable(m.value)
    requires forall i | 0 <= i < |blanks| :: blanks[i] <= ' '
    ensures var s := Skip(blanks + (MembersText(members, depth + 1, f) + (Tabs(depth, f) + "}" + rest)));
            Head(s) == '\"' && NextMember(done, s) == Ok(Obj(done + members), rest)
    decreases members, 0
  {
    hide ParseMember, NextMember, MembersText, Text, AfterMember, Skip, Printable, StringText;
    var m := members[0];
    var tail := AfterMember(members, depth, f, rest);
    var body := StringText(m.name) + (Colon(f) + (Text(m.value, depth + 1, f) + tail));
    FirstMember(members, depth, f, rest);
    Assoc3(blanks, Tabs(depth + 1, f), body);
    assert body[0] == '\"' by { QuoteFirst(m.name, Colon(f) + (Text(m.value, depth + 1, f) + tail)); }
    SkipBlanks(blanks + Tabs(depth + 1, f), body);
    MembersTail(members, depth, f, rest);
    MemberRoundTrip(m, depth + 1, f, tail);
    MemberParsed(done, body, m, tail);
    if |members| == 1 {
      assert done + [m] == done + members;
    } else {
      MembersRoundTrip(done + [m], members[1..], NewLine(f), depth, f, rest);
      assert done + [m] + members[1..] == done + members;
    }
  }

  lemma QuoteFirst(name: string, rest: string)
    ensures (StringText(name) + rest)[0] == '\"'
  {
  }

  lemma MembersTail(members: seq<Member>, depth: nat, f: Format, rest: string)
    requires members != []
    ensures var tail := AfterMember(members, depth, f, rest);
            var next := MembersText(members[1..], depth + 1, f) + (Tabs(depth, f) + "}" + rest);
            && !ExtendsNumber(Head(tail))
            && (|members| == 1 ==> Skip(tail) == "}" + rest && Skip(tail)[1..] == rest)
            && (|members| > 1 ==> Head(tail) == ',' && Skip(tail) == tail && tail[1..] == NewLine(f) + next)
  {
    var close := Tabs(depth, f) + "}" + rest;
    if |members| == 1 {
      assert MembersText(members[1..], depth + 1, f) == "";
      assert AfterMember(members, depth, f, rest) == "" + (NewLine(f) + ("" + close));
      hide AfterMember, MembersText, Skip;
      Assoc4(NewLine(f), Tabs(depth, f), "}", rest);
      Assoc3(NewLine(f), Tabs(depth, f), "}" + rest);
      Assoc3(Tabs(depth, f), "}", rest);
      assert "" + (NewLine(f) + ("" + close)) == NewLine(f) + close;
      SkipBlanks(NewLine(f) + Tabs(depth, f), "}" + rest);
      DropFirst("}", rest);
    } else {
      hide MembersText;
      DropFirst(",", NewLine(f) + (MembersText(members[1..], depth + 1, f) + close));
    }
  }

  /** Parsing the printed text of a tree gives the tree, for either format. */
  lemma PrintParse(t: Json, f: Format)
    requires Printable(t)
    ensures Parse(Text(t, 0, f), true) == Ok(t, [])
  {
    TextStart(t, 0, f);
    ValueRoundTrip(t, 0, f, []);
    assert Text(t, 0, f) + [] == Text(t, 0, f);
  }
}
