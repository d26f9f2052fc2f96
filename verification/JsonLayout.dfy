/** White space between tokens means nothing, and what the characters of a text stand for. */
module JsonLayout {
  import opened CText
  import opened JsonText
  import opened JsonPrint
  import opened JsonRoundTrip

  // ----- white space between tokens -----

  /** What stands between the tokens of a text. */
  datatype Space = Space(open: string, close: string, beforeComma: string, afterComma: string,
                         beforeColon: string, afterColon: string)

  /** Every control character and the blank are white space: the codes from 1 to 32. */
  predicate Blank(s: string) { forall i | 0 <= i < |s| :: 1 <= s[i] as int <= 32 }

  predicate SpaceOk(w: Space) {
    && Blank(w.open) && Blank(w.close) && Blank(w.beforeComma) && Blank(w.afterComma)
    && Blank(w.beforeColon) && Blank(w.afterColon)
  }

  /** The text of a tree with that white space between its tokens. */
  function Wide(t: Json, w: Space): string
    decreases t, 1
  {
    match t
    case Null => "null"
    case Bool(b) => if b then "true" else "false"
    case Num(n) => IntText(n.mantissa)
    case Str(s) => StringText(s)
    case Arr(items) => "[" + (w.open + (if items == [] then "]" else WideItems(items, w)))
    case Obj(members) => "{" + (w.open + (if members == [] then "}" else WideMembers(members, w)))
  }

  function WideItems(items: seq<Json>, w: Space): string
    requires items != []
    decreases items, 0
  {
    Wide(items[0], w) +
    if |items| == 1 then w.close + "]" else w.beforeComma + ("," + (w.afterComma + WideItems(items[1..], w)))
  }

  function WideMember(m: Member, w: Space): string
    decreases m, 2
  {
    StringText(m.name) + (w.beforeColon + (":" + (w.afterColon + Wide(m.value, w))))
  }

  function WideMembers(members: seq<Member>, w: Space): string
    requires members != []
    decreases members, 0
  {
    WideMember(members[0], w) +
    if |members| == 1 then w.close + "}" else w.beforeComma + ("," + (w.afterComma + WideMembers(members[1..], w)))
  }

  lemma BlankSkipped(b: string, s: string)
    requires Blank(b) && s != [] && s[0] > ' '
    ensures Skip(b + s) == s
  {
    SkipBlanks(b, s);
  }

  lemma BlankStart(b: string, c: char, s: string)
    requires Blank(b) && c > ' '
    ensures var t := b + ([c] + s); Skip(t) == [c] + s && (Head(t) == c || Head(t) <= ' ')
  {
    BlankSkipped(b, [c] + s);
    if b != [] { assert (b + ([c] + s))[0] == b[0]; } else { assert b + ([c] + s) == [c] + s; }
  }

  lemma WideStart(t: Json, w: Space)
    ensures Wide(t, w) != [] && Wide(t, w)[0] > ' ' && Wide(t, w)[0] != ']' && Wide(t, w)[0] != '}'
  {
  }

  lemma {:induction false} WideParses(t: Json, w: Space, rest: string)
    requires Printable(t) && SpaceOk(w) && (t.Num? ==> !Extends(t.number.mantissa, rest))
    ensures ParseValue(Wide(t, w) + rest) == Ok(t, rest)
    decreases t, 1
  {
    hide ParseValue, IntText, StringText, Extends;
    match t
    case Null => LiteralParsed("null", rest);
    case Bool(b) => LiteralParsed(if b then "true" else "false", rest);
    case Num(n) => IntParsed(n, rest);
    case Str(s) => TextRoundTrip(s, rest);
    case Arr(items) => ArrayWide(items, w, rest);
    case Obj(members) => ObjectWide(members, w, rest);
  }

  lemma IntParsed(n: Number, rest: string)
    requires IsPlainInt(n) && !Extends(n.mantissa, rest)
    ensures ParseValue(IntText(n.mantissa) + rest) == Ok(Num(n), rest)
  {
    hide ParseValue, ParseNumber, Extends;
    var s := IntText(n.mantissa) + rest;
    assert s[0] == IntText(n.mantissa)[0];
    NumberRoundTrip(n.mantissa, rest);
    Dispatch(s);
  }

  lemma {:induction false} ArrayWide(items: seq<Json>, w: Space, rest: string)
    requires (forall x | x in items :: Printable(x)) && SpaceOk(w)
    ensures ParseValue(Wide(Arr(items), w) + rest) == Ok(Arr(items), rest)
    decreases items, 1
  {
    hide ParseValue, NextItem, WideItems, Skip;
    var s := Wide(Arr(items), w) + rest;
    if items == [] {
      assert s[1..] == w.open + ("]" + rest);
      BlankSkipped(w.open, "]" + rest);
      ArrayOpened(s, "]" + rest);
      assert ("]" + rest)[1..] == rest;
    } else {
      var u := WideItems(items, w) + rest;
      assert s[1..] == w.open + u;
      ItemsWide([], items, w, rest);
      BlankSkipped(w.open, u);
      ArrayOpened(s, u);
      assert [] + items == items;
    }
  }

  lemma ItemThen(done: seq<Json>, s: string, item: Json, tail: string)
    requires ParseValue(s) == Ok(item, tail)
    ensures Head(Skip(tail)) == ']' ==> NextItem(done, s) == Ok(Arr(done + [item]), Skip(tail)[1..])
    ensures Head(Skip(tail)) == ',' ==> NextItem(done, s) == NextItem(done + [item], Skip(Skip(tail)[1..]))
  {
    hide ParseValue, Skip;
  }

  /** What stands behind the first item or member. */
  function Behind(last: bool, close: string, w: Space, more: string, rest: string): string {
    if last then w.close + (close + rest) else w.beforeComma + ("," + (w.afterComma + (more + rest)))
  }

  lemma BehindMeans(last: bool, close: string, w: Space, more: string, rest: string)
    requires SpaceOk(w) && (close == "]" || close == "}") && (!last ==> more != [] && more[0] > ' ')
    ensures var tail := Behind(last, close, w, more, rest);
            && !ExtendsNumber(Head(tail))
            && (last ==> Skip(tail) == close + rest && Head(Skip(tail)) == close[0] && Skip(tail)[1..] == rest)
            && (!last ==> Head(Skip(tail)) == ',' && Skip(Skip(tail)[1..]) == more + rest)
  {
    hide Skip;
    if last {
      BlankStart(w.close, close[0], rest);
      assert close + rest == [close[0]] + rest && (close + rest)[1..] == rest;
    } else {
      var u := w.afterComma + (more + rest);
      BlankStart(w.beforeComma, ',', u);
      assert "," + u == [','] + u && ("," + u)[1..] == u;
      BlankSkipped(w.afterComma, more + rest);
    }
  }

  lemma {:induction false} ItemsWide(done: seq<Json>, items: seq<Json>, w: Space, rest: string)
    requires items != [] && (forall x | x in items :: Printable(x)) && SpaceOk(w)
    ensures var s := WideItems(items, w) + rest;
            s[0] > ' ' && s[0] != ']' && NextItem(done, s) == Ok(Arr(done + items), rest)
    decreases items, 0
  {
    hide ParseValue, NextItem, Wide, Skip, Printable, Behind;
    var last, x := |items| == 1, Wide(items[0], w);
    var more := if last then "" else WideItems(items[1..], w);
    var tail := Behind(last, "]", w, more, rest);
    WideStart(items[0], w);
    ItemsFirst(items, w, rest);
    hide WideItems;
    if !last { ItemsWide(done + [items[0]], items[1..], w, rest); WideItemsStart(items[1..], w); }
    BehindMeans(last, "]", w, more, rest);
    WideParses(items[0], w, tail);
    ItemThen(done, x + tail, items[0], tail);
    assert (x + tail)[0] == x[0];
    if last {
      assert done + [items[0]] == done + items;
    } else {
      assert done + [items[0]] + items[1..] == done + items;
    }
  }

  lemma WideItemsStart(items: seq<Json>, w: Space)
    requires items != []
    ensures WideItems(items, w) != [] && WideItems(items, w)[0] > ' '
  {
    hide Wide;
    WideStart(items[0], w);
  }

  lemma ItemsFirst(items: seq<Json>, w: Space, rest: string)
    requires items != []
    ensures WideItems(items, w) + rest ==
            Wide(items[0], w) +
            Behind(|items| == 1, "]", w, if |items| == 1 then "" else WideItems(items[1..], w), rest)
  {
    hide Wide;
    var x := Wide(items[0], w);
    if |items| == 1 {
      Assoc4(x, w.close, "]", rest);
      Assoc3(x, w.close, "]");
    } else {
      var more := WideItems(items[1..], w);
      assert WideItems(items, w) == x + (w.beforeComma + ("," + (w.afterComma + more)));
      hide WideItems;
      Shifted(x, w.beforeComma, ",", w.afterComma, more, rest);
    }
  }

  lemma Shifted(a: string, b: string, c: string, d: string, e: string, f: string)
    ensures a + (b + (c + (d + e))) + f == a + (b + (c + (d + (e + f))))
  {
    Assoc5(a, b, c, d, e);
    Assoc3(a + b + c + d, e, f);
    Assoc5(a, b, c, d, e + f);
  }

  lemma {:induction false} ObjectWide(members: seq<Member>, w: Space, rest: string)
    requires (forall m | m in members :: NulFree(m.name) && Printable(m.value)) && SpaceOk(w)
    ensures ParseValue(Wide(Obj(members), w) + rest) == Ok(Obj(members), rest)
    decreases members, 1
  {
    hide ParseValue, NextMember, WideMembers, Skip;
    var s := Wide(Obj(members), w) + rest;
    if members == [] {
      assert s[1..] == w.open + ("}" + rest);
      BlankSkipped(w.open, "}" + rest);
      ObjectOpened(s, "}" + rest);
      assert ("}" + rest)[1..] == rest;
    } else {
      var u := WideMembers(members, w) + rest;
      assert s[1..] == w.open + u;
      MembersWide([], members, w, rest);
      BlankSkipped(w.open, u);
      ObjectOpened(s, u);
      assert [] + members == members;
    }
  }

  lemma {:induction false} MemberWide(m: Member, w: Space, rest: string)
    requires NulFree(m.name) && Printable(m.value) && SpaceOk(w) && !ExtendsNumber(Head(rest))
    ensures ParseMember(WideMember(m, w) + rest) == Ok(m, rest)
    decreases m, 2
  {
    hide ParseString, ParseValue, ParseMember, StringText, Wide, Skip;
    var u := Wide(m.value, w) + rest;
    var c := w.afterColon + u;
    var b := w.beforeColon + (":" + c);
    Shifted(StringText(m.name), w.beforeColon, ":", w.afterColon, Wide(m.value, w), rest);
    StringRoundTrip(m.name, b);
    BlankStart(w.beforeColon, ':', c);
    assert ":" + c == [':'] + c && (":" + c)[1..] == c;
    WideStart(m.value, w);
    assert u[0] == Wide(m.value, w)[0];
    BlankSkipped(w.afterColon, u);
    WideParses(m.value, w, rest);
    NameThen(StringText(m.name) + b, m.name, b);
  }

  lemma NameThen(s: string, name: string, b: string)
    requires ParseString(s) == Ok(name, b) && Head(Skip(b)) == ':' && ParseValue(Skip(Skip(b)[1..])).Ok?
    ensures var r := ParseValue(Skip(Skip(b)[1..])); ParseMember(s) == Ok(Member(name, r.value), r.rest)
  {
    hide ParseString, ParseValue, Skip;
  }

  lemma {:induction false} MembersWide(done: seq<Member>, members: seq<Member>, w: Space, rest: string)
    requires members != [] && (forall m | m in members :: NulFree(m.name) && Printable(m.value)) && SpaceOk(w)
    ensures var s := WideMembers(members, w) + rest;
            s[0] > ' ' && s[0] != '}' && NextMember(done, s) == Ok(Obj(done + members), rest)
    decreases members, 0
  {
    hide ParseMember, NextMember, Skip, Printable, Behind, WideMember;
    var last, x := |members| == 1, WideMember(members[0], w);
    var more := if last then "" else WideMembers(members[1..], w);
    var tail := Behind(last, "}", w, more, rest);
    MemberStart(members[0], w);
    MembersFirst(members, w, rest);
    if !last { MembersWide(done + [members[0]], members[1..], w, rest); MemberStart(members[1], w); }
    hide WideMembers;
    BehindMeans(last, "}", w, more, rest);
    MemberWide(members[0], w, tail);
    MemberParsed(done, x + tail, members[0], tail);
    assert (x + tail)[0] == x[0];
    if last {
      assert done + [members[0]] == done + members;
    } else {
      assert done + [members[0]] + members[1..] == done + members;
    }
  }

  lemma MemberStart(m: Member, w: Space)
    ensures WideMember(m, w) != [] && WideMember(m, w)[0] == '\"'
  {
  }

  lemma MembersFirst(members: seq<Member>, w: Space, rest: string)
    requires members != []
    ensures WideMembers(members, w) + rest ==
            WideMember(members[0], w) +
            Behind(|members| == 1, "}", w, if |members| == 1 then "" else WideMembers(members[1..], w), rest)
  {
    hide WideMember;
    var x := WideMember(members[0], w);
    if |members| == 1 {
      Assoc4(x, w.close, "}", rest);
      Assoc3(x, w.close, "}");
    } else {
      var more := WideMembers(members[1..], w);
      assert WideMembers(members, w) == x + (w.beforeComma + ("," + (w.afterComma + more)));
      hide WideMembers;
      Shifted(x, w.beforeComma, ",", w.afterComma, more, rest);
    }
  }

  /** Whatever white space stands around and between its tokens, a text means the same tree. */
  lemma SpacedTextParses(t: Json, w: Space, a: string, b: string, whole: bool)
    requires Printable(t) && SpaceOk(w) && Blank(a) && Blank(b)
    ensures Parse(a + (Wide(t, w) + b), whole) == Ok(t, if whole then [] else b)
  {
    hide ParseValue, Wide, Skip;
    WideStart(t, w);
    assert (Wide(t, w) + b)[0] == Wide(t, w)[0];
    BlankSkipped(a, Wide(t, w) + b);
    BlankStops(t, b);
    WideParses(t, w, b);
    AllBlank(b);
  }

  lemma BlankStops(t: Json, b: string)
    requires Blank(b)
    ensures t.Num? ==> !Extends(t.number.mantissa, b)
  {
  }

  lemma {:induction false} AllBlank(b: string)
    requires Blank(b)
    ensures Skip(b) == []
  {
    if b != [] { AllBlank(b[1..]); }
  }

  // ----- escapes -----

  /** Every one-letter escape. */
  lemma EscapeMeans(c: char, rest: string)
    requires c != 'u'
    ensures Decode(['\\', c] + rest) ==
            Prepend([if c == 'b' then 8 as char else if c == 'f' then 12 as char else if c == 'n' then 10 as char
                     else if c == 'r' then 13 as char else if c == 't' then 9 as char else c], Decode(rest))
  {
    var s := ['\\', c] + rest;
    assert s[2..] == rest;
  }

  const LowerHex: string := "0123456789abcdef"
  const UpperHex: string := "0123456789ABCDEF"

  /** The sixteen digits, in either case; nothing else is one. */
  lemma HexSpelled(d: nat)
    requires d < 16
    ensures HexValue(LowerHex[d]) == d && HexValue(UpperHex[d]) == d && HexDigit(d) == LowerHex[d]
  {
  }

  lemma HexRefused(c: char)
    requires !IsHex(c)
    ensures c !in LowerHex && c !in UpperHex
  {
    forall d: nat | d < 16
      ensures LowerHex[d] != c && UpperHex[d] != c
    {
      HexSpelled(d);
    }
  }

  /** How a character is printed: as itself, by a letter, or by its code in lower-case digits. */
  lemma EscapePrinted(c: char)
    ensures c as int >= 32 && c != '\"' && c != '\\' ==> EscapeChar(c) == [c]
    ensures c == '\"' || c == '\\' ==> EscapeChar(c) == ['\\', c]
    ensures c as int == 8 ==> EscapeChar(c) == "\\b"
    ensures c as int == 9 ==> EscapeChar(c) == "\\t"
    ensures c as int == 10 ==> EscapeChar(c) == "\\n"
    ensures c as int == 12 ==> EscapeChar(c) == "\\f"
    ensures c as int == 13 ==> EscapeChar(c) == "\\r"
    ensures c as int < 32 && !(8 <= c as int <= 10) && !(12 <= c as int <= 13) ==>
              EscapeChar(c) == "\\u00" + [LowerHex[c as int / 16], LowerHex[c as int % 16]]
  {
    if c as int < 32 {
      HexSpelled(c as int / 16);
      HexSpelled(c as int % 16);
      hide HexDigit;
    }
  }

  // ----- the printed layout -----

  function Tab(n: nat): string { Repeat('\t', n) }

  /** Arrays on one line, with a blank behind each comma in formatted output. */
  lemma ArrayPrinted(x: Json, y: Json, depth: nat, f: Format)
    ensures Text(Arr([]), depth, f) == "[]"
    ensures Text(Arr([x]), depth, f) == "[" + Text(x, depth + 1, f) + "]"
    ensures Text(Arr([x, y]), depth, f) ==
            "[" + (Text(x, depth + 1, f) + (if f.pretty then ", " else ",") + Text(y, depth + 1, f)) + "]"
  {
    PairText(x, y, depth + 1, f);
    hide ItemsText;
  }

  lemma PairText(x: Json, y: Json, depth: nat, f: Format)
    ensures ItemsText([x], depth, f) == Text(x, depth, f)
    ensures ItemsText([x, y], depth, f) ==
            Text(x, depth, f) + (if f.pretty then ", " else ",") + Text(y, depth, f)
  {
    hide Text;
    assert [x, y][1..] == [y];
    assert ItemsText([y], depth, f) == Text(y, depth, f);
  }

  /** Objects with every member on a line of its own in formatted output, a tab for each level and behind the colon. */
  lemma ObjectPrinted(m: Member, n: Member, depth: nat, f: Format)
    requires f.pretty
    ensures Text(Obj([]), depth, f) == "{\n" + Tab(depth) + "}"
    ensures Text(Obj([m]), depth, f) ==
            "{\n" + (Tab(depth + 1) + StringText(m.name) + ":\t" + Text(m.value, depth + 1, f) + "\n")
            + Tab(depth) + "}"
    ensures Text(Obj([m, n]), depth, f) ==
            "{\n" + (Tab(depth + 1) + StringText(m.name) + ":\t" + Text(m.value, depth + 1, f) + ",\n"
                     + (Tab(depth + 1) + StringText(n.name) + ":\t" + Text(n.value, depth + 1, f) + "\n"))
            + Tab(depth) + "}"
  {
    hide StringText;
    assert "{" + "\n" == "{\n";
    OneMember(n, depth + 1, f);
    OneMember(m, depth + 1, f);
    assert MembersText([], depth + 1, f) == "";
    assert "{" + "\n" + "" + Tab(depth) + "}" == "{\n" + Tab(depth) + "}";
    TwoMembers(m, n, depth + 1, f);
  }

  lemma OneMember(m: Member, depth: nat, f: Format)
    requires f.pretty
    ensures MembersText([m], depth, f) ==
            Tab(depth) + StringText(m.name) + ":\t" + Text(m.value, depth, f) + "\n"
  {
    hide StringText, Text;
    assert MembersText([m][1..], depth, f) == "";
    var x := MemberText(m, depth, f);
    assert x + "" + "\n" + "" == x + "\n";
  }

  lemma TwoMembers(m: Member, n: Member, depth: nat, f: Format)
    requires f.pretty
    ensures MembersText([m, n], depth, f) ==
            Tab(depth) + StringText(m.name) + ":\t" + Text(m.value, depth, f) + ",\n" + MembersText([n], depth, f)
  {
    assert [m, n][1..] == [n];
    var x, more := MemberText(m, depth, f), MembersText([n], depth, f);
    assert MembersText([m, n], depth, f) == x + "," + "\n" + more;
    hide StringText, Text, MembersText;
    assert x + "," + "\n" == x + ",\n";
  }

  /** Without formatting there is no white space at all. */
  lemma ObjectPrintedFlat(m: Member, n: Member, depth: nat, f: Format)
    requires !f.pretty
    ensures Text(Obj([]), depth, f) == "{}"
    ensures Text(Obj([m, n]), depth, f) ==
            "{" + (StringText(m.name) + ":" + Text(m.value, depth + 1, f) + ","
                   + (StringText(n.name) + ":" + Text(n.value, depth + 1, f))) + "}"
  {
    hide Text, MembersText, StringText;
    FlatBraces([], depth, f);
    FlatBraces([m, n], depth, f);
    NoMembersText(depth + 1, f);
    FlatObject(m, n, depth + 1, f);
  }

  lemma FlatBraces(members: seq<Member>, depth: nat, f: Format)
    requires !f.pretty
    ensures Text(Obj(members), depth, f) == "{" + MembersText(members, depth + 1, f) + "}"
  {
    hide MembersText;
    var body := MembersText(members, depth + 1, f);
    assert "{" + "" + body + "" + "}" == "{" + body + "}";
  }

  lemma NoMembersText(depth: nat, f: Format)
    ensures MembersText([], depth, f) == "" && "{" + "" + "}" == "{}"
  {
  }

  lemma FlatObject(m: Member, n: Member, depth: nat, f: Format)
    requires !f.pretty
    ensures MembersText([m, n], depth, f) ==
            StringText(m.name) + ":" + Text(m.value, depth, f) + ","
            + (StringText(n.name) + ":" + Text(n.value, depth, f))
  {
    FlatMember(m, depth, f);
    FlatMember(n, depth, f);
    hide MemberText, Text, StringText;
    var a, b := MemberText(m, depth, f), MemberText(n, depth, f);
    assert [m, n][1..] == [n] && [n][1..] == [];
    assert MembersText([], depth, f) == "";
    assert MembersText([n], depth, f) == b + "" + "" + "";
    assert MembersText([m, n], depth, f) == a + "," + "" + MembersText([n], depth, f);
    hide MembersText;
    assert b + "" + "" + "" == b && a + "," + "" == a + ",";
  }

  lemma FlatMember(m: Member, depth: nat, f: Format)
    requires !f.pretty
    ensures MemberText(m, depth, f) == StringText(m.name) + ":" + Text(m.value, depth, f)
  {
    hide StringText, Text;
    assert "" + StringText(m.name) == StringText(m.name);
  }

  // ----- errors -----

  /** Where the error position is: at the offending token. */
  lemma ErrorPlaces(rest: string)
    requires rest != [] && rest[0] > ' '
    ensures rest[0] != ',' && rest[0] != ']' ==> ArrayTail([Null], rest) == Err(rest)
    ensures rest[0] != ',' && rest[0] != '}' ==> ObjectTail([], rest) == Err(rest)
    ensures rest[0] != '\"' ==> ParseMember(rest) == Err(rest)
    ensures Parse("null " + rest, true) == Err(rest)
    ensures Parse("null " + rest, false) == Ok(Null, " " + rest)
    ensures rest[0] != ':' ==> ParseMember("\"\" " + rest) == Err(rest)
  {
    hide ParseValue, ParseString, Parse, ParseMember;
    WordThenRest(rest);
    NameThenRest(rest);
    if rest[0] != '\"' { NoName(rest); }
  }

  lemma WordThenRest(rest: string)
    requires rest != [] && rest[0] > ' '
    ensures Parse("null " + rest, true) == Err(rest) && Parse("null " + rest, false) == Ok(Null, " " + rest)
  {
    hide ParseValue;
    var s := "null" + (" " + rest);
    assert "null " + rest == s && s[0] == 'n';
    LiteralParsed("null", " " + rest);
    assert Skip(s) == s;
    BlankSkipped(" ", rest);
  }

  lemma NameThenRest(rest: string)
    requires rest != [] && rest[0] > ' '
    ensures rest[0] != ':' ==> ParseMember("\"\" " + rest) == Err(rest)
  {
    hide ParseValue, ParseString, Skip;
    var t := StringText("") + (" " + rest);
    assert t == "\"\" " + rest by { assert StringText("") == "\"\""; }
    StringRoundTrip("", " " + rest);
    BlankSkipped(" ", rest);
  }

  lemma NoName(s: string)
    requires Head(s) != '\"'
    ensures ParseMember(s) == Err(s)
  {
    hide ParseValue;
    assert ParseString(s) == Err(s);
  }

  /** A value starts with a quote, a minus, a digit, a bracket, a brace or one of three words; the rest is refused. */
  lemma ValueRefused(s: string)
    requires s != [] ==> s[0] != '\"' && s[0] != '-' && !('0' <= s[0] <= '9') && s[0] != '[' && s[0] != '{'
    requires !StartsWith(s, "null") && !StartsWith(s, "true") && !StartsWith(s, "false")
    ensures ParseValue(s) == Err(s) && NextItem([], s) == Err(s)
  {
  }

  /** A comma must be followed by another item or member. */
  lemma TrailingCommaRefused(items: seq<Json>, members: seq<Member>, w: string, rest: string)
    requires Blank(w)
    ensures ArrayTail(items, "," + (w + ("]" + rest))) == Err("]" + rest)
    ensures ObjectTail(members, "," + (w + ("}" + rest))) == Err("}" + rest)
  {
    hide Skip, ParseValue;
    var a, b := "," + (w + ("]" + rest)), "," + (w + ("}" + rest));
    assert a[1..] == w + ("]" + rest) && b[1..] == w + ("}" + rest);
    BlankSkipped(w, "]" + rest);
    BlankSkipped(w, "}" + rest);
    BracketRefused("]" + rest);
    NoName("}" + rest);
  }

  lemma WordStart(s: string, word: string)
    requires word != []
    ensures StartsWith(s, word) ==> s != [] && s[0] == word[0]
  {
    if StartsWith(s, word) { assert s[..|word|][0] == s[0]; }
  }

  lemma BracketRefused(s: string)
    requires Head(s) == ']'
    ensures ParseValue(s) == Err(s)
  {
    WordStart(s, "null");
    WordStart(s, "true");
    WordStart(s, "false");
  }
}
