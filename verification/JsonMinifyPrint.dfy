/** Minifying the formatted output of a tree gives its unformatted output. */
module JsonMinifyPrint {
  import opened CText
  import opened JsonText
  import opened JsonPrint
  import opened JsonMinify
  import opened JsonRoundTrip

  function Flat(f: Format): Format { f.(pretty := false) }

  /** Floating-point texts contain no white space, quote or slash. */
  ghost predicate PlainFloats(f: Format) {
    forall n :: PlainText(f.floatText(n))
  }

  predicate PlainText(s: string) { forall i | 0 <= i < |s| :: IsPlain(s[i]) }

  lemma {:induction false} MinifyBlanks(blanks: string, rest: string)
    requires forall i | 0 <= i < |blanks| :: IsBlank(blanks[i])
    ensures Minify(blanks + rest) == Minify(rest)
    decreases |blanks|
  {
    if blanks == [] {
      assert blanks + rest == rest;
    } else {
      DropFirst(blanks, rest);
      assert Minify(blanks + rest) == Minify((blanks + rest)[1..]);
      hide Minify;
      MinifyBlanks(blanks[1..], rest);
    }
  }

  /** A printed literal is copied whatever its characters are. */
  lemma MinifyStringText(s: string, rest: string)
    ensures Minify(StringText(s) + rest) == Prepend(StringText(s), Minify(rest))
  {
    var e := Escape(s);
    var t := StringText(s) + rest;
    var q := "\"" + rest;
    assert t[1..] == e + q;
    ScanEscape(s, rest);
    assert t[..|e| + 2] == StringText(s);
    assert t[|e| + 2..] == rest;
    assert Minify(t) == MinifyLiteral(t);
    hide Minify, ScanBody, Escape;
  }

  lemma MinifyNumberText(n: Number, f: Format, rest: string)
    requires PlainFloats(f)
    ensures Minify(NumberText(n, f) + rest) == Prepend(NumberText(n, f), Minify(rest))
  {
    hide Minify;
    assert PlainText(f.floatText(n));
    MinifyPlainWord(NumberText(n, f), rest);
  }

  lemma {:induction false} MinifyText(t: Json, depth: nat, f: Format, rest: string)
    requires PlainFloats(f)
    ensures Minify(Text(t, depth, f) + rest) == Prepend(Text(t, depth, Flat(f)), Minify(rest))
    decreases t, 1
  {
    hide Minify, PlainFloats;
    match t
    case Null => MinifyPlainWord("null", rest);
    case Bool(b) => MinifyPlainWord(if b then "true" else "false", rest);
    case Num(n) => MinifyNumberText(n, f, rest);
    case Str(s) => MinifyStringText(s, rest);
    case Arr(items) => MinifyArray(items, depth, f, rest);
    case Obj(members) => MinifyObject(members, depth, f, rest);
  }

  lemma {:induction false} MinifyArray(items: seq<Json>, depth: nat, f: Format, rest: string)
    requires PlainFloats(f)
    ensures Minify(Text(Arr(items), depth, f) + rest) == Prepend(Text(Arr(items), depth, Flat(f)), Minify(rest))
    decreases items, 1
  {
    hide Minify, PlainFloats, ItemsText;
    if items == [] {
      MinifyPlainWord("[]", rest);
    } else {
      var x := ItemsText(items, depth + 1, f);
      var y := ItemsText(items, depth + 1, Flat(f));
      Assoc4("[", x, "]", rest);
      MinifyPlainWord("[", x + ("]" + rest));
      MinifyItems(items, depth + 1, f, "]" + rest);
      MinifyPlainWord("]", rest);
      PrependPrepend(y, "]", Minify(rest));
      PrependPrepend("[", y + "]", Minify(rest));
      Assoc3("[", y, "]");
    }
  }

  lemma {:induction false} MinifyItems(items: seq<Json>, depth: nat, f: Format, rest: string)
    requires items != [] && PlainFloats(f)
    ensures Minify(ItemsText(items, depth, f) + rest) == Prepend(ItemsText(items, depth, Flat(f)), Minify(rest))
    decreases items, 0
  {
    hide Minify, PlainFloats, Text;
    var x := Text(items[0], depth, f);
    var x' := Text(items[0], depth, Flat(f));
    if |items| == 1 {
      MinifyText(items[0], depth, f, rest);
    } else {
      var more := ItemsText(items[1..], depth, f);
      var more' := ItemsText(items[1..], depth, Flat(f));
      assert ItemsText(items, depth, f) == x + Comma(f) + more;
      assert ItemsText(items, depth, Flat(f)) == x' + "," + more';
      hide ItemsText;
      Assoc4(x, Comma(f), more, rest);
      MinifyText(items[0], depth, f, Comma(f) + (more + rest));
      MinifyComma(f, more + rest);
      MinifyItems(items[1..], depth, f, rest);
      PrependPrepend(",", more', Minify(rest));
      PrependPrepend(x', "," + more', Minify(rest));
      Assoc3(x', ",", more');
    }
  }

  lemma MinifyComma(f: Format, rest: string)
    ensures Minify(Comma(f) + rest) == Prepend(",", Minify(rest))
    ensures Minify(Colon(f) + rest) == Prepend(":", Minify(rest))
  {
    hide Minify;
    MinifyMark(",", Comma(f)[1..], rest);
    MinifyMark(":", Colon(f)[1..], rest);
    assert Comma(f) == "," + Comma(f)[1..];
    assert Colon(f) == ":" + Colon(f)[1..];
  }

  lemma MinifyMark(mark: string, blanks: string, rest: string)
    requires PlainText(mark) && forall i | 0 <= i < |blanks| :: IsBlank(blanks[i])
    ensures Minify(mark + blanks + rest) == Prepend(mark, Minify(rest))
  {
    hide Minify;
    Assoc3(mark, blanks, rest);
    MinifyPlainWord(mark, blanks + rest);
    MinifyBlanks(blanks, rest);
  }

  lemma {:induction false} MinifyObject(members: seq<Member>, depth: nat, f: Format, rest: string)
    requires PlainFloats(f)
    ensures Minify(Text(Obj(members), depth, f) + rest) == Prepend(Text(Obj(members), depth, Flat(f)), Minify(rest))
    decreases members, 1
  {
    var g := Flat(f);
    var x := MembersText(members, depth + 1, f);
    var y := MembersText(members, depth + 1, g);
    assert Text(Obj(members), depth, f) == "{" + NewLine(f) + x + Tabs(depth, f) + "}";
    assert Text(Obj(members), depth, g) == "{" + y + "}";
    hide Minify, PlainFloats, MembersText, Text;
    var close := Tabs(depth, f) + ("}" + rest);
    Assoc3("{" + NewLine(f) + x + Tabs(depth, f), "}", rest);
    Assoc4("{" + NewLine(f), x, Tabs(depth, f), "}" + rest);
    MinifyMark("{", NewLine(f), x + close);
    MinifyMembers(members, depth + 1, f, close);
    MinifyBlanks(Tabs(depth, f), "}" + rest);
    MinifyPlainWord("}", rest);
    PrependPrepend(y, "}", Minify(rest));
    PrependPrepend("{", y + "}", Minify(rest));
    Assoc3("{", y, "}");
  }

  lemma {:induction false} MinifyMember(m: Member, depth: nat, f: Format, rest: string)
    requires PlainFloats(f)
    ensures Minify(MemberText(m, depth, f) + rest) == Prepend(MemberText(m, depth, Flat(f)), Minify(rest))
    decreases m, 2
  {
    hide Minify, PlainFloats, Text, StringText;
    var v := Text(m.value, depth, f);
    var v' := Text(m.value, depth, Flat(f));
    var name := StringText(m.name);
    Assoc5(Tabs(depth, f), name, Colon(f), v, rest);
    MinifyBlanks(Tabs(depth, f), name + (Colon(f) + (v + rest)));
    MinifyStringText(m.name, Colon(f) + (v + rest));
    MinifyComma(f, v + rest);
    MinifyText(m.value, depth, f, rest);
    PrependPrepend(":", v', Minify(rest));
    PrependPrepend(name, ":" + v', Minify(rest));
    Assoc3(name, ":", v');
    assert MemberText(m, depth, Flat(f)) == name + ":" + v';
  }

  lemma {:induction false} MinifyMembers(members: seq<Member>, depth: nat, f: Format, rest: string)
    requires PlainFloats(f)
    ensures Minify(MembersText(members, depth, f) + rest) == Prepend(MembersText(members, depth, Flat(f)), Minify(rest))
    decreases members, 0
  {
    var g := Flat(f);
    if members == [] {
      hide Minify;
      assert "" + rest == rest;
      PrependNothing(Minify(rest));
    } else {
      var m := MemberText(members[0], depth, f);
      var m' := MemberText(members[0], depth, g);
      var sep := if |members| == 1 then "" else ",";
      var more := MembersText(members[1..], depth, f);
      var more' := MembersText(members[1..], depth, g);
      assert MembersText(members, depth, f) == m + sep + NewLine(f) + more;
      assert MembersText(members, depth, g) == m' + sep + more';
      hide Minify, PlainFloats, MembersText, MemberText;
      Assoc5(m, sep, NewLine(f), more, rest);
      MinifyMember(members[0], depth, f, sep + (NewLine(f) + (more + rest)));
      Assoc3(sep, NewLine(f), more + rest);
      MinifyMark(sep, NewLine(f), more + rest);
      MinifyMembers(members[1..], depth, f, rest);
      PrependPrepend(sep, more', Minify(rest));
      PrependPrepend(m', sep + more', Minify(rest));
      Assoc3(m', sep, more');
    }
  }

  /** `cJSON_Minify` of `cJSON_Print` is `cJSON_PrintUnformatted`, for every tree. */
  lemma MinifyPrint(t: Json, f: Format)
    requires PlainFloats(f)
    ensures Minify(Text(t, 0, f)) == Some(Text(t, 0, Flat(f)))
  {
    hide PlainFloats, Text;
    MinifyText(t, 0, f, []);
    assert Text(t, 0, f) + [] == Text(t, 0, f);
    assert Text(t, 0, Flat(f)) + [] == Text(t, 0, Flat(f));
  }
}
