/** What a parsing function leaves is always the end of the text it was given. */
module JsonSuffix {
  import opened CText
  import opened JsonText

  predicate IsEnd(r: string, s: string) { |r| <= |s| && s[|s| - |r|..] == r }

  lemma EndOfEnd(a: string, b: string, c: string)
    requires IsEnd(a, b) && IsEnd(b, c)
    ensures IsEnd(a, c)
  {
    assert a == b[|b| - |a|..] == c[|c| - |b|..][|b| - |a|..] == c[|c| - |a|..];
  }

  lemma Dropped(s: string, k: nat)
    requires k <= |s|
    ensures IsEnd(s[k..], s)
  {
  }

  /** One character less, and then an end of the rest. */
  lemma DroppedOne(s: string, r: string)
    requires s != [] && IsEnd(r, s[1..])
    ensures IsEnd(r, s)
  {
    Dropped(s, 1);
    EndOfEnd(r, s[1..], s);
  }

  lemma {:induction false} SkipEnd(s: string)
    ensures IsEnd(Skip(s), s)
  {
    hide IsEnd;
    Dropped(s, 0);
    assert s[0..] == s;
    if s != [] && s[0] <= ' ' {
      SkipEnd(s[1..]);
      DroppedOne(s, Skip(s[1..]));
    }
  }

  lemma {:induction false} DigitsEnd(n: int, s: string)
    ensures IsEnd(Digits(n, s).1, s)
    decreases |s|
  {
    hide IsEnd;
    Dropped(s, 0);
    assert s[0..] == s;
    if s != [] && IsDigit(s[0]) {
      DigitsEnd(n * 10 + DigitValue(s[0]), s[1..]);
      DroppedOne(s, Digits(n, s).1);
    }
  }

  lemma WholeEnd(s: string)
    ensures IsEnd(Whole(s).1, s)
  {
    hide Digits, IsEnd;
    Dropped(s, 0);
    assert s[0..] == s;
    DigitsEnd(0, s);
    if Head(s) == '0' {
      Dropped(s, 1);
      DigitsEnd(0, s[1..]);
      DroppedOne(s, Digits(0, s[1..]).1);
    }
  }

  lemma FractionEnd(n: int, s: string)
    ensures IsEnd(Fraction(n, s).1, s)
  {
    hide Digits, IsEnd;
    Dropped(s, 0);
    assert s[0..] == s;
    if Head(s) == '.' {
      DigitsEnd(n, s[1..]);
      DroppedOne(s, Digits(n, s[1..]).1);
    }
  }

  lemma ExponentEnd(s: string)
    ensures IsEnd(Exponent(s).1, s)
  {
    hide Digits, IsEnd;
    Dropped(s, 0);
    assert s[0..] == s;
    if Head(s) == 'e' || Head(s) == 'E' {
      DigitsEnd(0, s[1..]);
      DroppedOne(s, Digits(0, s[1..]).1);
      if |s| > 1 {
        Dropped(s, 2);
        DigitsEnd(0, s[2..]);
        EndOfEnd(Digits(0, s[2..]).1, s[2..], s);
      }
    }
  }

  lemma NumberEnd(s: string)
    ensures IsEnd(ParseNumber(s).1, s)
  {
    hide Whole, Fraction, Exponent, IsEnd;
    var (sign, a) := Sign(s);
    assert IsEnd(a, s) by {
      Dropped(s, 0);
      assert s[0..] == s;
      if Head(s) == '-' { Dropped(s, 1); }
    }
    var (n, b) := Whole(a);
    WholeEnd(a);
    EndOfEnd(b, a, s);
    var (m, c) := Fraction(n, b);
    FractionEnd(n, b);
    EndOfEnd(c, b, s);
    ExponentEnd(c);
    EndOfEnd(Exponent(c).1, c, s);
  }

  lemma StringEnd(s: string)
    ensures ParseString(s).Ok? ==> IsEnd(ParseString(s).rest, s)
  {
    hide ScanBody, Decode;
    if ParseString(s).Ok? {
      var n := ScanBody(s[1..]).value;
      var x := s[1..][n..];
      assert x == s[n + 1..];
      if Head(x) == '\"' { assert x[1..] == s[n + 2..]; }
    }
  }

  lemma {:induction false} ValueEnd(s: string)
    ensures ParseValue(s).Ok? ==> IsEnd(ParseValue(s).rest, s)
    decreases |s|, 1
  {
    hide ParseString, ParseNumber, ParseArray, ParseObject, IsEnd;
    Dispatch(s);
    if StartsWith(s, "null") || StartsWith(s, "true") {
      Dropped(s, 4);
    } else if StartsWith(s, "false") {
      Dropped(s, 5);
    } else if Head(s) == '\"' {
      StringEnd(s);
    } else if Head(s) == '-' || IsDigit(Head(s)) {
      NumberEnd(s);
    } else if Head(s) == '[' {
      ArrayEnd(s);
    } else if Head(s) == '{' {
      ObjectEnd(s);
    }
  }

  lemma {:induction false} ArrayEnd(s: string)
    requires Head(s) == '['
    ensures ParseArray(s).Ok? ==> IsEnd(ParseArray(s).rest, s)
    decreases |s|, 0
  {
    hide NextItem, Skip, IsEnd;
    SkipEnd(s[1..]);
    var t := Skip(s[1..]);
    DroppedOne(s, t);
    if t != [] { Dropped(t, 1); }
    ItemsEnd([], t);
    if ParseArray(s).Ok? { EndOfEnd(ParseArray(s).rest, t, s); }
  }

  lemma {:induction false} ItemsEnd(items: seq<Json>, s: string)
    ensures NextItem(items, s).Ok? ==> IsEnd(NextItem(items, s).rest, s)
    decreases |s|, 2
  {
    hide ParseValue, Skip, IsEnd;
    if NextItem(items, s).Ok? {
      var Ok(item, rest) := ParseValue(s);
      var t := Skip(rest);
      var r := NextItem(items, s).rest;
      assert NextItem(items, s) == ArrayTail(items + [item], t);
      hide NextItem;
      ValueEnd(s);
      SkipEnd(rest);
      EndOfEnd(t, rest, s);
      Dropped(t, 1);
      if Head(t) == ',' {
        SkipEnd(t[1..]);
        DroppedOne(t, Skip(t[1..]));
        ItemsEnd(items + [item], Skip(t[1..]));
        EndOfEnd(r, Skip(t[1..]), t);
      }
      EndOfEnd(r, t, s);
    }
  }

  lemma {:induction false} MemberEnd(s: string)
    ensures ParseMember(s).Ok? ==> IsEnd(ParseMember(s).rest, s)
    decreases |s|, 2
  {
    hide ParseString, ParseValue, Skip, IsEnd;
    if ParseMember(s).Ok? {
      var rest := ParseString(s).rest;
      var t := Skip(rest);
      var v := Skip(t[1..]);
      StringEnd(s);
      SkipEnd(rest);
      EndOfEnd(t, rest, s);
      SkipEnd(t[1..]);
      DroppedOne(t, v);
      EndOfEnd(v, t, s);
      ValueEnd(v);
      EndOfEnd(ParseValue(v).rest, v, s);
    }
  }

  lemma {:induction false} ObjectEnd(s: string)
    requires Head(s) == '{'
    ensures ParseObject(s).Ok? ==> IsEnd(ParseObject(s).rest, s)
    decreases |s|, 0
  {
    hide NextMember, Skip, IsEnd;
    SkipEnd(s[1..]);
    var t := Skip(s[1..]);
    DroppedOne(s, t);
    if t != [] { Dropped(t, 1); }
    MembersEnd([], t);
    if ParseObject(s).Ok? { EndOfEnd(ParseObject(s).rest, t, s); }
  }

  lemma {:induction false} MembersEnd(members: seq<Member>, s: string)
    ensures NextMember(members, s).Ok? ==> IsEnd(NextMember(members, s).rest, s)
    decreases |s|, 3
  {
    hide ParseMember, Skip, IsEnd;
    if NextMember(members, s).Ok? {
      var Ok(member, rest) := ParseMember(s);
      var t := Skip(rest);
      var r := NextMember(members, s).rest;
      assert NextMember(members, s) == ObjectTail(members + [member], t);
      hide NextMember;
      MemberEnd(s);
      SkipEnd(rest);
      EndOfEnd(t, rest, s);
      Dropped(t, 1);
      if Head(t) == ',' {
        SkipEnd(t[1..]);
        DroppedOne(t, Skip(t[1..]));
        MembersEnd(members + [member], Skip(t[1..]));
        EndOfEnd(r, Skip(t[1..]), t);
      }
      EndOfEnd(r, t, s);
    }
  }
}
