/** Reading past the end of the text: what a literal must look like for it, and which texts are safe from it. */
module JsonOverrun {
  import opened CText
  import opened JsonText
  import opened JsonSuffix

  /** The number of backslashes at the end. */
  function Slashes(s: string): (n: nat)
    ensures n <= |s|
    ensures forall i | |s| - n <= i < |s| :: s[i] == '\\'
  {
    if s != [] && s[|s| - 1] == '\\' then 1 + Slashes(s[..|s| - 1]) else 0
  }

  predicate Odd(n: nat) { n % 2 == 1 }

  /** No quote closes the body: each one has an odd number of backslashes in front of it. */
  predicate Unclosed(body: string) {
    forall i | 0 <= i < |body| && body[i] == '\"' :: Odd(Slashes(body[..i]))
  }

  lemma {:induction false} SlashesConcat(a: string, b: string)
    ensures Slashes(a + b) == if Slashes(b) == |b| then Slashes(a) + |b| else Slashes(b)
    decreases |b|
  {
    if b == [] {
      assert a + b == a;
    } else {
      assert (a + b)[..|a + b| - 1] == a + b[..|b| - 1];
      SlashesConcat(a, b[..|b| - 1]);
    }
  }

  /** Text in front with an even number of backslashes at its end escapes nothing. */
  lemma EvenInFront(p: string, y: string)
    requires !Odd(Slashes(p))
    ensures Odd(Slashes(p + y)) <==> Odd(Slashes(y))
  {
    SlashesConcat(p, y);
  }

  lemma UnclosedBehind(p: string, y: string)
    requires !Odd(Slashes(p)) && Unclosed(p)
    ensures Unclosed(p + y) <==> Unclosed(y)
  {
    hide Slashes;
    var x := p + y;
    forall j | 0 <= j < |y|
      ensures x[|p| + j] == y[j] && (Odd(Slashes(x[..|p| + j])) <==> Odd(Slashes(y[..j])))
    {
      assert x[..|p| + j] == p + y[..j];
      EvenInFront(p, y[..j]);
    }
    forall i | 0 <= i < |p|
      ensures x[i] == p[i] && x[..i] == p[..i]
    {
    }
    if Unclosed(y) {
      forall i | 0 <= i < |x| && x[i] == '\"'
        ensures Odd(Slashes(x[..i]))
      {
        if i >= |p| { assert y[i - |p|] == '\"'; }
      }
    }
    if Unclosed(x) {
      forall j | 0 <= j < |y| && y[j] == '\"'
        ensures Odd(Slashes(y[..j]))
      {
        assert x[|p| + j] == '\"';
      }
    }
  }

  /** The front part that one round of the scan passes: a plain character or an escape. */
  lemma Passed(p: string)
    requires (|p| == 1 && p[0] != '\\' && p[0] != '\"') || (|p| == 2 && p[0] == '\\')
    ensures !Odd(Slashes(p)) && Unclosed(p)
  {
    if |p| == 2 {
      assert p[..1] == ['\\'] && p[..1][..0] == [];
    }
  }

  /** The scan runs off a body exactly if no quote closes it and its last backslash escapes nothing. */
  lemma {:induction false} ScanOverruns(body: string)
    ensures ScanBody(body).None? <==> Unclosed(body) && Odd(Slashes(body))
    decreases |body|
  {
    if body == [] {
    } else if body[0] == '\"' {
      assert body[..0] == [];
    } else if body == "\\" {
      assert body[..0] == [];
    } else {
      var k := if body[0] == '\\' then 2 else 1;
      var p, y := body[..k], body[k..];
      assert body == p + y;
      ScanOverruns(y);
      Passed(p);
      hide Slashes, Unclosed;
      UnclosedBehind(p, y);
      EvenInFront(p, y);
    }
  }

  /** `parse_string` runs off exactly on a literal that is left open behind an unpaired backslash. */
  lemma LiteralOverruns(s: string)
    ensures ParseString(s).Overrun? <==> Head(s) == '\"' && Unclosed(s[1..]) && Odd(Slashes(s[1..]))
  {
    hide ScanBody, Decode, Slashes, Unclosed;
    if Head(s) == '\"' { ScanOverruns(s[1..]); }
  }

  // ----- the whole parser -----

  /** The text ends in an unpaired backslash that could belong to a literal. */
  predicate Dangling(s: string) { '\"' in s && Odd(Slashes(s)) }

  /** What holds of the text holds of its end. */
  lemma EndContained(t: string, s: string)
    requires IsEnd(t, s) && !Dangling(s)
    ensures !Dangling(t)
  {
    if '\"' in t {
      var k := |s| - |t|;
      assert s == s[..k] + t;
      SlashesConcat(s[..k], t);
      var i :| 0 <= i < |t| && t[i] == '\"';
    }
  }

  lemma SkipContained(s: string)
    requires !Dangling(s)
    ensures !Dangling(Skip(s))
  {
    hide Dangling, IsEnd, Skip;
    SkipEnd(s);
    EndContained(Skip(s), s);
  }

  lemma RestContained(s: string)
    requires !Dangling(s) && s != []
    ensures !Dangling(s[1..]) && !Dangling(Skip(s[1..]))
  {
    hide Dangling, IsEnd, Skip;
    Dropped(s, 1);
    EndContained(s[1..], s);
    SkipContained(s[1..]);
  }

  lemma StringContained(s: string)
    requires !Dangling(s)
    ensures !ParseString(s).Overrun?
    ensures ParseString(s).Ok? ==> !Dangling(ParseString(s).rest)
  {
    hide ParseString, Slashes, Unclosed, IsEnd;
    LiteralOverruns(s);
    StringEnd(s);
    if ParseString(s).Ok? { EndContained(ParseString(s).rest, s); }
    if Head(s) == '\"' {
      assert s == [s[0]] + s[1..];
      QuoteInFront(s[0], s[1..]);
    }
  }

  lemma QuoteInFront(c: char, y: string)
    requires c == '\"'
    ensures Odd(Slashes([c] + y)) <==> Odd(Slashes(y))
  {
    EvenInFront([c], y);
  }

  /** A value of a text that does not dangle is parsed inside the text, and so is what follows. */
  lemma {:induction false} ValueContained(s: string)
    requires !Dangling(s)
    ensures !ParseValue(s).Overrun?
    ensures ParseValue(s).Ok? ==> !Dangling(ParseValue(s).rest)
    decreases |s|, 1
  {
    hide ParseString, ParseNumber, ParseArray, ParseObject, Dangling, IsEnd;
    Dispatch(s);
    if Head(s) == '\"' {
      StringContained(s);
    } else if Head(s) == '[' {
      ArrayContained(s);
    } else if Head(s) == '{' {
      ObjectContained(s);
    }
    ValueEnd(s);
    if ParseValue(s).Ok? { EndContained(ParseValue(s).rest, s); }
  }

  lemma {:induction false} ArrayContained(s: string)
    requires !Dangling(s) && Head(s) == '['
    ensures !ParseArray(s).Overrun?
    decreases |s|, 0
  {
    hide NextItem, Skip, Dangling;
    RestContained(s);
    ItemsContained([], Skip(s[1..]));
  }

  lemma {:induction false} ItemsContained(items: seq<Json>, s: string)
    requires !Dangling(s)
    ensures !NextItem(items, s).Overrun?
    decreases |s|, 2
  {
    hide ParseValue, Skip, Dangling;
    ValueContained(s);
    if ParseValue(s).Ok? {
      var Ok(item, rest) := ParseValue(s);
      SkipContained(rest);
      var t := Skip(rest);
      assert NextItem(items, s) == ArrayTail(items + [item], t);
      hide NextItem;
      if Head(t) == ',' {
        RestContained(t);
        ItemsContained(items + [item], Skip(t[1..]));
      }
    }
  }

  lemma {:induction false} MemberContained(s: string)
    requires !Dangling(s)
    ensures !ParseMember(s).Overrun?
    ensures ParseMember(s).Ok? ==> !Dangling(ParseMember(s).rest)
    decreases |s|, 2
  {
    hide ParseString, ParseValue, Skip, Dangling;
    StringContained(s);
    if ParseString(s).Ok? {
      var t := Skip(ParseString(s).rest);
      SkipContained(ParseString(s).rest);
      if Head(t) == ':' {
        RestContained(t);
        ValueContained(Skip(t[1..]));
      }
    }
  }

  lemma {:induction false} ObjectContained(s: string)
    requires !Dangling(s) && Head(s) == '{'
    ensures !ParseObject(s).Overrun?
    decreases |s|, 0
  {
    hide NextMember, Skip, Dangling;
    RestContained(s);
    MembersContained([], Skip(s[1..]));
  }

  lemma {:induction false} MembersContained(members: seq<Member>, s: string)
    requires !Dangling(s)
    ensures !NextMember(members, s).Overrun?
    decreases |s|, 3
  {
    hide ParseMember, Skip, Dangling;
    MemberContained(s);
    if ParseMember(s).Ok? {
      var Ok(member, rest) := ParseMember(s);
      SkipContained(rest);
      var t := Skip(rest);
      assert NextMember(members, s) == ObjectTail(members + [member], t);
      hide NextMember;
      if Head(t) == ',' {
        RestContained(t);
        MembersContained(members + [member], Skip(t[1..]));
      }
    }
  }

  /** No text overruns unless it ends in an odd number of backslashes and has a quote. */
  lemma ParseContained(text: string, whole: bool)
    requires !Dangling(text)
    ensures !Parse(text, whole).Overrun?
  {
    hide ParseValue, Skip, Dangling;
    SkipContained(text);
    ValueContained(Skip(text));
  }

  /** A literal of a single backslash overruns; with the backslash paired it is accepted. */
  lemma LoneBackslash(whole: bool)
    ensures Parse("\"\\", whole) == Overrun
    ensures Parse("\"\\\\", true) == Ok(Str("\\"), [])
  {
    var s := "\"\\";
    var t := "\"\\\\";
    LiteralOverruns(s);
    assert s[1..] == "\\" && "\\"[..0] == [];
    assert ParseString(s) == Overrun;
    PairedBackslash();
    hide ParseString, Slashes, Unclosed;
    assert Skip(s) == s && Skip(t) == t;
    Dispatch(s);
    Dispatch(t);
  }

  lemma PairedBackslash()
    ensures ParseString("\"\\\\") == Ok("\\", [])
  {
    var t := "\"\\\\";
    var b := "\\\\";
    assert t[1..] == b && b[2..] == [] && b[..2] == b;
    assert ScanBody([]) == Some(0) && ScanBody(b) == Some(2);
    assert Decode([]) == Some([]) && Decode(b) == Prepend(['\\'], Some([]));
    assert ['\\'] + [] == "\\";
  }
}
