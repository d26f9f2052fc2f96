/** The recursive-descent parser as the C code runs it, proved to compute the grammar's functions. */
module JsonParser {
  import opened CText
  import opened JsonText
  import opened JsonLiteral

  method SkipAt(s: string, p: nat) returns (q: nat)
    requires p <= |s|
    ensures p <= q <= |s| && s[q..] == Skip(s[p..])
  {
    q := p;
    while q < |s| && s[q] <= ' '
      invariant p <= q <= |s| && Skip(s[q..]) == Skip(s[p..])
    {
      assert s[q..][1..] == s[q + 1..];
      q := q + 1;
    }
  }

  method DigitsAt(s: string, p: nat, start: int) returns (n: int, q: nat)
    requires p <= |s|
    ensures p <= q <= |s| && Digits(start, s[p..]) == (n, s[q..])
  {
    n, q := start, p;
    while q < |s| && IsDigit(s[q])
      invariant p <= q <= |s| && Digits(n, s[q..]) == Digits(start, s[p..])
    {
      assert s[q..][1..] == s[q + 1..];
      n, q := n * 10 + DigitValue(s[q]), q + 1;
    }
  }

  method ParseNumberAt(s: string, p: nat) returns (n: Number, q: nat)
    requires p <= |s|
    ensures p <= q <= |s| && ParseNumber(s[p..]) == (n, s[q..])
  {
    hide Whole, Fraction, Exponent;
    var sign := 1;
    q := p;
    if q < |s| && s[q] == '-' { sign, q := -1, q + 1; }
    assert Sign(s[p..]) == (sign, s[q..]);
    var m, scale, x: int;
    m, q := WholeAt(s, q);
    m, scale, q := FractionAt(s, q, m);
    x, q := ExponentAt(s, q);
    n := Number(sign * m, scale + x);
  }

  method WholeAt(s: string, p: nat) returns (n: int, q: nat)
    requires p <= |s|
    ensures p <= q <= |s| && Whole(s[p..]) == (n, s[q..])
  {
    hide Digits;
    n, q := 0, p;
    if q < |s| && s[q] == '0' {
      assert s[q..][1..] == s[q + 1..];
      q := q + 1;
    }
    if q < |s| && '1' <= s[q] <= '9' { n, q := DigitsAt(s, q, 0); }
  }

  method FractionAt(s: string, p: nat, start: int) returns (n: int, scale: int, q: nat)
    requires p <= |s|
    ensures p <= q <= |s| && Fraction(start, s[p..]) == (n, s[q..])
    ensures scale == 0 - Places(s[p..], s[q..])
  {
    hide Digits;
    n, scale, q := start, 0, p;
    if p < |s| { assert s[p..][1..] == s[p + 1..]; }
    if q + 1 < |s| && s[q] == '.' && IsDigit(s[q + 1]) {
      n, q := DigitsAt(s, p + 1, n);
      scale := p + 1 - q;
    }
  }

  method ExponentAt(s: string, p: nat) returns (x: int, q: nat)
    requires p <= |s|
    ensures p <= q <= |s| && Exponent(s[p..]) == (x, s[q..])
  {
    hide Digits;
    x, q := 0, p;
    if q < |s| && (s[q] == 'e' || s[q] == 'E') {
      q := q + 1;
      assert s[p..][1..] == s[q..];
      if q < |s| && s[q] == '+' {
        assert s[p..][2..] == s[q + 1..];
        x, q := DigitsAt(s, q + 1, 0);
      } else if q < |s| && s[q] == '-' {
        assert s[p..][2..] == s[q + 1..];
        x, q := DigitsAt(s, q + 1, 0);
        x := -x;
      } else {
        x, q := DigitsAt(s, q, 0);
      }
    }
  }

  method ParseValueAt(s: string, p: nat) returns (r: Step<Json>)
    requires p <= |s|
    ensures Agrees(s, r, ParseValue(s[p..]))
    decreases |s| - p, 1
  {
    hide ParseString, ParseNumber, ParseArray, ParseObject;
    ghost var t := s[p..];
    if StartsWith(s[p..], "null") {
      assert t[4..] == s[p + 4..];
      return Done(Null, p + 4);
    }
    if StartsWith(s[p..], "false") {
      assert t[5..] == s[p + 5..];
      return Done(Bool(false), p + 5);
    }
    if StartsWith(s[p..], "true") {
      assert t[4..] == s[p + 4..];
      return Done(Bool(true), p + 4);
    }
    if p == |s| { return Failed(p); }
    Dispatch(t);
    if s[p] == '\"' {
      hide ParseValue;
      var text := ParseStringAt(s, p);
      match text
      case Done(v, q) => return Done(Str(v), q);
      case Failed(at) => return Failed(at);
      case RanOff => return RanOff;
    }
    if s[p] == '-' || IsDigit(s[p]) {
      hide ParseValue;
      var n, q := ParseNumberAt(s, p);
      return Done(Num(n), q);
    }
    if s[p] == '[' {
      hide ParseValue;
      r := ParseArrayAt(s, p);
      return;
    }
    if s[p] == '{' {
      hide ParseValue;
      r := ParseObjectAt(s, p);
      return;
    }
    return Failed(p);
  }

  lemma ArrayStep(items: seq<Json>, s: string, p: nat, item: Json, q: nat)
    requires p <= |s| && q <= |s| && ParseValue(s[p..]) == Ok(item, s[q..])
    ensures p < q && NextItem(items, s[p..]) == ArrayTail(items + [item], Skip(s[q..]))
  {
    hide ParseValue;
  }

  lemma ArrayComma(items: seq<Json>, s: string, p: nat)
    requires p < |s|
    ensures s[p] == ',' ==> ArrayTail(items, s[p..]) == NextItem(items, Skip(s[p + 1..]))
    ensures s[p] == ']' ==> ArrayTail(items, s[p..]) == Ok(Arr(items), s[p + 1..])
    ensures s[p] != ',' && s[p] != ']' ==> ArrayTail(items, s[p..]) == Err(s[p..])
  {
    hide NextItem, Skip;
    assert s[p..][1..] == s[p + 1..];
  }

  /** A failed value makes the array or object around it fail in the same way. */
  function Propagate<T, U>(step: Step<T>): Step<U>
    requires !step.Done?
  {
    if step.Failed? then Failed(step.at) else RanOff
  }

  lemma ItemFailed(items: seq<Json>, s: string, p: nat, step: Step<Json>)
    requires p <= |s| && !step.Done? && Agrees(s, step, ParseValue(s[p..]))
    ensures Agrees<Json>(s, Propagate(step), NextItem(items, s[p..]))
  {
    hide ParseValue;
  }

  method ParseArrayAt(s: string, p: nat) returns (r: Step<Json>)
    requires p < |s| && s[p] == '['
    ensures Agrees(s, r, ParseArray(s[p..]))
    decreases |s| - p, 0
  {
    hide ParseValue, NextItem, ArrayTail, Skip;
    assert s[p..][1..] == s[p + 1..];
    var q := SkipAt(s, p + 1);
    if q < |s| && s[q] == ']' {
      assert s[q..][1..] == s[q + 1..];
      return Done(Arr([]), q + 1);
    }
    var child := ParseValueAt(s, q);
    if !child.Done? {
      ItemFailed([], s, q, child);
      return Propagate(child);
    }
    ArrayStep([], s, q, child.value, child.next);
    var items := [child.value];
    assert [] + items == items;
    q := SkipAt(s, child.next);
    while q < |s| && s[q] == ','
      invariant p < q <= |s|
      invariant ParseArray(s[p..]) == ArrayTail(items, s[q..])
      decreases |s| - q
    {
      ArrayComma(items, s, q);
      q := SkipAt(s, q + 1);
      child := ParseValueAt(s, q);
      if !child.Done? {
        ItemFailed(items, s, q, child);
        return Propagate(child);
      }
      ArrayStep(items, s, q, child.value, child.next);
      items := items + [child.value];
      q := SkipAt(s, child.next);
    }
    if q < |s| {
      ArrayComma(items, s, q);
      if s[q] == ']' { return Done(Arr(items), q + 1); }
    } else {
      ArrayEnd(items);
      assert s[q..] == [];
    }
    return Failed(q);
  }

  lemma ArrayEnd(items: seq<Json>)
    ensures ArrayTail(items, []) == Err([])
  {
  }

  lemma MemberStep(members: seq<Member>, s: string, p: nat, member: Member, q: nat)
    requires p <= |s| && q <= |s| && ParseMember(s[p..]) == Ok(member, s[q..])
    ensures p < q && NextMember(members, s[p..]) == ObjectTail(members + [member], Skip(s[q..]))
  {
    hide ParseMember;
  }

  lemma MemberFailed(members: seq<Member>, s: string, p: nat, step: Step<Member>)
    requires p <= |s| && !step.Done? && Agrees(s, step, ParseMember(s[p..]))
    ensures Agrees<Json>(s, Propagate(step), NextMember(members, s[p..]))
  {
    hide ParseMember;
  }

  lemma ObjectComma(members: seq<Member>, s: string, p: nat)
    requires p < |s|
    ensures s[p] == ',' ==> ObjectTail(members, s[p..]) == NextMember(members, Skip(s[p + 1..]))
    ensures s[p] == '}' ==> ObjectTail(members, s[p..]) == Ok(Obj(members), s[p + 1..])
    ensures s[p] != ',' && s[p] != '}' ==> ObjectTail(members, s[p..]) == Err(s[p..])
  {
    hide NextMember, Skip;
    assert s[p..][1..] == s[p + 1..];
  }

  lemma ObjectEnd(members: seq<Member>)
    ensures ObjectTail(members, []) == Err([])
  {
  }

  /** One name, colon and value. */
  method ParseMemberAt(s: string, p: nat) returns (r: Step<Member>)
    requires p <= |s|
    ensures Agrees(s, r, ParseMember(s[p..]))
    decreases |s| - p, 2
  {
    hide ParseString, ParseValue, Skip;
    var name := ParseStringAt(s, p);
    if !name.Done? { return Propagate(name); }
    var q := SkipAt(s, name.next);
    if q == |s| || s[q] != ':' { return Failed(q); }
    assert s[q..][1..] == s[q + 1..];
    q := SkipAt(s, q + 1);
    var value := ParseValueAt(s, q);
    if !value.Done? { return Propagate(value); }
    return Done(Member(name.value, value.value), value.next);
  }

  method ParseObjectAt(s: string, p: nat) returns (r: Step<Json>)
    requires p < |s| && s[p] == '{'
    ensures Agrees(s, r, ParseObject(s[p..]))
    decreases |s| - p, 0
  {
    hide ParseMember, NextMember, ObjectTail, Skip;
    assert s[p..][1..] == s[p + 1..];
    var q := SkipAt(s, p + 1);
    if q < |s| && s[q] == '}' {
      assert s[q..][1..] == s[q + 1..];
      return Done(Obj([]), q + 1);
    }
    var child := ParseMemberAt(s, q);
    if !child.Done? {
      MemberFailed([], s, q, child);
      return Propagate(child);
    }
    MemberStep([], s, q, child.value, child.next);
    var members := [child.value];
    assert [] + members == members;
    q := SkipAt(s, child.next);
    while q < |s| && s[q] == ','
      invariant p < q <= |s|
      invariant ParseObject(s[p..]) == ObjectTail(members, s[q..])
      decreases |s| - q
    {
      ObjectComma(members, s, q);
      q := SkipAt(s, q + 1);
      child := ParseMemberAt(s, q);
      if !child.Done? {
        MemberFailed(members, s, q, child);
        return Propagate(child);
      }
      MemberStep(members, s, q, child.value, child.next);
      members := members + [child.value];
      q := SkipAt(s, child.next);
    }
    if q < |s| {
      ObjectComma(members, s, q);
      if s[q] == '}' { return Done(Obj(members), q + 1); }
    } else {
      ObjectEnd(members);
      assert s[q..] == [];
    }
    return Failed(q);
  }

  /** `cJSON_ParseWithOpts`. */
  method ParseWithOpts(text: string, whole: bool) returns (r: Step<Json>)
    ensures Agrees(text, r, Parse(text, whole))
  {
    hide ParseValue, Skip;
    assert text[0..] == text;
    var p := SkipAt(text, 0);
    r := ParseValueAt(text, p);
    if r.Done? && whole {
      var q := SkipAt(text, r.next);
      if q < |text| { return Failed(q); }
      assert text[q..] == [];
      return Done(r.value, q);
    }
  }
}
