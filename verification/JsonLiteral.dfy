/** `parse_string` as the C code runs it: a scan for the end, then decoding into a counted buffer. */
module JsonLiteral {
  import opened CText
  import opened JsonText

  /** Outcome of a parsing method, with positions into the text in place of suffixes. */
  datatype Step<+T> = Done(value: T, next: nat) | Failed(at: nat) | RanOff

  /** A method's outcome in the text `s` is the one the grammar gives. */
  ghost predicate Agrees<T>(s: string, step: Step<T>, parsed: Parsed<T>) {
    match step
    case Done(v, q) => q <= |s| && parsed == Ok(v, s[q..])
    case Failed(at) => at <= |s| && parsed == Err(s[at..])
    case RanOff => parsed == Overrun
  }

  // ----- the counted length -----

  /** Characters counted by the scan: an escape counts once. */
  function Count(body: string): (n: nat) {
    if body == [] then 0
    else if body[0] == '\\' && |body| >= 2 then 1 + Count(body[2..])
    else 1 + Count(body[1..])
  }

  /** Every backslash has the character it escapes. */
  predicate Paired(body: string) {
    body == [] ||
    (if body[0] != '\\' then Paired(body[1..]) else |body| >= 2 && Paired(body[2..]))
  }

  lemma {:induction false} ScannedIsPaired(s: string)
    requires ScanBody(s).Some?
    ensures Paired(s[..ScanBody(s).value])
    decreases |s|
  {
    var n := ScanBody(s).value;
    if s == [] || s[0] == '\"' {
    } else if s[0] != '\\' {
      ScannedIsPaired(s[1..]);
      assert s[..n][1..] == s[1..][..n - 1];
    } else {
      ScannedIsPaired(s[2..]);
      assert s[..n][2..] == s[2..][..n - 2];
    }
  }

  lemma {:induction false} PlainTail(p: string, s: string)
    requires forall i | 0 <= i < |p| :: p[i] != '\\'
    ensures Paired(p + s) <==> Paired(s)
    ensures Count(p + s) == |p| + Count(s)
    decreases |p|
  {
    if p == [] {
      assert p + s == s;
    } else {
      DropFirst(p, s);
      PlainTail(p[1..], s);
    }
  }

  lemma HexIsPlain(s: string)
    requires Hex4(s) != 0
    ensures |s| >= 4 && forall i | 0 <= i < 4 :: s[i] != '\\'
  {
  }

  lemma OneEscape(body: string)
    requires |body| >= 6 && body[0] == '\\' && Paired(body) && Hex4(body[2..]) != 0
    ensures Paired(body[6..]) && Count(body) == 5 + Count(body[6..])
  {
    HexIsPlain(body[2..]);
    var h := body[2..][..4];
    assert body[2..] == h + body[6..];
    PlainTail(h, body[6..]);
  }

  /** A decoded escape leaves the rest paired and takes no more room than was counted for it. */
  lemma EscapeFits(body: string)
    requires |body| >= 2 && body[0] == '\\' && body[1] == 'u' && Paired(body)
    ensures UnicodeEscape(body).Some? ==>
              var (cp, rest) := UnicodeEscape(body).value;
              Paired(rest) && |Utf8(cp)| + Count(rest) <= Count(body)
  {
    hide Paired, Count, Utf8, Hex4;
    if UnicodeEscape(body).Some? {
      OneEscape(body);
      if IsHighSurrogate(Hex4(body[2..])) {
        OneEscape(body[6..]) by { assert body[6..][2..] == body[8..]; }
        assert body[6..][6..] == body[12..];
      }
    }
  }

  // ----- the methods -----

  /** Stores a code point from its last byte to its first, six bits at a time. */
  method StoreUtf8(out: array<char>, at: nat, cp: nat) returns (len: nat)
    requires IsScalar(cp) && at + |Utf8(cp)| <= out.Length
    modifies out
    ensures len == |Utf8(cp)|
    ensures out[..] == old(out[..at]) + Utf8(cp) + old(out[at + len..])
  {
    len := if cp < 0x80 then 1 else if cp < 0x800 then 2 else if cp < 0x10000 then 3 else 4;
    var mark := if len == 1 then 0 else if len == 2 then 0xC0 else if len == 3 then 0xE0 else 0xF0;
    var uc := cp;
    if len >= 4 { out[at + 3] := Trail(uc); uc := uc / 0x40; }
    if len >= 3 { out[at + 2] := Trail(uc); uc := uc / 0x40; }
    if len >= 2 { out[at + 1] := Trail(uc); uc := uc / 0x40; }
    out[at] := (mark + uc) as char;
    Sixes(cp);
    assert out[at..at + len] == Utf8(cp);
    assert out[..at] == old(out[..at]);
    assert out[at + len..] == old(out[at + len..]);
    assert out[..] == out[..at] + out[at..at + len] + out[at + len..];
  }

  lemma Sixes(cp: nat)
    ensures cp / 0x40 / 0x40 == cp / 0x1000
    ensures cp / 0x40 / 0x40 / 0x40 == cp / 0x40000
  {
  }

  /** How a scan at a suffix relates to the scan from further left. */
  ghost predicate ScanFrom(s: string, from: nat, at: nat)
    requires from <= at <= |s|
  {
    ScanBody(s[from..]) ==
    if ScanBody(s[at..]).Some? then Some(at - from + ScanBody(s[at..]).value) else None
  }

  lemma ScanAdvance(s: string, from: nat, at: nat)
    requires from <= at < |s| && ScanFrom(s, from, at) && s[at] != '\"'
    ensures s[at] != '\\' ==> ScanFrom(s, from, at + 1)
    ensures s[at] == '\\' && at + 1 < |s| ==> ScanFrom(s, from, at + 2)
    ensures s[at] == '\\' && at + 1 == |s| ==> ScanBody(s[from..]).None?
  {
    var t := s[at..];
    assert t[1..] == s[at + 1..];
    if at + 1 < |s| { assert t[2..] == s[at + 2..]; }
  }

  /** Finds the end of the literal's body and counts its characters. */
  method ScanEnd(s: string, from: nat) returns (end: nat, len: nat, off: bool)
    requires from <= |s|
    ensures off <==> ScanBody(s[from..]).None?
    ensures !off ==> from <= end <= |s| && ScanBody(s[from..]) == Some(end - from)
    ensures !off ==> len == Count(s[from..end])
  {
    end, len, off := from, 0, false;
    ghost var n := ScanBody(s[from..]);
    assert s[from..] == s[from..][0..];
    while end < |s| && s[end] != '\"'
      invariant from <= end <= |s|
      invariant ScanFrom(s, from, end)
      invariant n.Some? ==> len + Count(s[end..from + n.value]) == Count(s[from..from + n.value])
      decreases |s| - end
    {
      hide ScanBody, Count;
      ScanAdvance(s, from, end);
      len := len + 1;
      if n.Some? { CountAdvance(s, end, from + n.value); }
      if s[end] == '\\' {
        if end + 1 == |s| { off := true; return; }
        end := end + 2;
      } else {
        end := end + 1;
      }
    }
    assert ScanBody(s[end..]) == Some(0);
  }

  lemma CountAdvance(s: string, at: nat, end: nat)
    requires at < end <= |s|
    ensures s[at] != '\\' ==> Count(s[at..end]) == 1 + Count(s[at + 1..end])
    ensures s[at] == '\\' && at + 2 <= end ==> Count(s[at..end]) == 1 + Count(s[at + 2..end])
  {
    var b := s[at..end];
    assert b[1..] == s[at + 1..end];
    if at + 2 <= end { assert b[2..] == s[at + 2..end]; }
  }

  lemma HexWithin(s: string, q: nat, end: nat)
    requires q + 4 <= end <= |s|
    ensures Hex4(s[q..]) == Hex4(s[q..end])
  {
    assert forall i | 0 <= i < 4 :: s[q..][i] == s[q..end][i];
  }

  /** Four digits cannot reach past the end of a literal. */
  lemma HexStops(s: string, q: nat, end: nat)
    requires q <= end < q + 4 && end <= |s| && (end < |s| ==> s[end] == '\"')
    ensures Hex4(s[q..]) == 0
  {
    if end < |s| { assert s[q..][end - q] == '\"'; }
  }

  /** Transcodes the `\u` escape at `e`; `next` is the position behind it. */
  method UnicodeAt(s: string, e: nat, end: nat) returns (ok: bool, cp: nat, next: nat)
    requires e + 2 <= end <= |s| && s[e] == '\\' && s[e + 1] == 'u'
    requires end < |s| ==> s[end] == '\"'
    ensures ok ==> next <= end && UnicodeEscape(s[e..end]) == Some((cp, s[next..end]))
    ensures !ok ==> UnicodeEscape(s[e..end]).None?
  {
    hide Hex4;
    ghost var body := s[e..end];
    var uc, ptr := Hex4(s[e + 2..]), e + 5;
    cp, next := 0, e;
    if ptr >= end { return false, 0, e; }
    HexWithin(s, e + 2, end);
    assert body[2..] == s[e + 2..end];
    if IsLowSurrogate(uc) || uc == 0 { return false, 0, e; }
    assert body[6..] == s[e + 6..end];
    if IsHighSurrogate(uc) {
      if ptr + 6 > end { return false, 0, e; }
      assert body[6] == s[ptr + 1] && body[7] == s[ptr + 2];
      if s[ptr + 1] != '\\' || s[ptr + 2] != 'u' { return false, 0, e; }
      var uc2 := Hex4(s[ptr + 3..]);
      if ptr + 6 == end {
        HexStops(s, ptr + 3, end);
      } else {
        HexWithin(s, ptr + 3, end);
        assert body[8..] == s[ptr + 3..end];
        assert body[12..] == s[ptr + 7..end];
      }
      if !IsLowSurrogate(uc2) { return false, 0, e; }
      return true, PairValue(uc, uc2), ptr + 7;
    }
    return true, uc, ptr + 1;
  }

  lemma DecodeChar(done: string, c: char, body: string, rest: string)
    requires Decode(body) == Prepend([c], Decode(rest))
    ensures Prepend(done, Decode(body)) == Prepend(done + [c], Decode(rest))
  {
    hide Decode;
    if Decode(rest).Some? { Assoc3(done, [c], Decode(rest).value); }
  }

  lemma PlainAdvance(s: string, at: nat, end: nat)
    requires at < end <= |s| && s[at] != '\\'
    ensures Decode(s[at..end]) == Prepend([s[at]], Decode(s[at + 1..end]))
    ensures Paired(s[at..end]) <==> Paired(s[at + 1..end])
  {
    assert s[at..end][1..] == s[at + 1..end];
  }

  lemma EscapeAdvance(s: string, at: nat, end: nat)
    requires at < end <= |s| && s[at] == '\\' && Paired(s[at..end])
    ensures at + 2 <= end && Paired(s[at + 2..end])
    ensures s[at + 1] != 'u' ==>
              Decode(s[at..end]) == Prepend([Unescape(s[at + 1])], Decode(s[at + 2..end]))
  {
    assert s[at..end][2..] == s[at + 2..end];
  }

  lemma UnicodeAdvance(done: string, body: string, cp: nat, rest: string)
    requires |body| >= 2 && body[0] == '\\' && body[1] == 'u' && UnicodeEscape(body) == Some((cp, rest))
    ensures Prepend(done, Decode(body)) == Prepend(done + Utf8(cp), Decode(rest))
  {
    assert Decode(body) == Prepend(Utf8(cp), Decode(rest));
    hide Decode, Utf8;
    if Decode(rest).Some? { Assoc3(done, Utf8(cp), Decode(rest).value); }
  }

  /** Decodes the body into a buffer of the counted length plus the terminator. */
  method DecodeInto(s: string, from: nat, end: nat, out: array<char>) returns (ok: bool, k: nat)
    requires from <= end <= |s| && (end < |s| ==> s[end] == '\"')
    requires Paired(s[from..end]) && Count(s[from..end]) < out.Length
    modifies out
    ensures ok <==> Decode(s[from..end]).Some?
    ensures ok ==> k < out.Length && out[..k] == Decode(s[from..end]).value && out[k] == '\0'
  {
    hide Decode, Count, Paired, Utf8;
    var ptr := from;
    k := 0;
    PrependNothing(Decode(s[from..end]));
    assert out[..0] == "";
    while ptr < end
      invariant from <= ptr <= end
      invariant k + Count(s[ptr..end]) < out.Length && Paired(s[ptr..end])
      invariant Decode(s[from..end]) == Prepend(out[..k], Decode(s[ptr..end]))
      decreases end - ptr
    {
      ghost var done, body := out[..k], s[ptr..end];
      if s[ptr] != '\\' {
        PlainAdvance(s, ptr, end);
        CountAdvance(s, ptr, end);
        DecodeChar(done, s[ptr], body, s[ptr + 1..end]);
        out[k] := s[ptr];
        k, ptr := k + 1, ptr + 1;
        assert out[..k] == done + [out[k - 1]];
      } else {
        EscapeAdvance(s, ptr, end);
        CountAdvance(s, ptr, end);
        if s[ptr + 1] != 'u' {
          DecodeChar(done, Unescape(s[ptr + 1]), body, s[ptr + 2..end]);
          out[k] := Unescape(s[ptr + 1]);
          k, ptr := k + 1, ptr + 2;
          assert out[..k] == done + [out[k - 1]];
        } else {
          var fine, cp, next := UnicodeAt(s, ptr, end);
          if !fine {
            Refused(body);
            return false, k;
          }
          EscapeFits(body);
          UnicodeAdvance(done, body, cp, s[next..end]);
          var len := StoreUtf8(out, k, cp);
          assert out[..k + len] == done + Utf8(cp);
          k, ptr := k + len, next;
        }
      }
    }
    assert s[ptr..end] == [];
    AllDecoded(out[..k]);
    ok := true;
    out[k] := '\0';
  }

  lemma AllDecoded(done: string)
    ensures Prepend(done, Decode([])) == Some(done)
  {
    assert done + [] == done;
  }

  lemma Refused(body: string)
    requires |body| >= 2 && body[0] == '\\' && body[1] == 'u' && UnicodeEscape(body).None?
    ensures Decode(body).None?
  {
  }

  /** `parse_string`: the text it returns, where it stops, and how it fails. */
  method ParseStringAt(s: string, p: nat) returns (r: Step<string>)
    requires p <= |s|
    ensures Agrees(s, r, ParseString(s[p..]))
  {
    hide Decode, ScanBody, Paired, Count;
    if p == |s| || s[p] != '\"' { return Failed(p); }
    var end, len, off := ScanEnd(s, p + 1);
    assert s[p..][1..] == s[p + 1..];
    if off { return RanOff; }
    var out := new char[len + 1];
    ghost var n := end - (p + 1);
    assert s[p + 1..][..n] == s[p + 1..end];
    assert s[p + 1..][n..] == s[end..];
    ScannedIsPaired(s[p + 1..]);
    ScanStops(s[p + 1..]);
    var ok, k := DecodeInto(s, p + 1, end, out);
    if !ok { return Failed(p); }
    if end < |s| && s[end] == '\"' {
      r := Done(out[..k], end + 1);
      assert s[end..][1..] == s[end + 1..];
    } else {
      r := Done(out[..k], end);
    }
  }

  lemma {:induction false} ScanStops(s: string)
    requires ScanBody(s).Some?
    ensures ScanBody(s).value < |s| ==> s[ScanBody(s).value] == '\"'
    decreases |s|
  {
    if s != [] && s[0] != '\"' {
      if s[0] != '\\' { ScanStops(s[1..]); } else { ScanStops(s[2..]); }
    }
  }
}
