/**
  The text that the JSON printer gives a tree. Both printing strategies of the C code, the
  joining one and the buffered one, are proved to produce exactly this text.
*/
module JsonPrint {
  import opened CText
  import opened JsonText

  /**
    How to print: with line breaks and tabs or without, and the text `print_number` gives to
    a number that is not a 32-bit integer (floating-point formatting is a parameter here).
  */
  datatype Format = Format(pretty: bool, floatText: Number -> string)

  // ----- numbers -----

  const INT_MIN: int := -0x8000_0000
  const INT_MAX: int := 0x7FFF_FFFF

  function PowerOfTen(k: nat): (p: nat)
    ensures p > 0
  {
    if k == 0 then 1 else 10 * PowerOfTen(k - 1)
  }

  /** The integer that a number is, if it is one. */
  function IntValue(n: Number): Option<int> {
    if n.exponent >= 0 then Some(n.mantissa * PowerOfTen(n.exponent))
    else if n.mantissa % PowerOfTen(-n.exponent) == 0 then Some(n.mantissa / PowerOfTen(-n.exponent))
    else None
  }

  predicate IsInt32(n: Number) { IntValue(n).Some? && INT_MIN <= IntValue(n).value <= INT_MAX }

  function DigitChar(d: nat): (c: char)
    requires d < 10
    ensures IsDigit(c) && DigitValue(c) == d
  {
    ('0' as int + d) as char
  }

  function NatText(n: nat): (s: string)
    ensures s != []
    ensures forall i | 0 <= i < |s| :: IsDigit(s[i])
    ensures s[0] == '0' ==> n == 0
  {
    if n < 10 then [DigitChar(n)] else NatText(n / 10) + [DigitChar(n % 10)]
  }

  function IntText(n: int): (s: string)
    ensures s != []
    ensures s[0] == '-' || IsDigit(s[0])
    ensures forall i | 1 <= i < |s| :: IsDigit(s[i])
  {
    if n < 0 then "-" + NatText(-n) else NatText(n)
  }

  function NumberText(n: Number, f: Format): string {
    if n.mantissa == 0 then "0"
    else if IsInt32(n) then IntText(IntValue(n).value)
    else f.floatText(n)
  }

  // ----- strings -----

  function HexDigit(d: nat): (c: char)
    requires d < 16
    ensures HexValue(c) == d && c > ' ' && c != '\"' && c != '\\'
  {
    if d < 10 then ('0' as int + d) as char else ('a' as int + (d - 10)) as char
  }

  /** A character as it stands inside a printed literal. */
  function EscapeChar(c: char): (s: string)
    ensures 1 <= |s| <= 6
    ensures forall i | 0 <= i < |s| :: s[i] >= ' '
    ensures |s| == 1 ==> s == [c] && c != '\"' && c != '\\'
    ensures |s| > 1 ==> s[0] == '\\'
    ensures forall i | 2 <= i < |s| :: s[i] != '\"' && s[i] != '\\'
  {
    if c == '\"' then "\\\""
    else if c == '\\' then "\\\\"
    else if c == '\U{0008}' then "\\b"
    else if c == '\U{000C}' then "\\f"
    else if c == '\n' then "\\n"
    else if c == '\r' then "\\r"
    else if c == '\t' then "\\t"
    else if c < ' ' then ['\\', 'u', '0', '0', HexDigit(c as int / 16), HexDigit(c as int % 16)]
    else [c]
  }

  function Escape(s: string): (r: string)
    ensures |s| <= |r| <= 6 * |s|
    ensures forall i | 0 <= i < |r| :: r[i] >= ' '
  {
    if s == [] then [] else EscapeChar(s[0]) + Escape(s[1..])
  }

  function StringText(s: string): string { "\"" + Escape(s) + "\"" }

  // ----- values -----

  function Tabs(n: nat, f: Format): string {
    if f.pretty then Repeat('\t', n) else []
  }

  function NewLine(f: Format): string { if f.pretty then "\n" else "" }

  function Comma(f: Format): string { if f.pretty then ", " else "," }

  function Colon(f: Format): string { if f.pretty then ":\t" else ":" }

  function Text(t: Json, depth: nat, f: Format): string
    decreases t, 1
  {
    match t
    case Null => "null"
    case Bool(b) => if b then "true" else "false"
    case Num(n) => NumberText(n, f)
    case Str(s) => StringText(s)
    case Arr(items) =>
      if items == [] then "[]" else "[" + ItemsText(items, depth + 1, f) + "]"
    case Obj(members) =>
      "{" + NewLine(f) + MembersText(members, depth + 1, f) + Tabs(depth, f) + "}"
  }

  function ItemsText(items: seq<Json>, depth: nat, f: Format): string
    decreases items, 0
  {
    if items == [] then []
    else if |items| == 1 then Text(items[0], depth, f)
    else Text(items[0], depth, f) + Comma(f) + ItemsText(items[1..], depth, f)
  }

  function MemberText(m: Member, depth: nat, f: Format): string
    decreases m, 2
  {
    Tabs(depth, f) + StringText(m.name) + Colon(f) + Text(m.value, depth, f)
  }

  function MembersText(members: seq<Member>, depth: nat, f: Format): string
    decreases members, 0
  {
    if members == [] then []
    else
      MemberText(members[0], depth, f)
      + (if |members| == 1 then "" else ",") + NewLine(f)
      + MembersText(members[1..], depth, f)
  }

  // ----- what a tree must satisfy -----

  /** Every string in the tree is a C string and every number satisfies `p`. */
  ghost predicate Sound(t: Json, p: Number -> bool) {
    match t
    case Null => true
    case Bool(_) => true
    case Num(n) => p(n)
    case Str(s) => NulFree(s)
    case Arr(items) => forall x | x in items :: Sound(x, p)
    case Obj(members) => forall m | m in members :: NulFree(m.name) && Sound(m.value, p)
  }
}
